// What the splitter and the printer do with every kind of text, character by
// character and statement by statement.
module SqlLaws {
  import opened SqlText
  import opened Text
  import opened Wrappers

  // ---------------------------------------------------------------------
  // The splitter

  // A separator ends a statement, and so does the end of the text, in any mode;
  // a statement of white space is none.
  lemma SeparatorEnds(b: string, rest: string, mode: Mode, out: seq<string>)
    ensures var after := if Trim(b) == "" then out else out + [Trim(b)];
      Scan(";" + rest, Plain, b, out) == Scan(rest, Plain, "", after) && Scan("", mode, b, out) == after
  {
    assert (";" + rest)[1..] == rest;
  }

  // Outside quotes any other character goes into the statement, but for quotes
  // and openers of comments; two dashes before something visible open none.
  lemma OrdinaryIsKept(c: char, rest: string, b: string, out: seq<string>)
    requires c !in {';', '#', '\'', '"', '`'}
    requires !(c == '-' && |rest| > 0 && rest[0] == '-' && (|rest| == 1 || rest[1] in {' ', '\t', '\r', '\n'}))
    requires !(c == '/' && |rest| > 0 && rest[0] == '*')
    ensures Scan([c] + rest, Plain, b, out) == Scan(rest, Plain, b + [c], out)
  {
    var t := [c] + rest;
    assert t[1..] == rest && t[..1] == [c];
    assert |rest| > 1 ==> t[2] == rest[1];
    assert |rest| > 0 ==> t[..2] == [c, rest[0]];
  }

  // A quote opens a text that runs to the same quote; what is in it, a separator
  // or a comment even, goes into the statement with both quotes.
  lemma QuotedIsKept(q: char, c: string, rest: string, b: string, out: seq<string>)
    requires q in {'\'', '"', '`'} && q !in c && '\\' !in c && (|rest| > 0 ==> rest[0] != q)
    ensures Scan([q] + c + ([q] + rest), Plain, b, out) == Scan(rest, Plain, b + [q] + c + [q], out)
  {
    var t := [q] + c + ([q] + rest);
    assert t[1..] == c + ([q] + rest) && t[..1] == [q];
    QuotedRuns(q, c, rest, b + [q], out);
  }

  lemma {:induction false} QuotedRuns(q: char, c: string, rest: string, b: string, out: seq<string>)
    requires q in {'\'', '"', '`'} && q !in c && '\\' !in c && (|rest| > 0 ==> rest[0] != q)
    ensures Scan(c + ([q] + rest), Quoted(q), b, out) == Scan(rest, Plain, b + c + [q], out)
    decreases |c|
  {
    var u := c + ([q] + rest);
    if |c| == 0 {
      assert u[0] == q && u[1..] == rest && u[..1] == [q] && b + c + [q] == b + [q];
      assert |rest| > 0 ==> u[1] == rest[0];
    } else {
      assert u[0] == c[0] && u[1..] == c[1..] + ([q] + rest) && u[..1] == c[..1];
      assert b + c + [q] == b + c[..1] + c[1..] + [q];
      QuotedRuns(q, c[1..], rest, b + c[..1], out);
    }
  }

  // Inside quotes a backslash keeps the next character from ending the text,
  // and so does the doubled quote itself.
  lemma EscapeIsKept(q: char, c: char, rest: string, b: string, out: seq<string>)
    requires q in {'\'', '"', '`'}
    ensures Scan(['\\', c] + rest, Quoted(q), b, out) == Scan(rest, Quoted(q), b + ['\\', c], out)
    ensures Scan([q, q] + rest, Quoted(q), b, out) == Scan(rest, Quoted(q), b + [q, q], out)
  {
    var t, u := ['\\', c] + rest, [q, q] + rest;
    assert t[2..] == rest && t[..2] == ['\\', c];
    assert u[2..] == rest && u[..2] == [q, q];
  }

  // ---------------------------------------------------------------------
  // The printer

  lemma LinesInOrder(part: string, more: seq<string>)
    ensures Lines([]) == ""
    ensures Lines([part] + more) == (if Trim(part) == "" then "" else Trim(part) + ";\n") + Lines(more)
  {
    assert ([part] + more)[1..] == more;
  }

  // A statement outside routines gives its parts, and one that cannot be
  // converted gives up the script.
  lemma ConvertedInOrder(d: Dialect, statement: string, more: seq<string>)
    requires !d.beginsRoutine(statement)
    ensures Converted(d, [], false) == Converted(d, [], true) == Some([])
    ensures var c, rest := d.convert(statement), Converted(d, more, false);
      Converted(d, [statement] + more, false)
      == if c.Some? && rest.Some? then Some(c.value + rest.value) else None
  {
    assert ([statement] + more)[1..] == more;
  }

  // The word END in any case, alone or before a blank.
  lemma RoutineEndExactly(statement: string)
    ensures var s := Trim(statement);
      RoutineEnd(statement) <==>
        |s| >= 3 && s[0] in {'E', 'e'} && s[1] in {'N', 'n'} && s[2] in {'D', 'd'} && (|s| == 3 || s[3] == ' ')
  {
    hide Trim;
    var s := Trim(statement);
    var u := Upper(s);
    TrimFacts(statement);
    TrimFacts(u);
    assert u == "END" <==> |u| == 3 && u[0] == 'E' && u[1] == 'N' && u[2] == 'D';
    assert "END " <= u <==> |u| >= 4 && u[0] == 'E' && u[1] == 'N' && u[2] == 'D' && u[3] == ' ';
  }
}
