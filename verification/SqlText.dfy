// Splitting SQL scripts into statements and printing them back. Text is a
// sequence of bytes.
module SqlText {
  import opened Text
  import opened Wrappers

  // ---------------------------------------------------------------------
  // SplitSQL

  datatype Mode = Plain | Quoted(q: char) | LineComment | BlockComment

  predicate IsQuote(c: char) { c == '\'' || c == '"' || c == '`' }

  // What opens a line comment: #, or -- before white space or the end.
  predicate OpensLine(t: string) {
    |t| > 0 && (t[0] == '#' || (|t| > 1 && t[..2] == "--" && (|t| == 2 || t[2] in {' ', '\t', '\r', '\n'})))
  }

  predicate OpensBlock(t: string) { |t| > 1 && t[..2] == "/*" }

  function Flush(b: string, out: seq<string>): seq<string> {
    if Trim(b) != "" then out + [Trim(b)] else out
  }

  // The scanner on the rest of the text, with the statement read so far and
  // the statements before it.
  function Scan(t: string, mode: Mode, b: string, out: seq<string>): seq<string>
    decreases |t|
  {
    if |t| == 0 then Flush(b, out)
    else match mode
    case LineComment => Scan(t[1..], if t[0] == '\n' then Plain else LineComment, b, out)
    case BlockComment =>
      if |t| > 1 && t[..2] == "*/" then Scan(t[2..], Plain, b, out) else Scan(t[1..], BlockComment, b, out)
    case Quoted(q) =>
      if |t| > 1 && t[0] == '\\' then Scan(t[2..], mode, b + t[..2], out)
      else if t[0] == q then
        if |t| > 1 && t[1] == q then Scan(t[2..], mode, b + t[..2], out) else Scan(t[1..], Plain, b + t[..1], out)
      else Scan(t[1..], mode, b + t[..1], out)
    case Plain =>
      if IsQuote(t[0]) then Scan(t[1..], Quoted(t[0]), b + t[..1], out)
      else if OpensLine(t) then Scan(if t[0] == '-' then t[2..] else t[1..], LineComment, b, out)
      else if OpensBlock(t) then Scan(t[2..], BlockComment, b, out)
      else if t[0] == ';' then Scan(t[1..], Plain, "", Flush(b, out))
      else Scan(t[1..], Plain, b + t[..1], out)
  }

  function Split(text: string): seq<string> { Scan(text, Plain, "", []) }

  method SplitSQL(text: string) returns (statements: seq<string>)
    ensures statements == Split(text)
  {
    statements := [];
    var b: string := "";
    var quote: char := '\0';
    var lineComment, blockComment := false, false;
    ghost var mode := Plain;
    var i := 0;
    assert text[0..] == text;
    while i < |text|
      invariant 0 <= i <= |text|
      invariant lineComment <==> mode == LineComment
      invariant blockComment <==> mode == BlockComment
      invariant mode == if quote != '\0' then Quoted(quote) else mode
      invariant mode.Quoted? ==> quote == mode.q && quote != '\0'
      invariant Scan(text[i..], mode, b, statements) == Split(text)
    {
      ghost var t := text[i..];
      assert t[0] == text[i] && t[1..] == text[i + 1..] && t[..1] == [text[i]];
      if i + 1 < |text| {
        assert t[1] == text[i + 1] && t[2..] == text[i + 2..] && t[..2] == [text[i], text[i + 1]];
        assert b + t[..2] == b + [text[i]] + [text[i + 1]];
        assert i + 2 < |text| ==> t[2] == text[i + 2];
      }
      var ch := text[i];
      i := i + 1;
      if lineComment {
        if ch == '\n' {
          lineComment := false;
          mode := Plain;
        }
        continue;
      }
      if blockComment {
        if ch == '*' && i < |text| && text[i] == '/' {
          blockComment := false;
          mode := Plain;
          i := i + 1;
        }
        continue;
      }
      if quote != '\0' {
        b := b + [ch];
        if ch == '\\' && i < |text| {
          b := b + [text[i]];
          i := i + 1;
          continue;
        }
        if ch == quote {
          if i < |text| && text[i] == quote {
            b := b + [text[i]];
            i := i + 1;
            continue;
          }
          quote := '\0';
          mode := Plain;
        }
        continue;
      }
      if ch == '\'' || ch == '"' || ch == '`' {
        quote := ch;
        mode := Quoted(ch);
        b := b + [ch];
        continue;
      }
      if ch == '#' || (ch == '-' && i < |text| && text[i] == '-'
                       && (i + 1 == |text| || text[i + 1] in {' ', '\t', '\r', '\n'})) {
        lineComment := true;
        mode := LineComment;
        if ch == '-' {
          i := i + 1;
        }
        continue;
      }
      if ch == '/' && i < |text| && text[i] == '*' {
        blockComment := true;
        mode := BlockComment;
        i := i + 1;
        continue;
      }
      if ch == ';' {
        if Trim(b) != "" {
          statements := statements + [Trim(b)];
        }
        b := "";
        continue;
      }
      b := b + [ch];
    }
    if Trim(b) != "" {
      statements := statements + [Trim(b)];
    }
  }

  // ---------------------------------------------------------------------
  // Clean statements

  // Read from this mode and followed by ';', the text ends outside quotes and
  // meets no separator and no comment.
  predicate Quiet(t: string, mode: Mode)
    decreases |t|
  {
    match mode
    case LineComment => false
    case BlockComment => false
    case Plain =>
      |t| == 0 ||
      (if IsQuote(t[0]) then Quiet(t[1..], Quoted(t[0]))
       else t[0] != ';' && !OpensLine(t + ";") && !OpensBlock(t) && Quiet(t[1..], Plain))
    case Quoted(q) =>
      |t| != 0 &&
      (if |t| > 1 && (t[0] == '\\' || (t[0] == q && t[1] == q)) then Quiet(t[2..], mode)
       else if t[0] == q && t[0] != '\\' then Quiet(t[1..], Plain)
       else Quiet(t[1..], mode))
  }

  predicate Clean(s: string) {
    s != "" && Trimmed(s) && Quiet(s, Plain)
  }

  // A quiet text goes into the statement unchanged and ';' ends the statement.
  lemma {:induction false} QuietIsKept(t: string, rest: string, mode: Mode, b: string, out: seq<string>)
    requires Quiet(t, mode) && (mode.Quoted? ==> IsQuote(mode.q))
    ensures Scan(t + ";" + rest, mode, b, out) == Scan(rest, Plain, "", Flush(b + t, out))
    decreases |t|
  {
    var u := t + ";" + rest;
    if |t| == 0 {
      assert u[1..] == rest && b + t == b;
    } else {
      assert u[0] == t[0] && u[1..] == t[1..] + ";" + rest && u[..1] == t[..1];
      assert b + t == (b + t[..1]) + t[1..];
      if |t| > 1 {
        assert u[2..] == t[2..] + ";" + rest && u[..2] == t[..2];
        assert b + t == (b + t[..2]) + t[2..];
      } else {
        assert u[1] == ';';
      }
      match mode
      case Plain =>
        if IsQuote(t[0]) {
          QuietIsKept(t[1..], rest, Quoted(t[0]), b + t[..1], out);
        } else {
          QuietOpensNothing(t, rest);
          QuietIsKept(t[1..], rest, Plain, b + t[..1], out);
        }
      case Quoted(q) =>
        if |t| > 1 && (t[0] == '\\' || (t[0] == q && t[1] == q)) {
          QuietIsKept(t[2..], rest, mode, b + t[..2], out);
        } else if t[0] == q {
          QuietIsKept(t[1..], rest, Plain, b + t[..1], out);
        } else {
          QuietIsKept(t[1..], rest, mode, b + t[..1], out);
        }
    }
  }

  lemma QuietOpensNothing(t: string, rest: string)
    requires |t| > 0 && !OpensLine(t + ";") && !OpensBlock(t)
    ensures !OpensLine(t + ";" + rest) && !OpensBlock(t + ";" + rest)
  {
    var u, v := t + ";" + rest, t + ";";
    assert u[0] == v[0] && u[1] == v[1] && u[..2] == v[..2];
    if |t| > 1 {
      assert u[2] == v[2] && v[..2] == t[..2];
    }
  }

  // ---------------------------------------------------------------------
  // The printer of NormalizeSchemaScript

  const HEADER := "-- schema-only template\n"

  // What is printed for one converted statement, and for all of them.
  function Line(part: string): string { if Trim(part) != "" then Trim(part) + ";\n" else "" }

  function Lines(parts: seq<string>): string {
    if |parts| == 0 then "" else Line(parts[0]) + Lines(parts[1..])
  }

  // The statements that are printed at all.
  function Kept(parts: seq<string>): seq<string> {
    if |parts| == 0 then []
    else (if Trim(parts[0]) != "" then [Trim(parts[0])] else []) + Kept(parts[1..])
  }

  lemma {:induction false} LinesJoin(ss: seq<string>, j: nat)
    requires j <= |ss|
    ensures Lines(ss) == Lines(ss[..j]) + Lines(ss[j..])
  {
    hide Line;
    if j == 0 {
      assert ss[..0] == [] && ss[0..] == ss;
      assert Lines([]) == "" && "" + Lines(ss) == Lines(ss);
    } else {
      LinesJoin(ss[1..], j - 1);
      var front, rest := ss[1..][..j - 1], ss[1..][j - 1..];
      assert front == ss[..j][1..] && rest == ss[j..] && ss[..j][0] == ss[0];
      assert Lines(ss[..j]) == Line(ss[0]) + Lines(front);
      assert Line(ss[0]) + (Lines(front) + Lines(rest)) == Line(ss[0]) + Lines(front) + Lines(rest);
    }
  }

  // The loop over the parts of one statement.
  method PrintParts(before: string, parts: seq<string>) returns (text: string)
    ensures text == before + Lines(parts)
  {
    hide Trim, Lines;
    text := before;
    var i := 0;
    assert parts[0..] == parts;
    while i < |parts|
      invariant 0 <= i <= |parts|
      invariant text + Lines(parts[i..]) == before + Lines(parts)
    {
      LineGoesNext(text, parts, i);
      var part := Trim(parts[i]);
      if part != "" {
        ghost var t := text;
        text := text + part;
        text := text + ";\n";
        assert text == t + Line(parts[i]);
      } else {
        assert text == text + Line(parts[i]);
      }
      i := i + 1;
    }
    assert parts[i..] == [];
    NoLinesLeft(text);
  }

  lemma NoLinesLeft(text: string)
    ensures text + Lines([]) == text
  {
  }

  lemma LineGoesNext(text: string, parts: seq<string>, i: nat)
    requires i < |parts|
    ensures text + Line(parts[i]) + Lines(parts[i + 1..]) == text + Lines(parts[i..])
  {
    assert parts[i..][0] == parts[i] && parts[i..][1..] == parts[i + 1..];
  }

  // The capitals of ASCII letters.
  function Upper(s: string): string {
    seq(|s|, i requires 0 <= i < |s| => if 'a' <= s[i] <= 'z' then s[i] - 'a' + 'A' else s[i])
  }

  predicate RoutineEnd(statement: string) {
    var s := Trim(Upper(Trim(statement)));
    s == "END" || "END " <= s
  }

  // What the script calls: which statements begin a routine, and the parts a
  // statement is converted to, if it can be.
  datatype Dialect = Dialect(beginsRoutine: string -> bool, convert: string -> Option<seq<string>>)

  // The parts of all statements outside routines; None when one cannot be converted.
  function Converted(d: Dialect, statements: seq<string>, skipping: bool): Option<seq<string>> {
    if |statements| == 0 then Some([])
    else
      var s, more := statements[0], statements[1..];
      if skipping then Converted(d, more, !RoutineEnd(s))
      else if d.beginsRoutine(s) then Converted(d, more, true)
      else
        match d.convert(s)
        case None => None
        case Some(parts) =>
          match Converted(d, more, false)
          case None => None
          case Some(rest) => Some(parts + rest)
  }

  method NormalizeSchemaScript(script: string, d: Dialect) returns (failed: bool, text: string)
    ensures failed <==> Converted(d, Split(script), false) == None
    ensures text == if failed then "" else HEADER + Lines(Converted(d, Split(script), false).value)
  {
    hide Lines, Scan, RoutineEnd;
    text := HEADER;
    var statements := SplitSQL(script);
    var skipRoutine := false;
    ghost var done: seq<string> := [];
    NoLinesLeft(HEADER);
    JoinedMore([], [], Converted(d, statements, false));
    assert statements[0..] == statements;
    for i := 0 to |statements|
      invariant text == HEADER + Lines(done)
      invariant Joined(done, Converted(d, statements[i..], skipRoutine)) == Converted(d, statements, false)
    {
      assert statements[i..][0] == statements[i] && statements[i..][1..] == statements[i + 1..];
      if skipRoutine {
        if RoutineEnd(statements[i]) {
          skipRoutine := false;
        }
        continue;
      }
      if d.beginsRoutine(statements[i]) {
        skipRoutine := true;
        continue;
      }
      var converted := d.convert(statements[i]);
      if converted == None {
        return true, "";
      }
      text := PrintParts(text, converted.value);
      LinesOfBoth(done, converted.value);
      JoinedMore(done, converted.value, Converted(d, statements[i + 1..], false));
      done := done + converted.value;
    }
    assert done + [] == done;
    failed := false;
  }

  function Joined(done: seq<string>, rest: Option<seq<string>>): Option<seq<string>> {
    if rest == None then None else Some(done + rest.value)
  }

  lemma JoinedMore(done: seq<string>, parts: seq<string>, rest: Option<seq<string>>)
    ensures Joined(done + parts, rest) == Joined(done, if rest == None then None else Some(parts + rest.value))
    ensures Joined([], rest) == rest
  {
    if rest.Some? {
      assert done + parts + rest.value == done + (parts + rest.value);
      assert [] + rest.value == rest.value;
    }
  }

  lemma LinesOfBoth(p: seq<string>, q: seq<string>)
    ensures Lines(p + q) == Lines(p) + Lines(q)
  {
    LinesJoin(p + q, |p|);
    assert (p + q)[..|p|] == p && (p + q)[|p|..] == q;
  }

  // A routine leaves no trace: from the statement that begins it to its END.
  lemma RoutineIsSkipped(d: Dialect, begin: string, body: seq<string>, end: string, rest: seq<string>)
    requires d.beginsRoutine(begin) && RoutineEnd(end) && forall i :: 0 <= i < |body| ==> !RoutineEnd(body[i])
    ensures Converted(d, [begin] + (body + ([end] + rest)), false) == Converted(d, rest, false)
  {
    hide RoutineEnd;
    assert ([begin] + (body + ([end] + rest)))[1..] == body + ([end] + rest);
    BodyIsSkipped(d, body, end, rest);
  }

  lemma {:induction false} BodyIsSkipped(d: Dialect, body: seq<string>, end: string, rest: seq<string>)
    requires RoutineEnd(end) && forall i :: 0 <= i < |body| ==> !RoutineEnd(body[i])
    ensures Converted(d, body + ([end] + rest), true) == Converted(d, rest, false)
  {
    hide RoutineEnd;
    if |body| == 0 {
      assert body + ([end] + rest) == [end] + rest && ([end] + rest)[1..] == rest;
    } else {
      assert (body + ([end] + rest))[0] == body[0] && (body + ([end] + rest))[1..] == body[1..] + ([end] + rest);
      BodyIsSkipped(d, body[1..], end, rest);
    }
  }

  lemma {:induction false} LinesAreRead(parts: seq<string>, b: string, out: seq<string>)
    requires b == "" || b == "\n"
    requires forall i :: 0 <= i < |parts| ==> Trim(parts[i]) == "" || Clean(Trim(parts[i]))
    ensures Scan(Lines(parts), Plain, b, out) == out + Kept(parts)
    decreases |parts|
  {
    hide Trim, Scan, Clean;
    BlankEndsNothing(b, out);
    if |parts| == 0 {
    } else if Trim(parts[0]) == "" {
      assert Lines(parts) == Lines(parts[1..]);
      LinesAreRead(parts[1..], b, out);
    } else {
      var p, more := Trim(parts[0]), Lines(parts[1..]);
      assert Lines(parts) == p + ";" + ("\n" + more);
      LineIsRead(p, more, b, out);
      LinesAreRead(parts[1..], "\n", out + [p]);
      assert out + Kept(parts) == out + [p] + Kept(parts[1..]);
    }
  }

  lemma BlankEndsNothing(b: string, out: seq<string>)
    requires b == "" || b == "\n"
    ensures Scan("", Plain, b, out) == out
  {
    BlankIsTrimmed();
  }

  lemma LineIsRead(p: string, more: string, b: string, out: seq<string>)
    requires Clean(p) && (b == "" || b == "\n")
    ensures Scan(p + ";" + ("\n" + more), Plain, b, out) == Scan(more, Plain, "\n", out + [p])
  {
    hide Trim, Quiet;
    var rest := "\n" + more;
    QuietIsKept(p, rest, Plain, b, out);
    TrimAfterSpace('\n', p);
    TrimFacts(p);
    assert "" + p == p;
    assert Flush(b + p, out) == out + [p];
    assert rest[1..] == more && "" + rest[..1] == "\n";
  }

  // The header is a comment: nothing of it reaches a statement.
  lemma HeaderIsSkipped(rest: string)
    ensures Split(HEADER + rest) == Scan(rest, Plain, "", [])
  {
    hide Scan;
    var c := " schema-only template";
    assert HEADER + rest == "--" + c + ("\n" + rest);
    LineCommentIsDropped("--", c, rest, "", []);
  }

  // A line comment and its newline leave no trace, whatever is in it,
  lemma LineCommentIsDropped(opener: string, c: string, rest: string, b: string, out: seq<string>)
    requires opener == "#" || (opener == "--" && (c == "" || c[0] in {' ', '\t', '\r'}))
    requires '\n' !in c
    ensures Scan(opener + c + ("\n" + rest), Plain, b, out) == Scan(rest, Plain, b, out)
  {
    var t := opener + c + ("\n" + rest);
    if opener == "#" {
      assert t[0] == '#' && t[1..] == c + ("\n" + rest);
    } else {
      assert t[0] == '-' && t[..2] == "--" && t[2..] == c + ("\n" + rest);
      assert t[2] == (c + "\n")[0];
    }
    LineCommentRuns(c, rest, b, out);
  }

  lemma {:induction false} LineCommentRuns(c: string, rest: string, b: string, out: seq<string>)
    requires '\n' !in c
    ensures Scan(c + ("\n" + rest), LineComment, b, out) == Scan(rest, Plain, b, out)
    decreases |c|
  {
    var u := c + ("\n" + rest);
    if |c| == 0 {
      assert u[1..] == rest;
    } else {
      assert u[1..] == c[1..] + ("\n" + rest);
      LineCommentRuns(c[1..], rest, b, out);
    }
  }

  // and neither does a block comment.
  lemma BlockCommentIsDropped(c: string, rest: string, b: string, out: seq<string>)
    requires forall i :: 0 <= i < |c| - 1 ==> !(c[i] == '*' && c[i + 1] == '/')
    ensures Scan("/*" + c + ("*/" + rest), Plain, b, out) == Scan(rest, Plain, b, out)
  {
    var t := "/*" + c + ("*/" + rest);
    assert t[0] == '/' && t[..2] == "/*" && t[2..] == c + ("*/" + rest);
    BlockCommentRuns(c, rest, b, out);
  }

  lemma {:induction false} BlockCommentRuns(c: string, rest: string, b: string, out: seq<string>)
    requires forall i :: 0 <= i < |c| - 1 ==> !(c[i] == '*' && c[i + 1] == '/')
    ensures Scan(c + ("*/" + rest), BlockComment, b, out) == Scan(rest, Plain, b, out)
    decreases |c|
  {
    var u := c + ("*/" + rest);
    if |c| == 0 {
      assert u[..2] == "*/" && u[2..] == rest;
    } else {
      assert u[1..] == c[1..] + ("*/" + rest);
      assert u[0] == c[0] && u[1] == if |c| > 1 then c[1] else '*';
      assert u[..2] != "*/" by { assert u[..2] == [u[0], u[1]]; }
      BlockCommentRuns(c[1..], rest, b, out);
    }
  }

  // Printing and splitting again gives back the statements.
  lemma SplitPrinted(parts: seq<string>)
    requires forall i :: 0 <= i < |parts| ==> Trim(parts[i]) == "" || Clean(Trim(parts[i]))
    ensures Split(HEADER + Lines(parts)) == Kept(parts)
    ensures (forall i :: 0 <= i < |parts| ==> Clean(parts[i])) ==> Split(HEADER + Lines(parts)) == parts
  {
    HeaderIsSkipped(Lines(parts));
    LinesAreRead(parts, "", []);
    if forall i :: 0 <= i < |parts| ==> Clean(parts[i]) {
      CleanAreKept(parts);
    }
  }

  lemma {:induction false} CleanAreKept(parts: seq<string>)
    requires forall i :: 0 <= i < |parts| ==> Clean(parts[i])
    ensures Kept(parts) == parts
  {
    if |parts| > 0 {
      TrimFacts(parts[0]);
      CleanAreKept(parts[1..]);
    }
  }

  // ---------------------------------------------------------------------
  // Only clean statements survive

  function Total(out: seq<string>): nat {
    if |out| == 0 then 0 else Total(out[..|out| - 1]) + |out[|out| - 1]|
  }

  // Statements are only ever appended, and no character is used twice.
  lemma {:induction false} ScanBound(t: string, mode: Mode, b: string, out: seq<string>)
    ensures var r := Scan(t, mode, b, out);
      out <= r && Total(r) <= Total(out) + |b| + |t| - (if mode.LineComment? && |t| > 0 then 1 else 0)
    decreases |t|
  {
    FlushBound(b, out);
    if |t| > 0 {
      match mode
      case LineComment => ScanBound(t[1..], if t[0] == '\n' then Plain else LineComment, b, out);
      case BlockComment =>
        if |t| > 1 && t[..2] == "*/" {
          ScanBound(t[2..], Plain, b, out);
        } else {
          ScanBound(t[1..], BlockComment, b, out);
        }
      case Quoted(q) =>
        if |t| > 1 && (t[0] == '\\' || (t[0] == q && t[1] == q)) {
          ScanBound(t[2..], mode, b + t[..2], out);
        } else if t[0] == q && (t[0] != '\\' || |t| == 1) {
          ScanBound(t[1..], Plain, b + t[..1], out);
        } else {
          ScanBound(t[1..], mode, b + t[..1], out);
        }
      case Plain =>
        if IsQuote(t[0]) {
          ScanBound(t[1..], Quoted(t[0]), b + t[..1], out);
        } else if OpensLine(t) {
          ScanBound(if t[0] == '-' then t[2..] else t[1..], LineComment, b, out);
        } else if OpensBlock(t) {
          ScanBound(t[2..], BlockComment, b, out);
        } else if t[0] == ';' {
          ScanBound(t[1..], Plain, "", Flush(b, out));
        } else {
          ScanBound(t[1..], Plain, b + t[..1], out);
        }
    }
  }

  lemma FlushBound(b: string, out: seq<string>)
    ensures var r := Flush(b, out); out <= r && Total(r) <= Total(out) + |b|
  {
    TrimFacts(b);
    var r := out + [Trim(b)];
    assert r[..|r| - 1] == out;
  }

  // Every statement is trimmed, not empty, and starts with no ';'.
  predicate Printable(out: seq<string>) {
    forall i :: 0 <= i < |out| ==> out[i] != "" && Trimmed(out[i]) && out[i][0] != ';'
  }

  predicate Leads(b: string, mode: Mode) {
    if TrimLeft(b) == "" then !mode.Quoted? else TrimLeft(b)[0] != ';'
  }

  lemma FlushPrintable(b: string, mode: Mode, out: seq<string>)
    requires Printable(out) && Leads(b, mode)
    ensures Printable(Flush(b, out))
  {
    TrimFacts(b);
    TrimLeftFacts(b);
    TrimRightFacts(TrimLeft(b));
  }

  lemma LeadsOn(b: string, c: char, mode: Mode, next: Mode)
    requires Leads(b, mode) && (mode.Quoted? || c != ';') && (next.Quoted? ==> mode.Quoted? || !IsSpace(c))
    ensures Leads(b + [c], next)
  {
    TrimLeftAppend(b, c);
  }

  lemma {:induction false} ScanPrintable(t: string, mode: Mode, b: string, out: seq<string>)
    requires Printable(out) && Leads(b, mode)
    ensures Printable(Scan(t, mode, b, out))
    decreases |t|
  {
    FlushPrintable(b, mode, out);
    if |t| > 0 {
      if |t| > 1 {
        assert b + t[..2] == b + [t[0]] + [t[1]];
      }
      assert b + t[..1] == b + [t[0]];
      match mode
      case LineComment => ScanPrintable(t[1..], if t[0] == '\n' then Plain else LineComment, b, out);
      case BlockComment =>
        if |t| > 1 && t[..2] == "*/" {
          ScanPrintable(t[2..], Plain, b, out);
        } else {
          ScanPrintable(t[1..], BlockComment, b, out);
        }
      case Quoted(q) =>
        LeadsOn(b, t[0], mode, mode);
        LeadsOn(b, t[0], mode, Plain);
        if |t| > 1 && (t[0] == '\\' || (t[0] == q && t[1] == q)) {
          LeadsOn(b + [t[0]], t[1], mode, mode);
          ScanPrintable(t[2..], mode, b + t[..2], out);
        } else if t[0] == q && (t[0] != '\\' || |t| == 1) {
          ScanPrintable(t[1..], Plain, b + t[..1], out);
        } else {
          ScanPrintable(t[1..], mode, b + t[..1], out);
        }
      case Plain =>
        if IsQuote(t[0]) {
          LeadsOn(b, t[0], mode, Quoted(t[0]));
          ScanPrintable(t[1..], Quoted(t[0]), b + t[..1], out);
        } else if OpensLine(t) {
          ScanPrintable(if t[0] == '-' then t[2..] else t[1..], LineComment, b, out);
        } else if OpensBlock(t) {
          ScanPrintable(t[2..], BlockComment, b, out);
        } else if t[0] == ';' {
          ScanPrintable(t[1..], Plain, "", Flush(b, out));
        } else {
          LeadsOn(b, t[0], mode, Plain);
          ScanPrintable(t[1..], Plain, b + t[..1], out);
        }
    }
  }

  // A newline at the end of a text changes nothing, whatever is open there.
  lemma {:induction false} LastNewline(t: string, mode: Mode, b: string, out: seq<string>)
    requires mode.Quoted? ==> IsQuote(mode.q)
    ensures Scan(t + "\n", mode, b, out) == Scan(t, mode, b, out)
    decreases |t|
  {
    hide Trim;
    var u := t + "\n";
    if |t| == 0 {
      assert u == "\n" && b + u[..1] == b + ['\n'] && u[1..] == "";
      TrimBeforeSpace(b, '\n');
    } else {
      assert u[0] == t[0] && u[1..] == t[1..] + "\n" && u[..1] == t[..1];
      if |t| > 1 {
        assert u[1] == t[1] && u[2..] == t[2..] + "\n" && u[..2] == t[..2];
        assert |t| > 2 ==> u[2] == t[2];
      } else {
        assert u[1] == '\n' && u[2..] == "" && u[..2] == [t[0], '\n'];
      }
      match mode
      case LineComment => LastNewline(t[1..], if t[0] == '\n' then Plain else LineComment, b, out);
      case BlockComment =>
        if |t| > 1 && t[..2] == "*/" {
          LastNewline(t[2..], Plain, b, out);
        } else {
          LastNewline(t[1..], BlockComment, b, out);
        }
      case Quoted(q) =>
        if |t| > 1 && (t[0] == '\\' || (t[0] == q && t[1] == q)) {
          LastNewline(t[2..], mode, b + t[..2], out);
        } else if t[0] == '\\' {
          assert t[1..] == "" && b + u[..2] == b + t[..1] + ['\n'];
          TrimBeforeSpace(b + t[..1], '\n');
        } else if t[0] == q {
          LastNewline(t[1..], Plain, b + t[..1], out);
        } else {
          LastNewline(t[1..], mode, b + t[..1], out);
        }
      case Plain =>
        if IsQuote(t[0]) {
          LastNewline(t[1..], Quoted(t[0]), b + t[..1], out);
        } else if OpensLine(t) {
          LastNewline(if t[0] == '-' then t[2..] else t[1..], LineComment, b, out);
        } else if OpensBlock(t) {
          LastNewline(t[2..], BlockComment, b, out);
        } else if t[0] == ';' {
          LastNewline(t[1..], Plain, "", Flush(b, out));
        } else {
          LastNewline(t[1..], Plain, b + t[..1], out);
        }
    }
  }

  // Every statement that comes out of a script is trimmed and not empty.
  lemma StatementsArePrintable(text: string)
    ensures Printable(Split(text))
  {
    assert TrimLeft("") == "";
    ScanPrintable(text, Plain, "", []);
  }

  // Splitting is not idempotent: dropping a comment can glue two dashes, and
  // the statement then starts a comment of its own.
  lemma GluedDashes()
    ensures Split("-/**/- x") == ["-- x"] && !Clean("-- x")
  {
    hide Scan, Flush, Trim;
    assert "" + "-" == "-" && "-" + "-" == "--" && "--" + " " == "-- " && "-- " + "x" == "-- x";
    assert "-" + "/**/- x" == "-/**/- x" && "/*" + "" + ("*/" + "- x") == "/**/- x";
    assert "-" + " x" == "- x" && " " + "x" == " x" && "x" + "" == "x";
    PlainGoesOn('-', "/**/- x", "");
    BlockCommentIsDropped("", "- x", "-", []);
    PlainGoesOn('-', " x", "-");
    PlainGoesOn(' ', "x", "--");
    PlainGoesOn('x', "", "-- ");
    EndsWith("-- x");
    var s := "-- x";
    assert (s + ";")[..2] == "--" && (s + ";")[2] == ' ';
    assert OpensLine(s + ";") && !Quiet(s, Plain);
  }

  lemma PlainGoesOn(c: char, t: string, b: string)
    requires !IsQuote(c) && c != ';' && !OpensLine([c] + t) && !OpensBlock([c] + t)
    ensures Scan([c] + t, Plain, b, []) == Scan(t, Plain, b + [c], [])
  {
    assert ([c] + t)[1..] == t && ([c] + t)[..1] == [c];
  }

  lemma EndsWith(b: string)
    requires b != "" && Trimmed(b)
    ensures Scan("", Plain, b, []) == [b]
  {
    TrimFacts(b);
  }
}
