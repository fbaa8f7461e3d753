// What the rewriting writes for every kind of text, and what MySQL reads of an
// escape, character by character.
module MySqlLaws {
  import opened Hex
  import opened MySqlLiterals

  // Inside a string a backslash goes and the character it stands for is written,
  // a quote as a doubled one.
  lemma EscapeIsWritten(c: char, rest: string)
    ensures var e := if c == 'n' then "\n" else if c == 'r' then "\r" else if c == 't' then "\t"
                     else if c == '0' then "\0" else if c == '\'' then "''" else [c];
      Rewrite(['\\', c] + rest, true) == e + Rewrite(rest, true)
  {
    var t := ['\\', c] + rest;
    assert t[2..] == rest;
  }

  // A quote opens a string and closes it; a doubled one inside stays.
  lemma QuoteIsWritten(rest: string)
    ensures Rewrite("'" + rest, false) == "'" + Rewrite(rest, true)
    ensures Rewrite("''" + rest, true) == "''" + Rewrite(rest, true)
    ensures rest == "" || rest[0] != '\'' ==> Rewrite("'" + rest, true) == "'" + Rewrite(rest, false)
  {
    assert ("'" + rest)[1..] == rest && ("''" + rest)[2..] == rest;
  }

  // Outside strings 0x and the longest run of digits becomes X'...'.
  lemma NumberIsWritten(x: char, d: string, rest: string)
    requires x in {'x', 'X'} && |d| > 0 && forall i :: 0 <= i < |d| ==> IsHexDigit(d[i])
    requires |rest| > 0 ==> !IsHexDigit(rest[0])
    ensures Rewrite(['0', x] + d + rest, false) == "X'" + d + "'" + Rewrite(rest, false)
  {
    hide IsHexDigit;
    var t := ['0', x] + d + rest;
    assert t[2..] == d + rest;
    RunOfDigits(d, rest);
    assert t[2..2 + |d|] == d && t[2 + |d|..] == rest;
  }

  lemma {:induction false} RunOfDigits(d: string, rest: string)
    requires (forall i :: 0 <= i < |d| ==> IsHexDigit(d[i])) && (|rest| > 0 ==> !IsHexDigit(rest[0]))
    ensures HexRun(d + rest) == |d|
  {
    if |d| == 0 {
      assert d + rest == rest;
    } else {
      assert (d + rest)[1..] == d[1..] + rest;
      RunOfDigits(d[1..], rest);
    }
  }

  // Every other character is written as it is.
  lemma OtherIsWritten(c: char, rest: string, inString: bool)
    requires c != '\''
    requires !inString && c == '0' && |rest| > 1 && rest[0] in {'x', 'X'} ==> !IsHexDigit(rest[1])
    requires inString && c == '\\' ==> rest == ""
    ensures Rewrite([c] + rest, inString) == [c] + Rewrite(rest, inString)
    ensures Rewrite("", inString) == ""
  {
    hide IsHexDigit;
    var t := [c] + rest;
    assert t[1..] == rest;
    if |rest| > 1 {
      assert t[2..][0] == rest[1];
    }
  }

  // The escapes of MySQL (section 9.1.1 of its 5.7 Reference Manual, table 9.1).
  lemma EscapeIsReadByMySQL(q: char, c: char, rest: string, v: string)
    requires q in {'\'', '"'}
    ensures var e := if c == '0' then [0 as char] else if c == 'b' then [8 as char] else if c == 't' then [9 as char]
                     else if c == 'n' then [10 as char] else if c == 'r' then [13 as char]
                     else if c == 'Z' then [26 as char] else if c == '%' || c == '_' then ['\\', c] else [c];
      ReadMySQL(['\\', c] + rest, Inside(q, v)) == ReadMySQL(rest, Inside(q, v + e))
  {
    var t := ['\\', c] + rest;
    assert t[2..] == rest;
    var u := ReadMySQL(rest, Inside(q, v + MyEscape(c)));
    assert [] + u == u;
  }
}
