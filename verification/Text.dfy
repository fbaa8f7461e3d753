// strings.TrimSpace, on ASCII.
module Text {

  predicate IsSpace(c: char) { c in {' ', '\t', '\n', '\r', '\U{B}', '\U{C}'} }

  function TrimLeft(s: string): string {
    if |s| > 0 && IsSpace(s[0]) then TrimLeft(s[1..]) else s
  }

  function TrimRight(s: string): string {
    if |s| > 0 && IsSpace(s[|s| - 1]) then TrimRight(s[..|s| - 1]) else s
  }

  function Trim(s: string): string { TrimRight(TrimLeft(s)) }

  // No white space at either end.
  predicate Trimmed(s: string) {
    |s| > 0 ==> !IsSpace(s[0]) && !IsSpace(s[|s| - 1])
  }

  lemma {:induction false} TrimLeftFacts(s: string)
    ensures var t := TrimLeft(s); |t| <= |s| && (|t| > 0 ==> !IsSpace(t[0]) && t[|t| - 1] == s[|s| - 1])
    ensures |s| > 0 && !IsSpace(s[0]) ==> TrimLeft(s) == s
  {
    if |s| > 0 && IsSpace(s[0]) {
      TrimLeftFacts(s[1..]);
    }
  }

  lemma {:induction false} TrimRightFacts(s: string)
    ensures var t := TrimRight(s); t <= s && (|t| > 0 ==> !IsSpace(t[|t| - 1]))
    ensures |s| > 0 && !IsSpace(s[|s| - 1]) ==> TrimRight(s) == s
    ensures |s| > 0 && !IsSpace(s[0]) ==> |TrimRight(s)| > 0
  {
    if |s| > 0 && IsSpace(s[|s| - 1]) {
      TrimRightFacts(s[..|s| - 1]);
    }
  }

  lemma TrimFacts(s: string)
    ensures Trimmed(Trim(s)) && |Trim(s)| <= |s|
    ensures Trimmed(s) ==> Trim(s) == s
    ensures |s| > 0 && !IsSpace(s[0]) ==> |Trim(s)| > 0 && Trim(s)[0] == s[0]
  {
    TrimLeftFacts(s);
    TrimRightFacts(TrimLeft(s));
  }

  // What goes is white space at both ends, and all of it.
  lemma TrimExactly(s: string) returns (a: string, b: string)
    ensures s == a + Trim(s) + b
    ensures forall c :: c in a || c in b ==> c in {' ', '\t', '\n', '\r', '\U{B}', '\U{C}'}
    ensures var t, spaces := Trim(s), {' ', '\t', '\n', '\r', '\U{B}', '\U{C}'};
      t == "" || (t[0] !in spaces && t[|t| - 1] !in spaces)
  {
    a := LeftPart(s);
    b := RightPart(TrimLeft(s));
    TrimFacts(s);
  }

  lemma {:induction false} LeftPart(s: string) returns (a: string)
    ensures s == a + TrimLeft(s) && forall c :: c in a ==> IsSpace(c)
  {
    a := "";
    if |s| > 0 && IsSpace(s[0]) {
      a := LeftPart(s[1..]);
      a := [s[0]] + a;
    }
  }

  lemma {:induction false} RightPart(s: string) returns (b: string)
    ensures s == TrimRight(s) + b && forall c :: c in b ==> IsSpace(c)
  {
    b := "";
    if |s| > 0 && IsSpace(s[|s| - 1]) {
      b := RightPart(s[..|s| - 1]);
      b := b + [s[|s| - 1]];
    }
  }

  lemma TrimAfterSpace(c: char, s: string)
    requires IsSpace(c)
    ensures Trim([c] + s) == Trim(s)
  {
    assert ([c] + s)[1..] == s;
  }

  lemma BlankIsTrimmed()
    ensures Trim("") == "" && Trim("\n") == ""
  {
    assert "\n"[1..] == "";
  }

  lemma {:induction false} TrimLeftAppend(b: string, c: char)
    ensures TrimLeft(b + [c]) == if TrimLeft(b) != "" then TrimLeft(b) + [c] else if IsSpace(c) then "" else [c]
  {
    if |b| > 0 && IsSpace(b[0]) {
      assert (b + [c])[1..] == b[1..] + [c];
      TrimLeftAppend(b[1..], c);
    } else if |b| == 0 {
      assert b + [c] == [c];
    }
  }

  lemma TrimBeforeSpace(b: string, c: char)
    requires IsSpace(c)
    ensures Trim(b + [c]) == Trim(b)
  {
    TrimLeftAppend(b, c);
    var l := TrimLeft(b) + [c];
    assert l[..|l| - 1] == TrimLeft(b);
  }
}
