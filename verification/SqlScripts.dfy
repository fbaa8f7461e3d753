// Which lists of statements survive printing and splitting: exactly the lists
// of clean statements.
module SqlScripts {
  import opened SqlText
  import opened Text

  // ---------------------------------------------------------------------
  // Where the lines of a printed list are

  // The place in the printed text where line j starts.
  function Start(ss: seq<string>, j: nat): nat
    requires j <= |ss|
  {
    |Lines(ss[..j])|
  }

  // The text from place i on.
  function From(ss: seq<string>, i: nat): string {
    if i <= |Lines(ss)| then Lines(ss)[i..] else ""
  }

  // Line j is the statement, ';' and a newline.
  lemma LineAt(ss: seq<string>, j: nat)
    requires Printable(ss) && j < |ss|
    ensures var text, st, n := Lines(ss), Start(ss, j), |ss[j]|;
      && st + n + 2 <= |text| && Start(ss, j + 1) == st + n + 2
      && text[st..] == ss[j] + ";" + ("\n" + text[st + n + 2..])
      && text[st..][..n] == ss[j] && text[st + n] == ';' && text[st + n + 1] == '\n'
  {
    hide Lines, Trim;
    LinesJoin(ss, j);
    LineNext(ss, j);
    var front, rest, s := Lines(ss[..j]), Lines(ss[j + 1..]), ss[j];
    LineInText(front, s, rest);
    assert Lines(ss) == front + (s + ";\n" + rest);
  }

  lemma LineNext(ss: seq<string>, j: nat)
    requires Printable(ss) && j < |ss|
    ensures Lines(ss[j..]) == ss[j] + ";\n" + Lines(ss[j + 1..])
    ensures Lines(ss[..j + 1]) == Lines(ss[..j]) + (ss[j] + ";\n")
  {
    hide Trim;
    var s := ss[j];
    TrimFacts(s);
    assert ss[j..][1..] == ss[j + 1..] && ss[j..][0] == s;
    LinesJoin(ss[..j + 1], j);
    assert ss[..j + 1][..j] == ss[..j] && ss[..j + 1][j..] == [s] && [s][1..] == [];
    assert Lines([s]) == Line(s) + Lines([]);
    assert Line(s) + "" == Line(s);
  }

  lemma LineInText(front: string, s: string, rest: string)
    ensures var text, st, n := front + (s + ";\n" + rest), |front|, |s|;
      && text[st..] == s + ";" + ("\n" + text[st + n + 2..])
      && text[st..][..n] == s && text[st + n] == ';' && text[st + n + 1] == '\n'
  {
    var text, st, n := front + (s + ";\n" + rest), |front|, |s|;
    assert text[st..] == s + ";\n" + rest;
    assert text[st + n + 2..] == rest;
    assert text[st + n] == text[st..][n] && text[st + n + 1] == text[st..][n + 1];
  }

  lemma StartOfAll(ss: seq<string>)
    ensures Start(ss, 0) == 0 && Start(ss, |ss|) == |Lines(ss)|
  {
    assert ss[..0] == [] && ss[..|ss|] == ss;
  }

  // ---------------------------------------------------------------------
  // Behind: a scanner that can no longer make up the line it is on

  // At place i, with the statements before j given out, the scanner is past the
  // start of line j: what it holds and what is left of the line is too short
  // for the statement; or the whole line is past, and if it was the last one the
  // scanner does not hold it.
  ghost predicate Late(ss: seq<string>, i: nat, j: nat, mode: Mode, b: string)
    requires j < |ss|
  {
    var st, n := Start(ss, j), |ss[j]|;
    && st <= i <= |Lines(ss)|
    && (i <= st + n ==> |b| + (st + n - i) + (if mode == LineComment then 0 else 1) < n)
    && (i > st + n && j == |ss| - 1 ==> Trim(b) != ss[j])
  }

  // Nothing is left but, at most, the last newline.
  predicate AtEnd(ss: seq<string>, i: nat, j: nat) {
    i == |Lines(ss)| || (j == |ss| - 1 && i + 1 == |Lines(ss)|)
  }

  // Reading on without ending a statement stays behind.
  lemma LateMoves(ss: seq<string>, i: nat, j: nat, mode: Mode, b: string, i': nat, mode': Mode, b': string)
    requires Printable(ss) && j < |ss| && Late(ss, i, j, mode, b) && !AtEnd(ss, i, j)
    requires i < i' <= i + 2 && i' <= |Lines(ss)| && |b'| <= |b| + (i' - i)
    requires mode == LineComment ==> b' == b && i' == i + 1
    requires i' == i + 2 ==> Lines(ss)[i] != ';'
    ensures Late(ss, i', j, mode', b')
  {
    hide Lines, Trim;
    LineAt(ss, j);
    TrimFacts(b');
    var st, n := Start(ss, j), |ss[j]|;
    if j == |ss| - 1 {
      StartOfAll(ss);
      assert |Lines(ss)| == st + n + 2;
    }
  }

  lemma LateEnds(ss: seq<string>, i: nat, j: nat, mode: Mode, b: string)
    requires Printable(ss) && j < |ss| && Late(ss, i, j, mode, b) && AtEnd(ss, i, j)
    requires mode.Quoted? ==> IsQuote(mode.q)
    ensures Scan(Lines(ss)[i..], mode, b, ss[..j]) != ss
  {
    hide Lines, Trim;
    LineAt(ss, j);
    var out := ss[..j];
    if i < |Lines(ss)| {
      StartOfAll(ss);
      assert Lines(ss)[i..] == "\n" == "" + "\n";
      LastNewline("", mode, b, out);
    } else {
      assert Lines(ss)[i..] == "";
    }
    assert Scan("", mode, b, out) == Flush(b, out);
    if Trim(b) != "" {
      assert Flush(b, out)[j] == Trim(b);
    }
  }

  // A statement that ends is a wrong one, or the scanner is then behind on the next.
  lemma {:induction false} LateFlush(ss: seq<string>, i: nat, j: nat, b: string)
    requires Printable(ss) && j < |ss| && Late(ss, i, j, Plain, b) && !AtEnd(ss, i, j)
    requires i < |Lines(ss)| && Lines(ss)[i] == ';'
    ensures Scan(Lines(ss)[i + 1..], Plain, "", Flush(b, ss[..j])) != ss
    decreases |Lines(ss)| - i, 0
  {
    hide Lines, Trim, Scan, Flush, Late, AtEnd;
    var out := ss[..j];
    FlushGives(b, out);
    if Trim(b) == "" {
      LateMoves(ss, i, j, Plain, b, i + 1, Plain, "");
      LateFails(ss, i + 1, j, Plain, "");
    } else if Trim(b) != ss[j] {
      ScanBound(Lines(ss)[i + 1..], Plain, "", Flush(b, out));
      assert Flush(b, out)[j] == Trim(b);
    } else {
      NextLineLate(ss, i, j, b);
      assert Flush(b, out) == ss[..j + 1];
      LateFails(ss, i + 1, j + 1, Plain, "");
    }
  }

  lemma FlushGives(b: string, out: seq<string>)
    ensures Flush(b, out) == if Trim(b) == "" then out else out + [Trim(b)]
  {
  }

  // The statement came too late, so its ';' is already inside the next line.
  lemma NextLineLate(ss: seq<string>, i: nat, j: nat, b: string)
    requires Printable(ss) && j < |ss| && Late(ss, i, j, Plain, b) && !AtEnd(ss, i, j)
    requires i < |Lines(ss)| && Lines(ss)[i] == ';' && Trim(b) == ss[j]
    ensures j + 1 < |ss| && Late(ss, i + 1, j + 1, Plain, "")
  {
    hide Lines, Trim;
    TrimFacts(b);
    BlankIsTrimmed();
    LineAt(ss, j);
    StartOfAll(ss);
    assert j + 1 < |ss|;
    LineAt(ss, j + 1);
    assert Lines(ss)[Start(ss, j + 1)] == Lines(ss)[Start(ss, j + 1)..][0] == ss[j + 1][0];
  }

  lemma {:induction false} LateFails(ss: seq<string>, i: nat, j: nat, mode: Mode, b: string)
    requires Printable(ss) && j < |ss| && Late(ss, i, j, mode, b) && (mode.Quoted? ==> IsQuote(mode.q))
    ensures Scan(Lines(ss)[i..], mode, b, ss[..j]) != ss
    decreases |Lines(ss)| - i, 2
  {
    hide Lines, Trim, Late, Flush;
    if AtEnd(ss, i, j) {
      LateEnds(ss, i, j, mode, b);
    } else {
      LateBounds(ss, i, j, mode, b);
      match mode
      case Plain => LatePlain(ss, i, j, b);
      case Quoted(q) => LateQuoted(ss, i, j, q, b);
      case LineComment =>
        var t := Lines(ss)[i..];
        var next := if t[0] == '\n' then Plain else LineComment;
        assert t[1..] == Lines(ss)[i + 1..];
        LateMoves(ss, i, j, mode, b, i + 1, next, b);
        LateFails(ss, i + 1, j, next, b);
      case BlockComment =>
        var t := Lines(ss)[i..];
        assert t[1..] == Lines(ss)[i + 1..];
        if |t| > 1 && t[..2] == "*/" {
          assert t[2..] == Lines(ss)[i + 2..] && t[0] == t[..2][0];
          LateMoves(ss, i, j, mode, b, i + 2, Plain, b);
          LateFails(ss, i + 2, j, Plain, b);
        } else {
          LateMoves(ss, i, j, mode, b, i + 1, BlockComment, b);
          LateFails(ss, i + 1, j, BlockComment, b);
        }
    }
  }

  lemma LateBounds(ss: seq<string>, i: nat, j: nat, mode: Mode, b: string)
    requires j < |ss| && Late(ss, i, j, mode, b) && !AtEnd(ss, i, j)
    ensures i < |Lines(ss)|
  {
    hide Lines;
  }

  lemma {:induction false} LateQuoted(ss: seq<string>, i: nat, j: nat, q: char, b: string)
    requires Printable(ss) && j < |ss| && Late(ss, i, j, Quoted(q), b)
    requires !AtEnd(ss, i, j) && IsQuote(q) && i < |Lines(ss)|
    ensures Scan(Lines(ss)[i..], Quoted(q), b, ss[..j]) != ss
    decreases |Lines(ss)| - i, 1
  {
    hide Lines, Trim, Late, Flush;
    var t, mode := Lines(ss)[i..], Quoted(q);
    assert t[0] == Lines(ss)[i] && t[1..] == Lines(ss)[i + 1..];
    if |t| > 1 && (t[0] == '\\' || (t[0] == q && t[1] == q)) {
      assert t[2..] == Lines(ss)[i + 2..];
      LateMoves(ss, i, j, mode, b, i + 2, mode, b + t[..2]);
      LateFails(ss, i + 2, j, mode, b + t[..2]);
    } else {
      var next := if t[0] == q then Plain else mode;
      LateMoves(ss, i, j, mode, b, i + 1, next, b + t[..1]);
      LateFails(ss, i + 1, j, next, b + t[..1]);
    }
  }

  lemma {:induction false} LatePlain(ss: seq<string>, i: nat, j: nat, b: string)
    requires Printable(ss) && j < |ss| && Late(ss, i, j, Plain, b) && !AtEnd(ss, i, j) && i < |Lines(ss)|
    ensures Scan(Lines(ss)[i..], Plain, b, ss[..j]) != ss
    decreases |Lines(ss)| - i, 1
  {
    hide Lines, Trim, Late, Flush;
    var t := Lines(ss)[i..];
    assert t[0] == Lines(ss)[i] && t[1..] == Lines(ss)[i + 1..];
    if IsQuote(t[0]) {
      LateMoves(ss, i, j, Plain, b, i + 1, Quoted(t[0]), b + t[..1]);
      LateFails(ss, i + 1, j, Quoted(t[0]), b + t[..1]);
    } else if OpensLine(t) {
      var k := if t[0] == '-' then 2 else 1;
      assert t[k..] == Lines(ss)[i + k..];
      LateMoves(ss, i, j, Plain, b, i + k, LineComment, b);
      LateFails(ss, i + k, j, LineComment, b);
    } else if OpensBlock(t) {
      assert t[2..] == Lines(ss)[i + 2..] && t[0] == t[..2][0];
      LateMoves(ss, i, j, Plain, b, i + 2, BlockComment, b);
      LateFails(ss, i + 2, j, BlockComment, b);
    } else if t[0] == ';' {
      LateFlush(ss, i, j, b);
    } else {
      LateMoves(ss, i, j, Plain, b, i + 1, Plain, b + t[..1]);
      LateFails(ss, i + 1, j, Plain, b + t[..1]);
    }
  }

  // ---------------------------------------------------------------------
  // An unclean statement puts the scanner behind

  // The text from the m-th character of line k on.
  lemma InLine(ss: seq<string>, k: nat, m: nat)
    requires Printable(ss) && k < |ss| && m <= |ss[k]|
    ensures var text, i, t := Lines(ss), Start(ss, k) + m, ss[k][m..];
      && i + |t| + 2 <= |text| && |text[i..]| >= |t| + 2
      && text[i..] == t + ";" + ("\n" + text[i + |t| + 2..])
  {
    hide Lines, Trim;
    LineAt(ss, k);
    var text, st := Lines(ss), Start(ss, k);
    var rest := ";" + ("\n" + text[st + |ss[k]| + 2..]);
    assert text[st..] == ss[k] + rest;
    assert text[st..][m..] == text[st + m..] == ss[k][m..] + rest;
  }

  lemma {:induction false} UncleanPlain(ss: seq<string>, k: nat, m: nat)
    requires Printable(ss) && k < |ss| && m <= |ss[k]| && !Quiet(ss[k][m..], Plain)
    ensures Scan(From(ss, Start(ss, k) + m), Plain, ss[k][..m], ss[..k]) != ss
    decreases |ss[k]| - m
  {
    hide Lines, Trim, Flush, From, Start, OpensLine, OpensBlock;
    StepInLine(ss, k, m);
    var s, t, i := ss[k], ss[k][m..], Start(ss, k) + m;
    var u := From(ss, i);
    assert |t| > 0 && t[1..] == s[m + 1..] && s[..m] + [t[0]] == s[..m + 1];
    OpenersInLine(t, u);
    if IsQuote(t[0]) {
      UncleanQuoted(ss, k, m + 1, t[0]);
    } else if OpensLine(u) {
      PastOpener(ss, k, m, if t[0] == '-' then 2 else 1, LineComment);
    } else if OpensBlock(u) {
      PastOpener(ss, k, m, 2, BlockComment);
    } else if t[0] == ';' {
      EndsTooSoon(ss, k, m, u[1..]);
    } else {
      UncleanPlain(ss, k, m + 1);
    }
  }

  // A comment opener drops one or two characters of its line.
  lemma PastOpener(ss: seq<string>, k: nat, m: nat, d: nat, mode: Mode)
    requires Printable(ss) && k < |ss| && m + d <= |ss[k]|
    requires (d == 1 && mode == LineComment) || (d == 2 && !mode.Quoted?)
    ensures Scan(From(ss, Start(ss, k) + m + d), mode, ss[k][..m], ss[..k]) != ss
  {
    hide Lines, Trim, Scan;
    LineAt(ss, k);
    LateFails(ss, Start(ss, k) + m + d, k, mode, ss[k][..m]);
  }

  lemma OpenersInLine(t: string, u: string)
    requires |t| > 0 && t + ";" <= u
    ensures OpensLine(u) <==> OpensLine(t + ";")
    ensures OpensLine(u) && t[0] == '-' ==> |t| > 1
    ensures !(OpensLine(u) && IsQuote(t[0])) && (OpensLine(u) ==> t[0] != ';')
    ensures OpensBlock(u) <==> OpensBlock(t)
    ensures OpensBlock(u) ==> |t| > 1
  {
    var v := t + ";";
    assert u[0] == v[0] && u[1] == v[1] && u[..2] == v[..2] == [v[0], v[1]];
    if |t| > 1 {
      assert u[2] == v[2] && t[..2] == v[..2];
    }
  }

  lemma EndsTooSoon(ss: seq<string>, k: nat, m: nat, rest: string)
    requires Printable(ss) && k < |ss| && m < |ss[k]| && ss[k][m] == ';'
    ensures Scan(rest, Plain, "", Flush(ss[k][..m], ss[..k])) != ss
  {
    hide Scan, Trim;
    var b, out := ss[k][..m], ss[..k];
    assert m > 0;
    TrimFacts(b);
    ScanBound(rest, Plain, "", Flush(b, out));
    assert Flush(b, out)[k] == Trim(b);
  }

  lemma {:induction false} UncleanQuoted(ss: seq<string>, k: nat, m: nat, q: char)
    requires Printable(ss) && k < |ss| && m <= |ss[k]| && IsQuote(q) && !Quiet(ss[k][m..], Quoted(q))
    ensures Scan(From(ss, Start(ss, k) + m), Quoted(q), ss[k][..m], ss[..k]) != ss
    decreases |ss[k]| - m
  {
    hide Lines, Trim, Flush, Late, From, Start;
    StepInLine(ss, k, m);
    var s, t, i := ss[k], ss[k][m..], Start(ss, k) + m;
    var u := From(ss, i);
    if |t| == 0 {
      assert u[..1] == ";" && s[..m] == s;
      PastUnclosed(ss, k, i + 1, q);
    } else {
      assert t[1..] == s[m + 1..] && s[..m] + [t[0]] == s[..m + 1];
      if |t| > 1 && (t[0] == '\\' || (t[0] == q && t[1] == q)) {
        assert t[2..] == s[m + 2..] && s[..m] + [t[0], t[1]] == s[..m + 2];
        UncleanQuoted(ss, k, m + 2, q);
      } else if t[0] == '\\' {
        assert s[..m] + [t[0], ';'] == s + ";";
        PastUnclosed(ss, k, i + 2, q);
      } else if t[0] == q {
        UncleanPlain(ss, k, m + 1);
      } else {
        UncleanQuoted(ss, k, m + 1, q);
      }
    }
  }

  // One or two characters on from the m-th character of line k.
  lemma StepInLine(ss: seq<string>, k: nat, m: nat)
    requires Printable(ss) && k < |ss| && m <= |ss[k]|
    ensures var u, t, i := From(ss, Start(ss, k) + m), ss[k][m..], Start(ss, k) + m;
      && |u| > 1 && u[1..] == From(ss, i + 1) && u[2..] == From(ss, i + 2)
      && u[0] == (if |t| > 0 then t[0] else ';')
      && u[1] == (if |t| > 1 then t[1] else if |t| == 1 then ';' else '\n')
      && u[..1] == [u[0]] && u[..2] == [u[0], u[1]] && t + ";" <= u
  {
    hide Lines, Trim;
    InLine(ss, k, m);
  }

  // A quote left open swallows the ';' of its line.
  lemma PastUnclosed(ss: seq<string>, k: nat, i: nat, q: char)
    requires Printable(ss) && k < |ss| && i == Start(ss, k) + |ss[k]| + 1 && IsQuote(q)
    ensures Scan(From(ss, i), Quoted(q), ss[k] + ";", ss[..k]) != ss
  {
    hide Lines, Trim, Scan;
    LineAt(ss, k);
    var v := ss[k] + ";";
    assert v[0] == ss[k][0];
    TrimFacts(v);
    LateFails(ss, i, k, Quoted(q), v);
  }

  // White space in front of what is held makes no difference.
  lemma {:induction false} SpaceInFront(t: string, mode: Mode, c: char, b: string, out: seq<string>)
    requires IsSpace(c)
    ensures Scan(t, mode, [c] + b, out) == Scan(t, mode, b, out)
    decreases |t|
  {
    hide Trim;
    TrimAfterSpace(c, b);
    if |t| > 0 {
      assert [c] + (b + t[..1]) == [c] + b + t[..1];
      if |t| > 1 {
        assert [c] + (b + t[..2]) == [c] + b + t[..2];
      }
      match mode
      case LineComment => SpaceInFront(t[1..], if t[0] == '\n' then Plain else LineComment, c, b, out);
      case BlockComment =>
        if |t| > 1 && t[..2] == "*/" {
          SpaceInFront(t[2..], Plain, c, b, out);
        } else {
          SpaceInFront(t[1..], BlockComment, c, b, out);
        }
      case Quoted(q) =>
        if |t| > 1 && (t[0] == '\\' || (t[0] == q && t[1] == q)) {
          SpaceInFront(t[2..], mode, c, b + t[..2], out);
        } else if t[0] == q && (t[0] != '\\' || |t| == 1) {
          SpaceInFront(t[1..], Plain, c, b + t[..1], out);
        } else {
          SpaceInFront(t[1..], mode, c, b + t[..1], out);
        }
      case Plain =>
        if IsQuote(t[0]) {
          SpaceInFront(t[1..], Quoted(t[0]), c, b + t[..1], out);
        } else if OpensLine(t) {
          SpaceInFront(if t[0] == '-' then t[2..] else t[1..], LineComment, c, b, out);
        } else if OpensBlock(t) {
          SpaceInFront(t[2..], BlockComment, c, b, out);
        } else if t[0] == ';' {
        } else {
          SpaceInFront(t[1..], Plain, c, b + t[..1], out);
        }
    }
  }

  // ---------------------------------------------------------------------
  // Lists

  lemma {:induction false} UncleanIsLost(ss: seq<string>, k: nat, b: string)
    requires Printable(ss) && k < |ss| && (b == "" || b == "\n")
    requires exists i :: k <= i < |ss| && !Clean(ss[i])
    ensures Scan(From(ss, Start(ss, k)), Plain, b, ss[..k]) != ss
    decreases |ss| - k
  {
    hide Lines, Trim, Scan, Quiet;
    var s := ss[k];
    LineAt(ss, k);
    if Clean(s) {
      var more := Lines(ss)[Start(ss, k + 1)..];
      LineIsRead(s, more, b, ss[..k]);
      assert ss[..k] + [s] == ss[..k + 1];
      UncleanIsLost(ss, k + 1, "\n");
    } else {
      assert s[0..] == s && s[..0] == "";
      UncleanPlain(ss, k, 0);
      if b == "\n" {
        assert ['\n'] + "" == "\n";
        SpaceInFront(From(ss, Start(ss, k)), Plain, '\n', "", ss[..k]);
      }
    }
  }

  // Splitting what was printed from a list gives back the list exactly when
  // every statement of it is clean.
  lemma ListComesBack(ss: seq<string>)
    ensures Split(HEADER + Lines(ss)) == ss <==> forall i :: 0 <= i < |ss| ==> Clean(ss[i])
  {
    hide Lines, Trim, Scan, Clean;
    if forall i :: 0 <= i < |ss| ==> Clean(ss[i]) {
      AllClean(ss);
    } else if Split(HEADER + Lines(ss)) == ss {
      StatementsArePrintable(HEADER + Lines(ss));
      HeaderIsSkipped(Lines(ss));
      StartOfAll(ss);
      assert Lines(ss)[0..] == Lines(ss) && ss[..0] == [];
      UncleanIsLost(ss, 0, "");
      assert false;
    }
  }

  lemma PrintedComesBack(s: string)
    ensures Split(HEADER + Lines([s])) == [s] <==> Clean(s)
  {
    hide Lines, Scan, Clean;
    ListComesBack([s]);
    assert [s][0] == s;
  }

  lemma AllClean(ss: seq<string>)
    requires forall i :: 0 <= i < |ss| ==> Clean(ss[i])
    ensures Split(HEADER + Lines(ss)) == ss
  {
    hide Lines, Scan;
    forall i | 0 <= i < |ss| ensures Clean(Trim(ss[i])) {
      TrimFacts(ss[i]);
    }
    SplitPrinted(ss);
  }

  // Splitting is idempotent, up to printing, exactly on the texts whose
  // statements are all clean.
  lemma SplitAgain(text: string)
    ensures Split(HEADER + Lines(Split(text))) == Split(text)
            <==> forall i :: 0 <= i < |Split(text)| ==> Clean(Split(text)[i])
  {
    ListComesBack(Split(text));
  }
}
