// Rewriting the literals of a MySQL statement for SQLite: backslash escapes
// become plain characters, and hexadecimal numbers become blob literals.
module MySqlLiterals {
  import opened Hex

  // How many hexadecimal digits the text starts with.
  function HexRun(t: string): (n: nat)
    ensures n <= |t|
  {
    if |t| > 0 && IsHexDigit(t[0]) then 1 + HexRun(t[1..]) else 0
  }

  // The run is all digits, and no longer run is.
  lemma {:induction false} HexRunIsLongest(t: string)
    ensures var n := HexRun(t);
      (forall i :: 0 <= i < n ==> IsHexDigit(t[i])) && (n < |t| ==> !IsHexDigit(t[n]))
  {
    if |t| > 0 && IsHexDigit(t[0]) {
      HexRunIsLongest(t[1..]);
      assert forall i :: 0 < i < HexRun(t) ==> t[i] == t[1..][i - 1];
    }
  }

  // The length of the literal 0x... that the text starts with, or 0.
  function HexLength(t: string): (n: nat)
    ensures n <= |t| && (n > 0 ==> n > 2)
  {
    if |t| > 2 && t[0] == '0' && (t[1] == 'x' || t[1] == 'X') && HexRun(t[2..]) > 0 then 2 + HexRun(t[2..]) else 0
  }

  // ---------------------------------------------------------------------
  // The rewriting

  // The character that a backslash escape stands for.
  function Escaped(c: char): char {
    match c
    case 'n' => '\n'
    case 'r' => '\r'
    case 't' => '\t'
    case '0' => '\0'
    case _ => c
  }

  // One turn of the loop: what is written, how much is read, and whether a
  // string is open afterwards.
  datatype Turn = Turn(written: string, read: nat, inString: bool)

  function First(t: string, inString: bool): (turn: Turn)
    requires |t| > 0
    ensures 0 < turn.read <= |t|
  {
    if !inString then
      if t[0] == '\'' then Turn("'", 1, true)
      else if HexLength(t) > 0 then Turn("X'" + t[2..HexLength(t)] + "'", HexLength(t), false)
      else Turn([t[0]], 1, false)
    else if t[0] == '\\' && |t| > 1 then Turn(if t[1] == '\'' then "''" else [Escaped(t[1])], 2, true)
    else if t[0] == '\'' then
      if |t| > 1 && t[1] == '\'' then Turn("''", 2, true) else Turn("'", 1, false)
    else Turn([t[0]], 1, true)
  }

  function Rewrite(t: string, inString: bool): string
    decreases |t|
  {
    if |t| == 0 then ""
    else
      var turn := First(t, inString);
      turn.written + Rewrite(t[turn.read..], turn.inString)
  }

  method NormalizeMySQLLiterals(statement: string) returns (b: string)
    ensures b == Rewrite(statement, false)
  {
    hide Rewrite, HexRun;
    b := "";
    var inString := false;
    var i := 0;
    assert statement[0..] == statement;
    while i < |statement|
      invariant 0 <= i <= |statement|
      invariant b + Rewrite(statement[i..], inString) == Rewrite(statement, false)
    {
      TurnTaken(b, statement, i, inString);
      ghost var t := statement[i..];
      assert t[0] == statement[i];
      if i + 1 < |statement| {
        assert t[1] == statement[i + 1] && t[2..] == statement[i + 2..];
      }
      var ch := statement[i];
      if !inString {
        if ch == '\'' {
          inString := true;
          b := b + [ch];
          i := i + 1;
          assert First(t, false) == Turn("'", 1, true);
          continue;
        }
        if ch == '0' && i + 2 < |statement| && (statement[i + 1] == 'x' || statement[i + 1] == 'X') {
          var end := HexEnd(statement, i + 2);
          if end > i + 2 {
            assert t[2..HexLength(t)] == statement[i + 2..end];
            ghost var b0 := b;
            b := b + "X'";
            b := b + statement[i + 2..end];
            b := b + "'";
            assert b == b0 + First(t, false).written;
            i := end;
            continue;
          }
        }
        b := b + [ch];
        i := i + 1;
        assert First(t, false) == Turn([ch], 1, false);
        continue;
      }
      if ch == '\\' && i + 1 < |statement| {
        i := i + 1;
        match statement[i] {
          case '\'' => b := b + "''";
          case '\\' => b := b + ['\\'];
          case 'n' => b := b + ['\n'];
          case 'r' => b := b + ['\r'];
          case 't' => b := b + ['\t'];
          case '0' => b := b + ['\0'];
          case _ => b := b + [statement[i]];
        }
        i := i + 1;
        continue;
      }
      if ch == '\'' && i + 1 < |statement| && statement[i + 1] == '\'' {
        assert b + "''" == b + [ch] + [statement[i + 1]];
      }
      b := b + [ch];
      if ch == '\'' {
        if i + 1 < |statement| && statement[i + 1] == '\'' {
          i := i + 1;
          b := b + [statement[i]];
          i := i + 1;
          continue;
        }
        inString := false;
      }
      i := i + 1;
    }
    assert statement[i..] == "";
    NothingLeft(b, inString);
  }

  lemma NothingLeft(b: string, inString: bool)
    ensures b + Rewrite("", inString) == b
  {
  }

  lemma TurnTaken(b: string, s: string, i: nat, inString: bool)
    requires i < |s|
    ensures var turn := First(s[i..], inString);
      b + turn.written + Rewrite(s[i + turn.read..], turn.inString) == b + Rewrite(s[i..], inString)
  {
    hide First;
    var t := s[i..];
    var turn := First(t, inString);
    assert t[turn.read..] == s[i + turn.read..];
    var rest := Rewrite(t[turn.read..], turn.inString);
    assert Rewrite(t, inString) == turn.written + rest;
    assert b + turn.written + rest == b + (turn.written + rest);
  }

  method HexEnd(s: string, from: nat) returns (end: nat)
    requires from <= |s|
    ensures end == from + HexRun(s[from..])
  {
    end := from;
    while end < |s| && IsHexDigit(s[end])
      invariant from <= end <= |s|
      invariant end + HexRun(s[end..]) == from + HexRun(s[from..])
    {
      assert s[end..][1..] == s[end + 1..];
      end := end + 1;
    }
  }

  // ---------------------------------------------------------------------
  // What a statement says: plain characters, text in one of the three kinds of
  // quotes, binary values, NULL, and text that is still open at the end

  datatype Token =
    | Plain(c: char)
    | Text(quote: char, value: string)
    | Blob(digits: string)
    | Null
    | Illegal
    | Open(quote: char, value: string)

  // Where a reader is: between tokens, perhaps behind a character of a word, or
  // in quotes with what was read of the value.
  datatype Mode = Outside(word: bool) | Inside(quote: char, value: string)

  // One move of a reader: the tokens it makes, how much it reads, where it is
  // then. An illegal token ends the reading.
  datatype Move = Move(tokens: seq<Token>, read: nat, next: Mode) | Stop

  predicate IsQuote(c: char) { c == '\'' || c == '"' || c == '`' }

  predicate Proper(m: Mode) { m.Inside? ==> IsQuote(m.quote) }

  predicate IsWordChar(c: char) {
    'a' <= c <= 'z' || 'A' <= c <= 'Z' || '0' <= c <= '9' || c == '_' || c == '$' || c >= 128 as char
  }

  function AtEnd(m: Mode): seq<Token> {
    match m
    case Outside(_) => []
    case Inside(q, v) => [Open(q, v)]
  }

  // X'...': digits of even number, up to a quote.
  predicate StartsBlob(t: string) { |t| > 1 && (t[0] == 'x' || t[0] == 'X') && t[1] == '\'' }

  predicate BlobCloses(t: string)
    requires StartsBlob(t)
  {
    var n := HexRun(t[2..]);
    n % 2 == 0 && |t| > 2 + n && t[2 + n] == '\''
  }

  function BlobLength(t: string): (n: nat)
    requires StartsBlob(t) && BlobCloses(t)
    ensures 3 <= n <= |t|
  {
    3 + HexRun(t[2..])
  }

  predicate StartsWith(t: string, c: char) { |t| > 0 && t[0] == c }

  // MySQL (MySQL 5.7 Reference Manual, sections 9.1.1, 9.1.4, 9.1.7 and 9.2).

  // What a backslash and a character stand for in a string.
  function MyEscape(c: char): (e: string)
    ensures |e| > 0
  {
    match c
    case '0' => "\0"
    case 'b' => [8 as char]
    case 'n' => "\n"
    case 'r' => "\r"
    case 't' => "\t"
    case 'Z' => [26 as char]
    case '%' => "\\%"
    case '_' => "\\_"
    case _ => [c]
  }

  // 0x and digits up to the end of the word; the x is a small one.
  function NumberLength(t: string): (n: nat)
    ensures n <= |t| && (n > 0 ==> n > 2)
  {
    if |t| > 2 && t[0] == '0' && t[1] == 'x' then
      var n := 2 + HexRun(t[2..]);
      if n == 2 || (n < |t| && IsWordChar(t[n])) then 0 else n
    else 0
  }

  // A digit that is missing in front is a 0.
  function Padded(digits: string): string {
    if |digits| % 2 == 0 then digits else "0" + digits
  }

  function MySQLMove(t: string, m: Mode): (move: Move)
    requires |t| > 0 && Proper(m)
    ensures move.Move? ==> 0 < move.read <= |t| && Proper(move.next)
  {
    match m
    case Outside(word) =>
      if t[0] == '\\' then
        if |t| > 1 && t[1] == 'N' then Move([Null], 2, Outside(false)) else Stop
      else if t[0] == '\0' then Stop
      else if IsQuote(t[0]) then Move([], 1, Inside(t[0], ""))
      else if !word && StartsBlob(t) then
        if BlobCloses(t) then Move([Blob(t[2..BlobLength(t) - 1])], BlobLength(t), Outside(false)) else Stop
      else if !word && NumberLength(t) > 0 then
        Move([Blob(Padded(t[2..NumberLength(t)]))], NumberLength(t), Outside(false))
      else Move([Plain(t[0])], 1, Outside(IsWordChar(t[0])))
    case Inside(q, v) =>
      if q != '`' && t[0] == '\\' && |t| > 1 then Move([], 2, Inside(q, v + MyEscape(t[1])))
      else if t[0] != q then Move([], 1, Inside(q, v + [t[0]]))
      else if |t| > 1 && t[1] == q then Move([], 2, Inside(q, v + [q]))
      else Move([Text(q, v)], 1, Outside(false))
  }

  function ReadMySQL(t: string, m: Mode): seq<Token>
    requires Proper(m)
    decreases |t|
  {
    if |t| == 0 then AtEnd(m)
    else
      match MySQLMove(t, m)
      case Stop => [Illegal]
      case Move(tokens, read, next) => tokens + ReadMySQL(t[read..], next)
  }

  // SQLite: a doubled quote is the only escape, and a NUL ends the text. Its
  // documentation calls a blob literal a string literal with an X in front, so
  // that a doubled quote would belong to it; its tokenizer ends the literal at
  // the first quote. The flag chooses between the two.

  function SQLiteMove(t: string, m: Mode, blobEnds: bool): (move: Move)
    requires |t| > 0 && Proper(m)
    ensures move.Move? ==> 0 < move.read <= |t| && Proper(move.next)
  {
    match m
    case Outside(word) =>
      if t[0] == '\\' then Stop
      else if IsQuote(t[0]) then Move([], 1, Inside(t[0], ""))
      else if !word && StartsBlob(t) then
        if BlobCloses(t) && (blobEnds || !StartsWith(t[BlobLength(t)..], '\'')) then
          Move([Blob(t[2..BlobLength(t) - 1])], BlobLength(t), Outside(false))
        else Stop
      else Move([Plain(t[0])], 1, Outside(IsWordChar(t[0])))
    case Inside(q, v) =>
      if t[0] != q then Move([], 1, Inside(q, v + [t[0]]))
      else if |t| > 1 && t[1] == q then Move([], 2, Inside(q, v + [q]))
      else Move([Text(q, v)], 1, Outside(false))
  }

  function ReadSQLite(t: string, m: Mode, blobEnds: bool): seq<Token>
    requires Proper(m)
    decreases |t|
  {
    if |t| == 0 || t[0] == '\0' then AtEnd(m)
    else
      match SQLiteMove(t, m, blobEnds)
      case Stop => [Illegal]
      case Move(tokens, read, next) => tokens + ReadSQLite(t[read..], next, blobEnds)
  }

  // ---------------------------------------------------------------------
  // When the rewritten statement says to SQLite what the statement says to MySQL

  // MySQL can read the text.
  predicate Readable(t: string, m: Mode)
    requires Proper(m)
  {
    Illegal !in ReadMySQL(t, m)
  }

  // Whether the rewriting takes itself to be in a string, behind what a reader
  // read at once. It counts single quotes, also those inside other quotes.
  predicate StringAfter(t: string, read: nat, inString: bool)
    requires |t| > 0
  {
    if t[0] == '\'' && read == 1 then !inString else inString
  }

  // What the rewriting gets right outside quotes. Not \N. Where it looks for 0x
  // and digits: what is a literal of MySQL too (not in a word, not with a
  // capital X), of an even number of digits, with no quote behind it unless
  // SQLite ends it before the quote. Where it takes itself to be in a string:
  // everything but such literals.
  predicate KeepsOutside(t: string, word: bool, inString: bool, blobEnds: bool)
    requires |t| > 0
  {
    && t[0] != '\\'
    && (!inString && HexLength(t) > 0 ==>
          && !word && NumberLength(t) == HexLength(t) && HexLength(t) % 2 == 0
          && (blobEnds || !StartsWith(t[HexLength(t)..], '\'')))
    && (inString && !word ==> NumberLength(t) == 0)
    && (!word && StartsBlob(t) && BlobCloses(t) ==> blobEnds || !StartsWith(t[BlobLength(t)..], '\''))
  }

  // Inside quotes: no NUL. Where it takes itself to be in a string: escapes that
  // mean the character, or n, r and t; in double quotes not those of quotes, and
  // none in backquotes, where a backslash is a character. Elsewhere: no 0x and
  // digits, and of escapes those only that keep their backslash.
  predicate KeepsInside(t: string, quote: char, inString: bool)
    requires |t| > 0
  {
    && t[0] != '\0'
    && (!inString ==> HexLength(t) == 0)
    && (t[0] == '\\' && |t| > 1 ==>
          if inString then quote != '`' && t[1] !in "bZ%_0\0" && (quote == '"' ==> !IsQuote(t[1]) || t[1] == '`')
          else quote == '`' || t[1] == '%' || t[1] == '_')
  }

  predicate KeepsHere(t: string, m: Mode, inString: bool, blobEnds: bool)
    requires |t| > 0
  {
    match m
    case Outside(word) => KeepsOutside(t, word, inString, blobEnds)
    case Inside(q, _) => KeepsInside(t, q, inString)
  }

  // The same at every place that MySQL reads from.
  predicate Keeps(t: string, m: Mode, inString: bool, blobEnds: bool)
    requires Proper(m)
    decreases |t|
  {
    |t| == 0 ||
    (KeepsHere(t, m, inString, blobEnds) &&
     match MySQLMove(t, m)
     case Stop => true
     case Move(_, read, next) => Keeps(t[read..], next, StringAfter(t, read, inString), blobEnds))
  }

  // The rewritten statement says to SQLite what the statement says to MySQL,
  // exactly when the rewriting gets everything in it right.
  lemma RewriteKeepsMeaning(statement: string, blobEnds: bool)
    requires Readable(statement, Outside(false))
    ensures ReadSQLite(Rewrite(statement, false), Outside(false), blobEnds) == ReadMySQL(statement, Outside(false))
      <==> Keeps(statement, Outside(false), false, blobEnds)
  {
    hide Rewrite, Readable, ReadSQLite, ReadMySQL, Keeps;
    RestKeepsMeaning(statement, Outside(false), false, blobEnds);
  }

  // The same from every place of the reading, in step with the rewriting or not.
  lemma {:induction false} RestKeepsMeaning(t: string, m: Mode, inString: bool, blobEnds: bool)
    requires Proper(m) && Readable(t, m)
    ensures ReadSQLite(Rewrite(t, inString), m, blobEnds) == ReadMySQL(t, m) <==> Keeps(t, m, inString, blobEnds)
    decreases |t|
  {
    hide Rewrite, ReadSQLite, MySQLMove, KeepsHere, HexRun, StringAfter;
    if |t| == 0 {
      NothingIsRead(m, inString, blobEnds);
      return;
    }
    Stopped(t, m);
    var move := MySQLMove(t, m);
    var rest, after := t[move.read..], StringAfter(t, move.read, inString);
    assert Readable(rest, move.next) by {
      assert forall x :: x in ReadMySQL(rest, move.next) ==> x in ReadMySQL(t, m);
    }
    if !KeepsHere(t, m, inString, blobEnds) {
      OutOfStep(t, m, inString, blobEnds);
      return;
    }
    ReadableStart(rest, move.next);
    InStep(t, m, inString, blobEnds);
    RestKeepsMeaning(rest, move.next, after, blobEnds);
    SameTail(move.tokens, ReadSQLite(Rewrite(rest, after), move.next, blobEnds), ReadMySQL(rest, move.next));
  }

  lemma NothingIsRead(m: Mode, inString: bool, blobEnds: bool)
    requires Proper(m)
    ensures ReadSQLite(Rewrite("", inString), m, blobEnds) == AtEnd(m)
  {
  }

  lemma Stopped(t: string, m: Mode)
    requires |t| > 0 && Proper(m)
    ensures MySQLMove(t, m).Stop? ==> !Readable(t, m)
  {
    hide MySQLMove;
    assert Illegal in [Illegal];
  }

  lemma SameTail(x: seq<Token>, s: seq<Token>, t: seq<Token>)
    ensures x + s == x + t <==> s == t
  {
    assert (x + s)[|x|..] == s && (x + t)[|x|..] == t;
  }

  // Outside quotes, MySQL reads no backslash but that of \N.
  predicate Unescaped(t: string) { |t| > 0 && t[0] == '\\' ==> |t| > 1 && t[1] == 'N' }

  lemma ReadableStart(t: string, m: Mode)
    requires Proper(m) && Readable(t, m)
    ensures m.Outside? ==> Unescaped(t)
  {
    if |t| > 0 {
      Stopped(t, m);
    }
  }

  // ---------------------------------------------------------------------
  // What is written

  // A character that is passed on.
  lemma PassedOn(t: string, inString: bool)
    requires |t| > 0
    requires if inString then t[0] != '\\' || |t| == 1 else HexLength(t) == 0
    ensures Rewrite(t, inString) == [t[0]] + Rewrite(t[1..], if t[0] == '\'' then !inString else inString)
  {
    hide HexRun;
    if inString && StartsWith(t, '\'') && |t| > 1 && t[1] == '\'' {
      assert t[1..][1..] == t[2..];
      assert Rewrite(t[1..], false) == "'" + Rewrite(t[2..], true);
      assert "''" + Rewrite(t[2..], true) == "'" + ("'" + Rewrite(t[2..], true));
    }
  }

  lemma QuotePassedOn(t: string, inString: bool)
    requires |t| > 0 && IsQuote(t[0])
    ensures Rewrite(t, inString) == [t[0]] + Rewrite(t[1..], if t[0] == '\'' then !inString else inString)
  {
    hide Rewrite;
    PassedOn(t, inString);
  }

  lemma EscapeWritten(t: string)
    requires |t| > 1 && t[0] == '\\'
    ensures Rewrite(t, true) == (if t[1] == '\'' then "''" else [Escaped(t[1])]) + Rewrite(t[2..], true)
  {
  }

  lemma NumberWritten(t: string)
    requires HexLength(t) > 0
    ensures IsHex(t[2..HexLength(t)])
    ensures Rewrite(t, false) == "X" + ("'" + (t[2..HexLength(t)] + ("'" + Rewrite(t[HexLength(t)..], false))))
  {
    hide HexRun;
    var d, u := t[2..HexLength(t)], "'" + Rewrite(t[HexLength(t)..], false);
    HexRunIsLongest(t[2..]);
    assert forall i :: 0 <= i < |d| ==> d[i] == t[2..][i];
    assert "X'" + (d + u) == "X" + ("'" + (d + u));
  }

  lemma {:induction false} DigitsWritten(d: string, rest: string, inString: bool)
    requires IsHex(d) && StartsWith(rest, '\'')
    ensures Rewrite(d + rest, inString) == d + Rewrite(rest, inString)
    decreases |d|
  {
    hide Rewrite, HexRun;
    if |d| == 0 {
      assert d + rest == rest;
    } else {
      var t := d + rest;
      assert t[1..] == d[1..] + rest;
      assert |t| > 1 && (IsHexDigit(t[1]) || t[1] == '\'');
      PassedOn(t, inString);
      DigitsWritten(d[1..], rest, inString);
      assert [d[0]] + (d[1..] + Rewrite(rest, inString)) == d + Rewrite(rest, inString);
    }
  }

  lemma BlobWritten(t: string, inString: bool)
    requires StartsBlob(t) && BlobCloses(t)
    ensures IsHex(t[2..BlobLength(t) - 1])
    ensures Rewrite(t, inString)
      == [t[0]] + ("'" + (t[2..BlobLength(t) - 1] + ("'" + Rewrite(t[BlobLength(t)..], inString))))
  {
    hide Rewrite, HexRun;
    var n := BlobLength(t);
    var d := t[2..n - 1];
    HexRunIsLongest(t[2..]);
    assert forall i :: 0 <= i < |d| ==> d[i] == t[2..][i];
    PassedOn(t, inString);
    QuotePassedOn(t[1..], inString);
    assert t[1..][1..] == d + t[n - 1..];
    DigitsWritten(d, t[n - 1..], !inString);
    QuotePassedOn(t[n - 1..], !inString);
    assert t[n - 1..][1..] == t[n..];
  }

  // Outside quotes, what is written starts with a quote where the text does.
  lemma QuoteStays(t: string, inString: bool, q: char)
    requires IsQuote(q) && Unescaped(t)
    ensures StartsWith(Rewrite(t, inString), q) <==> StartsWith(t, q)
  {
    hide HexRun;
  }

  lemma {:induction false} RunUpToQuote(d: string, rest: string)
    requires IsHex(d)
    ensures HexRun(d + ("'" + rest)) == |d|
    decreases |d|
  {
    var t := d + ("'" + rest);
    if |d| == 0 {
      assert t == "'" + rest;
    } else {
      assert t[1..] == d[1..] + ("'" + rest);
      RunUpToQuote(d[1..], rest);
    }
  }

  // ---------------------------------------------------------------------
  // What SQLite reads

  lemma CharIsRead(c: char, u: string, q: char, v: string, blobEnds: bool)
    requires IsQuote(q) && c != '\0' && c != q
    ensures ReadSQLite([c] + u, Inside(q, v), blobEnds) == ReadSQLite(u, Inside(q, v + [c]), blobEnds)
  {
    assert ([c] + u)[1..] == u;
  }

  lemma DoubledIsRead(q: char, u: string, v: string, blobEnds: bool)
    requires IsQuote(q)
    ensures ReadSQLite([q] + ([q] + u), Inside(q, v), blobEnds) == ReadSQLite(u, Inside(q, v + [q]), blobEnds)
  {
    assert ([q] + ([q] + u))[2..] == u;
  }

  lemma EndIsRead(q: char, u: string, v: string, blobEnds: bool)
    requires IsQuote(q) && (|u| > 0 ==> u[0] != q)
    ensures ReadSQLite([q] + u, Inside(q, v), blobEnds) == [Text(q, v)] + ReadSQLite(u, Outside(false), blobEnds)
  {
    assert ([q] + u)[1..] == u;
  }

  lemma StartIsRead(q: char, u: string, word: bool, blobEnds: bool)
    requires IsQuote(q)
    ensures ReadSQLite([q] + u, Outside(word), blobEnds) == ReadSQLite(u, Inside(q, ""), blobEnds)
  {
    assert ([q] + u)[1..] == u;
  }

  lemma PlainIsRead(c: char, u: string, word: bool, blobEnds: bool)
    requires c != '\0' && c != '\\' && !IsQuote(c) && (word || !StartsBlob([c] + u))
    ensures ReadSQLite([c] + u, Outside(word), blobEnds)
      == [Plain(c)] + ReadSQLite(u, Outside(IsWordChar(c)), blobEnds)
  {
    assert ([c] + u)[1..] == u;
  }

  lemma BlobIsRead(x: char, d: string, u: string, blobEnds: bool)
    requires (x == 'x' || x == 'X') && IsHex(d)
    ensures ReadSQLite([x] + ("'" + (d + ("'" + u))), Outside(false), blobEnds)
      == if |d| % 2 == 0 && (blobEnds || !StartsWith(u, '\''))
         then [Blob(d)] + ReadSQLite(u, Outside(false), blobEnds) else [Illegal]
  {
    hide HexRun, StartsWith, StartsBlob, BlobCloses, BlobLength;
    BlobSpelled(x, d, u);
  }

  lemma BlobSpelled(x: char, d: string, u: string)
    requires (x == 'x' || x == 'X') && IsHex(d)
    ensures var t := [x] + ("'" + (d + ("'" + u)));
      && t[0] == x
      && StartsBlob(t)
      && (BlobCloses(t) <==> |d| % 2 == 0)
      && (BlobCloses(t) ==> t[2..BlobLength(t) - 1] == d && t[BlobLength(t)..] == u)
  {
    hide HexRun;
    var t := [x] + ("'" + (d + ("'" + u)));
    assert t[2..] == d + ("'" + u);
    RunUpToQuote(d, u);
    assert t[2..2 + |d|] == d && t[2 + |d|] == '\'' && t[3 + |d|..] == u;
  }

  // ---------------------------------------------------------------------
  // In step: both readers make the same tokens and come to the same place

  // SQLite makes the tokens that one move of MySQL makes.
  ghost predicate SameMove(t: string, m: Mode, inString: bool, blobEnds: bool)
    requires |t| > 0 && Proper(m)
  {
    var move := MySQLMove(t, m);
    move.Move? &&
    var rest := Rewrite(t[move.read..], StringAfter(t, move.read, inString));
    ReadSQLite(Rewrite(t, inString), m, blobEnds) == move.tokens + ReadSQLite(rest, move.next, blobEnds)
  }

  // Behind the move, MySQL reads no escape outside quotes.
  predicate GoesOn(t: string, m: Mode)
    requires |t| > 0 && Proper(m)
  {
    var move := MySQLMove(t, m);
    move.Move? && (move.next.Outside? ==> Unescaped(t[move.read..]))
  }

  lemma InStep(t: string, m: Mode, inString: bool, blobEnds: bool)
    requires |t| > 0 && Proper(m) && GoesOn(t, m) && KeepsHere(t, m, inString, blobEnds)
    ensures SameMove(t, m, inString, blobEnds)
  {
    hide MySQLMove, SameMove, KeepsOutside, KeepsInside, GoesOn;
    match m
    case Outside(word) =>
      OutsideInStep(t, word, inString, blobEnds);
    case Inside(q, v) =>
      InsideInStep(t, q, v, inString, blobEnds);
  }

  lemma OutsideInStep(t: string, word: bool, inString: bool, blobEnds: bool)
    requires |t| > 0 && GoesOn(t, Outside(word)) && KeepsOutside(t, word, inString, blobEnds)
    ensures SameMove(t, Outside(word), inString, blobEnds)
  {
    hide Rewrite, ReadSQLite, HexRun, HexLength, NumberLength, StartsWith, BlobCloses, BlobLength, SameMove,
         Unescaped;
    if IsQuote(t[0]) {
      OpeningInStep(t, word, inString, blobEnds);
    } else if !word && StartsBlob(t) {
      BlobInStep(t, inString, blobEnds);
    } else if !word && NumberLength(t) > 0 {
      NumberInStep(t, blobEnds);
    } else {
      PlainInStep(t, word, inString, blobEnds);
    }
  }

  lemma OpeningInStep(t: string, word: bool, inString: bool, blobEnds: bool)
    requires |t| > 0 && IsQuote(t[0])
    ensures SameMove(t, Outside(word), inString, blobEnds)
  {
    hide Rewrite, ReadSQLite;
    QuotePassedOn(t, inString);
    StartIsRead(t[0], Rewrite(t[1..], if t[0] == '\'' then !inString else inString), word, blobEnds);
  }

  lemma BlobInStep(t: string, inString: bool, blobEnds: bool)
    requires StartsBlob(t) && BlobCloses(t) && GoesOn(t, Outside(false)) && KeepsOutside(t, false, inString, blobEnds)
    ensures SameMove(t, Outside(false), inString, blobEnds)
  {
    hide Rewrite, ReadSQLite, HexRun, HexLength, NumberLength, Unescaped;
    BlobWritten(t, inString);
    var rest := t[BlobLength(t)..];
    QuoteStays(rest, inString, '\'');
    BlobIsRead(t[0], t[2..BlobLength(t) - 1], Rewrite(rest, inString), blobEnds);
  }

  lemma NumberInStep(t: string, blobEnds: bool)
    requires NumberLength(t) > 0 && GoesOn(t, Outside(false)) && KeepsOutside(t, false, false, blobEnds)
    ensures SameMove(t, Outside(false), false, blobEnds)
  {
    hide Rewrite, ReadSQLite, HexRun, Unescaped;
    var n := HexLength(t);
    assert n == NumberLength(t);
    NumberWritten(t);
    QuoteStays(t[n..], false, '\'');
    BlobIsRead('X', t[2..n], Rewrite(t[n..], false), blobEnds);
  }

  lemma PlainInStep(t: string, word: bool, inString: bool, blobEnds: bool)
    requires |t| > 0 && MySQLMove(t, Outside(word)) == Move([Plain(t[0])], 1, Outside(IsWordChar(t[0])))
    requires Unescaped(t[1..]) && KeepsOutside(t, word, inString, blobEnds)
    ensures SameMove(t, Outside(word), inString, blobEnds)
  {
    hide Rewrite, ReadSQLite, HexRun, HexLength;
    var u := Rewrite(t[1..], inString);
    PlainIsPlain(t, word, inString, blobEnds);
    PassedOn(t, inString);
    QuoteStays(t[1..], inString, '\'');
    assert StartsBlob([t[0]] + u) ==> StartsWith(u, '\'');
    PlainIsRead(t[0], u, word, blobEnds);
  }

  lemma PlainIsPlain(t: string, word: bool, inString: bool, blobEnds: bool)
    requires |t| > 0 && KeepsOutside(t, word, inString, blobEnds)
    requires MySQLMove(t, Outside(word)) == Move([Plain(t[0])], 1, Outside(IsWordChar(t[0])))
    ensures inString || HexLength(t) == 0
    ensures t[0] != '\0' && t[0] != '\\' && !IsQuote(t[0]) && (word || !StartsBlob(t))
  {
    hide HexRun, BlobCloses, StartsWith, BlobLength;
  }

  lemma InsideInStep(t: string, q: char, v: string, inString: bool, blobEnds: bool)
    requires |t| > 0 && IsQuote(q) && GoesOn(t, Inside(q, v)) && KeepsInside(t, q, inString)
    ensures SameMove(t, Inside(q, v), inString, blobEnds)
  {
    hide Rewrite, ReadSQLite, HexRun, HexLength, Unescaped;
    if q != '`' && t[0] == '\\' && |t| > 1 {
      EscapeInStep(t, q, v, inString, blobEnds);
      return;
    }
    PassedOn(t, inString);
    var after := if t[0] == '\'' then !inString else inString;
    var u := Rewrite(t[1..], after);
    if t[0] != q {
      CharIsRead(t[0], u, q, v, blobEnds);
    } else if |t| > 1 && t[1] == q {
      QuotePassedOn(t[1..], after);
      assert t[1..][1..] == t[2..];
      DoubledIsRead(q, Rewrite(t[2..], inString), v, blobEnds);
    } else {
      QuoteStays(t[1..], after, q);
      EndIsRead(q, u, v, blobEnds);
    }
  }

  lemma EscapeInStep(t: string, q: char, v: string, inString: bool, blobEnds: bool)
    requires |t| > 1 && t[0] == '\\' && IsQuote(q) && q != '`' && KeepsInside(t, q, inString)
    ensures SameMove(t, Inside(q, v), inString, blobEnds)
  {
    hide Rewrite, ReadSQLite, HexRun;
    if inString {
      StringEscapeInStep(t, q, v, blobEnds);
    } else {
      WildcardInStep(t, q, v, blobEnds);
    }
  }

  lemma StringEscapeInStep(t: string, q: char, v: string, blobEnds: bool)
    requires |t| > 1 && t[0] == '\\' && IsQuote(q) && KeepsInside(t, q, true)
    ensures SameMove(t, Inside(q, v), true, blobEnds)
  {
    hide Rewrite, ReadSQLite, Escaped, MyEscape;
    EscapeWritten(t);
    var u := Rewrite(t[2..], true);
    SameEscape(t[1]);
    if t[1] == '\'' {
      assert "''" + u == "'" + ("'" + u);
      DoubledIsRead('\'', u, v, blobEnds);
    } else {
      CharIsRead(Escaped(t[1]), u, q, v, blobEnds);
    }
  }

  lemma SameEscape(c: char)
    requires c !in "bZ%_0\0"
    ensures MyEscape(c) == [Escaped(c)] && Escaped(c) != '\0'
    ensures forall q :: IsQuote(q) ==> (Escaped(c) == q <==> c == q)
  {
    assert 'b' in "bZ%_0\0" && 'Z' in "bZ%_0\0" && '%' in "bZ%_0\0" && '_' in "bZ%_0\0" && '0' in "bZ%_0\0";
    assert "bZ%_0\0"[5] == '\0';
  }

  // \% and \_ keep their backslash on both sides.
  lemma WildcardInStep(t: string, q: char, v: string, blobEnds: bool)
    requires |t| > 1 && t[0] == '\\' && (t[1] == '%' || t[1] == '_') && (q == '\'' || q == '"')
    ensures SameMove(t, Inside(q, v), false, blobEnds)
  {
    hide Rewrite, ReadSQLite, HexRun;
    PassedOn(t, false);
    PassedOn(t[1..], false);
    assert t[1..][1..] == t[2..];
    var u := Rewrite(t[2..], false);
    CharIsRead('\\', [t[1]] + u, q, v, blobEnds);
    CharIsRead(t[1], u, q, v + "\\", blobEnds);
    assert v + "\\" + [t[1]] == v + MyEscape(t[1]);
  }

  // ---------------------------------------------------------------------
  // Out of step: the first tokens differ

  predicate FirstExtends(ts: seq<Token>, q: char, v: string) {
    |ts| > 0 && (ts[0].Text? || ts[0].Open?) && ts[0].quote == q && v <= ts[0].value
  }

  // The token being read keeps all that was read of it,
  lemma {:induction false} TextGrows(t: string, q: char, v: string, blobEnds: bool)
    requires IsQuote(q)
    ensures FirstExtends(ReadSQLite(t, Inside(q, v), blobEnds), q, v)
    decreases |t|
  {
    if |t| == 0 || t[0] == '\0' {
    } else if t[0] != q {
      TextGrows(t[1..], q, v + [t[0]], blobEnds);
    } else if |t| > 1 && t[1] == q {
      TextGrows(t[2..], q, v + [q], blobEnds);
    }
  }

  // for MySQL too,
  lemma {:induction false} MyTextGrows(t: string, q: char, v: string)
    requires IsQuote(q)
    ensures FirstExtends(ReadMySQL(t, Inside(q, v)), q, v)
    decreases |t|
  {
    hide MyEscape;
    if |t| == 0 {
    } else if q != '`' && t[0] == '\\' && |t| > 1 {
      MyTextGrows(t[2..], q, v + MyEscape(t[1]));
    } else if t[0] != q {
      MyTextGrows(t[1..], q, v + [t[0]]);
    } else if |t| > 1 && t[1] == q {
      MyTextGrows(t[2..], q, v + [q]);
    }
  }

  // and goes on with the first character of the text, or ends.
  lemma NextChar(t: string, q: char, v: string, blobEnds: bool)
    requires IsQuote(q)
    ensures var ts := ReadSQLite(t, Inside(q, v), blobEnds);
      && FirstExtends(ts, q, v)
      && (|ts[0].value| > |v| ==> |t| > 0 && t[0] != '\0' && ts[0].value[|v|] == t[0])
      && (ts[0] == Text(q, v) ==> StartsWith(t, q))
  {
    hide FirstExtends;
    if |t| == 0 || t[0] == '\0' {
      TextGrows(t, q, v, blobEnds);
    } else if t[0] != q {
      TextGrows(t[1..], q, v + [t[0]], blobEnds);
      Extends(ReadSQLite(t, Inside(q, v), blobEnds), q, v, t[0]);
    } else if |t| > 1 && t[1] == q {
      TextGrows(t[2..], q, v + [q], blobEnds);
      Extends(ReadSQLite(t, Inside(q, v), blobEnds), q, v, q);
    } else {
      TextGrows(t, q, v, blobEnds);
    }
  }

  lemma Extends(ts: seq<Token>, q: char, v: string, c: char)
    requires FirstExtends(ts, q, v + [c])
    ensures FirstExtends(ts, q, v) && |ts[0].value| > |v| && ts[0].value[|v|] == c
  {
    assert v <= v + [c];
  }

  // SQLite reads another character than MySQL, or none.
  lemma CharDiffers(s: string, ts: seq<Token>, q: char, v: string, e: string, blobEnds: bool)
    requires IsQuote(q) && |e| > 0 && FirstExtends(ts, q, v + e)
    requires |s| > 0 && s[0] != '\0' ==> s[0] != e[0]
    ensures ReadSQLite(s, Inside(q, v), blobEnds) != ts
  {
    hide ReadSQLite;
    NextChar(s, q, v, blobEnds);
    assert ts[0].value[|v|] == e[0];
  }

  lemma EscapeIsRead(t: string, q: char, v: string)
    requires |t| > 1 && t[0] == '\\' && (q == '\'' || q == '"')
    ensures FirstExtends(ReadMySQL(t, Inside(q, v)), q, v + MyEscape(t[1]))
    ensures ReadMySQL(t, Inside(q, v)) == ReadMySQL(t[2..], Inside(q, v + MyEscape(t[1])))
  {
    hide MyEscape;
    MyTextGrows(t[2..], q, v + MyEscape(t[1]));
  }

  lemma MyCharIsRead(t: string, q: char, v: string)
    requires |t| > 0 && IsQuote(q) && t[0] != q && (t[0] != '\\' || |t| == 1 || q == '`')
    ensures FirstExtends(ReadMySQL(t, Inside(q, v)), q, v + [t[0]])
    ensures ReadMySQL(t, Inside(q, v)) == ReadMySQL(t[1..], Inside(q, v + [t[0]]))
  {
    MyTextGrows(t[1..], q, v + [t[0]]);
  }

  lemma OutOfStep(t: string, m: Mode, inString: bool, blobEnds: bool)
    requires |t| > 0 && Proper(m) && MySQLMove(t, m).Move? && Readable(t, m)
    requires !KeepsHere(t, m, inString, blobEnds)
    ensures ReadSQLite(Rewrite(t, inString), m, blobEnds) != ReadMySQL(t, m)
  {
    hide ReadSQLite, ReadMySQL, MySQLMove, KeepsOutside, KeepsInside, Rewrite, Readable;
    match m
    case Outside(word) =>
      OutsideOutOfStep(t, word, inString, blobEnds);
    case Inside(q, v) =>
      InsideOutOfStep(t, q, v, inString, blobEnds);
  }

  lemma OutsideOutOfStep(t: string, word: bool, inString: bool, blobEnds: bool)
    requires |t| > 0 && MySQLMove(t, Outside(word)).Move? && !KeepsOutside(t, word, inString, blobEnds)
    ensures ReadSQLite(Rewrite(t, inString), Outside(word), blobEnds) != ReadMySQL(t, Outside(word))
  {
    hide Rewrite, ReadSQLite, ReadMySQL, HexRun, HexLength, NumberLength, StartsWith, BlobCloses, BlobLength;
    if t[0] != '0' {
      NotHex(t);
    }
    if t[0] == '\\' {
      NullOutOfStep(t, word, inString, blobEnds);
    } else if !word && StartsBlob(t) {
      BlobOutOfStep(t, inString, blobEnds);
    } else if inString {
      NumberStaysOutOfStep(t, blobEnds);
    } else if !word && NumberLength(t) > 0 {
      NumberOutOfStep(t, blobEnds);
    } else {
      WordOutOfStep(t, word, blobEnds);
    }
  }

  // \N is NULL to MySQL only.
  lemma NullOutOfStep(t: string, word: bool, inString: bool, blobEnds: bool)
    requires |t| > 1 && t[0] == '\\' && t[1] == 'N'
    ensures ReadSQLite(Rewrite(t, inString), Outside(word), blobEnds) != ReadMySQL(t, Outside(word))
  {
    hide Rewrite, HexRun;
    if inString {
      EscapeWritten(t);
    } else {
      PassedOn(t, false);
    }
    assert ReadMySQL(t, Outside(word))[0] == Null;
  }

  // A quote follows the literal, and SQLite does not end it there.
  lemma BlobOutOfStep(t: string, inString: bool, blobEnds: bool)
    requires StartsBlob(t) && BlobCloses(t) && !blobEnds && StartsWith(t[BlobLength(t)..], '\'')
    ensures ReadSQLite(Rewrite(t, inString), Outside(false), blobEnds) != ReadMySQL(t, Outside(false))
  {
    hide Rewrite, ReadSQLite, HexRun, NumberLength;
    BlobWritten(t, inString);
    var rest := t[BlobLength(t)..];
    QuoteStays(rest, inString, '\'');
    BlobIsRead(t[0], t[2..BlobLength(t) - 1], Rewrite(rest, inString), blobEnds);
    assert ReadMySQL(t, Outside(false))[0].Blob?;
  }

  // A 0x literal that is not rewritten.
  lemma NumberStaysOutOfStep(t: string, blobEnds: bool)
    requires NumberLength(t) > 0
    ensures ReadSQLite(Rewrite(t, true), Outside(false), blobEnds) != ReadMySQL(t, Outside(false))
  {
    hide Rewrite, HexRun;
    PassedOn(t, true);
    assert ReadMySQL(t, Outside(false))[0].Blob?;
  }

  // One with an odd number of digits, or with a quote behind it.
  lemma NumberOutOfStep(t: string, blobEnds: bool)
    requires NumberLength(t) > 0 && !KeepsOutside(t, false, false, blobEnds)
    ensures ReadSQLite(Rewrite(t, false), Outside(false), blobEnds) != ReadMySQL(t, Outside(false))
  {
    hide Rewrite, ReadSQLite, HexRun;
    var n := HexLength(t);
    assert n == NumberLength(t);
    NumberWritten(t);
    if StartsWith(t[n..], '\'') {
      QuoteStays(t[n..], false, '\'');
    }
    BlobIsRead('X', t[2..n], Rewrite(t[n..], false), blobEnds);
    assert ReadMySQL(t, Outside(false))[0].Blob?;
  }

  // 0x and digits that are plain characters to MySQL.
  lemma WordOutOfStep(t: string, word: bool, blobEnds: bool)
    requires HexLength(t) > 0 && (word || NumberLength(t) == 0)
    ensures ReadSQLite(Rewrite(t, false), Outside(word), blobEnds) != ReadMySQL(t, Outside(word))
  {
    hide Rewrite, HexRun, NumberLength, BlobCloses, BlobLength, StartsWith;
    NumberWritten(t);
    var s := ReadSQLite(Rewrite(t, false), Outside(word), blobEnds);
    assert s[0] == Plain('X') || s[0].Blob? || s[0] == Illegal;
    assert ReadMySQL(t, Outside(word))[0] == Plain('0');
  }

  lemma InsideOutOfStep(t: string, q: char, v: string, inString: bool, blobEnds: bool)
    requires |t| > 0 && IsQuote(q) && Readable(t, Inside(q, v)) && !KeepsInside(t, q, inString)
    ensures ReadSQLite(Rewrite(t, inString), Inside(q, v), blobEnds) != ReadMySQL(t, Inside(q, v))
  {
    hide Rewrite, ReadSQLite, ReadMySQL, HexRun, HexLength, FirstExtends, Readable;
    if t[0] == '\0' {
      MyCharIsRead(t, q, v);
      PassedOn(t, inString) by { NotHex(t); }
      CharDiffers(Rewrite(t, inString), ReadMySQL(t, Inside(q, v)), q, v, "\0", blobEnds);
    } else if !inString && HexLength(t) > 0 {
      NumberInTextOutOfStep(t, q, v, blobEnds);
    } else if !inString {
      BackslashOutOfStep(t, q, v, blobEnds);
    } else if q == '`' {
      Behind(t, v, v, blobEnds);
    } else if q == '"' && t[1] == '"' {
      QuoteOutOfStep(t, v, blobEnds);
    } else {
      EscapeOutOfStep(t, q, v, blobEnds);
    }
  }

  lemma NotHex(t: string)
    requires |t| > 0 && t[0] != '0'
    ensures HexLength(t) == 0 && NumberLength(t) == 0
  {
  }

  lemma NumberInTextOutOfStep(t: string, q: char, v: string, blobEnds: bool)
    requires HexLength(t) > 0 && IsQuote(q)
    ensures ReadSQLite(Rewrite(t, false), Inside(q, v), blobEnds) != ReadMySQL(t, Inside(q, v))
  {
    hide Rewrite, HexRun, ReadSQLite, ReadMySQL, FirstExtends;
    NumberWritten(t);
    MyCharIsRead(t, q, v);
    CharDiffers(Rewrite(t, false), ReadMySQL(t, Inside(q, v)), q, v, "0", blobEnds);
  }

  // An escape that the rewriting knows otherwise, or of the other quote.
  lemma EscapeOutOfStep(t: string, q: char, v: string, blobEnds: bool)
    requires |t| > 1 && t[0] == '\\' && (q == '\'' || q == '"') && !(q == '"' && t[1] == '"')
    requires !KeepsInside(t, q, true)
    ensures ReadSQLite(Rewrite(t, true), Inside(q, v), blobEnds) != ReadMySQL(t, Inside(q, v))
  {
    hide Rewrite, ReadSQLite, ReadMySQL, MyEscape, Escaped, HexRun, FirstExtends;
    EscapeWritten(t);
    EscapeIsRead(t, q, v);
    if t[1] in "bZ%_0\0" {
      OtherEscape(t[1]);
      CharDiffers(Rewrite(t, true), ReadMySQL(t, Inside(q, v)), q, v, MyEscape(t[1]), blobEnds);
    } else {
      SameEscape(t[1]);
      var u := Rewrite(t[2..], true);
      assert "''" + u == "'" + ("'" + u);
      CharIsRead('\'', "'" + u, '"', v, blobEnds);
      CharIsRead('\'', u, '"', v + "'", blobEnds);
      assert v + "'" + "'" == v + "'" + "'";
      Pending(t[2..], '"', v + "'", "'", true, blobEnds);
    }
  }

  lemma OtherEscape(c: char)
    requires c in "bZ%_0\0"
    ensures Escaped(c) != '\'' && (Escaped(c) == '\0' || MyEscape(c)[0] != Escaped(c))
  {
  }

  lemma BackslashOutOfStep(t: string, q: char, v: string, blobEnds: bool)
    requires |t| > 1 && t[0] == '\\' && t[1] != '%' && t[1] != '_' && (q == '\'' || q == '"')
    ensures ReadSQLite(Rewrite(t, false), Inside(q, v), blobEnds) != ReadMySQL(t, Inside(q, v))
  {
    hide Rewrite, ReadSQLite, ReadMySQL, MyEscape, HexRun, FirstExtends;
    EscapeIsRead(t, q, v);
    LosesBackslash(t[1]);
    if t[1] == '\\' {
      TwoPassedOn(t, q, v, blobEnds);
      assert v + "\\" + "\\" == v + (['\\'] + ['\\']) && t[1] != '\'';
      Pending(t[2..], q, v + "\\", "\\", false, blobEnds);
    } else {
      PassedOn(t, false) by { NotHex(t); }
      CharDiffers(Rewrite(t, false), ReadMySQL(t, Inside(q, v)), q, v, MyEscape(t[1]), blobEnds);
    }
  }

  lemma LosesBackslash(c: char)
    requires c != '%' && c != '_'
    ensures MyEscape(c) == "\\" <==> c == '\\'
    ensures c != '\\' ==> MyEscape(c)[0] != '\\'
  {
  }

  lemma ValuesDiffer(s: seq<Token>, t: seq<Token>, q: char, v: string, w: string, i: nat)
    requires FirstExtends(s, q, v) && FirstExtends(t, q, w)
    requires i < |v| && i < |w| && v[i] != w[i]
    ensures s != t
  {
    assert s[0].value[i] == v[i] && t[0].value[i] == w[i];
  }

  // A backslash and a character, where the rewriting passes both on.
  lemma TwoPassedOn(t: string, q: char, v: string, blobEnds: bool)
    requires |t| > 1 && t[0] == '\\' && (q == '\'' || q == '"') && t[1] !in ['0', '\0', q]
    ensures ReadSQLite(Rewrite(t, false), Inside(q, v), blobEnds)
      == ReadSQLite(Rewrite(t[2..], t[1] == '\''), Inside(q, v + (['\\'] + [t[1]])), blobEnds)
  {
    hide Rewrite, ReadSQLite, HexLength;
    NotHex(t);
    NotHex(t[1..]);
    PassedOn(t, false);
    PassedOn(t[1..], false);
    assert t[1..][1..] == t[2..];
    var u := Rewrite(t[2..], t[1] == '\'');
    CharIsRead('\\', [t[1]] + u, q, v, blobEnds);
    CharIsRead(t[1], u, q, v + ['\\'], blobEnds);
    assert v + ['\\'] + [t[1]] == v + (['\\'] + [t[1]]);
  }

  // What SQLite has read beyond MySQL stays ahead: backslashes that are not
  // rewritten, and single quotes in double quotes.
  lemma {:induction false} Pending(t: string, q: char, v: string, p: string, inString: bool, blobEnds: bool)
    requires (q == '\'' || q == '"') && |p| > 0 && ('\'' in p || !inString)
    requires forall c :: c in p ==> c == '\\' || (c == '\'' && q == '"')
    ensures ReadSQLite(Rewrite(t, inString), Inside(q, v + p), blobEnds) != ReadMySQL(t, Inside(q, v))
    decreases |t|
  {
    hide Rewrite, ReadSQLite, ReadMySQL, MyEscape, HexRun, HexLength, FirstExtends;
    assert p[0] in p;
    if |t| == 0 {
      PendingAtEnd(q, v, p, inString, blobEnds);
    } else if t[0] == q {
      PendingAtQuote(t, q, v, p, inString, blobEnds);
    } else if t[0] == '\\' && |t| > 1 {
      EscapeIsRead(t, q, v);
      if MyEscape(t[1])[0] != p[0] {
        PendingDiffers(t, q, v, p, MyEscape(t[1]), inString, blobEnds);
      } else if t[1] == p[0] {
        PendingEscape(t, q, v, p, inString, blobEnds);
      } else {
        PendingWildcard(t, q, v, p, inString, blobEnds);
      }
    } else {
      MyCharIsRead(t, q, v);
      if t[0] != p[0] {
        PendingDiffers(t, q, v, p, [t[0]], inString, blobEnds);
      } else if |t| == 1 {
        PendingLast(t, q, v, p, inString, blobEnds);
      } else {
        NotHex(t);
        PassedOn(t, inString);
        CharIsRead(t[0], Rewrite(t[1..], !inString), q, v + p, blobEnds);
        Rotate(v, p, [t[0]]);
        Pending(t[1..], q, v + [p[0]], p[1..] + [t[0]], !inString, blobEnds);
      }
    }
  }

  lemma Rotate(v: string, p: string, x: string)
    requires |p| > 0
    ensures v + p + x == v + [p[0]] + (p[1..] + x)
    ensures forall c :: c in p[1..] + x <==> c in p[1..] || c in x
    ensures forall c :: c in p <==> c == p[0] || c in p[1..]
  {
    assert p == [p[0]] + p[1..];
  }

  lemma PendingAtEnd(q: char, v: string, p: string, inString: bool, blobEnds: bool)
    requires IsQuote(q) && |p| > 0
    ensures ReadSQLite(Rewrite("", inString), Inside(q, v + p), blobEnds) != ReadMySQL("", Inside(q, v))
  {
    NothingIsRead(Inside(q, v + p), inString, blobEnds);
    assert |v + p| > |v|;
  }

  lemma PendingAtQuote(t: string, q: char, v: string, p: string, inString: bool, blobEnds: bool)
    requires IsQuote(q) && StartsWith(t, q) && |p| > 0 && p[0] != q
    ensures ReadSQLite(Rewrite(t, inString), Inside(q, v + p), blobEnds) != ReadMySQL(t, Inside(q, v))
  {
    hide Rewrite, ReadSQLite;
    var s := Rewrite(t, inString);
    TextGrows(s, q, v + p, blobEnds);
    if |t| > 1 && t[1] == q {
      MyTextGrows(t[2..], q, v + [q]);
      ValuesDiffer(ReadSQLite(s, Inside(q, v + p), blobEnds), ReadMySQL(t, Inside(q, v)), q, v + p, v + [q], |v|);
    } else {
      assert ReadMySQL(t, Inside(q, v))[0] == Text(q, v);
    }
  }

  lemma PendingDiffers(t: string, q: char, v: string, p: string, e: string, inString: bool, blobEnds: bool)
    requires IsQuote(q) && |e| > 0 && |p| > 0 && e[0] != p[0] && FirstExtends(ReadMySQL(t, Inside(q, v)), q, v + e)
    ensures ReadSQLite(Rewrite(t, inString), Inside(q, v + p), blobEnds) != ReadMySQL(t, Inside(q, v))
  {
    hide Rewrite, ReadSQLite, ReadMySQL, FirstExtends;
    var s := Rewrite(t, inString);
    TextGrows(s, q, v + p, blobEnds);
    ValuesDiffer(ReadSQLite(s, Inside(q, v + p), blobEnds), ReadMySQL(t, Inside(q, v)), q, v + p, v + e, |v|);
  }

  lemma PendingLast(t: string, q: char, v: string, p: string, inString: bool, blobEnds: bool)
    requires IsQuote(q) && |t| == 1 && t[0] !in ['0', '\0', q] && |p| > 0
    ensures ReadSQLite(Rewrite(t, inString), Inside(q, v + p), blobEnds) != ReadMySQL(t, Inside(q, v))
  {
    hide Rewrite, ReadSQLite, ReadMySQL, HexRun;
    var after := if t[0] == '\'' then !inString else inString;
    NotHex(t);
    PassedOn(t, inString);
    CharIsRead(t[0], Rewrite(t[1..], after), q, v + p, blobEnds);
    MyCharIsRead(t, q, v);
    assert t[1..] == "";
    NothingIsRead(Inside(q, v + p + [t[0]]), after, blobEnds);
    MyEndIsRead(q, v + [t[0]]);
    assert |v + p + [t[0]]| > |v + [t[0]]|;
  }

  lemma MyEndIsRead(q: char, v: string)
    requires IsQuote(q)
    ensures ReadMySQL("", Inside(q, v)) == [Open(q, v)]
  {
  }

  lemma NothingWritten()
    ensures Rewrite("", false) == Rewrite("", true) == ""
  {
  }

  lemma {:induction false} PendingEscape(t: string, q: char, v: string, p: string, inString: bool, blobEnds: bool)
    requires (q == '\'' || q == '"') && |p| > 0 && ('\'' in p || !inString)
    requires forall c :: c in p ==> c == '\\' || (c == '\'' && q == '"')
    requires |t| > 1 && t[0] == '\\' && t[1] == p[0]
    ensures ReadSQLite(Rewrite(t, inString), Inside(q, v + p), blobEnds) != ReadMySQL(t, Inside(q, v))
    decreases |t|, 0
  {
    hide Rewrite, ReadSQLite, ReadMySQL, HexRun;
    assert p[0] in p;
    EscapeIsRead(t, q, v);
    assert MyEscape(t[1]) == [p[0]];
    var u := Rewrite(t[2..], true);
    var x := if !inString then ['\\'] + [t[1]] else if t[1] == '\'' then "''" else "\\";
    if !inString {
      TwoPassedOn(t, q, v + p, blobEnds);
    } else {
      EscapeWritten(t);
      CharIsRead(t[1], (if t[1] == '\'' then "'" else "") + u, q, v + p, blobEnds);
      if t[1] == '\'' {
        assert "''" + u == "'" + ("'" + u);
        CharIsRead('\'', u, q, v + p + "'", blobEnds);
        assert v + p + "'" + "'" == v + p + "''";
      } else {
        assert "" + u == u;
      }
    }
    Rotate(v, p, x);
    Pending(t[2..], q, v + [p[0]], p[1..] + x, inString || t[1] == '\'', blobEnds);
  }

  lemma PendingWildcard(t: string, q: char, v: string, p: string, inString: bool, blobEnds: bool)
    requires (q == '\'' || q == '"') && |p| > 0 && ('\'' in p || !inString)
    requires forall c :: c in p ==> c == '\\' || (c == '\'' && q == '"')
    requires |t| > 1 && t[0] == '\\' && t[1] != p[0] && MyEscape(t[1])[0] == p[0]
    ensures ReadSQLite(Rewrite(t, inString), Inside(q, v + p), blobEnds) != ReadMySQL(t, Inside(q, v))
  {
    hide Rewrite, ReadSQLite, ReadMySQL, HexRun, FirstExtends;
    var e := MyEscape(t[1]);
    EscapeIsRead(t, q, v);
    assert p[0] in p;
    assert (t[1] == '%' || t[1] == '_') && p[0] == '\\' && (v + e)[|v| + 1] == t[1];
    var ts := ReadSQLite(Rewrite(t, inString), Inside(q, v + p), blobEnds);
    if inString {
      assert |p| > 1 && p[1] in p;
      TextGrows(Rewrite(t, inString), q, v + p, blobEnds);
      ValuesDiffer(ts, ReadMySQL(t, Inside(q, v)), q, v + p, v + e, |v| + 1);
    } else {
      TwoPassedOn(t, q, v + p, blobEnds);
      var w := v + p + (['\\'] + [t[1]]);
      TextGrows(Rewrite(t[2..], false), q, w, blobEnds);
      assert w[|v| + 1] == if |p| == 1 then '\\' else p[1];
      assert |p| > 1 ==> p[1] in p;
      ValuesDiffer(ts, ReadMySQL(t, Inside(q, v)), q, w, v + e, |v| + 1);
    }
  }

  // In backquotes, where MySQL has no escapes, the rewriting drops backslashes.
  lemma {:induction false} Behind(t: string, w: string, v: string, blobEnds: bool)
    requires w <= v && (forall i :: |w| <= i < |v| ==> v[i] == '\\')
    requires w == v ==> |t| > 1 && t[0] == '\\'
    ensures ReadSQLite(Rewrite(t, true), Inside('`', w), blobEnds) != ReadMySQL(t, Inside('`', v))
    decreases |t|
  {
    hide Rewrite, ReadSQLite, ReadMySQL, HexRun, FirstExtends;
    if |t| == 0 {
      BehindAtEnd(w, v, blobEnds);
    } else if |t| == 1 && t[0] == '\\' {
      PassedOn(t, true);
      MyCharIsRead(t, '`', v);
      CharIsRead('\\', Rewrite(t[1..], true), '`', w, blobEnds);
      assert t[1..] == "";
      BehindAtEnd(w + "\\", v + "\\", blobEnds);
    } else if t[0] != '\\' {
      PassedOn(t, true);
      MyTextGrows(t, '`', v);
      assert v == w + v[|w|..];
      CharDiffers(Rewrite(t, true), ReadMySQL(t, Inside('`', v)), '`', w, v[|w|..], blobEnds);
    } else {
      EscapeWritten(t);
      MyCharIsRead(t, '`', v);
      if t[1] != '\\' {
        assert v + ['\\'] == w + (v[|w|..] + ['\\']);
        CharDiffers(Rewrite(t, true), ReadMySQL(t, Inside('`', v)), '`', w, v[|w|..] + ['\\'], blobEnds);
      } else {
        MyCharIsRead(t[1..], '`', v + ['\\']);
        assert t[1..][1..] == t[2..];
        CharIsRead('\\', Rewrite(t[2..], true), '`', w, blobEnds);
        Behind(t[2..], w + ['\\'], v + ['\\'] + ['\\'], blobEnds);
      }
    }
  }

  lemma BehindAtEnd(w: string, v: string, blobEnds: bool)
    requires w < v
    ensures ReadSQLite(Rewrite("", true), Inside('`', w), blobEnds) != ReadMySQL("", Inside('`', v))
  {
  }

  // \" in double quotes is written as a quote alone.
  lemma QuoteOutOfStep(t: string, v: string, blobEnds: bool)
    requires |t| > 1 && t[0] == '\\' && t[1] == '"' && Readable(t, Inside('"', v))
    ensures ReadSQLite(Rewrite(t, true), Inside('"', v), blobEnds) != ReadMySQL(t, Inside('"', v))
  {
    hide Rewrite, ReadSQLite, ReadMySQL, HexRun;
    EscapeIsRead(t, '"', v);
    EscapeWritten(t);
    Uneven(t[2..], v, v + ['"'], true, blobEnds);
  }

  function Before(odd: bool): string { if odd then ['"'] else "" }

  // SQLite has read fewer quotes as part of the value, and perhaps has one more
  // in front of it: an even number of them in a row, or an odd one.
  lemma {:induction false} Uneven(t: string, w: string, v: string, odd: bool, blobEnds: bool)
    requires w < v && (forall i :: |w| <= i < |v| ==> v[i] == '"') && Readable(t, Inside('"', v))
    ensures ReadSQLite(Before(odd) + Rewrite(t, true), Inside('"', w), blobEnds) != ReadMySQL(t, Inside('"', v))
    decreases |t|
  {
    hide Rewrite, ReadSQLite, ReadMySQL, HexRun, FirstExtends, Before;
    if |t| == 0 {
      UnevenAtEnd(w, v, odd, blobEnds);
    } else if t[0] == '"' && (|t| == 1 || t[1] != '"') {
      UnevenAtQuote(t, w, v, odd, blobEnds);
    } else if t[0] == '"' {
      MyDoubledIsRead(t, v);
      UnevenDoubled(t, w, odd, blobEnds);
      Uneven(t[2..], w + ['"'], v + ['"'], odd, blobEnds);
    } else if t[0] == '\\' && |t| > 1 && t[1] == '"' {
      EscapeIsRead(t, '"', v);
      UnevenEscape(t, w, odd, blobEnds);
      Uneven(t[2..], if odd then w + ['"'] else w, v + ['"'], !odd, blobEnds);
    } else {
      UnevenOther(t, w, v, odd, blobEnds);
    }
  }

  lemma UnevenAtEnd(w: string, v: string, odd: bool, blobEnds: bool)
    requires w < v
    ensures ReadSQLite(Before(odd) + Rewrite("", true), Inside('"', w), blobEnds) != ReadMySQL("", Inside('"', v))
  {
    hide Rewrite, ReadSQLite, ReadMySQL;
    NothingWritten();
    MyEndIsRead('"', v);
    if odd {
      EndIsRead('"', "", w, blobEnds);
      assert Before(true) + "" == ['"'] + "" && ReadSQLite(['"'] + "", Inside('"', w), blobEnds)[0] == Text('"', w);
    } else {
      NothingIsRead(Inside('"', w), true, blobEnds);
      assert Before(false) + "" == "";
    }
  }

  lemma MyDoubledIsRead(t: string, v: string)
    requires |t| > 1 && t[0] == t[1] == '"'
    ensures ReadMySQL(t, Inside('"', v)) == ReadMySQL(t[2..], Inside('"', v + ['"']))
  {
  }

  lemma UnevenDoubled(t: string, w: string, odd: bool, blobEnds: bool)
    requires |t| > 1 && t[0] == t[1] == '"'
    ensures ReadSQLite(Before(odd) + Rewrite(t, true), Inside('"', w), blobEnds)
      == ReadSQLite(Before(odd) + Rewrite(t[2..], true), Inside('"', w + ['"']), blobEnds)
  {
    hide Rewrite, ReadSQLite;
    QuotePassedOn(t, true);
    QuotePassedOn(t[1..], true);
    assert t[1..][1..] == t[2..];
    var u := Rewrite(t[2..], true);
    DoubledIsRead('"', Before(odd) + u, w, blobEnds);
    assert Before(odd) + (['"'] + (['"'] + u)) == ['"'] + (['"'] + (Before(odd) + u));
  }

  lemma UnevenEscape(t: string, w: string, odd: bool, blobEnds: bool)
    requires |t| > 1 && t[0] == '\\' && t[1] == '"'
    ensures ReadSQLite(Before(odd) + Rewrite(t, true), Inside('"', w), blobEnds)
      == ReadSQLite(Before(!odd) + Rewrite(t[2..], true), Inside('"', if odd then w + ['"'] else w), blobEnds)
  {
    hide Rewrite, ReadSQLite;
    EscapeWritten(t);
    var u := Rewrite(t[2..], true);
    if odd {
      DoubledIsRead('"', u, w, blobEnds);
      assert "" + u == u;
    } else {
      assert "" + (['"'] + u) == ['"'] + u;
    }
  }

  // MySQL ends the text here. SQLite has ended it before, or goes on.
  lemma UnevenAtQuote(t: string, w: string, v: string, odd: bool, blobEnds: bool)
    requires StartsWith(t, '"') && !StartsWith(t[1..], '"') && Readable(t, Inside('"', v))
    requires w < v && forall i :: |w| <= i < |v| ==> v[i] == '"'
    ensures ReadSQLite(Before(odd) + Rewrite(t, true), Inside('"', w), blobEnds) != ReadMySQL(t, Inside('"', v))
  {
    hide Rewrite, ReadSQLite;
    var u := Rewrite(t[1..], true);
    QuotePassedOn(t, true);
    assert ReadMySQL(t, Inside('"', v)) == [Text('"', v)] + ReadMySQL(t[1..], Outside(false));
    assert Readable(t[1..], Outside(false));
    ReadableStart(t[1..], Outside(false));
    QuoteStays(t[1..], true, '"');
    if odd {
      DoubledIsRead('"', u, w, blobEnds);
      NextChar(u, '"', w + ['"'], blobEnds);
    } else {
      EndIsRead('"', u, w, blobEnds);
      assert Before(false) + (['"'] + u) == ['"'] + u;
      assert ReadSQLite(['"'] + u, Inside('"', w), blobEnds)[0] == Text('"', w);
    }
  }

  lemma UnevenOther(t: string, w: string, v: string, odd: bool, blobEnds: bool)
    requires |t| > 0 && t[0] != '"' && !(t[0] == '\\' && |t| > 1 && t[1] == '"')
    requires w < v && v[|w|] == '"'
    ensures ReadSQLite(Before(odd) + Rewrite(t, true), Inside('"', w), blobEnds) != ReadMySQL(t, Inside('"', v))
  {
    hide Rewrite, ReadSQLite, ReadMySQL;
    var u := Rewrite(t, true);
    NoQuoteFirst(t);
    MyTextGrows(t, '"', v);
    if odd {
      EndIsRead('"', u, w, blobEnds);
    } else {
      assert "" + u == u && v == w + v[|w|..];
      CharDiffers(u, ReadMySQL(t, Inside('"', v)), '"', w, v[|w|..], blobEnds);
    }
  }

  lemma NoQuoteFirst(t: string)
    requires |t| > 0 && t[0] != '"' && !(t[0] == '\\' && |t| > 1 && t[1] == '"')
    ensures !StartsWith(Rewrite(t, true), '"')
  {
    hide Rewrite, HexRun;
    if t[0] == '\\' && |t| > 1 {
      EscapeWritten(t);
    } else {
      PassedOn(t, true);
    }
  }

  // ---------------------------------------------------------------------
  // Statements that say something else afterwards

  predicate Differs(statement: string, blobEnds: bool) {
    ReadSQLite(Rewrite(statement, false), Outside(false), blobEnds) != ReadMySQL(statement, Outside(false))
  }

  // One move along a given text.
  lemma MoveTo(t: string, m: Mode, rest: string, next: Mode, inString: bool, blobEnds: bool)
    requires |rest| < |t| && t[|t| - |rest|..] == rest && Proper(m)
    requires MySQLMove(t, m).Move? && MySQLMove(t, m).read == |t| - |rest| && MySQLMove(t, m).next == next
    ensures ReadMySQL(t, m) == MySQLMove(t, m).tokens + ReadMySQL(rest, next)
    ensures Keeps(t, m, inString, blobEnds)
      <==> KeepsHere(t, m, inString, blobEnds) && Keeps(rest, next, StringAfter(t, |t| - |rest|, inString), blobEnds)
  {
  }

  lemma AllRead(word: bool, inString: bool, blobEnds: bool)
    ensures ReadMySQL("", Outside(word)) == [] && Keeps("", Outside(word), inString, blobEnds)
  {
  }

  // '\Z' becomes 'Z'.
  lemma OtherEscapeDiffers()
    ensures ReadMySQL("'\\Z'", Outside(false)) == [Text('\'', [26 as char])] && Differs("'\\Z'", true)
  {
    hide ReadMySQL, ReadSQLite, Rewrite, Keeps, HexRun, KeepsOutside;
    var z := [26 as char];
    assert "" + z == z;
    MoveTo("'\\Z'", Outside(false), "\\Z'", Inside('\'', ""), false, true);
    MoveTo("\\Z'", Inside('\'', ""), "'", Inside('\'', z), true, true);
    MoveTo("'", Inside('\'', z), "", Outside(false), true, true);
    AllRead(false, true, true);
    RewriteKeepsMeaning("'\\Z'", true);
  }

  // 0x1 becomes X'1'.
  lemma OddDigitsDiffer()
    ensures ReadMySQL("0x1", Outside(false)) == [Blob("01")] && Differs("0x1", true)
  {
    hide ReadMySQL, ReadSQLite, Rewrite, Keeps;
    assert "0x1"[2..] == "1" && HexRun("1") == 1 && "0x1"[2..3] == "1" && "0" + "1" == "01";
    MoveTo("0x1", Outside(false), "", Outside(false), false, true);
    AllRead(false, false, true);
    RewriteKeepsMeaning("0x1", true);
  }

  // "0x1" becomes "X'1'".
  lemma NumberInTextDiffers()
    ensures ReadMySQL("\"0x1\"", Outside(false)) == [Text('"', "0x1")] && Differs("\"0x1\"", true)
  {
    hide ReadMySQL, ReadSQLite, Rewrite, Keeps, KeepsOutside;
    assert "0x1\""[2..] == "1\"" && HexRun("1\"") > 0;
    assert "0x1" + "\"" == "0x1\"" && "" + "0x1" == "0x1";
    MoveTo("\"0x1\"", Outside(false), "0x1\"", Inside('"', ""), false, true);
    CharactersAreRead("0x1", "\"", '"', "");
    MoveTo("\"", Inside('"', "0x1"), "", Outside(false), false, true);
    AllRead(false, false, true);
    KeepsFrom("0x1\"", Inside('"', ""), false, true);
    RewriteKeepsMeaning("\"0x1\"", true);
  }

  lemma {:induction false} CharactersAreRead(d: string, rest: string, q: char, v: string)
    requires IsQuote(q) && q !in d && '\\' !in d
    ensures ReadMySQL(d + rest, Inside(q, v)) == ReadMySQL(rest, Inside(q, v + d))
    decreases |d|
  {
    hide ReadMySQL;
    if |d| == 0 {
      assert d + rest == rest && v + d == v;
    } else {
      assert (d + rest)[1..] == d[1..] + rest && v + [d[0]] + d[1..] == v + d;
      MyCharIsRead(d + rest, q, v);
      CharactersAreRead(d[1..], rest, q, v + [d[0]]);
    }
  }

  lemma KeepsFrom(t: string, m: Mode, inString: bool, blobEnds: bool)
    requires |t| > 0 && Proper(m)
    ensures Keeps(t, m, inString, blobEnds) ==> KeepsHere(t, m, inString, blobEnds)
  {
  }

  // a0x1 becomes aX'1'.
  lemma NumberInWordDiffers()
    ensures ReadMySQL("a0x1", Outside(false)) == [Plain('a'), Plain('0'), Plain('x'), Plain('1')]
    ensures Differs("a0x1", true)
  {
    hide ReadMySQL, ReadSQLite, Rewrite, Keeps;
    assert "0x1"[2..] == "1" && HexRun("1") == 1;
    MoveTo("a0x1", Outside(false), "0x1", Outside(true), false, true);
    MoveTo("0x1", Outside(true), "x1", Outside(true), false, true);
    MoveTo("x1", Outside(true), "1", Outside(true), false, true);
    MoveTo("1", Outside(true), "", Outside(true), false, true);
    AllRead(true, false, true);
    RewriteKeepsMeaning("a0x1", true);
  }

  // 0x1f'b' becomes X'1f''b': two literals where SQLite ends the first one at
  // the quote, and otherwise an illegal one.
  lemma HexThenQuoteMerges()
    ensures var t := "0x1f'b'";
      && ReadMySQL(t, Outside(false)) == [Blob("1f"), Text('\'', "b")]
      && Differs(t, false)
      && !Differs(t, true)
  {
    hide ReadMySQL, ReadSQLite, Rewrite, Keeps;
    var t := "0x1f'b'";
    HexOfLiteral();
    HexThenQuoteIsRead(t, false);
    HexThenQuoteIsRead(t, true);
    RewriteKeepsMeaning(t, false);
    RewriteKeepsMeaning(t, true);
  }

  lemma HexThenQuoteIsRead(t: string, blobEnds: bool)
    requires t == "0x1f'b'" && HexRun(t[2..]) == 2 && t[2..4] == "1f" && t[4..] == "'b'"
    ensures ReadMySQL(t, Outside(false)) == [Blob("1f"), Text('\'', "b")]
    ensures Keeps(t, Outside(false), false, blobEnds) <==> blobEnds
  {
    hide ReadMySQL, Keeps, HexRun;
    MoveTo(t, Outside(false), "'b'", Outside(false), false, blobEnds);
    QuotedB(blobEnds);
    assert [Blob("1f")] + [Text('\'', "b")] == [Blob("1f"), Text('\'', "b")];
  }

  lemma HexOfLiteral()
    ensures var t := "0x1f'b'";
      HexRun(t[2..]) == 2 && t[2..4] == "1f" && t[4..] == "'b'"
  {
    assert "0x1f'b'"[2..] == "1f'b'" && "1f'b'"[1..] == "f'b'" && "f'b'"[1..] == "'b'";
  }

  lemma QuotedB(blobEnds: bool)
    ensures ReadMySQL("'b'", Outside(false)) == [Text('\'', "b")] && Keeps("'b'", Outside(false), false, blobEnds)
  {
    hide ReadMySQL, Keeps, HexRun;
    assert "" + "b" == "b";
    MoveTo("'b'", Outside(false), "b'", Inside('\'', ""), false, blobEnds);
    MoveTo("b'", Inside('\'', ""), "'", Inside('\'', "b"), true, blobEnds);
    MoveTo("'", Inside('\'', "b"), "", Outside(false), true, blobEnds);
    AllRead(false, false, blobEnds);
  }

  // "'"'\n': behind a single quote in double quotes, the escape is not rewritten.
  lemma StrayQuoteDiffers()
    ensures var t := "\"'\"'\\n'";
      ReadMySQL(t, Outside(false)) == [Text('"', "'"), Text('\'', "\n")] && Differs(t, true)
  {
    hide ReadMySQL, ReadSQLite, Rewrite, Keeps, HexRun;
    assert "" + "'" == "'";
    MoveTo("\"'\"'\\n'", Outside(false), "'\"'\\n'", Inside('"', ""), false, true);
    MoveTo("'\"'\\n'", Inside('"', ""), "\"'\\n'", Inside('"', "'"), false, true);
    MoveTo("\"'\\n'", Inside('"', "'"), "'\\n'", Outside(false), true, true);
    QuotedNewline();
    assert [Text('"', "'")] + [Text('\'', "\n")] == [Text('"', "'"), Text('\'', "\n")];
    RewriteKeepsMeaning("\"'\"'\\n'", true);
  }

  lemma QuotedNewline()
    ensures ReadMySQL("'\\n'", Outside(false)) == [Text('\'', "\n")]
    ensures !Keeps("'\\n'", Outside(false), true, true)
  {
    hide ReadMySQL, Keeps, HexRun;
    assert "" + "\n" == "\n";
    MoveTo("'\\n'", Outside(false), "\\n'", Inside('\'', ""), true, true);
    MoveTo("\\n'", Inside('\'', ""), "'", Inside('\'', "\n"), false, true);
    MoveTo("'", Inside('\'', "\n"), "", Outside(false), false, true);
    AllRead(false, true, true);
  }
}
