// Base32 (section 6 of RFC 4648) with bit accumulators in both directions.
// The decoder also accepts lower case, the look-alikes 0, 1 and 8, and missing
// padding; it rejects non-zero leftover bits.
module Base32 {
  import opened Bytes
  import opened Wrappers

  // ---------------------------------------------------------------------
  // Bits of machine words

  // The n low bits of x, most significant first.
  function Bits(x: nat, n: nat): (b: seq<bool>)
    ensures |b| == n
    decreases n
  {
    if n == 0 then [] else Bits(x / 2, n - 1) + [x % 2 == 1]
  }

  function Zeros(n: nat): (b: seq<bool>)
    ensures |b| == n && forall i :: 0 <= i < n ==> !b[i]
  {
    seq(n, _ => false)
  }

  // x << m, x >> m, x & (2^k - 1) and a | b on unbounded words.
  function Shl(x: nat, m: nat): nat
    decreases m
  {
    if m == 0 then x else 2 * Shl(x, m - 1)
  }

  function Shr(x: nat, m: nat): nat
    decreases m
  {
    if m == 0 then x else Shr(x / 2, m - 1)
  }

  function Low(x: nat, k: nat): nat
    decreases k
  {
    if k == 0 then 0 else 2 * Low(x / 2, k - 1) + x % 2
  }

  function Or(a: nat, b: nat): nat {
    if a == 0 && b == 0 then 0
    else 2 * Or(a / 2, b / 2) + if a % 2 == 1 || b % 2 == 1 then 1 else 0
  }

  lemma {:induction false} BitsShr(x: nat, n: nat, m: nat)
    ensures Bits(x, n + m) == Bits(Shr(x, m), n) + Bits(x, m)
    decreases m
  {
    if m != 0 {
      BitsShr(x / 2, n, m - 1);
    }
  }

  lemma {:induction false} BitsLow(x: nat, k: nat, n: nat)
    requires n <= k
    ensures Bits(Low(x, k), n) == Bits(x, n)
    decreases n
  {
    if n != 0 {
      var y := Low(x / 2, k - 1);
      assert (2 * y + x % 2) / 2 == y && (2 * y + x % 2) % 2 == x % 2;
      BitsLow(x / 2, k - 1, n - 1);
    }
  }

  lemma {:induction false} LowBelow(x: nat, k: nat)
    ensures Low(x, k) < Pow(2, k)
    decreases k
  {
    if k != 0 {
      LowBelow(x / 2, k - 1);
    }
  }

  lemma SmallPowers()
    ensures Pow(2, 5) == 32 && Pow(2, 8) == 256
  {
    assert Pow(2, 2) == 4;
    PowAdd(2, 2, 2);
    PowAdd(2, 4, 1);
    PowAdd(2, 4, 4);
  }

  lemma {:induction false} BitsShl(x: nat, n: nat, m: nat)
    ensures Bits(Shl(x, m), n + m) == Bits(x, n) + Zeros(m)
    decreases m
  {
    if m != 0 {
      BitsShl(x, n, m - 1);
      assert Bits(x, n) + Zeros(m) == Bits(x, n) + Zeros(m - 1) + [false];
    }
  }

  lemma {:induction false} BitsOr(a: nat, b: nat, n: nat)
    ensures forall i :: 0 <= i < n ==> Bits(Or(a, b), n)[i] == (Bits(a, n)[i] || Bits(b, n)[i])
    decreases n
  {
    if n != 0 {
      if a == 0 && b == 0 {
        assert Or(0 / 2, 0 / 2) == 0;
      }
      BitsOr(a / 2, b / 2, n - 1);
    }
  }

  // A word below 2^k has only zeros above its k low bits.
  lemma {:induction false} BitsOfSmall(x: nat, k: nat, m: nat)
    requires x < Pow(2, k)
    ensures Bits(x, m + k) == Zeros(m) + Bits(x, k)
    decreases k
  {
    if k == 0 {
      BitsOfZero(m);
    } else {
      BitsOfSmall(x / 2, k - 1, m);
      assert Zeros(m) + Bits(x, k) == Zeros(m) + Bits(x / 2, k - 1) + [x % 2 == 1];
    }
  }

  lemma {:induction false} BitsOfZero(n: nat)
    ensures Bits(0, n) == Zeros(n)
    decreases n
  {
    if n != 0 {
      BitsOfZero(n - 1);
    }
  }

  // Disjoint fields of one word join end to end.
  lemma OrJoins(a: nat, b: nat, n: nat, m: nat)
    requires Bits(a, n + m) == Bits(a, n + m)[..n] + Zeros(m)
    requires Bits(b, n + m) == Zeros(n) + Bits(b, m)
    ensures Bits(Or(a, b), n + m) == Bits(a, n + m)[..n] + Bits(b, m)
  {
    BitsOr(a, b, n + m);
    var r := Bits(Or(a, b), n + m);
    forall i | 0 <= i < n + m ensures r[i] == (Bits(a, n + m)[..n] + Bits(b, m))[i] {
      assert Bits(a, n + m)[i] == (Bits(a, n + m)[..n] + Zeros(m))[i];
      assert Bits(b, n + m)[i] == (Zeros(n) + Bits(b, m))[i];
    }
  }

  function Value(b: seq<bool>): (v: nat)
    ensures v < Pow(2, |b|)
  {
    if |b| == 0 then 0 else 2 * Value(b[..|b| - 1]) + if b[|b| - 1] then 1 else 0
  }

  lemma {:induction false} BitsOfValue(b: seq<bool>)
    ensures Bits(Value(b), |b|) == b
  {
    if |b| != 0 {
      BitsOfValue(b[..|b| - 1]);
      assert b == b[..|b| - 1] + [b[|b| - 1]];
    }
  }

  lemma {:induction false} ValueOfBits(x: nat, n: nat)
    requires x < Pow(2, n)
    ensures Value(Bits(x, n)) == x
    decreases n
  {
    if n != 0 {
      ValueOfBits(x / 2, n - 1);
      assert Bits(x, n)[..n - 1] == Bits(x / 2, n - 1);
    }
  }

  // ---------------------------------------------------------------------
  // Groups of bits

  // The words of s, each as size bits, end to end.
  function Concat(s: seq<nat>, size: nat): (b: seq<bool>)
    ensures |b| == size * |s|
  {
    if |s| == 0 then [] else Bits(s[0], size) + Concat(s[1..], size)
  }

  lemma {:induction false} ConcatAppend(s: seq<nat>, t: seq<nat>, size: nat)
    ensures Concat(s + t, size) == Concat(s, size) + Concat(t, size)
  {
    if |s| == 0 {
      assert s + t == t;
    } else {
      assert (s + t)[1..] == s[1..] + t;
      ConcatAppend(s[1..], t, size);
    }
  }

  lemma ConcatOneMore(s: seq<nat>, x: nat, size: nat)
    ensures Concat(s + [x], size) == Concat(s, size) + Bits(x, size)
  {
    ConcatAppend(s, [x], size);
    assert [x][1..] == [];
    assert Concat([x], size) == Bits(x, size) + [];
  }

  // Cutting b into groups of size bits, the last one filled up with zeros.
  function Groups(b: seq<bool>, size: nat): (s: seq<nat>)
    requires size > 0
  {
    if |b| == 0 then []
    else if |b| <= size then [Value(b + Zeros(size - |b|))]
    else [Value(b[..size])] + Groups(b[size..], size)
  }

  ghost predicate AllBelow(s: seq<nat>, bound: int) {
    forall i :: 0 <= i < |s| ==> s[i] < bound
  }

  // Words whose bits are b and fewer than size zeros are the groups of b.
  lemma {:induction false} GroupsUnique(s: seq<nat>, b: seq<bool>, p: nat, size: nat)
    requires p < size && AllBelow(s, Pow(2, size)) && Concat(s, size) == b + Zeros(p)
    ensures s == Groups(b, size)
  {
    hide Bits, Pow, Value;
    if |s| != 0 {
      assert |b| + p == size * |s| && size * |s| >= size;
      ValueOfBits(s[0], size);
      var c := Concat(s, size);
      assert c[..size] == Bits(s[0], size) && c[size..] == Concat(s[1..], size);
      if |b| <= size {
        assert size * |s| < 2 * size;
        assert |s| == 1 by { OneFactor(size, |s|); }
        assert c == Bits(s[0], size);
        assert b + Zeros(size - |b|) == c;
      } else {
        assert c[..size] == b[..size] && c[size..] == b[size..] + Zeros(p);
        GroupsUnique(s[1..], b[size..], p, size);
      }
    } else {
      assert |b| + p == 0;
    }
  }

  lemma OneFactor(size: nat, n: nat)
    requires 0 < n && size * n < 2 * size
    ensures n == 1
  {
    assert n >= 2 ==> size * n >= size * 2;
  }

  // Cutting up and joining again gives b and the filling.
  lemma {:induction false} ConcatGroups(b: seq<bool>, size: nat)
    requires size > 0
    ensures var s := Groups(b, size);
            && AllBelow(s, Pow(2, size))
            && |b| <= |Concat(s, size)| < |b| + size
            && Concat(s, size) == b + Zeros(|Concat(s, size)| - |b|)
  {
    hide Pow, Bits;
    if 0 < |b| <= size {
      var w := b + Zeros(size - |b|);
      BitsOfValue(w);
      assert Concat([], size) == [] && [Value(w)][1..] == [];
      assert Concat([Value(w)], size) == w + [];
    } else if |b| > size {
      var w, t := b[..size], Groups(b[size..], size);
      BitsOfValue(w);
      ConcatGroups(b[size..], size);
      assert ([Value(w)] + t)[1..] == t;
      assert Concat([Value(w)] + t, size) == w + Concat(t, size);
    }
  }

  // ---------------------------------------------------------------------
  // The alphabet

  function Symbol(v: nat): (c: char)
    requires v < 32
    ensures c != '='
  {
    "ABCDEFGHIJKLMNOPQRSTUVWXYZ234567"[v]
  }

  // base32DecodeChar: either case, with 0, 1 and 8 read as O, l and B.
  function DecodeChar(c: char): (r: Option<nat>)
    ensures r.Some? ==> r.value < 32
  {
    if c == '0' then Some('O' as int - 'A' as int)
    else if c == '1' then Some('l' as int - 'a' as int)
    else if c == '8' then Some('B' as int - 'A' as int)
    else if 'A' <= c <= 'Z' then Some(c as int - 'A' as int)
    else if 'a' <= c <= 'z' then Some(c as int - 'a' as int)
    else if '2' <= c <= '7' then Some(c as int - '2' as int + 26)
    else None
  }

  // The symbol that a character stands for: itself, its capital, or O, L and B
  // for the look-alikes 0, 1 and 8.
  function Folded(c: char): char {
    if 'a' <= c <= 'z' then c - 'a' + 'A'
    else if c == '0' then 'O'
    else if c == '1' then 'L'
    else if c == '8' then 'B'
    else c
  }

  lemma SymbolTable(v: nat)
    requires v < 32
    ensures Symbol(v) as int == if v < 26 then 'A' as int + v else '2' as int + (v - 26)
  {
  }

  // A character decodes to the value of the symbol it stands for, and not at
  // all when it stands for none.
  lemma DecodesFolded(c: char)
    ensures DecodeChar(c).Some? ==> Symbol(DecodeChar(c).value) == Folded(c)
    ensures DecodeChar(c) == None ==> forall v :: 0 <= v < 32 ==> Symbol(v) != Folded(c)
  {
    hide Symbol;
    if DecodeChar(c).Some? {
      SymbolTable(DecodeChar(c).value);
    } else {
      forall v | 0 <= v < 32 ensures Symbol(v) != Folded(c) {
        SymbolTable(v);
      }
    }
  }

  // In particular every symbol decodes to its own value.
  lemma SymbolDecodes(v: nat)
    requires v < 32
    ensures DecodeChar(Symbol(v)) == Some(v) && Folded(Symbol(v)) == Symbol(v)
  {
    hide Symbol;
    SymbolTable(v);
  }

  function Text(s: seq<nat>): (t: string)
    requires AllBelow(s, 32)
    ensures |t| == |s|
  {
    seq(|s|, i requires 0 <= i < |s| => Symbol(s[i]))
  }

  function Equals(n: nat): string { seq(n, _ => '=') }

  // How many '=' bring k symbols to a multiple of eight characters.
  function Padding(k: nat): nat { (8 - k % 8) % 8 }

  // Whole bytes in k symbols, the bits left over after them, and the free bits
  // of the byte those are in.
  function Whole(k: nat): nat { 5 * k / 8 }

  function Leftover(k: nat): nat { 5 * k - 8 * Whole(k) }

  function Free(k: nat): nat { 8 - Leftover(k) }

  lemma LeftoverTable(k: nat)
    ensures Leftover(k) == [0, 5, 2, 7, 4, 1, 6, 3][k % 8]
    ensures Leftover(k) < 5 <==> k % 8 !in {1, 3, 6}
  {
    var q, r := k / 8, k % 8;
    assert 5 * k == 8 * (5 * q) + 5 * r;
  }

  lemma WholeAndLeftover(k: nat)
    ensures 8 * Whole(k) + Leftover(k) == 5 * k
  {
  }

  lemma FreeStep(k: nat)
    ensures 1 <= Free(k) <= 8 && (Free(k) == 8 <==> k % 8 == 0)
    ensures Free(k + 1) == if Free(k) > 5 then Free(k) - 5 else Free(k) + 3
    ensures Whole(k + 1) == if Free(k) > 5 then Whole(k) else Whole(k) + 1
  {
    hide Whole, Leftover;
    LeftoverZero(k);
    BitsDivide(k);
    BitsDivide(k + 1);
    FiveMore(Whole(k), Leftover(k), Whole(k + 1), Leftover(k + 1));
  }

  lemma LeftoverZero(k: nat)
    ensures Leftover(k) == 0 <==> k % 8 == 0
  {
    hide Leftover;
    LeftoverTable(k);
  }

  lemma FiveMore(w: int, l: int, w': int, l': int)
    requires 0 <= l < 8 && 0 <= l' < 8 && 8 * w' + l' == 8 * w + l + 5
    ensures if l < 3 then w' == w && l' == l + 5 else w' == w + 1 && l' == l - 3
  {
  }

  lemma BitsDivide(k: nat)
    ensures 5 * k == 8 * Whole(k) + Leftover(k) && 0 <= Leftover(k) < 8
  {
  }

  // Padding runs out exactly at a multiple of eight.
  lemma PaddingGap(k: nat, i: nat)
    requires k <= i <= k + Padding(k)
    ensures i % 8 == 0 <==> i == k + Padding(k)
  {
  }

  // ---------------------------------------------------------------------
  // What the two directions mean

  function Symbols(data: seq<byte>): (s: seq<nat>)
    ensures AllBelow(s, 32)
  {
    SmallPowers();
    ConcatGroups(Concat(data, 8), 5);
    Groups(Concat(data, 8), 5)
  }

  function Encoded(data: seq<byte>): string {
    Text(Symbols(data)) + Equals(Padding(|Symbols(data)|))
  }

  // The characters before the first '='.
  function SymbolCount(text: string): (k: nat)
    ensures k <= |text| && (forall i :: 0 <= i < k ==> text[i] != '=') && (k < |text| ==> text[k] == '=')
  {
    if |text| == 0 || text[0] == '=' then 0 else 1 + SymbolCount(text[1..])
  }

  ghost predicate AllSymbols(text: string) {
    forall i :: 0 <= i < |text| ==> DecodeChar(text[i]).Some?
  }

  function ValuesOf(text: string): (s: seq<nat>)
    requires AllSymbols(text)
    ensures |s| == |text| && forall i :: 0 <= i < |s| ==> DecodeChar(text[i]) == Some(s[i])
    ensures AllBelow(s, 32)
  {
    seq(|text|, i requires 0 <= i < |text| => DecodeChar(text[i]).value)
  }

  // Exactly the texts the decoder takes: k symbols, then at most as many '='
  // as complete the last eight, and no other character; the bits after the
  // last whole byte are zero.
  ghost predicate Accepted(text: string) {
    var k := SymbolCount(text);
    && AllSymbols(text[..k])
    && |text| - k <= Padding(k)
    && (forall i :: k <= i < |text| ==> text[i] == '=')
    && var b := Concat(ValuesOf(text[..k]), 5);
       b[8 * Whole(k)..] == Zeros(Leftover(k))
  }

  ghost function Decoded(text: string): seq<nat>
    requires Accepted(text)
  {
    var k := SymbolCount(text);
    Groups(Concat(ValuesOf(text[..k]), 5)[..8 * Whole(k)], 8)
  }

  // ---------------------------------------------------------------------
  // Encoding

  const WORD: nat := 32

  // Taking in a byte: the pending bits grow by its eight bits. The shift drops
  // what leaves the 32-bit word, which is never pending.
  lemma ByteTakenIn(current: nat, pending: nat, b: byte)
    requires pending <= 24
    ensures Bits(Or(Low(Shl(current, 8), WORD), b), pending + 8) == Bits(current, pending) + Bits(b, 8)
  {
    hide Bits, Or, Shl, Low, Pow;
    SmallPowers();
    BitsShl(current, pending, 8);
    BitsLow(Shl(current, 8), WORD, pending + 8);
    BitsOfSmall(b, 8, pending);
    OrJoins(Low(Shl(current, 8), WORD), b, pending, 8);
  }

  // Giving out a symbol: the five oldest pending bits leave.
  lemma SymbolGivenOut(current: nat, pending: nat)
    requires pending >= 5
    ensures var v := Low(Shr(current, pending - 5), 5);
            v < 32 && Bits(current, pending) == Bits(v, 5) + Bits(current, pending - 5)
  {
    var rest := Shr(current, pending - 5);
    BitsShr(current, 5, pending - 5);
    BitsLow(rest, 5, 5);
    LowBelow(rest, 5);
    SmallPowers();
  }

  // The last symbol: what is pending, filled up with zeros.
  lemma LastSymbol(current: nat, pending: nat)
    requires pending < 5
    ensures var v := Low(Low(Shl(current, 5 - pending), WORD), 5);
            v < 32 && Bits(v, 5) == Bits(current, pending) + Zeros(5 - pending)
  {
    var shifted := Shl(current, 5 - pending);
    BitsShl(current, pending, 5 - pending);
    BitsLow(shifted, WORD, 5);
    BitsLow(Low(shifted, WORD), 5, 5);
    LowBelow(Low(shifted, WORD), 5);
    SmallPowers();
  }

  lemma TextOneMore(symbols: seq<nat>, v: nat)
    requires AllBelow(symbols, 32) && v < 32
    ensures AllBelow(symbols + [v], 32) && Text(symbols + [v]) == Text(symbols) + [Symbol(v)]
  {
  }

  method Base32Encode(data: seq<byte>) returns (text: string)
    ensures text == Encoded(data)
  {
    hide Bits, Shl, Shr, Low, Or, Groups, Concat, Pow, Text, Symbol, Symbols;
    if |data| == 0 {
      EmptyEncoded();
      assert data == [];
      return "";
    }
    text := EncodeSymbols(data);
    text := Padded(text);
  }

  // '=' signs up to a multiple of eight.
  method Padded(out: string) returns (text: string)
    ensures text == out + Equals(Padding(|out|))
  {
    text := out;
    ghost var k := |out|;
    while |text| % 8 != 0
      invariant k <= |text| <= k + Padding(k) && text == out + Equals(|text| - k)
      decreases k + Padding(k) - |text|
    {
      PaddingGap(k, |text|);
      text := text + ['='];
    }
    PaddingGap(k, |text|);
  }

  method EncodeSymbols(data: seq<byte>) returns (out: string)
    ensures AllBelow(Symbols(data), 32) && out == Text(Symbols(data))
  {
    hide Bits, Shl, Shr, Low, Or, Groups, Concat, Pow, Text, Symbol;
    out := "";
    ghost var symbols: seq<nat> := [];
    var current: nat, bitsLeft: nat := 0, 0;
    EmptyEncoded();
    assert data[..0] == [];
    for i := 0 to |data|
      invariant bitsLeft < 5 && AllBelow(symbols, 32) && out == Text(symbols)
      invariant Concat(symbols, 5) + Bits(current, bitsLeft) == Concat(data[..i], 8)
    {
      assert data[..i + 1] == data[..i] + [data[i]];
      ConcatOneMore(data[..i], data[i], 8);
      ByteTakenIn(current, bitsLeft, data[i]);
      assert Concat(symbols, 5) + (Bits(current, bitsLeft) + Bits(data[i], 8))
          == (Concat(symbols, 5) + Bits(current, bitsLeft)) + Bits(data[i], 8);
      current := Or(Low(Shl(current, 8), WORD), data[i]);
      bitsLeft := bitsLeft + 8;
      while bitsLeft >= 5
        invariant AllBelow(symbols, 32) && out == Text(symbols)
        invariant Concat(symbols, 5) + Bits(current, bitsLeft) == Concat(data[..i + 1], 8)
      {
        SymbolGivenOut(current, bitsLeft);
        bitsLeft := bitsLeft - 5;
        var symbol := Low(Shr(current, bitsLeft), 5);
        ConcatOneMore(symbols, symbol, 5);
        assert Concat(symbols, 5) + (Bits(symbol, 5) + Bits(current, bitsLeft))
            == (Concat(symbols, 5) + Bits(symbol, 5)) + Bits(current, bitsLeft);
        TextOneMore(symbols, symbol);
        symbols := symbols + [symbol];
        out := out + [Symbol(symbol)];
      }
    }
    assert data[..|data|] == data;
    ghost var fill := 0;
    if bitsLeft > 0 {
      fill := 5 - bitsLeft;
      LastSymbol(current, bitsLeft);
      var symbol := Low(Low(Shl(current, 5 - bitsLeft), WORD), 5);
      ConcatOneMore(symbols, symbol, 5);
      assert Concat(symbols, 5) + (Bits(current, bitsLeft) + Zeros(fill))
          == (Concat(symbols, 5) + Bits(current, bitsLeft)) + Zeros(fill);
      TextOneMore(symbols, symbol);
      symbols := symbols + [symbol];
      out := out + [Symbol(symbol)];
    } else {
      assert Concat(symbols, 5) + Bits(current, 0) == Concat(symbols, 5) + Zeros(0);
      assert Concat(symbols, 5) + Zeros(0) == Concat(symbols, 5);
      assert Concat(data, 8) + Zeros(0) == Concat(data, 8);
    }
    SmallPowers();
    GroupsUnique(symbols, Concat(data, 8), fill, 5);
  }

  lemma EmptyEncoded()
    ensures Concat([], 8) == [] && Concat([], 5) == [] && Groups([], 5) == [] && Bits(0, 0) == [] && Text([]) == []
    ensures Encoded([]) == ""
  {
  }

  // ---------------------------------------------------------------------
  // Decoding

  lemma {:induction false} OrBelow(a: nat, b: nat, n: nat)
    requires a < Pow(2, n) && b < Pow(2, n)
    ensures Or(a, b) < Pow(2, n)
    decreases n
  {
    if n != 0 && (a != 0 || b != 0) {
      OrBelow(a / 2, b / 2, n - 1);
    }
  }

  // A byte under construction: its free low bits are still zero.
  ghost predicate Partial(cb: nat, free: nat) {
    1 <= free <= 8 && cb < 256 && Bits(cb, 8)[8 - free..] == Zeros(free)
  }

  // A symbol that fits leaves the byte with five fewer free bits.
  lemma SymbolFits(cb: nat, free: nat, cur: nat)
    requires Partial(cb, free) && free > 5 && cur < 32
    ensures var v := Or(cb, Low(Shl(cur, free - 5), 8));
            Partial(v, free - 5) && Bits(v, 8)[..13 - free] == Bits(cb, 8)[..8 - free] + Bits(cur, 5)
  {
    hide Bits, Or, Shl, Low, Pow;
    var m, n := free - 5, 8 - free;
    var b := Low(Shl(cur, m), 8);
    SmallPowers();
    LowBelow(Shl(cur, m), 8);
    OrBelow(cb, b, 8);
    BitsLow(Shl(cur, m), 8, 8);
    BitsShl(cur, 8 - m, m);
    BitsOfSmall(cur, 5, n);
    BitsShr(b, n, free);
    assert Bits(b, 8) == Zeros(n) + Bits(cur, 5) + Zeros(m);
    assert Bits(b, free) == Bits(b, 8)[n..] == Bits(cur, 5) + Zeros(m);
    assert Bits(cb, 8) == Bits(cb, 8)[..n] + Zeros(free);
    OrJoins(cb, b, n, free);
  }

  // A symbol that does not fit completes the byte and starts the next one.
  lemma SymbolSplits(cb: nat, free: nat, cur: nat)
    requires Partial(cb, free) && free <= 5 && cur < 32
    ensures var rem := 5 - free;
            var v, w := Or(cb, Shr(cur, rem)), Low(Shl(Low(cur, rem), 8 - rem), 8);
            && v < 256 && Partial(w, 8 - rem)
            && Bits(v, 8) + Bits(w, 8)[..rem] == Bits(cb, 8)[..8 - free] + Bits(cur, 5)
  {
    hide Bits, Or, Shl, Shr, Low, Pow;
    var rem, n := 5 - free, 8 - free;
    var a, w := Shr(cur, rem), Low(Shl(Low(cur, rem), 8 - rem), 8);
    SmallPowers();
    ShrBelow(cur, rem);
    OrBelow(cb, a, 8);
    BitsShr(cur, 8, rem);
    BitsShr(cur, free, rem);
    BitsOfSmall(cur, 5, n);
    assert 8 + rem == n + 5;
    assert Bits(a, 8) == Bits(cur, 8 + rem)[..8];
    assert Bits(a, free) == Bits(cur, 5)[..free];
    assert Bits(a, 8) == Zeros(n) + Bits(a, free);
    assert Bits(cb, 8) == Bits(cb, 8)[..n] + Zeros(free);
    OrJoins(cb, a, n, free);
    LowBelow(Shl(Low(cur, rem), 8 - rem), 8);
    BitsLow(Shl(Low(cur, rem), 8 - rem), 8, 8);
    BitsShl(Low(cur, rem), rem, 8 - rem);
    BitsLow(cur, rem, rem);
    assert Bits(w, 8) == Bits(cur, rem) + Zeros(8 - rem);
  }

  lemma {:induction false} ShrBelow(x: nat, m: nat)
    ensures Shr(x, m) <= x
    decreases m
  {
    if m != 0 {
      ShrBelow(x / 2, m - 1);
    }
  }

  lemma ZeroByte(cb: nat, free: nat)
    requires Partial(cb, free)
    ensures cb == 0 <==> Bits(cb, 8)[..8 - free] == Zeros(8 - free)
  {
    hide Bits, Pow, Value;
    SmallPowers();
    BitsOfZero(8);
    ValueOfBits(cb, 8);
    ValueOfBits(0, 8);
    var b := Bits(cb, 8);
    assert b == b[..8 - free] + b[8 - free..];
    if b[..8 - free] == Zeros(8 - free) {
      assert b == Zeros(8);
    }
  }

  // The state after the symbols syms: whole bytes in out, the rest in the byte
  // under construction.
  ghost predicate Unpacked(syms: seq<nat>, out: seq<nat>, cb: nat, free: nat) {
    && Partial(cb, free) && AllBelow(out, 256)
    && free == Free(|syms|) && |out| == Whole(|syms|)
    && Concat(syms, 5) == Concat(out, 8) + Bits(cb, 8)[..8 - free]
  }

  lemma UnpackNone()
    ensures Unpacked([], [], 0, 8)
  {
    hide Bits;
    BitsOfZero(8);
    assert Free(0) == 8 && Whole(0) == 0;
    assert Zeros(8)[0..] == Zeros(8);
  }

  lemma UnpackFits(syms: seq<nat>, out: seq<nat>, cb: nat, free: nat, cur: nat)
    requires Unpacked(syms, out, cb, free) && free > 5 && cur < 32
    ensures Unpacked(syms + [cur], out, Or(cb, Low(Shl(cur, free - 5), 8)), free - 5)
  {
    hide Concat, Bits, Or, Shl, Low, Free, Whole;
    SymbolFits(cb, free, cur);
    FreeStep(|syms|);
    ConcatOneMore(syms, cur, 5);
    assert Concat(out, 8) + (Bits(cb, 8)[..8 - free] + Bits(cur, 5))
        == (Concat(out, 8) + Bits(cb, 8)[..8 - free]) + Bits(cur, 5);
  }

  lemma UnpackSplits(syms: seq<nat>, out: seq<nat>, cb: nat, free: nat, cur: nat)
    requires Unpacked(syms, out, cb, free) && free <= 5 && cur < 32
    ensures var rem := 5 - free;
            Unpacked(syms + [cur], out + [Or(cb, Shr(cur, rem))], Low(Shl(Low(cur, rem), 8 - rem), 8), 8 - rem)
  {
    hide Concat, Bits, Or, Shl, Shr, Low, Free, Whole;
    var rem := 5 - free;
    var v, w := Or(cb, Shr(cur, rem)), Low(Shl(Low(cur, rem), 8 - rem), 8);
    SymbolSplits(cb, free, cur);
    FreeStep(|syms|);
    ConcatOneMore(syms, cur, 5);
    ConcatOneMore(out, v, 8);
    var o := Concat(out, 8);
    assert o + (Bits(cb, 8)[..8 - free] + Bits(cur, 5)) == (o + Bits(cb, 8)[..8 - free]) + Bits(cur, 5);
    assert o + (Bits(v, 8) + Bits(w, 8)[..rem]) == (o + Bits(v, 8)) + Bits(w, 8)[..rem];
  }

  method DecodeSymbols(data: string) returns (ok: bool, i: nat, out: seq<nat>, currentByte: nat, bitsLeft: nat)
    ensures ok <==> AllSymbols(data[..SymbolCount(data)])
    ensures ok ==> i == SymbolCount(data) && Unpacked(ValuesOf(data[..i]), out, currentByte, bitsLeft)
  {
    hide Unpacked, Bits, Or, Shl, Shr, Low;
    ok, i, out, currentByte, bitsLeft := true, 0, [], 0, 8;
    UnpackNone();
    assert ValuesOf(data[..0]) == [];
    while i < |data|
      invariant 0 <= i <= |data| && AllSymbols(data[..i]) && i <= SymbolCount(data)
      invariant Unpacked(ValuesOf(data[..i]), out, currentByte, bitsLeft)
    {
      if data[i] == '=' {
        return;
      }
      var cur := DecodeChar(data[i]);
      if cur.None? {
        assert data[..SymbolCount(data)][i] == data[i];
        return false, i, out, currentByte, bitsLeft;
      }
      ghost var syms := ValuesOf(data[..i]);
      assert data[..i + 1] == data[..i] + [data[i]];
      assert AllSymbols(data[..i + 1]) && ValuesOf(data[..i + 1]) == syms + [cur.value];
      if bitsLeft > 5 {
        UnpackFits(syms, out, currentByte, bitsLeft, cur.value);
        bitsLeft := bitsLeft - 5;
        currentByte := Or(currentByte, Low(Shl(cur.value, bitsLeft), 8));
      } else {
        Unsplit(syms, out, currentByte, bitsLeft);
        var rem := 5 - bitsLeft;
        UnpackSplits(syms, out, currentByte, bitsLeft, cur.value);
        currentByte := Or(currentByte, Shr(cur.value, rem));
        out := out + [currentByte];
        currentByte := Low(Shl(Low(cur.value, rem), 8 - rem), 8);
        bitsLeft := 8 - rem;
      }
      i := i + 1;
    }
  }

  lemma Unsplit(syms: seq<nat>, out: seq<nat>, cb: nat, free: nat)
    requires Unpacked(syms, out, cb, free)
    ensures 1 <= free <= 8
  {
  }

  lemma FinishedBytes(syms: seq<nat>, out: seq<nat>, cb: nat, free: nat)
    requires Unpacked(syms, out, cb, free)
    ensures var b, n := Concat(syms, 5), 8 * Whole(|syms|);
            && (cb == 0 <==> b[n..] == Zeros(Leftover(|syms|)))
            && out == Groups(b[..n], 8)
  {
    hide Bits, Concat, Groups;
    var b, n := Concat(syms, 5), 8 * Whole(|syms|);
    ZeroByte(cb, free);
    assert |Concat(out, 8)| == n;
    assert b[n..] == Bits(cb, 8)[..8 - free] && b[..n] == Concat(out, 8);
    assert Concat(out, 8) + Zeros(0) == Concat(out, 8);
    SmallPowers();
    GroupsUnique(out, Concat(out, 8), 0, 8);
  }

  // What the decoder knows once the symbols are read.
  lemma Verdict(data: string, out: seq<nat>, cb: nat, free: nat)
    requires var k := SymbolCount(data);
             AllSymbols(data[..k]) && Unpacked(ValuesOf(data[..k]), out, cb, free)
    ensures var k := SymbolCount(data);
            Accepted(data) <==> cb == 0 && |data| - k <= Padding(k) && forall i :: k <= i < |data| ==> data[i] == '='
    ensures Accepted(data) ==> out == Decoded(data)
  {
    hide Unpacked, Concat, Groups, Whole, Leftover, Padding, SymbolCount, ValuesOf, AllSymbols;
    FinishedBytes(ValuesOf(data[..SymbolCount(data)]), out, cb, free);
  }

  method Base32Decode(data: string) returns (result: Option<seq<nat>>)
    ensures Accepted(data) ==> result == Some(Decoded(data))
    ensures !Accepted(data) ==> result == None
  {
    hide Unpacked, Accepted, Decoded, Free, Padding;
    var ok, i, out, currentByte, bitsLeft := DecodeSymbols(data);
    if !ok {
      NotAccepted(data);
      return None;
    }
    ghost var k := i;
    Verdict(data, out, currentByte, bitsLeft);
    if currentByte != 0 {
      return None;
    }
    FreeBits(ValuesOf(data[..k]), out, currentByte, bitsLeft);
    while i < |data| && data[i] == '=' && bitsLeft != 8
      invariant k <= i <= |data| && bitsLeft == Free(i) && i - k <= Padding(k)
      invariant forall j :: k <= j < i ==> data[j] == '='
    {
      FreeStep(i);
      PaddingGap(k, i);
      if bitsLeft > 5 {
        bitsLeft := bitsLeft - 5;
      } else {
        bitsLeft := bitsLeft + (8 - 5);
      }
      i := i + 1;
    }
    FreeStep(i);
    PaddingGap(k, i);
    if i != |data| {
      return None;
    }
    result := Some(out);
  }

  lemma NotAccepted(data: string)
    requires !AllSymbols(data[..SymbolCount(data)])
    ensures !Accepted(data)
  {
  }

  lemma FreeBits(syms: seq<nat>, out: seq<nat>, cb: nat, free: nat)
    requires Unpacked(syms, out, cb, free)
    ensures free == Free(|syms|)
  {
  }

  // ---------------------------------------------------------------------
  // Round trips

  // Eight characters for every five bytes begun.
  lemma EncodedLength(data: seq<byte>)
    ensures |Encoded(data)| == 8 * ((|data| + 4) / 5)
  {
    hide Bits, Groups, Concat, Text;
    SymbolsFill(data);
    PaddedCount(|data|, |Symbols(data)|);
  }

  lemma PaddedCount(n: nat, m: nat)
    requires 8 * n <= 5 * m < 8 * n + 5
    ensures m + Padding(m) == 8 * ((n + 4) / 5)
  {
    var q, r := n / 5, n % 5;
    assert m == 8 * q + if r == 0 then 0 else if r == 1 then 2 else if r == 2 then 4 else if r == 3 then 5 else 7;
  }

  lemma SymbolCountOfText(s: seq<nat>, n: nat)
    requires AllBelow(s, 32)
    ensures SymbolCount(Text(s) + Equals(n)) == |s|
  {
    var t, k := Text(s) + Equals(n), SymbolCount(Text(s) + Equals(n));
    assert forall i :: 0 <= i < |s| ==> t[i] == Symbol(s[i]);
    assert |s| < |t| ==> t[|s|] == '=';
  }

  lemma ValuesOfText(s: seq<nat>, n: nat)
    requires AllBelow(s, 32)
    ensures var t := (Text(s) + Equals(n))[..|s|]; AllSymbols(t) && ValuesOf(t) == s
  {
    var t := (Text(s) + Equals(n))[..|s|];
    forall i | 0 <= i < |s| ensures DecodeChar(t[i]) == Some(s[i]) {
      SymbolDecodes(s[i]);
    }
  }

  // Symbols and their padding are accepted when their leftover bits are zero.
  lemma AcceptedText(s: seq<nat>)
    requires AllBelow(s, 32)
    requires Concat(s, 5)[8 * Whole(|s|)..] == Zeros(Leftover(|s|))
    ensures var t := Text(s) + Equals(Padding(|s|));
            Accepted(t) && Decoded(t) == Groups(Concat(s, 5)[..8 * Whole(|s|)], 8)
  {
    hide Bits, Groups, Concat, Text, Symbol, DecodeChar, Whole, Leftover, SymbolCount, ValuesOf, AllSymbols, Padding;
    var t := Text(s) + Equals(Padding(|s|));
    SymbolCountOfText(s, Padding(|s|));
    ValuesOfText(s, Padding(|s|));
    assert forall i :: |s| <= i < |t| ==> t[i] == '=';
  }

  // Decode(Encode(x)) = x for every byte string.
  lemma DecodeEncode(data: seq<byte>)
    ensures Accepted(Encoded(data)) && Decoded(Encoded(data)) == data
  {
    hide Bits, Groups, Concat, Text, Accepted, Decoded, Pow, Whole, Leftover, Padding, Symbols;
    var s, b := Symbols(data), Concat(data, 8);
    SymbolsFill(data);
    var c := Concat(s, 5);
    WholeOf(|data|, |s|);
    assert c[..|b|] == b && c[|b|..] == Zeros(|c| - |b|);
    AcceptedText(s);
    SmallPowers();
    assert b + Zeros(0) == b;
    GroupsUnique(data, b, 0, 8);
  }

  lemma WholeOf(n: nat, k: nat)
    requires 8 * n <= 5 * k < 8 * n + 5
    ensures Whole(k) == n && Leftover(k) == 5 * k - 8 * n
  {
  }

  lemma SymbolsFill(data: seq<byte>)
    ensures var c, b := Concat(Symbols(data), 5), Concat(data, 8);
            |b| <= |c| < |b| + 5 && c == b + Zeros(|c| - |b|)
  {
    ConcatGroups(Concat(data, 8), 5);
  }

  // The bytes of an accepted text encode to its own symbols again exactly when
  // the last eight characters could be a complete encoding: k mod 8 symbols
  // with k mod 8 not 1, 3 or 6.
  lemma EncodeDecode(text: string)
    requires Accepted(text)
    ensures var k := SymbolCount(text);
            && AllBelow(Decoded(text), 256)
            && (Groups(Concat(Decoded(text), 8), 5) == ValuesOf(text[..k]) <==> k % 8 !in {1, 3, 6})
  {
    hide Bits, Groups, Concat, DecodeChar, Pow, Whole, Leftover;
    var k := SymbolCount(text);
    var s := ValuesOf(text[..k]);
    var c := Concat(s, 5);
    LeftoverTable(k);
    WholeAndLeftover(k);
    var b := c[..8 * Whole(k)];
    assert c == b + Zeros(Leftover(k));
    ConcatGroups(b, 8);
    SmallPowers();
    WholeBytes(Decoded(text), b, Whole(k));
    if k % 8 !in {1, 3, 6} {
      GroupsUnique(s, b, Leftover(k), 5);
    } else {
      ConcatGroups(b, 5);
    }
  }

  // An accepted text is the encoding of the bytes it decodes to exactly when it
  // has such a number of symbols, all its padding, and only capital letters and
  // the digits 2 to 7.
  lemma TextComesBack(text: string, data: seq<byte>)
    requires Accepted(text) && Decoded(text) == data
    ensures var k := SymbolCount(text);
            Encoded(data) == text <==>
              k % 8 !in {1, 3, 6} && |text| == k + Padding(k) && forall i :: 0 <= i < k ==> Folded(text[i]) == text[i]
  {
    hide Bits, Groups, Concat, DecodeChar, Symbol, Folded, Whole, Leftover, Decoded;
    var k := SymbolCount(text);
    var s, t := ValuesOf(text[..k]), Symbols(data);
    EncodeDecode(text);
    forall i | 0 <= i < k ensures Folded(text[i]) == Symbol(s[i]) {
      DecodesFolded(text[i]);
    }
    assert t == s <==> k % 8 !in {1, 3, 6};
    if Encoded(data) == text {
      SymbolCountOfText(t, Padding(|t|));
      ValuesOfText(t, Padding(|t|));
    } else if t == s && |text| == k + Padding(k) {
      SameText(text, k, s);
    }
  }

  // A text with all its padding is told by its symbols.
  lemma SameText(text: string, k: nat, s: seq<nat>)
    requires k == |s| && AllBelow(s, 32) && |text| == k + Padding(k)
    requires forall i :: k <= i < |text| ==> text[i] == '='
    ensures text == Text(s) + Equals(Padding(k)) <==> forall i :: 0 <= i < k ==> text[i] == Symbol(s[i])
  {
    hide Symbol;
    var t := Text(s) + Equals(Padding(k));
    assert forall i :: 0 <= i < k ==> t[i] == Symbol(s[i]);
  }

  // "aa" is accepted and decodes to one byte, whose encoding is another text.
  lemma LowerCaseDoesNotComeBack()
    ensures Accepted("aa") && Decoded("aa") == [0] && Encoded([0]) != "aa"
  {
    hide Bits, Groups, Concat;
    var t := "aa";
    assert t[1..] == "a" && "a"[1..] == "" && SymbolCount("") == 0;
    assert t[..2] == t && ValuesOf(t) == [0, 0];
    ZerosDecode();
    TextComesBack(t, [0]);
    assert Folded(t[0]) != t[0];
  }

  lemma ZerosDecode()
    ensures Concat([0, 0], 5) == Zeros(10) && Groups(Zeros(10)[..8], 8) == [0]
    ensures Whole(2) == 1 && Leftover(2) == 2 && Zeros(10)[8..] == Zeros(2)
  {
    hide Bits, Concat, Groups;
    OneZero(5);
    OneZero(8);
    BitsOfZero(5);
    ConcatOneMore([0], 0, 5);
    assert [0] + [0] == [0, 0] && Zeros(5) + Zeros(5) == Zeros(10);
    assert Zeros(10)[..8] == Zeros(8) == Concat([0], 8) + Zeros(0);
    SmallPowers();
    GroupsUnique([0], Zeros(8), 0, 8);
  }

  lemma OneZero(n: nat)
    requires n > 0
    ensures Concat([0], n) == Zeros(n)
  {
    hide Bits;
    BitsOfZero(n);
    ConcatOneMore([], 0, n);
    assert [] + [0] == [0] && Concat([], n) == [] && [] + Zeros(n) == Zeros(n);
  }

  // Such a text exists: "A" is accepted, decodes to nothing, and nothing
  // encodes to the empty text.
  lemma LoneSymbolIsDropped()
    ensures Accepted("A") && SymbolCount("A") == 1 && Decoded("A") == [] && Encoded([]) == ""
  {
    var t := "A";
    assert t[1..] == "" && SymbolCount("") == 0;
    assert t[..1] == "A" && ValuesOf("A") == [0];
    BitsOfZero(5);
    ConcatOneMore([], 0, 5);
    assert [] + [0] == [0] && Concat([], 5) == [];
    assert Concat([0], 5) == Zeros(5) && Whole(1) == 0 && Leftover(1) == 5;
    assert Zeros(5)[0..] == Zeros(5);
    EmptyEncoded();
  }

  lemma WholeBytes(d: seq<nat>, b: seq<bool>, n: nat)
    requires |b| == 8 * n && |b| <= |Concat(d, 8)| < |b| + 8
    requires Concat(d, 8) == b + Zeros(|Concat(d, 8)| - |b|)
    ensures Concat(d, 8) == b
  {
    hide Concat;
    assert |d| == n;
  }
}
