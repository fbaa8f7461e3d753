// Base32 told by numbers: what a text and its bytes write, digit by digit, in
// base 32 and base 256, without bit strings.
module Base32Numbers {
  import opened Base32
  import opened Bytes
  import opened Wrappers

  // The number with the given digits, the most significant first.
  function Number(s: seq<nat>, base: nat): nat {
    if |s| == 0 then 0 else base * Number(s[..|s| - 1], base) + s[|s| - 1]
  }

  lemma {:induction false} NumberOfBytes(data: seq<byte>)
    ensures Number(data, 256) == BigEndian(data)
  {
    if |data| > 0 {
      NumberOfBytes(data[..|data| - 1]);
    }
  }

  // ---------------------------------------------------------------------
  // Bits and numbers

  lemma {:induction false} ValueJoins(a: seq<bool>, b: seq<bool>)
    ensures Value(a + b) == Value(a) * Pow(2, |b|) + Value(b)
  {
    hide Pow;
    if |b| == 0 {
      assert a + b == a;
      PowAdd(2, 0, 0);
    } else {
      var f := b[..|b| - 1];
      assert (a + b)[..|a + b| - 1] == a + f;
      ValueJoins(a, f);
      DoubledPlace(Value(a), |f|);
    }
  }

  lemma DoubledPlace(v: nat, n: nat)
    ensures 2 * (v * Pow(2, n)) == v * Pow(2, n + 1)
  {
    var p := Pow(2, n);
    assert 2 * (v * p) == v * (2 * p);
  }

  lemma {:induction false} ConcatValue(s: seq<nat>, size: nat)
    requires AllBelow(s, Pow(2, size)) && Pow(2, size) >= 0
    ensures Value(Concat(s, size)) == Number(s, Pow(2, size))
  {
    hide Bits, Value, Pow, Concat;
    if |s| == 0 {
      EmptyValue(size);
    } else {
      var f, x := s[..|s| - 1], s[|s| - 1];
      assert s == f + [x];
      ConcatOneMore(f, x, size);
      ConcatValue(f, size);
      ValueJoins(Concat(f, size), Bits(x, size));
      ValueOfBits(x, size);
    }
  }

  lemma EmptyValue(size: nat)
    ensures Concat([], size) == [] && Value([]) == 0
  {
  }

  // Zeros at the end are a power of two that divides the value.
  lemma ZerosDivide(b: seq<bool>, n: nat)
    requires n <= |b|
    ensures var p := Pow(2, |b| - n);
      && p > 0 && Value(b[..n]) == Value(b) / p
      && (b[n..] == Zeros(|b| - n) <==> Value(b) % p == 0)
  {
    hide Value, Pow, Bits;
    var l := |b| - n;
    var p, high, low := Pow(2, l), Value(b[..n]), Value(b[n..]);
    assert b == b[..n] + b[n..];
    ValueJoins(b[..n], b[n..]);
    QuotientAndRest(high, p, low);
    BitsOfValue(b[n..]);
    BitsOfZero(l);
    if b[n..] == Zeros(l) {
      ZeroValue(l);
    }
  }

  lemma {:induction false} ZeroValue(n: nat)
    ensures Value(Zeros(n)) == 0
  {
    if n > 0 {
      assert Zeros(n)[..n - 1] == Zeros(n - 1);
      ZeroValue(n - 1);
    }
  }

  lemma QuotientAndRest(q: nat, p: int, r: nat)
    requires r < p
    ensures (q * p + r) / p == q && (q * p + r) % p == r
  {
    ModUnique(q * p + r, q, r, p);
    var d := (q * p + r) / p;
    assert d * p == q * p;
    assert d > q ==> (d - q) * p >= p;
    assert d < q ==> (q - d) * p >= p;
  }

  // ---------------------------------------------------------------------
  // The alphabet, the encoding and the decoding

  // Capital and small letters, the digits 2 to 7, and three look-alikes.
  lemma DecodesExactly(c: char, v: nat)
    ensures DecodeChar(c) == Some(v) <==>
      && v < 32
      && (c == "ABCDEFGHIJKLMNOPQRSTUVWXYZ234567"[v] || c == "abcdefghijklmnopqrstuvwxyz234567"[v]
          || (c == '0' && v == 14) || (c == '1' && v == 11) || (c == '8' && v == 1))
  {
    var upper, lower := "ABCDEFGHIJKLMNOPQRSTUVWXYZ234567", "abcdefghijklmnopqrstuvwxyz234567";
    if v < 26 {
      assert upper[v] == 'A' + v as char && lower[v] == 'a' + v as char;
    } else if v < 32 {
      assert upper[v] == lower[v] == '2' + (v - 26) as char;
    }
  }

  // The bytes are one number; in base 32, shifted to end with a whole digit, its
  // digits are the symbols. Then '=' up to a multiple of eight characters.
  lemma EncodesNumber(data: seq<byte>) returns (s: seq<nat>)
    ensures |s| == (8 * |data| + 4) / 5 && |Encoded(data)| == |s| + (8 - |s| % 8) % 8
    ensures forall i :: 0 <= i < |s| ==> s[i] < 32 && Encoded(data)[i] == "ABCDEFGHIJKLMNOPQRSTUVWXYZ234567"[s[i]]
    ensures forall i :: |s| <= i < |Encoded(data)| ==> Encoded(data)[i] == '='
    ensures Number(s, 32) == BigEndian(data) * Pow(2, 5 * |s| - 8 * |data|)
  {
    hide Bits, Value, Pow, Concat, Symbols, Number, BigEndian, Zeros;
    s := Symbols(data);
    SymbolsFill(data);
    SmallPowers();
    var p := 5 * |s| - 8 * |data|;
    ConcatValue(s, 5);
    ConcatValue(data, 8);
    NumberOfBytes(data);
    ValueJoins(Concat(data, 8), Zeros(p));
    ZeroValue(p);
  }

  // No character but '=' ends the symbols of an accepted text.
  lemma EqualsEndsSymbols(text: string, s: seq<nat>)
    requires |s| <= |text| && forall i :: 0 <= i < |s| ==> DecodeChar(text[i]) == Some(s[i])
    requires |s| == |text| || DecodeChar(text[|s|]) == None
    ensures SymbolCount(text) == |s| || (!Accepted(text) && |s| < |text| && text[|s|] != '=')
  {
    hide Concat, Zeros, Groups;
    var c := SymbolCount(text);
    assert DecodeChar('=') == None;
    if c > |s| {
      assert text[..c][|s|] == text[|s|];
    }
  }

  lemma AcceptedHere(text: string, s: seq<nat>)
    requires SymbolCount(text) == |s| && forall i :: 0 <= i < |s| ==> DecodeChar(text[i]) == Some(s[i])
    ensures var b, p := Concat(s, 5), Pow(2, 5 * |s| % 8);
      && p > 0
      && (Accepted(text) <==>
            && |text| <= |s| + (8 - |s| % 8) % 8 && (forall i :: |s| <= i < |text| ==> text[i] == '=')
            && Number(s, 32) % p == 0)
      && (Accepted(text) ==>
            && |Decoded(text)| == 5 * |s| / 8 && (forall i :: 0 <= i < |Decoded(text)| ==> Decoded(text)[i] < 256)
            && Number(Decoded(text), 256) == Number(s, 32) / p)
  {
    hide Bits, Value, Pow, Concat, Number, Zeros, Groups, DecodeChar;
    var k, b := |s|, Concat(s, 5);
    var n := 8 * Whole(k);
    assert AllSymbols(text[..k]) && ValuesOf(text[..k]) == s;
    SmallPowers();
    ZerosDivide(b, n);
    ConcatValue(s, 5);
    ConcatGroups(b[..n], 8);
    var d := Groups(b[..n], 8);
    WholeBytes(d, b[..n], Whole(k));
    ConcatValue(d, 8);
  }

  // With the symbols up to the first '=', or to the end: the text is accepted
  // exactly when nothing but '=' follows, no more than completes the eight, and
  // the bits after the last whole byte are zero. The bytes are what is left of
  // the number without those bits.
  lemma AcceptsExactly(text: string, s: seq<nat>)
    requires |s| <= |text| && forall i :: 0 <= i < |s| ==> DecodeChar(text[i]) == Some(s[i])
    requires |s| == |text| || DecodeChar(text[|s|]) == None
    ensures var p := Pow(2, 5 * |s| % 8);
      && p > 0
      && (Accepted(text) <==>
            && |text| <= |s| + (8 - |s| % 8) % 8 && (forall i :: |s| <= i < |text| ==> text[i] == '=')
            && Number(s, 32) % p == 0)
      && (Accepted(text) ==>
            && |Decoded(text)| == 5 * |s| / 8 && (forall i :: 0 <= i < |Decoded(text)| ==> Decoded(text)[i] < 256)
            && Number(Decoded(text), 256) == Number(s, 32) / p)
  {
    hide Bits, Value, Pow, Concat, Number, Zeros, Groups, DecodeChar, Accepted, Decoded;
    ZerosDivide(Concat(s, 5), 8 * Whole(|s|));
    EqualsEndsSymbols(text, s);
    if SymbolCount(text) == |s| {
      AcceptedHere(text, s);
    }
  }
}
