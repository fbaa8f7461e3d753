// Bytes, their little- and big-endian values, and powers modulo a number.
module Bytes {

  type byte = x: int | 0 <= x < 256

  // ---------------------------------------------------------------------
  // Endianness

  function LittleEndian(s: seq<byte>): nat {
    if |s| == 0 then 0 else s[0] + 256 * LittleEndian(s[1..])
  }

  // big.Int.SetBytes
  function BigEndian(s: seq<byte>): nat {
    if |s| == 0 then 0 else 256 * BigEndian(s[..|s| - 1]) + s[|s| - 1]
  }

  // big.Int.Bytes: most significant first, no leading zero.
  function MinimalBytes(v: nat): seq<byte> {
    if v == 0 then [] else MinimalBytes(v / 256) + [v % 256]
  }

  // The size lowest base-256 digits, least significant first.
  function Digits(v: nat, size: nat): (s: seq<byte>)
    ensures |s| == size
    decreases size
  {
    if size == 0 then [] else [v % 256] + Digits(v / 256, size - 1)
  }

  function Reversed(s: seq<byte>): (r: seq<byte>)
    ensures |r| == |s| && forall i :: 0 <= i < |s| ==> r[i] == s[|s| - 1 - i]
  {
    if |s| == 0 then [] else Reversed(s[1..]) + [s[0]]
  }

  lemma {:induction false} ReversedValue(s: seq<byte>)
    ensures BigEndian(Reversed(s)) == LittleEndian(s)
  {
    if |s| != 0 {
      ReversedValue(s[1..]);
      var r := Reversed(s);
      assert r[..|r| - 1] == Reversed(s[1..]);
    }
  }

  // One byte is its own value, and what follows counts by the place it has.
  lemma {:induction false} LittleEndianJoins(d: byte, s: seq<byte>, t: seq<byte>)
    ensures LittleEndian([d]) == d
    ensures LittleEndian(s + t) == LittleEndian(s) + Pow(256, |s|) * LittleEndian(t)
  {
    assert [d][1..] == [];
    if |s| == 0 {
      assert s + t == t;
    } else {
      LittleEndianJoins(d, s[1..], t);
      assert (s + t)[1..] == s[1..] + t;
      assert 256 * (Pow(256, |s| - 1) * LittleEndian(t)) == Pow(256, |s|) * LittleEndian(t);
    }
  }

  function Digit(v: nat, i: nat): byte
    decreases i
  {
    if i == 0 then v % 256 else Digit(v / 256, i - 1)
  }

  lemma {:induction false} DigitOfDigits(v: nat, size: nat, i: nat)
    requires i < size
    ensures Digits(v, size)[i] == Digit(v, i)
  {
    if i != 0 {
      DigitOfDigits(v / 256, size - 1, i - 1);
    }
  }

  lemma {:induction false} DigitOfMinimal(v: nat, i: nat)
    ensures var m := MinimalBytes(v);
            if i < |m| then m[|m| - 1 - i] == Digit(v, i) else Digit(v, i) == 0
    decreases i
  {
    if v == 0 {
      ZeroDigits(i);
    } else if i != 0 {
      DigitOfMinimal(v / 256, i - 1);
    }
  }

  lemma {:induction false} ZeroDigits(i: nat)
    ensures Digit(0, i) == 0
  {
    if i != 0 {
      ZeroDigits(i - 1);
    }
  }

  // Writing a value that fits and reading it back.
  lemma {:induction false} DigitsValue(v: nat, size: nat)
    requires v < Pow(256, size)
    ensures LittleEndian(Digits(v, size)) == v
    decreases size
  {
    if size != 0 {
      assert v / 256 < Pow(256, size - 1);
      DigitsValue(v / 256, size - 1);
      assert Digits(v, size)[1..] == Digits(v / 256, size - 1);
    }
  }

  // Reading bytes and writing them back.
  lemma {:induction false} ValueDigits(s: seq<byte>)
    ensures LittleEndian(s) < Pow(256, |s|)
    ensures Digits(LittleEndian(s), |s|) == s
  {
    if |s| != 0 {
      ValueDigits(s[1..]);
      var rest, p := LittleEndian(s[1..]), Pow(256, |s| - 1);
      assert Pow(256, |s|) == 256 * p && rest <= p - 1;
      LowestDigit(s[0], rest);
      assert s == [s[0]] + s[1..];
    }
  }

  lemma LowestDigit(d: byte, rest: nat)
    ensures (d + 256 * rest) % 256 == d && (d + 256 * rest) / 256 == rest
  {
  }

  // ---------------------------------------------------------------------
  // Powers

  function Pow(b: int, e: nat): int {
    if e == 0 then 1 else b * Pow(b, e - 1)
  }

  lemma {:induction false} PowAdd(b: int, e: nat, f: nat)
    ensures Pow(b, 0) == 1 && Pow(b, 1) == b
    ensures Pow(b, e + f) == Pow(b, e) * Pow(b, f)
  {
    assert Pow(b, 1) == b * Pow(b, 0);
    if e != 0 {
      PowAdd(b, e - 1, f);
      assert b * (Pow(b, e - 1) * Pow(b, f)) == (b * Pow(b, e - 1)) * Pow(b, f);
    }
  }

  lemma {:induction false} PowMul(b: int, e: nat, f: nat)
    ensures 0 <= e * f && Pow(Pow(b, e), f) == Pow(b, e * f)
  {
    if f != 0 {
      PowMul(b, e, f - 1);
      assert e * f == e + e * (f - 1);
      PowAdd(b, e, e * (f - 1));
    }
  }

  lemma {:induction false} PowOfProduct(a: int, b: int, e: nat)
    ensures Pow(a * b, e) == Pow(a, e) * Pow(b, e)
  {
    if e != 0 {
      PowOfProduct(a, b, e - 1);
      SwapFactors(a, b, Pow(a, e - 1), Pow(b, e - 1));
    }
  }

  lemma SwapFactors(a: int, b: int, x: int, y: int)
    ensures (a * b) * (x * y) == (a * x) * (b * y)
  {
    assert b * (x * y) == x * (b * y);
    assert (a * b) * (x * y) == a * (b * (x * y));
    assert (a * x) * (b * y) == a * (x * (b * y));
  }

  lemma {:induction false} PowOfOne(e: nat)
    ensures Pow(1, e) == 1
  {
    if e != 0 {
      PowOfOne(e - 1);
    }
  }

  // big.Int.Exp with a positive modulus.
  function PowMod(b: int, e: nat, m: nat): (r: nat)
    requires m > 0
    ensures r < m
  {
    Pow(b, e) % m
  }

  lemma ModUnique(x: int, q: int, r: int, m: nat)
    requires m > 0 && x == q * m + r && 0 <= r < m
    ensures x % m == r
  {
    var d := x / m - q;
    assert x == (x / m) * m + x % m;
    assert d * m == r - x % m;
    assert 0 - m < d * m < m;
    assert d >= 1 ==> d * m >= m;
    assert d <= -1 ==> d * m <= 0 - m;
  }

  lemma ModAddMultiple(x: int, k: int, m: nat)
    requires m > 0
    ensures (x + k * m) % m == x % m
  {
    assert x + k * m == (x / m + k) * m + x % m;
    ModUnique(x + k * m, x / m + k, x % m, m);
  }

  lemma ModMul(a: int, b: int, m: nat)
    requires m > 0
    ensures (a * b) % m == ((a % m) * (b % m)) % m
  {
    var qa, qb, ra, rb := a / m, b / m, a % m, b % m;
    assert a == qa * m + ra && b == qb * m + rb;
    assert a * b == ra * rb + (qa * b + ra * qb) * m by {
      assert a * b == (qa * m + ra) * b;
      assert (qa * m + ra) * b == (qa * b) * m + ra * b;
      assert ra * b == ra * (qb * m + rb);
      assert ra * (qb * m + rb) == (ra * qb) * m + ra * rb;
    }
    ModAddMultiple(ra * rb, qa * b + ra * qb, m);
  }

  lemma {:induction false} PowModReduce(b: int, e: nat, m: nat)
    requires m > 0
    ensures PowMod(b % m, e, m) == PowMod(b, e, m)
  {
    if e != 0 {
      PowModReduce(b, e - 1, m);
      ModMulCongruent(b % m, b, Pow(b % m, e - 1), Pow(b, e - 1), m);
    }
  }

  lemma ModMulCongruent(a: int, b: int, x: int, y: int, m: nat)
    requires m > 0 && a == b % m && x % m == y % m
    ensures (a * x) % m == (b * y) % m
  {
    ModUnique(a, 0, a, m);
    ModMul(a, x, m);
    ModMul(b, y, m);
  }
}
