// Hexadecimal digits and numbers.
module Hex {
  import opened Bytes

  predicate IsHexDigit(c: char) { '0' <= c <= '9' || 'a' <= c <= 'f' || 'A' <= c <= 'F' }

  predicate IsHex(s: string) { forall i :: 0 <= i < |s| ==> IsHexDigit(s[i]) }

  function Nibble(c: char): (n: nat)
    requires IsHexDigit(c)
    ensures n < 16
  {
    if c <= '9' then c as int - '0' as int
    else if c <= 'F' then c as int - 'A' as int + 10
    else c as int - 'a' as int + 10
  }

  // The number that a string of digits writes.
  function HexNumber(s: string): nat
    requires IsHex(s)
  {
    if |s| == 0 then 0 else 16 * HexNumber(s[..|s| - 1]) + Nibble(s[|s| - 1])
  }

  // hex.DecodeString on digits of even number.
  function DecodeHex(s: string): (r: seq<byte>)
    requires IsHex(s) && |s| % 2 == 0
    ensures |r| == |s| / 2
  {
    if |s| == 0 then []
    else DecodeHex(s[..|s| - 2]) + [16 * Nibble(s[|s| - 2]) + Nibble(s[|s| - 1])]
  }

  lemma {:induction false} DecodedNumber(s: string)
    requires IsHex(s) && |s| % 2 == 0
    ensures BigEndian(DecodeHex(s)) == HexNumber(s)
  {
    if |s| > 0 {
      var t := s[..|s| - 1];
      assert t[..|t| - 1] == s[..|s| - 2];
      DecodedNumber(s[..|s| - 2]);
      var r := DecodeHex(s);
      assert r[..|r| - 1] == DecodeHex(s[..|s| - 2]);
    }
  }

  lemma {:induction false} LeadingZero(s: string)
    requires IsHex(s)
    ensures IsHex("0" + s) && HexNumber("0" + s) == HexNumber(s)
  {
    var t := "0" + s;
    if |s| > 0 {
      assert t[..|t| - 1] == "0" + s[..|s| - 1];
      LeadingZero(s[..|s| - 1]);
    }
  }

  function UpperDigit(n: nat): (c: char)
    requires n < 16
    ensures IsHexDigit(c) && Nibble(c) == n
  {
    if n < 10 then '0' + n as char else 'A' + (n - 10) as char
  }

  // The digits in order, in small and in capital letters; nothing else is one.
  lemma DigitsInOrder(i: nat, c: char)
    requires i < 16
    ensures var lower, upper := "0123456789abcdef", "0123456789ABCDEF";
      && (IsHexDigit(c) <==> c in lower || c in upper)
      && IsHexDigit(lower[i]) && Nibble(lower[i]) == i
      && IsHexDigit(upper[i]) && Nibble(upper[i]) == i && UpperDigit(i) == upper[i]
  {
    var lower, upper := "0123456789abcdef", "0123456789ABCDEF";
    forall d | IsHexDigit(d) ensures d in lower || d in upper {
      if d <= '9' {
        assert lower[d as int - '0' as int] == d;
      } else if d <= 'F' {
        assert upper[d as int - 'A' as int + 10] == d;
      } else {
        assert lower[d as int - 'a' as int + 10] == d;
      }
    }
  }

  // The last digit counts once, and all before it sixteenfold.
  lemma LastDigit(s: string, c: char)
    requires IsHex(s) && IsHexDigit(c)
    ensures HexNumber("") == 0
    ensures IsHex(s + [c]) && HexNumber(s + [c]) == 16 * HexNumber(s) + Nibble(c)
  {
    var t := s + [c];
    assert t[..|t| - 1] == s;
  }

  // A number in capital digits, without leading zeros.
  function UpperHex(v: nat): string {
    if v < 16 then [UpperDigit(v)] else UpperHex(v / 16) + [UpperDigit(v % 16)]
  }

  lemma {:induction false} UpperHexNumber(v: nat)
    ensures UpperHex(v) != "" && IsHex(UpperHex(v)) && HexNumber(UpperHex(v)) == v
  {
    var s := UpperHex(v);
    if v < 16 {
      assert s[..|s| - 1] == "";
    } else {
      UpperHexNumber(v / 16);
      assert s[..|s| - 1] == UpperHex(v / 16);
    }
  }

  lemma {:induction false} UpperHexIsShort(v: nat)
    ensures forall c :: c in UpperHex(v) ==> c in "0123456789ABCDEF"
    ensures v > 0 ==> UpperHex(v)[0] != '0'
    ensures v == 0 ==> UpperHex(v) == "0"
  {
    DigitsInOrder(v % 16, '0');
    if v >= 16 {
      UpperHexIsShort(v / 16);
    }
  }
}
