// The TOTP master secret: reading it from its hexadecimal text and writing it
// back in canonical form. The key holds the number in little-endian order.
module TotpKeys {
  import opened Aead
  import opened Bytes
  import opened Hex
  import opened Text

  const KEY_SIZE: nat := 16

  datatype ParseError = Prefixed | NotHexadecimal
  datatype Parsed = Ok(key: Key) | Err(error: ParseError)

  predicate HasPrefix0x(s: string) { |s| >= 2 && s[0] == '0' && (s[1] == 'x' || s[1] == 'X') }

  // What the text means: its number, cut to the low 128 bits.
  function Parse(value: string): Parsed {
    var t := Trim(value);
    if t == "" then Ok(seq(16, _ => 0))
    else if HasPrefix0x(t) then Err(Prefixed)
    else if !IsHex(t) then Err(NotHexadecimal)
    else Ok(Digits(HexNumber(t), 16))
  }

  // Swapping from both ends until the indexes meet.
  method ReverseInPlace(a: array<byte>)
    modifies a
    ensures a[..] == Reversed(old(a[..]))
  {
    var i, j := 0, a.Length - 1;
    while i < j
      invariant 0 <= i <= a.Length && j == a.Length - 1 - i && i <= j + 1
      invariant forall k :: 0 <= k < i || j < k < a.Length ==> a[k] == old(a[a.Length - 1 - k])
      invariant forall k :: i <= k <= j ==> a[k] == old(a[k])
    {
      a[i], a[j] := a[j], a[i];
      i, j := i + 1, j - 1;
    }
    ghost var was := old(a[..]);
    assert forall k :: 0 <= k < a.Length ==> a[..][k] == was[a.Length - 1 - k];
  }

  method ParseTOTPMasterSecret(text: string) returns (r: Parsed)
    ensures r == Parse(text)
  {
    hide HexNumber, DecodeHex, Digits, BigEndian, Reversed, RightAligned, Trim;
    var value := Trim(text);
    if value == "" {
      return Ok(seq(16, _ => 0));
    }
    if HasPrefix0x(value) {
      return Err(Prefixed);
    }
    if |value| % 2 != 0 {
      PadKeepsHex(value);
      value := "0" + value;
    }
    if !IsHex(value) {
      return Err(NotHexadecimal);
    }
    var decoded := DecodeHex(value);
    DecodedNumber(value);
    var key := LastBytes(decoded);
    ghost var right := key[..];
    ReverseInPlace(key);
    KeyDigits(decoded, right);
    r := Ok(key[..]);
  }

  // The last 16 bytes, aligned to the right of a zeroed key.
  method LastBytes(bytes: seq<byte>) returns (key: array<byte>)
    ensures fresh(key) && RightAligned(bytes, key[..])
  {
    var decoded := bytes;
    if |decoded| > KEY_SIZE {
      decoded := decoded[|decoded| - KEY_SIZE..];
    }
    key := new byte[KEY_SIZE](_ => 0);
    var from := KEY_SIZE - |decoded|;
    for i := 0 to |decoded|
      invariant forall k :: 0 <= k < from ==> key[k] == 0
      invariant forall k :: from <= k < from + i ==> key[k] == decoded[k - from]
    {
      key[from + i] := decoded[i];
    }
  }

  predicate RightAligned(all: seq<byte>, right: seq<byte>) {
    && |right| == 16
    && forall j :: 0 <= j < 16 ==> right[j] == if 15 - j < |all| then all[|all| - 16 + j] else 0
  }

  lemma PadKeepsHex(s: string)
    ensures IsHex("0" + s) <==> IsHex(s)
    ensures IsHex(s) ==> HexNumber("0" + s) == HexNumber(s)
  {
    var t := "0" + s;
    assert forall i :: 0 <= i < |s| ==> t[i + 1] == s[i];
    assert IsHex(t) ==> IsHex(s);
    if IsHex(s) {
      LeadingZero(s);
    }
  }

  // The digits of a number given by its bytes, most significant first.
  lemma {:induction false} DigitOfBigEndian(d: seq<byte>, i: nat)
    ensures Digit(BigEndian(d), i) == if i < |d| then d[|d| - 1 - i] else 0
    decreases i
  {
    if |d| == 0 {
      ZeroDigits(i);
    } else {
      var front := d[..|d| - 1];
      var v := 256 * BigEndian(front) + d[|d| - 1];
      assert v % 256 == d[|d| - 1] && v / 256 == BigEndian(front);
      if i > 0 {
        DigitOfBigEndian(front, i - 1);
      }
    }
  }

  // Right-aligned bytes, reversed, are the low digits of the number.
  lemma KeyDigits(all: seq<byte>, right: seq<byte>)
    requires RightAligned(all, right)
    ensures Reversed(right) == Digits(BigEndian(all), 16)
  {
    hide Digits, BigEndian, Reversed;
    forall k: nat | k < 16 ensures Reversed(right)[k] == Digits(BigEndian(all), 16)[k] {
      DigitOfDigits(BigEndian(all), 16, k);
      DigitOfBigEndian(all, k);
      assert Reversed(right)[k] == right[15 - k];
    }
  }

  function Canonical(key: Key): string { UpperHex(LittleEndian(key)) }

  method CanonicalTOTPMasterSecret(key: Key) returns (text: string)
    ensures text == Canonical(key)
  {
    var reversed := new byte[KEY_SIZE](i requires 0 <= i < |key| => key[i]);
    assert reversed[..] == key;
    ReverseInPlace(reversed);
    ReversedValue(key);
    text := UpperHex(BigEndian(reversed[..]));
  }

  // ---------------------------------------------------------------------
  // Round trips

  // Writing a key and reading it back.
  lemma ParseCanonical(key: Key)
    ensures Parse(Canonical(key)) == Ok(key)
  {
    hide Trim, HexNumber, UpperHex, Digits, LittleEndian;
    var v := LittleEndian(key);
    var t := UpperHex(v);
    UpperHexNumber(v);
    assert IsHexDigit(t[0]) && IsHexDigit(t[|t| - 1]);
    assert |t| > 1 ==> IsHexDigit(t[1]);
    TrimFacts(t);
    ValueDigits(key);
  }

  // So two keys with the same canonical form are the same key.
  lemma CanonicalIsInjective(k: Key, l: Key)
    requires Canonical(k) == Canonical(l)
    ensures k == l
  {
    ParseCanonical(k);
    ParseCanonical(l);
  }

  lemma {:induction false} DigitsKeepLow(v: nat, size: nat)
    ensures Pow(256, size) > 0 && LittleEndian(Digits(v, size)) == v % Pow(256, size)
    decreases size
  {
    if size > 0 {
      DigitsKeepLow(v / 256, size - 1);
      assert Digits(v, size)[1..] == Digits(v / 256, size - 1);
      LowDigitFirst(v, Pow(256, size - 1));
    }
  }

  lemma LowDigitFirst(v: nat, p: nat)
    requires p > 0
    ensures v % (256 * p) == v % 256 + 256 * ((v / 256) % p)
  {
    var q := v / 256;
    var k, r := q / p, q % p;
    assert q == k * p + r && v == 256 * q + v % 256;
    Regroup(k, p);
    ModUnique(v, k, 256 * r + v % 256, 256 * p);
  }

  lemma Regroup(k: nat, p: nat)
    ensures 256 * (k * p) == k * (256 * p)
  {
  }

  // A text is refused exactly when something in it is no hexadecimal digit,
  // and two texts give the same key exactly when their numbers agree modulo 2^128.
  lemma ParseReadsNumber(value: string)
    ensures Parse(value).Err? <==> !IsHex(Trim(value))
    ensures var t := Trim(value);
      Parse(value) == Err(Prefixed) <==> |t| >= 2 && t[0] == '0' && (t[1] == 'x' || t[1] == 'X')
    ensures Parse(value).Ok? ==>
      Pow(256, 16) > 0 && LittleEndian(Parse(value).key) == HexNumber(Trim(value)) % Pow(256, 16)
  {
    hide Trim, Digits, Pow, LittleEndian;
    var t := Trim(value);
    if t == "" {
      DigitsKeepLow(0, 16);
      ZeroKey();
    } else if HasPrefix0x(t) {
      assert !IsHexDigit(t[1]);
    } else if IsHex(t) {
      DigitsKeepLow(HexNumber(t), 16);
    }
  }

  lemma ZeroKey()
    ensures Digits(0, 16) == seq<byte>(16, _ => 0)
  {
    hide Digits;
    forall i: nat | i < 16 ensures Digits(0, 16)[i] == 0 {
      DigitOfDigits(0, 16, i);
      ZeroDigits(i);
    }
  }

  lemma SameNumberSameKey(v: string, w: string)
    requires IsHex(Trim(v)) && IsHex(Trim(w))
    ensures Pow(256, 16) > 0
    ensures Parse(v) == Parse(w) <==>
      HexNumber(Trim(v)) % Pow(256, 16) == HexNumber(Trim(w)) % Pow(256, 16)
  {
    hide Trim, Digits, Pow, LittleEndian, Parse;
    ParseReadsNumber(v);
    ParseReadsNumber(w);
    ValueDigits(Parse(v).key);
    ValueDigits(Parse(w).key);
  }
}
