// Authenticated encryption of a buffer in place, and the layout of a stored
// value: ciphertext, then a 12-byte initialisation vector, then a 12-byte tag.
module Aead {
  import opened Bytes
  import opened Wrappers

  const IV_SIZE: nat := 12
  const TAG_SIZE: nat := 12

  type Key = s: seq<byte> | |s| == 16 witness seq(16, _ => 0)
  type Iv = s: seq<byte> | |s| == 12 witness seq(12, _ => 0)

  // AES-GCM with a 12-byte tag: seal gives the ciphertext and then the tag.
  datatype Cipher = Cipher(seal: (Key, Iv, seq<byte>) -> seq<byte>, open: (Key, Iv, seq<byte>) -> Option<seq<byte>>)

  // The sizes, and that what was sealed can be opened.
  ghost predicate Lawful(c: Cipher) {
    && (forall key: Key, iv: Iv, data: seq<byte> :: |c.seal(key, iv, data)| == |data| + TAG_SIZE)
    && (forall key: Key, iv: Iv, data: seq<byte> :: c.open(key, iv, c.seal(key, iv, data)) == Some(data))
    && (forall key: Key, iv: Iv, sealed: seq<byte> ::
          c.open(key, iv, sealed).Some? ==> |c.open(key, iv, sealed).value| + TAG_SIZE == |sealed|)
  }

  datatype Error = TooShort | NotAuthentic | NoRandom

  // Encrypting or decrypting the buffer in place; the tag is written or read.
  method Process(c: Cipher, encrypting: bool, key: Key, iv: Iv, data: array<byte>, tag: array<byte>)
    returns (err: Option<Error>)
    requires Lawful(c) && tag.Length == TAG_SIZE && data != tag
    modifies data, tag
    ensures encrypting ==> err == None && data[..] + tag[..] == c.seal(key, iv, old(data[..]))
    ensures !encrypting ==> tag[..] == old(tag[..])
    ensures !encrypting ==> (err == None <==> c.open(key, iv, old(data[..] + tag[..])).Some?)
    ensures !encrypting && err == None ==> c.open(key, iv, old(data[..] + tag[..])) == Some(data[..])
    ensures !encrypting && err != None ==> err == Some(NotAuthentic) && data[..] == old(data[..])
  {
    err := None;
    if encrypting {
      var sealed := c.seal(key, iv, data[..]);
      Copy(data, sealed[..data.Length]);
      Copy(tag, sealed[data.Length..]);
      assert sealed == sealed[..data.Length] + sealed[data.Length..];
      return;
    }
    var plain := c.open(key, iv, data[..] + tag[..]);
    if plain == None {
      return Some(NotAuthentic);
    }
    Copy(data, plain.value);
  }

  method Copy(a: array<byte>, s: seq<byte>)
    requires |s| == a.Length
    modifies a
    ensures a[..] == s
  {
    for i := 0 to a.Length
      invariant a[..i] == s[..i]
    {
      a[i] := s[i];
    }
  }

  method FromSeq(s: seq<byte>) returns (a: array<byte>)
    ensures fresh(a) && a[..] == s
  {
    a := new byte[|s|](_ => 0);
    Copy(a, s);
  }

  // ---------------------------------------------------------------------
  // The stored form

  function Stored(c: Cipher, key: Key, iv: Iv, data: seq<byte>): seq<byte>
    requires |c.seal(key, iv, data)| >= |data|
  {
    var sealed := c.seal(key, iv, data);
    sealed[..|data|] + iv + sealed[|data|..]
  }

  function Opened(c: Cipher, key: Key, value: seq<byte>): Option<seq<byte>> {
    if |value| < IV_SIZE + TAG_SIZE then None
    else
      var from := |value| - IV_SIZE - TAG_SIZE;
      c.open(key, value[from..from + IV_SIZE], value[..from] + value[from + IV_SIZE..])
  }

  method EncryptWithRandomIV(c: Cipher, data: seq<byte>, key: Key, random: Option<Iv>)
    returns (err: Option<Error>, value: seq<byte>)
    requires Lawful(c)
    ensures random == None ==> err == Some(NoRandom) && value == data
    ensures random.Some? ==> err == None && value == Stored(c, key, random.value, data)
    ensures random.Some? ==>
      var sealed := c.seal(key, random.value, data);
      value == sealed[..|data|] + random.value + sealed[|data|..]
  {
    value := data;
    if random == None {
      return Some(NoRandom), value;
    }
    var iv := random.value;
    var tag := new byte[TAG_SIZE](_ => 0);
    var ciphertext := FromSeq(data);
    err := Process(c, true, key, iv, ciphertext, tag);
    assert ciphertext[..] == c.seal(key, iv, data)[..|data|] && tag[..] == c.seal(key, iv, data)[|data|..];
    value := ciphertext[..] + iv;
    value := value + tag[..];
  }

  method DecryptWithTrailingIVAndTag(c: Cipher, data: seq<byte>, key: Key)
    returns (err: Option<Error>, value: seq<byte>)
    requires Lawful(c)
    ensures err == None <==> Opened(c, key, data).Some?
    ensures err == None ==> Opened(c, key, data) == Some(value)
    ensures err != None ==> value == data && (err == Some(TooShort) <==> |data| < IV_SIZE + TAG_SIZE)
    ensures |data| < 24 ==> err == Some(TooShort)
    ensures |data| >= 24 ==>
      var from := |data| - 24;
      var plain := c.open(key, data[from..from + 12], data[..from] + data[from + 12..]);
      err == (if plain.Some? then None else Some(NotAuthentic)) && (plain.Some? ==> value == plain.value)
  {
    value := data;
    if |data| < IV_SIZE + TAG_SIZE {
      return Some(TooShort), value;
    }
    var ivStart := |data| - IV_SIZE - TAG_SIZE;
    var iv := data[ivStart..ivStart + IV_SIZE];
    var tag := FromSeq(data[ivStart + IV_SIZE..]);
    var payload := FromSeq(data[..ivStart]);
    err := Process(c, false, key, iv, payload, tag);
    if err == None {
      value := payload[..];
    }
  }

  // What was encrypted is decrypted to the same bytes.
  lemma StoredOpens(c: Cipher, key: Key, iv: Iv, data: seq<byte>)
    requires Lawful(c)
    ensures |c.seal(key, iv, data)| >= |data|
    ensures |Stored(c, key, iv, data)| == |data| + IV_SIZE + TAG_SIZE
    ensures Opened(c, key, Stored(c, key, iv, data)) == Some(data)
  {
    var sealed := c.seal(key, iv, data);
    var value := Stored(c, key, iv, data);
    var from := |data|;
    assert value[from..from + IV_SIZE] == iv;
    assert value[..from] == sealed[..from] && value[from + IV_SIZE..] == sealed[from..];
    assert value[..from] + value[from + IV_SIZE..] == sealed;
  }
}
