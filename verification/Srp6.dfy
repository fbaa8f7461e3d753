// SRP-6 key agreement with k = 3, the message shapes of section 3 of RFC 2945
// and its interleaved hash (section 3.1), in little-endian byte order.
module Srp6 {
  import opened Bytes
  import opened Wrappers

  const N: nat := 0x894B645E89E1535BBDAD5B8B290650530801B18EBFBF5E8FAB3C82872A3E9BB7
  const G: nat := 7
  const LENGTH: nat := 32
  const KEY_LENGTH: nat := 40

  // SHA-1 is any function from bytes to 20 bytes.
  type Digest = s: seq<byte> | |s| == 20 witness seq(20, _ => 0)
  type Sha = seq<byte> -> Digest

  // ---------------------------------------------------------------------
  // Byte strings and numbers

  method LittleInt(data: seq<byte>) returns (value: nat)
    ensures value == LittleEndian(data)
  {
    var reversed := new byte[|data|](_ => 0);
    var i := 0;
    while i < |data|
      invariant 0 <= i <= |data|
      invariant forall j :: |data| - i <= j < |data| ==> reversed[j] == data[|data| - 1 - j]
    {
      reversed[|data| - 1 - i] := data[i];
      i := i + 1;
    }
    assert reversed[..] == Reversed(data);
    ReversedValue(data);
    value := BigEndian(reversed[..]);
  }

  method LittleBytes(value: nat) returns (result: seq<byte>)
    ensures result == Digits(value, LENGTH)
  {
    var bytes := MinimalBytes(value);
    var a := new byte[LENGTH](_ => 0);
    var i := 0;
    while i < |bytes| && i < LENGTH
      invariant 0 <= i <= LENGTH && i <= |bytes|
      invariant forall j :: 0 <= j < i ==> a[j] == bytes[|bytes| - 1 - j]
      invariant forall j :: i <= j < LENGTH ==> a[j] == 0
    {
      a[i] := bytes[|bytes| - 1 - i];
      i := i + 1;
    }
    forall j | 0 <= j < LENGTH ensures a[j] == Digits(value, LENGTH)[j] {
      DigitOfDigits(value, LENGTH, j);
      DigitOfMinimal(value, j);
    }
    result := a[..];
    assert result == Digits(value, LENGTH);
  }

  lemma ModulusFits()
    ensures N < Pow(256, LENGTH)
  {
    assert Pow(256, 1) == 256 && Pow(256, 2) == 65536;
    PowAdd(256, 2, 2);
    PowAdd(256, 4, 4);
    PowAdd(256, 8, 8);
    PowAdd(256, 16, 16);
  }

  // Residues survive the trip through 32 bytes.
  lemma ResidueBytes(v: nat)
    requires v < N
    ensures LittleEndian(Digits(v, LENGTH)) == v
  {
    ModulusFits();
    DigitsValue(v, LENGTH);
  }

  // ---------------------------------------------------------------------
  // The interleaved hash

  function LeadingZeros(s: seq<byte>): (n: nat)
    ensures n <= |s|
    ensures forall i :: 0 <= i < n ==> s[i] == 0
    ensures n < |s| ==> s[n] != 0
  {
    if |s| == 0 || s[0] != 0 then 0 else 1 + LeadingZeros(s[1..])
  }

  // Leading zeros go, and one more byte if that leaves an odd count.
  function Stripped(s: seq<byte>): (t: seq<byte>)
    requires |s| % 2 == 0
    ensures |t| % 2 == 0
  {
    var p := LeadingZeros(s);
    if p % 2 == 0 then s[p..] else s[p + 1..]
  }

  function Evens(s: seq<byte>): seq<byte> { seq(|s| / 2, i requires 0 <= i < |s| / 2 => s[2 * i]) }

  function Odds(s: seq<byte>): seq<byte> { seq(|s| / 2, i requires 0 <= i < |s| / 2 => s[2 * i + 1]) }

  // Byte by byte in turn.
  function Zip(h0: Digest, h1: Digest): (k: seq<byte>)
    ensures |k| == KEY_LENGTH
    ensures forall i :: 0 <= i < 20 ==> k[2 * i] == h0[i] && k[2 * i + 1] == h1[i]
  {
    seq(KEY_LENGTH, i requires 0 <= i < KEY_LENGTH => if i % 2 == 0 then h0[i / 2] else h1[i / 2])
  }

  function Interleaved(h: Sha, s: seq<byte>): (k: seq<byte>)
    requires |s| == LENGTH
    ensures |k| == KEY_LENGTH
  {
    Zip(h(Evens(Stripped(s))), h(Odds(Stripped(s))))
  }

  // Cutting both halves at p / 2 is splitting what is left after p bytes.
  lemma HalvesAfter(s: seq<byte>, p: nat)
    requires |s| % 2 == 0 && p <= |s| && p % 2 == 0
    ensures Evens(s[p..]) == Evens(s)[p / 2..] && Odds(s[p..]) == Odds(s)[p / 2..]
  {
    forall i | 0 <= i < |s[p..]| / 2
      ensures Evens(s[p..])[i] == Evens(s)[p / 2..][i] && Odds(s[p..])[i] == Odds(s)[p / 2..][i] {
      assert p + 2 * i == 2 * (p / 2 + i);
    }
  }

  lemma {:induction false} LeadingZerosUnique(s: seq<byte>, p: nat)
    requires p <= |s| && (forall i :: 0 <= i < p ==> s[i] == 0) && (p < |s| ==> s[p] != 0)
    ensures p == LeadingZeros(s)
  {
  }

  method Interleave(h: Sha, S: seq<byte>) returns (K: seq<byte>)
    requires |S| == LENGTH
    ensures K == Interleaved(h, S)
  {
    hide Evens, Odds, Stripped, Zip;
    var even, odd := Halves(S);
    var p := EvenStart(S);
    HalvesAfter(S, 2 * p);
    K := Zipped(h(even[p..]), h(odd[p..]));
  }

  method Halves(S: seq<byte>) returns (even: seq<byte>, odd: seq<byte>)
    requires |S| == LENGTH
    ensures even == Evens(S) && odd == Odds(S) && |even| == |odd| == LENGTH / 2
  {
    var e, o := new byte[LENGTH / 2](_ => 0), new byte[LENGTH / 2](_ => 0);
    for i := 0 to LENGTH / 2
      invariant forall j :: 0 <= j < i ==> e[j] == S[2 * j] && o[j] == S[2 * j + 1]
    {
      e[i] := S[2 * i];
      o[i] := S[2 * i + 1];
    }
    even, odd := e[..], o[..];
    assert even == Evens(S) && odd == Odds(S);
  }

  method EvenStart(S: seq<byte>) returns (p: nat)
    requires |S| % 2 == 0
    ensures 2 * p <= |S| && Stripped(S) == S[2 * p..]
  {
    p := 0;
    while p < |S| && S[p] == 0
      invariant 0 <= p <= |S| && forall i :: 0 <= i < p ==> S[i] == 0
    {
      p := p + 1;
    }
    LeadingZerosUnique(S, p);
    ghost var zeros := p;
    if p % 2 != 0 {
      p := p + 1;
    }
    assert p % 2 == 0 && p == (if zeros % 2 == 0 then zeros else zeros + 1);
    p := p / 2;
  }

  // The two hashes, byte by byte in turn.
  method Zipped(h0: Digest, h1: Digest) returns (K: seq<byte>)
    ensures K == Zip(h0, h1)
  {
    var a := new byte[KEY_LENGTH](_ => 0);
    for i := 0 to 20
      invariant forall j :: 0 <= j < 2 * i ==> a[j] == if j % 2 == 0 then h0[j / 2] else h1[j / 2]
    {
      a[2 * i] := h0[i];
      a[2 * i + 1] := h1[i];
    }
    K := a[..];
    assert K == Zip(h0, h1);
  }

  // ---------------------------------------------------------------------
  // The protocol's numbers

  function PrivateX(h: Sha, username: seq<byte>, password: seq<byte>, salt: seq<byte>): nat {
    LittleEndian(h(salt + h(username + [58] + password)))
  }

  function Verifier(h: Sha, username: seq<byte>, password: seq<byte>, salt: seq<byte>): seq<byte> {
    Digits(PowMod(G, PrivateX(h, username, password, salt), N), LENGTH)
  }

  function ServerPublic(b: nat, verifier: seq<byte>): seq<byte> {
    Digits((PowMod(G, b, N) + 3 * LittleEndian(verifier)) % N, LENGTH)
  }

  function ServerSecret(h: Sha, A: seq<byte>, B: seq<byte>, verifier: seq<byte>, b: nat): seq<byte> {
    var u := LittleEndian(h(A + B));
    Digits(PowMod(LittleEndian(A) * PowMod(LittleEndian(verifier), u, N), b, N), LENGTH)
  }

  function ClientPublic(a: nat): seq<byte> {
    Digits(PowMod(G, a, N), LENGTH)
  }

  function ClientSecret(h: Sha, x: nat, A: seq<byte>, B: seq<byte>, a: nat): seq<byte> {
    var u := LittleEndian(h(A + B));
    Digits(PowMod((LittleEndian(B) - 3 * PowMod(G, x, N)) % N, a + u * x, N), LENGTH)
  }

  function XorBytes(a: Digest, b: Digest): Digest {
    seq(20, i requires 0 <= i < 20 => ((a[i] as bv8) ^ (b[i] as bv8)) as int)
  }

  // What a proof is the hash of; the session key stands at the end.
  function ProofText(h: Sha, username: seq<byte>, salt: seq<byte>, A: seq<byte>, B: seq<byte>,
                     K: seq<byte>): seq<byte> {
    XorBytes(h(Digits(N, LENGTH)), h([7])) + h(username) + salt + A + B + K
  }

  function Proof(h: Sha, username: seq<byte>, salt: seq<byte>, A: seq<byte>, B: seq<byte>, K: seq<byte>): Digest {
    h(ProofText(h, username, salt, A, B, K))
  }

  datatype ClientAnswer = EmptyPrivateKey | ClientAnswer(A: seq<byte>, M: Digest, K: seq<byte>)

  datatype ServerAnswer = AlreadyUsed | Refused | Accepted(K: seq<byte>)

  function ServerCheck(h: Sha, username: seq<byte>, salt: seq<byte>, verifier: seq<byte>, b: nat, B: seq<byte>,
                       A: seq<byte>, clientM: Digest): ServerAnswer
  {
    var K := Interleaved(h, ServerSecret(h, A, B, verifier, b));
    if LittleEndian(A) % N == 0 || clientM != Proof(h, username, salt, A, B, K) then Refused else Accepted(K)
  }

  // ---------------------------------------------------------------------
  // What the numbers, the proof and the key are

  // The numbers that go over the wire or stay secret, by their residues.
  lemma NumbersExactly(h: Sha, username: seq<byte>, password: seq<byte>, salt: seq<byte>, verifier: seq<byte>,
                       A: seq<byte>, B: seq<byte>, a: nat, b: nat)
    ensures var s := Verifier(h, username, password, salt);
            |s| == 32 && LittleEndian(s) == Pow(7, LittleEndian(h(salt + h(username + [58] + password)))) % N
    ensures var s := ClientPublic(a); |s| == 32 && LittleEndian(s) == Pow(7, a) % N
    ensures var s := ServerPublic(b, verifier);
            |s| == 32 && LittleEndian(s) == (Pow(7, b) % N + 3 * LittleEndian(verifier)) % N
    ensures var s, u := ServerSecret(h, A, B, verifier, b), LittleEndian(h(A + B));
            |s| == 32 && LittleEndian(s) == Pow(LittleEndian(A) * (Pow(LittleEndian(verifier), u) % N), b) % N
    ensures var x, u := LittleEndian(h(salt + h(username + [58] + password))), LittleEndian(h(A + B));
            var s := ClientSecret(h, PrivateX(h, username, password, salt), A, B, a);
            && |s| == 32 && u * x >= 0
            && LittleEndian(s) == Pow((LittleEndian(B) - 3 * (Pow(7, x) % N)) % N, a + u * x) % N
  {
    hide Digits, LittleEndian, Pow;
    var x, u, v := PrivateX(h, username, password, salt), LittleEndian(h(A + B)), LittleEndian(verifier);
    ResidueBytes(PowMod(G, x, N));
    ResidueBytes(PowMod(G, a, N));
    ResidueBytes((PowMod(G, b, N) + 3 * v) % N);
    ResidueBytes(PowMod(LittleEndian(A) * PowMod(v, u, N), b, N));
    ResidueBytes(PowMod((LittleEndian(B) - 3 * PowMod(G, x, N)) % N, a + u * x, N));
  }

  // A proof is the hash of six parts in order; the first is the hash of the
  // modulus and the hash of the generator, combined bit by bit.
  lemma ProofExactly(h: Sha, username: seq<byte>, salt: seq<byte>, A: seq<byte>, B: seq<byte>, K: seq<byte>,
                     modulus: seq<byte>, first: Digest)
    requires |modulus| == 32 && LittleEndian(modulus) == N
    requires forall i :: 0 <= i < 20 ==> first[i] == ((h(modulus)[i] as bv8) ^ (h([7])[i] as bv8)) as int
    ensures Proof(h, username, salt, A, B, K) == h(first + h(username) + salt + A + B + K)
  {
    hide Digits, LittleEndian;
    ValueDigits(modulus);
    assert first == XorBytes(h(modulus), h([7]));
  }

  // The key of a secret: after an even number of bytes that are 0, but for the
  // last one at most, the hashes of every other byte from there, in turn.
  lemma KeyExactly(h: Sha, s: seq<byte>, q: nat, even: seq<byte>, odd: seq<byte>, i: nat)
    requires |s| == 32 && q % 2 == 0 && q <= 32 && forall j :: 0 <= j < q - 1 ==> s[j] == 0
    requires q == 32 || s[q] != 0 || (q > 0 && s[q - 1] != 0)
    requires |even| == |odd| == 16 - q / 2 && i < 20
    requires forall j :: 0 <= j < |even| ==> even[j] == s[q + 2 * j] && odd[j] == s[q + 2 * j + 1]
    ensures |Interleaved(h, s)| == 40
    ensures Interleaved(h, s)[2 * i] == h(even)[i] && Interleaved(h, s)[2 * i + 1] == h(odd)[i]
  {
    hide LeadingZeros, Zip;
    CutIsAtZeros(s, q);
    assert even == Evens(s[q..]) && odd == Odds(s[q..]);
  }

  lemma CutIsAtZeros(s: seq<byte>, q: nat)
    requires |s| % 2 == 0 && q % 2 == 0 && q <= |s| && forall j :: 0 <= j < q - 1 ==> s[j] == 0
    requires q == |s| || s[q] != 0 || (q > 0 && s[q - 1] != 0)
    ensures Stripped(s) == s[q..]
  {
    var p := LeadingZeros(s);
    assert p >= q - 1;
  }

  // There is such a place in every secret.
  lemma CutExists(s: seq<byte>) returns (q: nat)
    requires |s| % 2 == 0
    ensures q % 2 == 0 && q <= |s| && forall j :: 0 <= j < q - 1 ==> s[j] == 0
    ensures q == |s| || s[q] != 0 || (q > 0 && s[q - 1] != 0)
  {
    var p := LeadingZeros(s);
    q := if p % 2 == 0 then p else p + 1;
  }

  // ---------------------------------------------------------------------
  // Why both sides agree

  // 7 has an inverse modulo N, so no power of 7 vanishes modulo N.
  const INVERSE_OF_SEVEN: nat := 0x621147b13dea16f862e98a87f8bb5df22a4a5a4164641ef8e806a6608be393cc

  lemma PowersOfSevenNonZero(e: nat)
    ensures PowMod(G, e, N) != 0
  {
    var i := INVERSE_OF_SEVEN;
    assert G * i == 5 * N + 1;
    PowOfProduct(G, i, e);
    PowModReduce(G * i, e, N);
    ModUnique(G * i, 5, 1, N);
    PowOfOne(e);
    ModMul(Pow(G, e), Pow(i, e), N);
    var p, q := Pow(G, e) % N, Pow(i, e) % N;
    assert (p * q) % N == 1;
    assert p == 0 ==> p * q == 0;
  }

  lemma PowModPow(g: int, x: nat, u: nat, n: nat)
    requires n > 0
    ensures x * u >= 0 && PowMod(PowMod(g, x, n), u, n) == PowMod(g, x * u, n)
  {
    PowModReduce(Pow(g, x), u, n);
    PowMul(g, x, u);
  }

  // (g^a (g^x)^u)^b is g^((a + x u) b).
  lemma ServerSide(g: int, a: nat, b: nat, u: nat, x: nat, n: nat)
    requires n > 0
    ensures x * u >= 0 && (a + x * u) * b >= 0
    ensures PowMod(PowMod(g, a, n) * PowMod(PowMod(g, x, n), u, n), b, n) == PowMod(g, (a + x * u) * b, n)
  {
    PowModPow(g, x, u, n);
    PowAdd(g, a, x * u);
    ModMul(Pow(g, a), Pow(g, x * u), n);
    var s := PowMod(g, a, n) * PowMod(g, x * u, n);
    assert s % n == Pow(g, a + x * u) % n;
    PowModReduce(s, b, n);
    PowModReduce(Pow(g, a + x * u), b, n);
    PowMul(g, a + x * u, b);
  }

  // With B = g^b + 3 v reduced, (B - 3 v)^e is g^(b e).
  lemma ClientSide(g: int, b: nat, v: nat, e: nat, n: nat)
    requires n > 0
    ensures b * e >= 0 && PowMod(((PowMod(g, b, n) + 3 * v) % n - 3 * v) % n, e, n) == PowMod(g, b * e, n)
  {
    var sum := PowMod(g, b, n) + 3 * v;
    var base := sum % n - 3 * v;
    assert base + (sum / n) * n == PowMod(g, b, n);
    ModAddMultiple(base, sum / n, n);
    ModUnique(PowMod(g, b, n), 0, PowMod(g, b, n), n);
    PowModPow(g, b, e, n);
  }

  // (A v^u)^b and (B - 3 g^x)^(a + u x) are the same residue.
  lemma SharedSecret(g: int, a: nat, b: nat, u: nat, x: nat, n: nat)
    requires n > 0
    ensures var v := PowMod(g, x, n);
            var B := (PowMod(g, b, n) + 3 * v) % n;
            u * x >= 0 && PowMod(PowMod(g, a, n) * PowMod(v, u, n), b, n) == PowMod((B - 3 * v) % n, a + u * x, n)
  {
    hide PowMod;
    ServerSide(g, a, b, u, x, n);
    assert u * x == x * u;
    ClientSide(g, b, PowMod(g, x, n), a + u * x, n);
    assert (a + x * u) * b == b * (a + u * x);
  }

  // With the verifier of the same username and password, client and server
  // derive the same session key, A is never 0 modulo N, and the server accepts.
  lemma SessionKeysAgree(h: Sha, username: seq<byte>, password: seq<byte>, salt: seq<byte>, a: nat, b: nat)
    ensures var verifier := Verifier(h, username, password, salt);
            var A, B := ClientPublic(a), ServerPublic(b, verifier);
            var K := Interleaved(h, ClientSecret(h, PrivateX(h, username, password, salt), A, B, a));
            && LittleEndian(A) % N != 0
            && ServerSecret(h, A, B, verifier, b) == ClientSecret(h, PrivateX(h, username, password, salt), A, B, a)
            && ServerCheck(h, username, salt, verifier, b, B, A, Proof(h, username, salt, A, B, K)) == Accepted(K)
  {
    hide PowMod, Digits, Interleaved, Proof, LittleEndian, PrivateX;
    var x := PrivateX(h, username, password, salt);
    var verifier := Verifier(h, username, password, salt);
    var A, B := ClientPublic(a), ServerPublic(b, verifier);
    var u := LittleEndian(h(A + B));
    ResidueBytes(PowMod(G, x, N));
    ResidueBytes(PowMod(G, a, N));
    ResidueBytes((PowMod(G, b, N) + 3 * LittleEndian(verifier)) % N);
    SharedSecret(G, a, b, u, x, N);
    PublicIsNotZero(a);
    assert LittleEndian(verifier) == PowMod(G, x, N) && LittleEndian(A) == PowMod(G, a, N);
    assert ServerSecret(h, A, B, verifier, b) == ClientSecret(h, x, A, B, a);
  }

  // Whatever password a client uses against whatever stored verifier: the key
  // of an accepted client is the server's key, unless the hash collides on the
  // two proof texts; and a client with the server's key is accepted.
  lemma AcceptedSharesKey(h: Sha, username: seq<byte>, password: seq<byte>, salt: seq<byte>, verifier: seq<byte>,
                          a: nat, b: nat)
    ensures var A, B := ClientPublic(a), ServerPublic(b, verifier);
            var mine := Interleaved(h, ClientSecret(h, PrivateX(h, username, password, salt), A, B, a));
            var theirs := Interleaved(h, ServerSecret(h, A, B, verifier, b));
            var answer := ServerCheck(h, username, salt, verifier, b, B, A, Proof(h, username, salt, A, B, mine));
            var p, q := ProofText(h, username, salt, A, B, mine), ProofText(h, username, salt, A, B, theirs);
            && (mine == theirs ==> answer == Accepted(mine))
            && (answer.Accepted? && mine != theirs ==> p != q && h(p) == h(q))
  {
    hide PowMod, Digits, Interleaved, LittleEndian, PrivateX, XorBytes;
    var A, B := ClientPublic(a), ServerPublic(b, verifier);
    var mine := Interleaved(h, ClientSecret(h, PrivateX(h, username, password, salt), A, B, a));
    var theirs := Interleaved(h, ServerSecret(h, A, B, verifier, b));
    PublicIsNotZero(a);
    KeyEndsProof(XorBytes(h(Digits(N, LENGTH)), h([7])) + h(username) + salt + A + B, mine, theirs);
  }

  lemma PublicIsNotZero(a: nat)
    ensures LittleEndian(ClientPublic(a)) % N != 0
  {
    hide PowMod, Digits, LittleEndian;
    ResidueBytes(PowMod(G, a, N));
    PowersOfSevenNonZero(a);
  }

  lemma KeyEndsProof(front: seq<byte>, j: seq<byte>, k: seq<byte>)
    ensures front + j == front + k ==> j == k
  {
    assert (front + j)[|front|..] == j && (front + k)[|front|..] == k;
  }

  // ---------------------------------------------------------------------
  // The code paths

  method CalculateVerifier(h: Sha, username: seq<byte>, password: seq<byte>, salt: seq<byte>)
    returns (verifier: seq<byte>)
    ensures verifier == Verifier(h, username, password, salt)
  {
    var x := LittleInt(h(salt + h(username + [58] + password)));
    verifier := LittleBytes(PowMod(G, x, N));
  }

  method MakeClientProof(h: Sha, username: seq<byte>, password: seq<byte>, salt: seq<byte>, B: seq<byte>,
                         privateKey: seq<byte>)
    returns (answer: ClientAnswer)
    ensures privateKey == [] ==> answer == EmptyPrivateKey
    ensures privateKey != [] ==>
              var a := LittleEndian(privateKey);
              var K := Interleaved(h, ClientSecret(h, PrivateX(h, username, password, salt), ClientPublic(a), B, a));
              answer == ClientAnswer(ClientPublic(a), Proof(h, username, salt, ClientPublic(a), B, K), K)
  {
    hide PowMod, Digits, Interleaved, Proof, LittleEndian;
    if privateKey == [] {
      return EmptyPrivateKey;
    }
    var a := LittleInt(privateKey);
    var A := LittleBytes(PowMod(G, a, N));
    var u := LittleInt(h(A + B));
    var x := LittleInt(h(salt + h(username + [58] + password)));
    var base := LittleInt(B);
    base := (base - 3 * PowMod(G, x, N)) % N;
    var shared := LittleBytes(PowMod(base, a + u * x, N));
    var K := Interleave(h, shared);
    answer := ClientAnswer(A, Proof(h, username, salt, A, B, K), K);
  }

  // One server-side handshake; it answers one challenge and no more.
  class Handshake {
    const h: Sha
    const username: seq<byte>
    const salt: seq<byte>
    const verifier: seq<byte>
    const b: nat
    const B: seq<byte>
    var used: bool

    constructor (h: Sha, username: seq<byte>, salt: seq<byte>, verifier: seq<byte>, random: seq<byte>)
      ensures this.h == h && this.username == username && this.salt == salt && this.verifier == verifier
      ensures b == LittleEndian(random) && B == ServerPublic(b, verifier) && !used
    {
      hide PowMod, Digits, LittleEndian;
      var secret := LittleInt(random);
      var v := LittleInt(verifier);
      var public := LittleBytes((PowMod(G, secret, N) + 3 * v) % N);
      this.h, this.username, this.salt, this.verifier := h, username, salt, verifier;
      b, B, used := secret, public, false;
    }

    method VerifyChallengeResponse(A: seq<byte>, clientM: Digest) returns (answer: ServerAnswer)
      modifies this
      ensures used
      ensures answer == if old(used) then AlreadyUsed else ServerCheck(h, username, salt, verifier, b, B, A, clientM)
      ensures answer == AlreadyUsed <==> old(used)
      ensures !old(used) ==>
        var K := Interleaved(h, ServerSecret(h, A, B, verifier, b));
        answer == if LittleEndian(A) % N != 0 && clientM == Proof(h, username, salt, A, B, K) then Accepted(K)
                  else Refused
    {
      hide PowMod, Digits, Interleaved, Proof, LittleEndian;
      if used {
        return AlreadyUsed;
      }
      used := true;
      var a := LittleInt(A);
      if a % N == 0 {
        return Refused;
      }
      var u := LittleInt(h(A + B));
      var v := LittleInt(verifier);
      var shared := LittleBytes(PowMod(a * PowMod(v, u, N), b, N));
      var K := Interleave(h, shared);
      if Proof(h, username, salt, A, B, K) != clientM {
        return Refused;
      }
      answer := Accepted(K);
    }
  }

  // A handshake, unless the random source fails.
  method NewSRP6WithReader(h: Sha, username: seq<byte>, salt: seq<byte>, verifier: seq<byte>, random: Option<seq<byte>>)
    returns (s: Handshake?)
    ensures s == null <==> random == None
    ensures s != null ==>
      && fresh(s) && s.h == h && s.username == username && s.salt == salt && s.verifier == verifier
      && s.b == LittleEndian(random.value) && s.B == ServerPublic(s.b, verifier) && !s.used
  {
    if random == None {
      return null;
    }
    s := new Handshake(h, username, salt, verifier, random.value);
  }
}
