// The stored TOTP secrets over server starts: encrypting them under a new
// master key, moving them from one key to another, or back to plain text.
module TotpSecrets {
  import opened Aead
  import opened Bytes
  import opened Text
  import opened Wrappers
  import Keys = TotpKeys

  // The digest of a text: a salted hash and its check.
  datatype Digests = Digests(hash: (string, nat) -> string, verify: (string, string) -> bool)

  // Only the text that was hashed passes the check.
  ghost predicate Exact(d: Digests) {
    forall t: string, u: string, salt: nat :: d.verify(t, d.hash(u, salt)) <==> t == u
  }

  // The table of accounts that have a secret, and the one digest row.
  datatype Database = Database(digest: Option<string>, secrets: map<nat, seq<byte>>)

  datatype Failure = BadSecret(error: Keys.ParseError) | NeedsDatabase | Mismatch | NoSalt
                   | CannotDecrypt(id: nat) | CannotEncrypt(id: nat) | DatabaseFailed

  // What one start is given: the configured texts, and what the random source
  // gives for the digest and for each account.
  datatype Start = Start(current: string, previous: string, salt: Option<nat>, ivs: nat -> Option<Iv>)

  // ---------------------------------------------------------------------
  // One start as a function

  function NewKey(s: Start): Option<Key> {
    if Trim(s.current) != "" && Keys.Parse(Trim(s.current)).Ok? then Some(Keys.Parse(Trim(s.current)).key) else None
  }

  function OldKey(s: Start): Option<Key> {
    if Trim(s.previous) != "" && Keys.Parse(Trim(s.previous)).Ok? then Some(Keys.Parse(Trim(s.previous)).key) else None
  }

  predicate Parses(s: Start) { Keys.Parse(Trim(s.current)).Ok? && Keys.Parse(Trim(s.previous)).Ok? }

  predicate Verifies(d: Digests, key: Option<Key>, digest: string) {
    key.Some? && d.verify(Keys.Canonical(key.value), digest)
  }

  // A secret taken out of one key and put under another; no key is plain text.
  function Recoded(c: Cipher, from: Option<Key>, to: Option<Key>, iv: Option<Iv>, secret: seq<byte>): Option<seq<byte>>
  {
    var plain := if from == None then Some(secret) else Opened(c, from.value, secret);
    if plain == None then None
    else if to == None then plain
    else if iv == None || |c.seal(to.value, iv.value, plain.value)| < |plain.value| then None
    else Some(Stored(c, to.value, iv.value, plain.value))
  }

  datatype Outcome = Outcome(ok: bool, database: Option<Database>, key: Option<Key>)

  // The result of a start; broken says that some database call on the way failed.
  function Result(c: Cipher, d: Digests, s: Start, broken: bool, database: Option<Database>, key: Option<Key>): Outcome
  {
    var failed := Outcome(false, database, key);
    var newKey, oldKey := NewKey(s), OldKey(s);
    if !Parses(s) then failed
    else if database == None then
      if oldKey != None then failed else Outcome(true, database, if newKey != None then newKey else key)
    else if broken then failed
    else
      var db := database.value;
      if db.digest.Some? && Verifies(d, newKey, db.digest.value) then Outcome(true, database, newKey)
      else if db.digest == None && newKey == None then Outcome(true, database, key)
      else if db.digest.Some? && !Verifies(d, oldKey, db.digest.value) then failed
      else if newKey != None && s.salt == None then failed
      else
        var from := if db.digest.Some? then oldKey else None;
        if exists id :: id in db.secrets && Recoded(c, from, newKey, s.ivs(id), db.secrets[id]) == None then failed
        else
          var digest := if newKey == None then None else Some(d.hash(Keys.Canonical(newKey.value), s.salt.value));
          Outcome(true, Some(Database(digest, Rewritten(c, from, newKey, s.ivs, db.secrets))),
                  if newKey != None then newKey else key)
  }

  function Rewritten(c: Cipher, from: Option<Key>, to: Option<Key>, ivs: nat -> Option<Iv>,
                     secrets: map<nat, seq<byte>>): (r: map<nat, seq<byte>>)
    requires forall id :: id in secrets ==> Recoded(c, from, to, ivs(id), secrets[id]).Some?
    ensures r.Keys == secrets.Keys
    ensures forall id :: id in secrets ==> Some(r[id]) == Recoded(c, from, to, ivs(id), secrets[id])
  {
    map id | id in secrets :: Recoded(c, from, to, ivs(id), secrets[id]).value
  }

  // ---------------------------------------------------------------------
  // The server

  class Server {
    const cipher: Cipher
    const digests: Digests
    const faults: nat -> bool
    var clock: nat
    var database: Option<Database>
    var masterKey: Option<Key>

    constructor (cipher: Cipher, digests: Digests, faults: nat -> bool, database: Option<Database>)
      ensures this.cipher == cipher && this.digests == digests && this.database == database && masterKey == None
    {
      this.cipher, this.digests, this.faults, this.database := cipher, digests, faults, database;
      clock, masterKey := 0, None;
    }

    // One call to the database, which may fail.
    method Call() returns (failed: bool)
      modifies `clock
      ensures clock == old(clock) + 1 && failed == faults(old(clock))
    {
      failed := faults(clock);
      clock := clock + 1;
    }

    // The rows are rewritten in an arbitrary order, on the transaction's copy.
    method RewriteRows(s: Start, from: Option<Key>, to: Option<Key>, rows: map<nat, seq<byte>>)
      returns (err: Option<Failure>, rewritten: map<nat, seq<byte>>)
      requires Lawful(cipher)
      modifies `clock
      ensures err == Some(DatabaseFailed) || (err == None <==>
        forall id :: id in rows ==> Recoded(cipher, from, to, s.ivs(id), rows[id]).Some?)
      ensures err == None ==> rewritten.Keys == rows.Keys
      ensures err == None ==>
        forall id :: id in rows ==> Some(rewritten[id]) == Recoded(cipher, from, to, s.ivs(id), rows[id])
      ensures clock >= old(clock)
      ensures err == Some(DatabaseFailed) ==> exists k :: old(clock) <= k < clock && faults(k)
    {
      err, rewritten := None, rows;
      var left := rows.Keys;
      while left != {}
        invariant left <= rows.Keys == rewritten.Keys && clock >= old(clock)
        invariant forall id :: id in rows && id !in left ==>
          Some(rewritten[id]) == Recoded(cipher, from, to, s.ivs(id), rows[id])
      {
        var id :| id in left;
        left := left - {id};
        var secret := rows[id];
        if from.Some? {
          var wrong, plain := DecryptWithTrailingIVAndTag(cipher, secret, from.value);
          if wrong != None {
            return Some(CannotDecrypt(id)), rows;
          }
          secret := plain;
        }
        if to.Some? {
          var wrong, sealed := EncryptWithRandomIV(cipher, secret, to.value, s.ivs(id));
          if wrong != None {
            return Some(CannotEncrypt(id)), rows;
          }
          secret := sealed;
        }
        var failed := Call();
        if failed {
          return Some(DatabaseFailed), rows;
        }
        rewritten := rewritten[id := secret];
      }
    }

    method InitializeTOTPSecrets(s: Start) returns (err: Option<Failure>)
      requires Lawful(cipher)
      modifies this
      ensures Outcome(err == None, database, masterKey)
           == Result(cipher, digests, s, err == Some(DatabaseFailed), old(database), old(masterKey))
      ensures err == Some(DatabaseFailed) ==> exists k :: old(clock) <= k < clock && faults(k)
      ensures err != None ==> database == old(database)
      ensures err != None || Trim(s.current) == "" ==> masterKey == old(masterKey)
      ensures err == None && Trim(s.current) != "" ==>
        masterKey.Some? && Keys.Parse(Trim(s.current)) == Keys.Ok(masterKey.value)
    {
      var current, previous := Trim(s.current), Trim(s.previous);
      var parsed := Keys.ParseTOTPMasterSecret(current);
      if parsed.Err? {
        return Some(BadSecret(parsed.error));
      }
      var currentKey := parsed.key;
      parsed := Keys.ParseTOTPMasterSecret(previous);
      if parsed.Err? {
        return Some(BadSecret(parsed.error));
      }
      var previousKey := parsed.key;
      if current == "" && previous == "" && database == None {
        return None;
      }
      if database == None {
        if previous != "" {
          return Some(NeedsDatabase);
        }
        if current != "" {
          masterKey := Some(currentKey);
        }
        return None;
      }
      var failed := Call();
      if failed {
        return Some(DatabaseFailed);
      }
      var digest := database.value.digest;
      if digest.Some? && current != "" {
        var canonical := Keys.CanonicalTOTPMasterSecret(currentKey);
        if digests.verify(canonical, digest.value) {
          masterKey := Some(currentKey);
          return None;
        }
      }
      if digest == None && current == "" {
        return None;
      }
      var oldKey: Option<Key> := None;
      if digest.Some? {
        var canonical := Keys.CanonicalTOTPMasterSecret(previousKey);
        if previous == "" || !digests.verify(canonical, digest.value) {
          return Some(Mismatch);
        }
        oldKey := Some(previousKey);
      }
      var newDigest: Option<string> := None;
      if current != "" {
        if s.salt == None {
          return Some(NoSalt);
        }
        var canonical := Keys.CanonicalTOTPMasterSecret(currentKey);
        newDigest := Some(digests.hash(canonical, s.salt.value));
      }
      var newKey := if current != "" then Some(currentKey) else None;
      err := Rewrite(s, oldKey, newKey, newDigest);
      if err == None && current != "" {
        masterKey := Some(currentKey);
      }
    }

    // The transaction: begin, read the rows, rewrite them, replace the digest,
    // commit. Only the commit changes the database.
    method Rewrite(s: Start, from: Option<Key>, to: Option<Key>, digest: Option<string>)
      returns (err: Option<Failure>)
      requires Lawful(cipher) && database.Some?
      modifies `clock, `database
      ensures var rows := old(database).value.secrets;
        && (err == Some(DatabaseFailed) || (err == None <==>
              forall id :: id in rows ==> Recoded(cipher, from, to, s.ivs(id), rows[id]).Some?))
        && (err != None ==> database == old(database))
        && (err == None ==> database == Some(Database(digest, Rewritten(cipher, from, to, s.ivs, rows))))
      ensures clock >= old(clock)
      ensures err == Some(DatabaseFailed) ==> exists k :: old(clock) <= k < clock && faults(k)
    {
      var failed := Call();
      if failed {
        return Some(DatabaseFailed);
      }
      failed := Call();
      if failed {
        return Some(DatabaseFailed);
      }
      var rows := database.value.secrets;
      var secrets;
      err, secrets := RewriteRows(s, from, to, rows);
      if err != None {
        return;
      }
      assert secrets == Rewritten(cipher, from, to, s.ivs, rows);
      var working := Database(database.value.digest, secrets);
      if working.digest.Some? {
        failed := Call();
        if failed {
          return Some(DatabaseFailed);
        }
        working := working.(digest := None);
      }
      if digest.Some? {
        failed := Call();
        if failed {
          return Some(DatabaseFailed);
        }
        working := working.(digest := digest);
      }
      failed := Call();
      if failed {
        return Some(DatabaseFailed);
      }
      database := Some(working);
    }
  }

  // Reading one secret while the server runs.
  function DecryptTOTPSecret(c: Cipher, key: Option<Key>, secret: seq<byte>): Option<seq<byte>> {
    if key == None then Some(secret) else Opened(c, key.value, secret)
  }

  // ---------------------------------------------------------------------
  // Consistency over restarts

  // Without a digest the secrets are in plain text; with the digest of a key
  // every secret opens under that key.
  ghost predicate Consistent(c: Cipher, d: Digests, db: Database, plain: map<nat, seq<byte>>, key: Option<Key>) {
    && db.secrets.Keys == plain.Keys
    && (key == None <==> db.digest == None)
    && (key.Some? ==> forall t: string :: d.verify(t, db.digest.value) <==> t == Keys.Canonical(key.value))
    && (forall id :: id in plain ==> DecryptTOTPSecret(c, key, db.secrets[id]) == Some(plain[id]))
  }

  // Under consistency a configured key passes the check exactly when it is the key.
  lemma VerifiesExactly(c: Cipher, d: Digests, db: Database, plain: map<nat, seq<byte>>, key: Option<Key>,
                        tried: Option<Key>)
    requires Consistent(c, d, db, plain, key) && db.digest.Some?
    ensures Verifies(d, tried, db.digest.value) <==> tried == key
  {
    hide Keys.Canonical;
    if tried.Some? && Keys.Canonical(tried.value) == Keys.Canonical(key.value) {
      Keys.CanonicalIsInjective(tried.value, key.value);
    }
  }

  // A secret without a key is plain text; under a key it is read from the stored
  // form and from nothing shorter than a vector and a tag.
  lemma StoredIsRead(c: Cipher, key: Key, iv: Iv, secret: seq<byte>)
    requires Lawful(c)
    ensures DecryptTOTPSecret(c, None, secret) == Some(secret)
    ensures |secret| < 24 ==> DecryptTOTPSecret(c, Some(key), secret) == None
    ensures var sealed := c.seal(key, iv, secret);
      |sealed| >= |secret|
      && DecryptTOTPSecret(c, Some(key), sealed[..|secret|] + iv + sealed[|secret|..]) == Some(secret)
  {
    StoredOpens(c, key, iv, secret);
  }

  // Recoding keeps the plain text.
  lemma RecodedOpens(c: Cipher, from: Option<Key>, to: Option<Key>, iv: Option<Iv>, secret: seq<byte>, plain: seq<byte>)
    requires Lawful(c) && DecryptTOTPSecret(c, from, secret) == Some(plain)
    ensures var r := Recoded(c, from, to, iv, secret);
      && (r == None <==> to.Some? && iv == None)
      && (r.Some? ==> DecryptTOTPSecret(c, to, r.value) == Some(plain))
      && (to == None ==> r == Some(plain))
      && (to.Some? && iv.Some? ==>
            var sealed := c.seal(to.value, iv.value, plain);
            |sealed| >= |plain| && r == Some(sealed[..|plain|] + iv.value + sealed[|plain|..]))
  {
    if to.Some? && iv.Some? {
      StoredOpens(c, to.value, iv.value, plain);
    }
  }

  lemma NewKeyExactly(s: Start)
    ensures Trim(s.current) == "" ==> NewKey(s) == None
    ensures Parses(s) && Trim(s.current) != "" ==>
      NewKey(s).Some? && Keys.Parse(Trim(s.current)) == Keys.Ok(NewKey(s).value)
  {
  }

  // Every start keeps the secrets consistent with the same plain texts: a
  // failed start changes nothing, and after a successful one the server holds
  // the configured key, which is the key of the stored digest.
  lemma StartKeepsSecrets(c: Cipher, d: Digests, s: Start, broken: bool, db: Database,
                          plain: map<nat, seq<byte>>, key: Option<Key>)
    requires Lawful(c) && Exact(d) && Consistent(c, d, db, plain, key)
    ensures var r := Result(c, d, s, broken, Some(db), None);
      && r.database.Some?
      && (!r.ok ==> r.database.value == db && r.key == None)
      && (r.ok ==> r.key == NewKey(s) && Consistent(c, d, r.database.value, plain, r.key))
      && (r.ok && Trim(s.current) == "" ==> r.key == None)
      && (r.ok && Trim(s.current) != "" ==> r.key.Some? && Keys.Parse(Trim(s.current)) == Keys.Ok(r.key.value))
  {
    NewKeyExactly(s);
    hide NewKey, OldKey, Parses, Recoded, Verifies, Consistent;
    var newKey := NewKey(s);
    KeyByDigest(c, d, s, db, plain, key);
    if db.digest.Some? && newKey == key {
    } else if db.digest == None && newKey == None {
    } else if (newKey == None || s.salt.Some?)
              && forall id :: id in db.secrets ==> Recoded(c, key, newKey, s.ivs(id), db.secrets[id]).Some? {
      RewrittenIsConsistent(c, d, s, db, plain, key);
    }
  }

  // What the two checks of the digest decide.
  lemma KeyByDigest(c: Cipher, d: Digests, s: Start, db: Database, plain: map<nat, seq<byte>>, key: Option<Key>)
    requires Consistent(c, d, db, plain, key)
    ensures key == None <==> db.digest == None
    ensures db.digest.Some? ==> (Verifies(d, NewKey(s), db.digest.value) <==> NewKey(s) == key)
    ensures db.digest.Some? ==> (Verifies(d, OldKey(s), db.digest.value) <==> OldKey(s) == key)
  {
    hide NewKey, OldKey, Verifies;
    if db.digest.Some? {
      VerifiesExactly(c, d, db, plain, key, NewKey(s));
      VerifiesExactly(c, d, db, plain, key, OldKey(s));
    }
  }

  lemma RewrittenIsConsistent(c: Cipher, d: Digests, s: Start, db: Database, plain: map<nat, seq<byte>>,
                              key: Option<Key>)
    requires Lawful(c) && Exact(d) && Consistent(c, d, db, plain, key)
    requires NewKey(s).Some? ==> s.salt.Some?
    requires forall id :: id in db.secrets ==> Recoded(c, key, NewKey(s), s.ivs(id), db.secrets[id]).Some?
    ensures var newKey := NewKey(s);
      var digest := if newKey == None then None else Some(d.hash(Keys.Canonical(newKey.value), s.salt.value));
      Consistent(c, d, Database(digest, Rewritten(c, key, newKey, s.ivs, db.secrets)), plain, newKey)
  {
    hide NewKey, Recoded, DecryptTOTPSecret, Keys.Canonical;
    var newKey := NewKey(s);
    var secrets := Rewritten(c, key, newKey, s.ivs, db.secrets);
    forall id | id in plain ensures DecryptTOTPSecret(c, newKey, secrets[id]) == Some(plain[id]) {
      RecodedOpens(c, key, newKey, s.ivs(id), db.secrets[id], plain[id]);
    }
  }

  lemma KeysExactly(s: Start, key: Option<Key>)
    ensures Parses(s) <==> Keys.Parse(Trim(s.current)).Ok? && Keys.Parse(Trim(s.previous)).Ok?
    ensures key.Some? ==>
      (key == NewKey(s) <==> Trim(s.current) != "" && Keys.Parse(Trim(s.current)) == Keys.Ok(key.value))
    ensures key.Some? ==>
      (key == OldKey(s) <==> Trim(s.previous) != "" && Keys.Parse(Trim(s.previous)) == Keys.Ok(key.value))
  {
  }

  // Barring failures of the database and of the random source, a start succeeds
  // exactly when both texts are valid and the secrets are in plain text or under
  // one of the two configured keys.
  lemma StartSucceedsExactly(c: Cipher, d: Digests, s: Start, db: Database,
                             plain: map<nat, seq<byte>>, key: Option<Key>)
    requires Lawful(c) && Exact(d) && Consistent(c, d, db, plain, key)
    requires s.salt.Some? && forall id :: id in plain ==> s.ivs(id).Some?
    ensures Result(c, d, s, false, Some(db), None).ok <==>
      var current, previous := Trim(s.current), Trim(s.previous);
      && Keys.Parse(current).Ok? && Keys.Parse(previous).Ok?
      && (key == None || (current != "" && Keys.Parse(current) == Keys.Ok(key.value))
                      || (previous != "" && Keys.Parse(previous) == Keys.Ok(key.value)))
  {
    KeysExactly(s, key);
    hide NewKey, OldKey, Parses, Recoded, Verifies, DecryptTOTPSecret, Keys.Canonical;
    KeyByDigest(c, d, s, db, plain, key);
    forall id | id in db.secrets ensures Recoded(c, key, NewKey(s), s.ivs(id), db.secrets[id]).Some? {
      RecodedOpens(c, key, NewKey(s), s.ivs(id), db.secrets[id], plain[id]);
    }
  }

  // A run of the server over restarts, each with its own configuration.
  function Runs(c: Cipher, d: Digests, starts: seq<(Start, bool)>, db: Database): Database {
    if |starts| == 0 then db
    else
      var before := Runs(c, d, starts[..|starts| - 1], db);
      var last := starts[|starts| - 1];
      var r := Result(c, d, last.0, last.1, Some(before), None);
      if r.database == None then before else r.database.value
  }

  // After any run every secret still has the plain text it had, under the key
  // given, if any, by the digest.
  lemma {:induction false} RunsKeepSecrets(c: Cipher, d: Digests, starts: seq<(Start, bool)>, db: Database,
                                           plain: map<nat, seq<byte>>, key: Option<Key>)
    returns (last: Option<Key>)
    requires Lawful(c) && Exact(d) && Consistent(c, d, db, plain, key)
    ensures Consistent(c, d, Runs(c, d, starts, db), plain, last)
  {
    hide Result, Consistent;
    last := key;
    if |starts| > 0 {
      var n := |starts| - 1;
      last := RunsKeepSecrets(c, d, starts[..n], db, plain, key);
      StartKeepsSecrets(c, d, starts[n].0, starts[n].1, Runs(c, d, starts[..n], db), plain, last);
      var r := Result(c, d, starts[n].0, starts[n].1, Some(Runs(c, d, starts[..n], db)), None);
      if r.ok {
        last := r.key;
      }
    }
  }
}
