// The schema migration runner over the updates table, and the transaction that
// replays its body on deadlock.
module Migrations {
  import opened Text
  import opened Wrappers

  const RELEASED := "RELEASED"
  const ARCHIVED := "ARCHIVED"

  // ---------------------------------------------------------------------
  // Names in byte order

  predicate Less(a: string, b: string) {
    |b| > 0 && (|a| == 0 || a[0] < b[0] || (a[0] == b[0] && Less(a[1..], b[1..])))
  }

  // Byte order: behind what both begin with, one ends or has the smaller byte.
  lemma {:induction false} LessExactly(a: string, b: string)
    ensures Less(a, b) <==> exists k :: 0 <= k <= |a| && k < |b| && a[..k] == b[..k] && (k < |a| ==> a[k] < b[k])
  {
    if |a| > 0 && |b| > 0 && a[0] == b[0] {
      LessExactly(a[1..], b[1..]);
      if k :| 0 <= k <= |a[1..]| && k < |b[1..]| && a[1..][..k] == b[1..][..k]
              && (k < |a[1..]| ==> a[1..][k] < b[1..][k])
      {
        assert a[..k + 1] == [a[0]] + a[1..][..k] && b[..k + 1] == [b[0]] + b[1..][..k];
      }
      if k :| 0 <= k <= |a| && k < |b| && a[..k] == b[..k] && (k < |a| ==> a[k] < b[k]) {
        assert a[1..][..k - 1] == a[..k][1..] && b[1..][..k - 1] == b[..k][1..];
      }
    } else if |b| > 0 {
      assert a[..0] == b[..0];
      forall k | 0 < k <= |a| && k < |b| ensures a[..k] != b[..k] {
        assert a[..k][0] == a[0] && b[..k][0] == b[0];
      }
    }
  }

  lemma {:induction false} LessTrans(a: string, b: string, c: string)
    requires Less(a, b) && Less(b, c)
    ensures Less(a, c)
  {
    if |a| > 0 && a[0] == b[0] && b[0] == c[0] {
      LessTrans(a[1..], b[1..], c[1..]);
    }
  }

  lemma {:induction false} LessTotal(a: string, b: string)
    ensures a == b || Less(a, b) || Less(b, a)
    ensures !(Less(a, b) && Less(b, a)) && !Less(a, a)
  {
    if |a| > 0 && |b| > 0 && a[0] == b[0] {
      LessTotal(a[1..], b[1..]);
      assert a == [a[0]] + a[1..] && b == [b[0]] + b[1..];
    }
    if |a| > 0 {
      LessTotal(a[1..], a[1..]);
    }
  }

  // ---------------------------------------------------------------------
  // Migration files and the updates table

  type Hash = s: string | s != "" witness "0"

  datatype Migration = Migration(version: int, name: string, statements: seq<string>, hash: string, state: string)

  // A row of updates; the row's name is its key.
  datatype Record = Record(hash: string, state: string)

  type Table = map<string, Record>

  datatype Options = Options(redundancyChecks: bool, allowRehash: bool, archivedRedundancy: bool,
                             cleanOrphans: bool, cleanOrphansMax: int)

  datatype Counts = Counts(applied: nat, rehashed: nat, archived: nat, orphans: nat)

  // Missing state and hash are filled in as a file is reached; hashOf stands
  // for SHA-1 over the joined statements.
  function Filled(m: Migration, hashOf: seq<string> -> Hash): (f: Migration)
    ensures f.hash != "" && f.state != "" && f == m.(hash := f.hash, state := f.state)
    ensures (m.hash != "" ==> f.hash == m.hash) && (m.hash == "" ==> f.hash == hashOf(m.statements))
    ensures (m.state != "" ==> f.state == m.state) && (m.state == "" ==> f.state == "RELEASED")
  {
    m.(state := if m.state == "" then RELEASED else m.state,
       hash := if m.hash == "" then hashOf(m.statements) else m.hash)
  }

  function FilledAll(ms: seq<Migration>, hashOf: seq<string> -> Hash): (r: seq<Migration>)
    ensures |r| == |ms| && forall i :: 0 <= i < |ms| ==> r[i] == Filled(ms[i], hashOf)
  {
    seq(|ms|, i requires 0 <= i < |ms| => Filled(ms[i], hashOf))
  }

  function Names(ms: seq<Migration>): set<string> {
    set m | m in ms :: m.name
  }

  ghost predicate Distinct(ms: seq<Migration>) {
    forall i, j :: 0 <= i < j < |ms| ==> ms[i].name != ms[j].name && ms[i].version != ms[j].version
  }

  ghost predicate Sorted(ms: seq<Migration>) {
    forall i, j :: 0 <= i < j < |ms| ==> !Less(ms[j].name, ms[i].name)
  }

  function Insert(ms: seq<Migration>, m: Migration): seq<Migration> {
    if |ms| == 0 then [m]
    else if Less(m.name, ms[|ms| - 1].name) then Insert(ms[..|ms| - 1], m) + [ms[|ms| - 1]]
    else ms + [m]
  }

  // sort.Slice by name.
  function SortByName(ms: seq<Migration>): seq<Migration> {
    if |ms| == 0 then [] else Insert(SortByName(ms[..|ms| - 1]), ms[|ms| - 1])
  }

  lemma {:induction false} InsertKeeps(ms: seq<Migration>, m: Migration)
    ensures multiset(Insert(ms, m)) == multiset(ms) + multiset{m}
  {
    hide Less;
    if |ms| != 0 {
      var n := |ms| - 1;
      assert ms == ms[..n] + [ms[n]];
      InsertKeeps(ms[..n], m);
    }
  }

  lemma NotLessTrans(a: string, b: string, c: string)
    requires !Less(b, a) && !Less(c, b)
    ensures !Less(c, a)
  {
    LessTotal(a, b);
    LessTotal(b, c);
    LessTotal(a, c);
    if Less(a, b) && Less(b, c) { LessTrans(a, b, c); }
  }

  lemma {:induction false} InsertSorted(ms: seq<Migration>, m: Migration)
    requires Sorted(ms)
    ensures Sorted(Insert(ms, m))
  {
    hide Less;
    if |ms| != 0 {
      var n := |ms| - 1;
      var r := Insert(ms[..n], m);
      InsertSorted(ms[..n], m);
      InsertKeeps(ms[..n], m);
      LessTotal(ms[n].name, m.name);
      if Less(m.name, ms[n].name) {
        forall i | 0 <= i < |r| ensures !Less(ms[n].name, r[i].name) {
          assert r[i] in multiset(r);
          assert r[i] in ms[..n] || r[i] == m;
        }
      } else {
        forall i | 0 <= i < |ms| ensures !Less(m.name, ms[i].name) {
          NotLessTrans(ms[i].name, ms[n].name, m.name);
        }
      }
    }
  }

  lemma {:induction false} SortedByName(ms: seq<Migration>)
    ensures Sorted(SortByName(ms)) && multiset(SortByName(ms)) == multiset(ms)
  {
    if |ms| != 0 {
      var n := |ms| - 1;
      assert ms == ms[..n] + [ms[n]];
      SortedByName(ms[..n]);
      InsertKeeps(SortByName(ms[..n]), ms[n]);
      InsertSorted(SortByName(ms[..n]), ms[n]);
    }
  }

  // ---------------------------------------------------------------------
  // What one file does to the table

  datatype Decision = Skip | SetState | Rehash | Reapply | Rename(was: string) | Apply

  // The first name, in byte order, among the rows with this hash.
  ghost predicate IsFirst(t: Table, hash: string, name: string) {
    && name in t && t[name].hash == hash
    && forall k :: k in t && t[k].hash == hash && k != name ==> Less(name, k)
  }

  ghost function FirstWithHash(t: Table, hash: string): Option<string> {
    if exists n :: IsFirst(t, hash, n) then
      var n :| IsFirst(t, hash, n);
      Some(n)
    else None
  }

  lemma FirstIsUnique(t: Table, hash: string, name: string)
    requires IsFirst(t, hash, name)
    ensures FirstWithHash(t, hash) == Some(name)
  {
    var n :| IsFirst(t, hash, n) && FirstWithHash(t, hash) == Some(n);
    LessTotal(n, name);
  }

  ghost function Decide(t: Table, files: set<string>, m: Migration, o: Options): Decision {
    if m.name in t then
      var row := t[m.name];
      if !o.redundancyChecks || (!o.archivedRedundancy && row.state == ARCHIVED && m.state == ARCHIVED) then Skip
      else if row.hash == m.hash then if row.state != m.state then SetState else Skip
      else if o.allowRehash && row.hash == "" then Rehash
      else Reapply
    else
      match FirstWithHash(t, m.hash)
      case Some(n) => if n in files then Apply else Rename(n)
      case None => Apply
  }

  // A file with a row: nothing, when checks are off or both are archived and
  // exempt; otherwise its body, when the hash differs, but for an empty hash
  // that may be filled in.
  lemma DecidedWithRow(t: Table, files: set<string>, m: Migration, o: Options)
    requires m.name in t
    ensures var row, d := t[m.name], Decide(t, files, m, o);
            var checked := o.redundancyChecks
                           && (o.archivedRedundancy || row.state != "ARCHIVED" || m.state != "ARCHIVED");
            && (d == Reapply <==> checked && row.hash != m.hash && (row.hash != "" || !o.allowRehash))
            && (d == Rehash <==> checked && row.hash != m.hash && row.hash == "" && o.allowRehash)
            && (d == SetState <==> checked && row.hash == m.hash && row.state != m.state)
            && (d == Skip <==> !checked || row == Record(m.hash, m.state))
  {
  }

  // A file without a row: its body runs, unless the first row with its hash
  // belongs to no file and is renamed.
  lemma DecidedWithoutRow(t: Table, files: set<string>, m: Migration, o: Options)
    requires m.name !in t
    ensures var d := Decide(t, files, m, o);
            && (d == Apply || d.Rename?)
            && (d.Rename? ==> d.was in t && t[d.was].hash == m.hash && d.was !in files)
            && (d.Rename? ==> forall k :: k in t && t[k].hash == m.hash && k != d.was ==> Less(d.was, k))
            && (d == Apply ==> forall n :: n in t && t[n].hash == m.hash && n !in files ==>
                  exists k :: k in t && t[k].hash == m.hash && k != n && !Less(n, k))
  {
    hide Less;
    if n :| n in t && t[n].hash == m.hash && n !in files
            && forall k :: k in t && t[k].hash == m.hash && k != n ==> Less(n, k) {
      assert IsFirst(t, m.hash, n);
      FirstIsUnique(t, m.hash, n);
    }
  }

  function RowOf(m: Migration): Record {
    Record(m.hash, m.state)
  }

  predicate Blank(statement: string) {
    forall i :: 0 <= i < |statement| ==> IsSpace(statement[i])
  }

  // What a body executes: its statements in order, but for blank ones.
  function Body(statements: seq<string>): seq<string> {
    if |statements| == 0 then []
    else
      var n := |statements| - 1;
      Body(statements[..n]) + if Blank(statements[n]) then [] else [statements[n]]
  }

  lemma BodyStep(statements: seq<string>, statement: string)
    ensures Body([]) == []
    ensures (exists c :: c in statement && c !in " \t\n\r" && c != 11 as char && c != 12 as char) ==>
              Body(statements + [statement]) == Body(statements) + [statement]
    ensures (forall c :: c in statement ==> c in " \t\n\r" || c == 11 as char || c == 12 as char) ==>
              Body(statements + [statement]) == Body(statements)
  {
    assert (statements + [statement])[..|statements|] == statements;
    assert Blank(statement) <==> forall c :: c in statement ==> IsSpace(c);
    assert forall c :: c in " \t\n\r" <==> c == ' ' || c == '\t' || c == '\n' || c == '\r';
  }

  // A progress report: the table, the migrations whose bodies were committed,
  // the statements they executed, and the counters.
  datatype Progress = Progress(table: Table, bodies: seq<string>, executed: seq<string>, counts: Counts)

  ghost function After(p: Progress, files: set<string>, m: Migration, o: Options): Progress {
    var c := p.counts;
    match Decide(p.table, files, m, o)
    case Skip => p
    case SetState => p.(table := p.table[m.name := RowOf(m)])
    case Rehash => p.(table := p.table[m.name := RowOf(m)], counts := c.(rehashed := c.rehashed + 1))
    case Reapply =>
      Progress(p.table[m.name := RowOf(m)], p.bodies + [m.name], p.executed + Body(m.statements),
               c.(applied := c.applied + 1))
    case Rename(n) => if n in p.table then p.(table := (p.table - {n})[m.name := p.table[n]]) else p
    case Apply =>
      Progress(p.table[m.name := RowOf(m)], p.bodies + [m.name], p.executed + Body(m.statements),
               c.(applied := c.applied + 1, archived := if m.state == ARCHIVED then c.archived + 1 else c.archived))
  }

  // All files in order.
  ghost function AfterAll(t: Table, files: set<string>, ms: seq<Migration>, o: Options): Progress {
    if |ms| == 0 then Progress(t, [], [], Counts(0, 0, 0, 0))
    else After(AfterAll(t, files, ms[..|ms| - 1], o), files, ms[|ms| - 1], o)
  }

  predicate ShouldClean(o: Options, orphans: nat) {
    if o.cleanOrphansMax != 0 then o.cleanOrphansMax < 0 || orphans <= o.cleanOrphansMax else o.cleanOrphans
  }

  function Orphans(t: Table, files: set<string>): set<string> {
    set n | n in t && n !in files
  }

  ghost function Cleaned(p: Progress, files: set<string>, o: Options): Progress {
    var orphans := Orphans(p.table, files);
    if ShouldClean(o, |orphans|) then
      p.(table := p.table - orphans, counts := p.counts.(orphans := p.counts.orphans + |orphans|))
    else p
  }

  // A whole run that meets no error.
  ghost function Final(t: Table, ms: seq<Migration>, o: Options): Progress {
    Cleaned(AfterAll(t, Names(ms), ms, o), Names(ms), o)
  }

  // ---------------------------------------------------------------------
  // Running twice

  // Nothing is left to execute for this file.
  predicate Done(t: Table, m: Migration, o: Options) {
    m.name in t &&
    var row := t[m.name];
    !o.redundancyChecks || (!o.archivedRedundancy && row.state == ARCHIVED && m.state == ARCHIVED) || row.hash == m.hash
  }

  lemma AfterOne(p: Progress, files: set<string>, m: Migration, o: Options)
    requires m.name in files
    ensures var p' := After(p, files, m, o);
            && Done(p'.table, m, o)
            && (!Decide(p.table, files, m, o).Rename? ==> Decide(p'.table, files, m, o) == Skip)
            && (forall n :: n in files && n != m.name ==>
                  (n in p.table <==> n in p'.table) && (n in p.table ==> p'.table[n] == p.table[n]))
            && (forall n :: n in p'.table && n !in files ==> n in p.table)
  {
    if m.name !in p.table && exists n :: IsFirst(p.table, m.hash, n) {
      var n :| IsFirst(p.table, m.hash, n) && FirstWithHash(p.table, m.hash) == Some(n);
    }
  }

  // What a known file needs depends on its own row only.
  lemma SameRow(t: Table, t': Table, files: set<string>, m: Migration, o: Options)
    requires m.name in t && m.name in t' && t[m.name] == t'[m.name]
    ensures Decide(t, files, m, o) == Decide(t', files, m, o) && (Done(t, m, o) <==> Done(t', m, o))
  {
  }

  // After a run over all files every file has a row that the next run accepts;
  // only the row of a file that was renamed may still differ in state.
  lemma {:induction false} AfterAllDone(t: Table, files: set<string>, ms: seq<Migration>, o: Options, i: nat)
    requires Distinct(ms) && i < |ms| && forall k :: 0 <= k < |ms| ==> ms[k].name in files
    ensures var p, q := AfterAll(t, files, ms, o), AfterAll(t, files, ms[..i], o);
            && ms[i].name in p.table && Done(p.table, ms[i], o)
            && (!Decide(q.table, files, ms[i], o).Rename? ==> Decide(p.table, files, ms[i], o) == Skip)
  {
    hide Decide, After, Done;
    var n := |ms| - 1;
    var q := AfterAll(t, files, ms[..n], o);
    AfterOne(q, files, ms[n], o);
    if i < n {
      AfterAllDone(t, files, ms[..n], o, i);
      assert ms[..n][..i] == ms[..i];
      assert ms[i].name != ms[n].name;
      SameRow(q.table, After(q, files, ms[n], o).table, files, ms[i], o);
    }
  }

  lemma DoneStep(p: Progress, files: set<string>, m: Migration, o: Options)
    requires Done(p.table, m, o)
    ensures var p' := After(p, files, m, o);
            && Decide(p'.table, files, m, o) == Skip
            && (Decide(p.table, files, m, o) == Skip ==> p' == p)
            && p' == p.(table := p'.table) && p'.table.Keys == p.table.Keys
            && (forall n :: n in p.table ==>
                  p'.table[n].hash == p.table[n].hash && (n != m.name ==> p'.table[n] == p.table[n]))
  {
  }

  // A run over files that are all done executes nothing and counts nothing.
  lemma {:induction false} RunOverDone(t: Table, files: set<string>, ms: seq<Migration>, o: Options)
    requires Distinct(ms) && forall k :: 0 <= k < |ms| ==> ms[k].name in t && Done(t, ms[k], o)
    ensures var p := AfterAll(t, files, ms, o);
            && p.bodies == [] && p.executed == [] && p.counts == Counts(0, 0, 0, 0) && p.table.Keys == t.Keys
            && (forall n :: n in t ==> p.table[n].hash == t[n].hash)
            && (forall n :: n in t && (forall k :: 0 <= k < |ms| ==> ms[k].name != n) ==> p.table[n] == t[n])
    ensures forall k :: 0 <= k < |ms| ==> Revisited(t, AfterAll(t, files, ms, o).table, files, ms[k], o)
  {
    hide Decide, After, Done;
    if |ms| != 0 {
      var n := |ms| - 1;
      var m := ms[n];
      RunOverDone(t, files, ms[..n], o);
      var q, p := AfterAll(t, files, ms[..n], o), AfterAll(t, files, ms, o);
      assert forall k :: 0 <= k < n ==> ms[..n][k] == ms[k];
      assert q.table[m.name] == t[m.name];
      SameRow(t, q.table, files, m, o);
      DoneStep(q, files, m, o);
      forall k | 0 <= k < n ensures Revisited(t, p.table, files, ms[k], o) {
        assert Revisited(t, q.table, files, ms[..n][k], o);
        assert ms[k].name != m.name && ms[k].name in t;
        SameRow(q.table, p.table, files, ms[k], o);
      }
    }
  }

  // A done file after another run: nothing is left to do for it, and its row is
  // as before if there was nothing to do then.
  ghost predicate Revisited(t: Table, t': Table, files: set<string>, m: Migration, o: Options) {
    && m.name in t && m.name in t'
    && Decide(t', files, m, o) == Skip
    && (Decide(t, files, m, o) == Skip ==> t'[m.name] == t[m.name])
  }

  // Rows of files survive the cleaning.
  lemma CleanedKeepsFiles(p: Progress, files: set<string>, o: Options)
    ensures var c := Cleaned(p, files, o);
            && (forall n :: n in files && n in p.table ==> n in c.table)
            && (forall n :: n in c.table ==> n in p.table && c.table[n] == p.table[n])
            && c.bodies == p.bodies && c.executed == p.executed
            && c.counts == p.counts.(orphans := c.counts.orphans)
            && (ShouldClean(o, |Orphans(c.table, files)|) ==> Orphans(c.table, files) == {})
  {
    var orphans, c := Orphans(p.table, files), Cleaned(p, files, o);
    if ShouldClean(o, |orphans|) {
      assert Orphans(c.table, files) == {};
    } else {
      assert c == p;
    }
  }

  // A second run on the same files executes no body, counts nothing and keeps
  // every row, except that the row a file took over by renaming may get its
  // state corrected; a third run changes nothing at all.
  lemma RunsAreIdempotent(t: Table, ms: seq<Migration>, o: Options)
    requires Distinct(ms)
    ensures var first := Final(t, ms, o);
            var second := Final(first.table, ms, o);
            var third := Final(second.table, ms, o);
            && second.bodies == [] && second.executed == [] && second.counts == Counts(0, 0, 0, 0)
            && second.table.Keys == first.table.Keys
            && (forall n :: n in first.table ==> second.table[n].hash == first.table[n].hash)
            && (forall n :: n in first.table && n !in Renamed(t, ms, o) ==> second.table[n] == first.table[n])
            && third == Progress(second.table, [], [], Counts(0, 0, 0, 0))
  {
    hide Decide, After, Done;
    var files := Names(ms);
    var p1, first := AfterAll(t, files, ms, o), Final(t, ms, o);
    CleanedKeepsFiles(p1, files, o);
    forall k | 0 <= k < |ms|
      ensures ms[k].name in first.table && Done(first.table, ms[k], o)
      ensures ms[k].name !in Renamed(t, ms, o) ==> Decide(first.table, files, ms[k], o) == Skip
    {
      AfterAllDone(t, files, ms, o, k);
      SameRow(p1.table, first.table, files, ms[k], o);
    }
    RunOverDone(first.table, files, ms, o);
    var p2, second := AfterAll(first.table, files, ms, o), Final(first.table, ms, o);
    CleanedAgain(first.table, p2, files, o);
    forall n | n in first.table && n !in Renamed(t, ms, o) ensures second.table[n] == first.table[n] {
      if k :| 0 <= k < |ms| && ms[k].name == n {
        assert Revisited(first.table, p2.table, files, ms[k], o);
      }
    }
    forall k | 0 <= k < |ms|
      ensures ms[k].name in second.table && Done(second.table, ms[k], o)
      ensures Decide(second.table, files, ms[k], o) == Skip
    {
      assert Revisited(first.table, p2.table, files, ms[k], o);
      SkipIsDone(second.table, files, ms[k], o);
    }
    RunOverDone(second.table, files, ms, o);
    var p3 := AfterAll(second.table, files, ms, o);
    forall n | n in second.table ensures p3.table[n] == second.table[n] {
      if k :| 0 <= k < |ms| && ms[k].name == n {
        assert Revisited(second.table, p3.table, files, ms[k], o);
      }
    }
    assert p3.table == second.table;
    CleanedAgain(second.table, p3, files, o);
  }

  // The files whose row a run took over from an old name.
  ghost function Renamed(t: Table, ms: seq<Migration>, o: Options): set<string> {
    set i | 0 <= i < |ms| && Decide(AfterAll(t, Names(ms), ms[..i], o).table, Names(ms), ms[i], o).Rename? :: ms[i].name
  }

  lemma SkipIsDone(t: Table, files: set<string>, m: Migration, o: Options)
    requires m.name in t && Decide(t, files, m, o) == Skip
    ensures Done(t, m, o)
  {
  }

  // After a cleaned run the next one has nothing to clean.
  lemma CleanedAgain(t: Table, p: Progress, files: set<string>, o: Options)
    requires p.table.Keys == t.Keys && (ShouldClean(o, |Orphans(t, files)|) ==> Orphans(t, files) == {})
    ensures Cleaned(p, files, o) == p
    ensures ShouldClean(o, |Orphans(p.table, files)|) ==> Orphans(p.table, files) == {}
  {
    assert Orphans(p.table, files) == Orphans(t, files);
    if ShouldClean(o, |Orphans(t, files)|) {
      assert p.table - {} == p.table;
    }
  }

  // ---------------------------------------------------------------------
  // The database and the transaction

  datatype Error =
    | Deadlock
    | ContextDone
    | Failed
    | NameTaken
    | DuplicateVersion(version: int)
    | DuplicateName(name: string)

  const DEADLOCK_RETRY_ATTEMPTS := 6

  // The table that a committed body leaves.
  function Written(t: Table, m: Migration, replacing: bool): Table {
    if replacing && m.name !in t then t else t[m.name := RowOf(m)]
  }

  // Every database call and every look at the context takes one tick; faults
  // and done say what happens at each tick.
  class Store {
    const faults: nat -> Option<Error>
    const done: nat -> bool
    const hashOf: seq<string> -> Hash
    var clock: nat
    var table: Table
    ghost var committed: seq<string>
    ghost var executed: seq<string>

    constructor (faults: nat -> Option<Error>, done: nat -> bool, hashOf: seq<string> -> Hash, table: Table)
      ensures this.table == table && committed == [] && executed == [] && this.hashOf == hashOf
    {
      this.faults, this.done, this.hashOf, this.table := faults, done, hashOf, table;
      clock, committed, executed := 0, [], [];
    }

    method Call() returns (err: Option<Error>)
      modifies this`clock
      ensures clock == old(clock) + 1 && err == faults(old(clock))
    {
      err := faults(clock);
      clock := clock + 1;
    }

    // A statement within a transaction; run is what the transaction has executed.
    method Exec(statement: string, ghost run: seq<string>) returns (err: Option<Error>, ghost run': seq<string>)
      modifies this`clock
      ensures run' == if err == None then run + [statement] else run
      ensures clock == old(clock) + 1 && err == faults(old(clock))
    {
      err := Call();
      run' := if err == None then run + [statement] else run;
    }

    // One attempt: begin, the statements of the body on a working copy, the
    // row, commit. Anything but a commit leaves the table as it was.
    method RunTransactionOnce(m: Migration, replacing: bool) returns (err: Option<Error>)
      modifies this
      ensures err == None ==> table == Written(old(table), m, replacing) && committed == old(committed) + [m.name]
      ensures err == None ==> executed == old(executed) + Body(m.statements)
      ensures err == None && !replacing ==> m.name !in old(table)
      ensures err != None ==> table == old(table) && committed == old(committed) && executed == old(executed)
      ensures clock > old(clock)
      ensures err == None || (err == Some(NameTaken) && !replacing && m.name in old(table))
        || exists k :: old(clock) <= k < clock && faults(k) == err
    {
      err := Call();
      if err != None {
        return;
      }
      var working := table;
      ghost var run := [];
      var i := 0;
      while i < |m.statements|
        invariant 0 <= i <= |m.statements| && table == old(table) && working == table
        invariant committed == old(committed) && executed == old(executed) && clock > old(clock)
        invariant run == Body(m.statements[..i])
      {
        assert m.statements[..i + 1][..i] == m.statements[..i];
        if !Blank(m.statements[i]) {
          err, run := Exec(m.statements[i], run);
          if err != None {
            return;
          }
        }
        i := i + 1;
      }
      assert m.statements[..|m.statements|] == m.statements;
      err := Call();
      if err != None {
        return;
      }
      if replacing {
        if m.name in working {
          working := working[m.name := RowOf(m)];
        }
      } else {
        if m.name in working {
          return Some(NameTaken);
        }
        working := working[m.name := RowOf(m)];
      }
      err := Call();
      if err != None {
        return;
      }
      table := working;
      committed, executed := committed + [m.name], executed + run;
    }

    // The body is committed exactly once or not at all, whatever deadlocks: all
    // attempts but the last end with a deadlock, six at most, and a deadlock is
    // the result only after all six.
    method RunTransaction(m: Migration, replacing: bool)
      returns (err: Option<Error>, ghost outcomes: seq<Option<Error>>)
      modifies this
      ensures err == None ==> table == Written(old(table), m, replacing) && committed == old(committed) + [m.name]
      ensures err == None ==> executed == old(executed) + Body(m.statements)
      ensures err != None ==> table == old(table) && committed == old(committed) && executed == old(executed)
      ensures |outcomes| <= 6 && forall i :: 0 <= i < |outcomes| - 1 ==> outcomes[i] == Some(Deadlock)
      ensures err == Some(ContextDone) || (|outcomes| > 0 && outcomes[|outcomes| - 1] == err)
      ensures err == Some(Deadlock) ==> |outcomes| == 6
      ensures clock > old(clock)
      ensures err == None || (err == Some(NameTaken) && !replacing && m.name in old(table))
        || exists k :: old(clock) <= k < clock && (faults(k) == err || (done(k) && err == Some(ContextDone)))
    {
      err, outcomes := None, [];
      var attempt := 0;
      while attempt < DEADLOCK_RETRY_ATTEMPTS
        invariant 0 <= attempt <= DEADLOCK_RETRY_ATTEMPTS && |outcomes| == attempt
        invariant table == old(table) && committed == old(committed) && executed == old(executed)
        invariant forall i :: 0 <= i < attempt ==> outcomes[i] == Some(Deadlock)
        invariant attempt > 0 ==> err == Some(Deadlock)
        invariant clock >= old(clock) + attempt
        invariant attempt > 0 ==> exists k :: old(clock) <= k < clock && faults(k) == err
      {
        var gone := done(clock);
        clock := clock + 1;
        if gone {
          err := Some(ContextDone);
          return;
        }
        err := RunTransactionOnce(m, replacing);
        outcomes := outcomes + [err];
        if err == None || err != Some(Deadlock) {
          return;
        }
        attempt := attempt + 1;
      }
    }

    // renameMigratedUpdate's query.
    method FindFirstWithHash(hash: string) returns (name: Option<string>)
      ensures name == FirstWithHash(table, hash)
      ensures name == None ==> forall k :: k in table ==> table[k].hash != hash
      ensures name.Some? ==> name.value in table && IsFirst(table, hash, name.value)
    {
      name := None;
      var left := table.Keys;
      while left != {}
        invariant left <= table.Keys
        invariant name == None ==> forall k :: k in table && k !in left ==> table[k].hash != hash
        invariant name.Some? ==> name.value in table && table[name.value].hash == hash
        invariant name.Some? ==>
                    forall k :: k in table && k !in left && table[k].hash == hash && k != name.value ==>
                      Less(name.value, k)
        decreases left
      {
        var k :| k in left;
        left := left - {k};
        if table[k].hash == hash {
          if name == None {
            name := Some(k);
          } else {
            LessTotal(k, name.value);
            if Less(k, name.value) {
              forall x | Less(name.value, x) ensures Less(k, x) {
                LessTrans(k, name.value, x);
              }
              name := Some(k);
            }
          }
        }
      }
      if name.Some? {
        FirstIsUnique(table, hash, name.value);
      }
    }

    // What has happened since these were committed and executed.
    ghost function Now(counts: Counts, from: seq<string>, run: seq<string>): Progress
      requires from <= committed && run <= executed
      reads this
    {
      Progress(table, committed[|from|..], executed[|run|..], counts)
    }

    // One file: look up its row, then skip, fix, rename or execute it.
    method ApplyFile(m: Migration, files: set<string>, o: Options, counts: Counts)
      returns (err: Option<Error>, counts': Counts)
      requires m.hash != ""
      modifies this
      ensures old(committed) <= committed && old(executed) <= executed
      ensures err == None ==>
                Now(counts', old(committed), old(executed)) == After(Progress(old(table), [], [], counts), files, m, o)
      ensures err != None ==>
                table == old(table) && committed == old(committed) && executed == old(executed) && counts' == counts
      ensures clock > old(clock)
      ensures err != None ==>
                exists k :: old(clock) <= k < clock && (faults(k) == err || (done(k) && err == Some(ContextDone)))
      ensures err == None ==>
                var d := Decide(old(table), files, m, o);
                var runs := d == Apply || d == Reapply;
                && committed == old(committed) + (if runs then [m.name] else [])
                && executed == old(executed) + (if runs then Body(m.statements) else [])
                && table == (if d == Skip then old(table)
                             else if d.Rename? && d.was in old(table) then
                               (old(table) - {d.was})[m.name := old(table)[d.was]]
                             else old(table)[m.name := Record(m.hash, m.state)])
                && counts'.applied == counts.applied + (if runs then 1 else 0)
                && counts'.rehashed == counts.rehashed + (if d == Rehash then 1 else 0)
                && counts'.archived == counts.archived + (if d == Apply && m.state == "ARCHIVED" then 1 else 0)
                && counts'.orphans == counts.orphans
    {
      hide Less, Body, IsFirst, FirstWithHash;
      counts' := counts;
      err := Call();
      if err != None {
        return;
      }
      assert committed[|committed|..] == [] && executed[|executed|..] == [];
      if m.name in table {
        var applied := table[m.name];
        if !o.redundancyChecks || (!o.archivedRedundancy && applied.state == ARCHIVED && m.state == ARCHIVED) {
          return;
        }
        if applied.hash == m.hash {
          if applied.state != m.state {
            err := Call();
            if err != None {
              return;
            }
            table := table[m.name := RowOf(m)];
          }
          return;
        }
        if o.allowRehash && applied.hash == "" {
          err := Call();
          if err != None {
            return;
          }
          table := table[m.name := RowOf(m)];
          counts' := counts.(rehashed := counts.rehashed + 1);
          return;
        }
        ghost var outcomes;
        err, outcomes := RunTransaction(m, true);
        if err == None {
          counts' := counts.(applied := counts.applied + 1);
        }
        return;
      }
      err := Call();
      if err != None {
        return;
      }
      var was := FindFirstWithHash(m.hash);
      if was.Some? && was.value !in files {
        err := Call();
        if err != None {
          return;
        }
        table := (table - {was.value})[m.name := table[was.value]];
        return;
      }
      ghost var outcomes;
      err, outcomes := RunTransaction(m, false);
      if err == None {
        counts' := counts.(applied := counts.applied + 1,
                           archived := if m.state == ARCHIVED then counts.archived + 1 else counts.archived);
      }
    }

    // A duplicate version or name rejects the whole list before any body runs.
    method RejectDuplicates(ms: seq<Migration>) returns (err: Option<Error>)
      ensures err == None <==> Distinct(ms)
      ensures err == None <==>
        forall i, j :: 0 <= i < j < |ms| ==> ms[i].version != ms[j].version && ms[i].name != ms[j].name
      ensures err != None ==> exists i, j ::
        && 0 <= i < j < |ms|
        && ((err.value == DuplicateVersion(ms[j].version) && ms[i].version == ms[j].version)
            || (err.value == DuplicateName(ms[j].name) && ms[i].name == ms[j].name))
    {
      var seen: set<int>, seenNames: set<string>, i := {}, {}, 0;
      while i < |ms|
        invariant 0 <= i <= |ms| && Distinct(ms[..i])
        invariant forall v :: v in seen <==> exists k :: 0 <= k < i && ms[k].version == v
        invariant forall n :: n in seenNames <==> exists k :: 0 <= k < i && ms[k].name == n
      {
        if ms[i].version in seen {
          return Some(DuplicateVersion(ms[i].version));
        }
        seen := seen + {ms[i].version};
        if ms[i].name in seenNames {
          return Some(DuplicateName(ms[i].name));
        }
        seenNames := seenNames + {ms[i].name};
        i := i + 1;
      }
      assert ms[..|ms|] == ms;
      err := None;
    }

    // All files in order, up to the first error.
    method ApplyFiles(ms: seq<Migration>, files: set<string>, o: Options)
      returns (err: Option<Error>, counts: Counts, ghost k: nat)
      requires forall i :: 0 <= i < |ms| ==> ms[i].hash != ""
      modifies this
      ensures old(committed) <= committed && old(executed) <= executed && k <= |ms| && (err == None ==> k == |ms|)
      ensures Now(counts, old(committed), old(executed)) == AfterAll(old(table), files, ms[..k], o)
      ensures clock >= old(clock)
      ensures err != None ==>
                exists k :: old(clock) <= k < clock && (faults(k) == err || (done(k) && err == Some(ContextDone)))
    {
      hide After, Decide, Body;
      counts, k, err := Counts(0, 0, 0, 0), 0, None;
      ghost var t0, c0, e0 := table, committed, executed;
      assert committed[|c0|..] == [] && executed[|e0|..] == [] && ms[..0] == [];
      var i := 0;
      while i < |ms|
        invariant 0 <= i <= |ms| && c0 <= committed && e0 <= executed && k == i && err == None
        invariant clock >= old(clock)
        invariant Now(counts, c0, e0) == AfterAll(t0, files, ms[..i], o)
      {
        ghost var before, was, had := Now(counts, c0, e0), committed, executed;
        err, counts := ApplyFile(ms[i], files, o, counts);
        assert committed[|c0|..] == was[|c0|..] + committed[|was|..];
        assert executed[|e0|..] == had[|e0|..] + executed[|had|..];
        if err != None {
          return;
        }
        AfterAppends(Progress(before.table, [], [], before.counts), before, files, ms[i], o);
        assert ms[..i + 1][..i] == ms[..i];
        i := i + 1;
        k := i;
      }
    }

    // Rows whose file is gone, if the options ask for it.
    method CleanOrphans(files: set<string>, o: Options, counts: Counts) returns (err: Option<Error>, counts': Counts)
      modifies this`table, this`clock
      ensures err == None ==>
                Progress(table, [], [], counts') == Cleaned(Progress(old(table), [], [], counts), files, o)
      ensures var orphans := set n | n in old(table) && n !in files;
              var cleaning := if o.cleanOrphansMax == 0 then o.cleanOrphans
                              else o.cleanOrphansMax < 0 || |orphans| <= o.cleanOrphansMax;
              && (err == None && cleaning ==> table == old(table) - orphans)
              && (!cleaning ==> table == old(table))
              && (err == None ==> counts' == counts.(orphans := counts.orphans + if cleaning then |orphans| else 0))
      ensures forall n :: n in table ==> n in old(table) && table[n] == old(table)[n]
      ensures forall n :: n in old(table) && n !in table ==> n in Orphans(old(table), files)
      ensures clock >= old(clock)
      ensures err != None ==> exists k :: old(clock) <= k < clock && faults(k) == err
    {
      err, counts' := None, counts;
      if !o.cleanOrphans && o.cleanOrphansMax == 0 {
        return;
      }
      err := Call();
      if err != None {
        return;
      }
      var orphaned := set n | n in table && n !in files;
      var cleanup := o.cleanOrphans;
      if o.cleanOrphansMax != 0 {
        cleanup := o.cleanOrphansMax < 0 || |orphaned| <= o.cleanOrphansMax;
      }
      if !cleanup {
        return;
      }
      var left := orphaned;
      while left != {}
        invariant left <= orphaned && table == old(table) - (orphaned - left)
        invariant counts'.orphans + |left| == counts.orphans + |orphaned| && clock >= old(clock) && err == None
        invariant counts' == counts.(orphans := counts'.orphans)
        decreases left
      {
        err := Call();
        if err != None {
          return;
        }
        var n :| n in left;
        left := left - {n};
        table := table - {n};
        counts' := counts'.(orphans := counts'.orphans + 1);
      }
    }

    method ApplyMigrations(migrations: seq<Migration>, o: Options) returns (err: Option<Error>, counts: Counts)
      modifies this
      ensures old(committed) <= committed && old(executed) <= executed
      ensures !Distinct(SortByName(migrations)) ==>
                err != None && table == old(table) && committed == old(committed) && executed == old(executed)
      ensures err == None ==>
                Now(counts, old(committed), old(executed))
                  == Final(old(table), FilledAll(SortByName(migrations), hashOf), o)
      ensures err != None ==>
                StoppedAt(old(table), Now(counts, old(committed), old(executed)),
                          FilledAll(SortByName(migrations), hashOf), o)
      ensures var ms := SortByName(migrations);
              (exists i, j :: 0 <= i < j < |ms| && (ms[i].version == ms[j].version || ms[i].name == ms[j].name))
              || err == None
              || exists k :: old(clock) <= k < clock && (faults(k) == err || (done(k) && err == Some(ContextDone)))
    {
      hide SortByName, AfterAll, Cleaned;
      counts := Counts(0, 0, 0, 0);
      var ms := FilledAll(SortByName(migrations), hashOf);
      ghost var t0, c0, e0 := table, committed, executed;
      StoppedNowhere(t0, ms, o);
      assert committed[|c0|..] == [] && executed[|e0|..] == [];
      err := Call();
      if err != None {
        return;
      }
      err := RejectDuplicates(SortByName(migrations));
      if err != None {
        return;
      }
      ghost var k;
      err, counts, k := ApplyFiles(ms, Names(ms), o);
      StoppedAfter(t0, Now(counts, c0, e0), ms, o, k);
      if err != None {
        return;
      }
      assert ms[..|ms|] == ms;
      ghost var p := Now(counts, c0, e0);
      err, counts := CleanOrphans(Names(ms), o, counts);
      StoppedAfter(t0, Now(counts, c0, e0), ms, o, k);
      CleanedAppends(Progress(p.table, [], [], p.counts), p, Names(ms), o);
    }
  }

  // A run that an error stopped: the files before the failing one are done in
  // full and nothing else has happened, except that a failing clean-up may
  // have removed some of the orphans.
  ghost predicate StoppedAt(t0: Table, now: Progress, ms: seq<Migration>, o: Options) {
    exists k :: 0 <= k <= |ms| && StoppedAfterFiles(t0, now, ms, o, k)
  }

  ghost predicate StoppedAfterFiles(t0: Table, now: Progress, ms: seq<Migration>, o: Options, k: nat)
    requires k <= |ms|
  {
    var p := AfterAll(t0, Names(ms), ms[..k], o);
    && now.bodies == p.bodies && now.executed == p.executed
    && (forall n :: n in now.table ==> n in p.table && now.table[n] == p.table[n])
    && (forall n :: n in p.table && n !in now.table ==> k == |ms| && n in Orphans(p.table, Names(ms)))
  }

  lemma StoppedNowhere(t0: Table, ms: seq<Migration>, o: Options)
    ensures forall c :: StoppedAt(t0, Progress(t0, [], [], c), ms, o)
  {
    assert ms[..0] == [];
    assert forall c :: StoppedAfterFiles(t0, Progress(t0, [], [], c), ms, o, 0);
  }

  lemma StoppedAfter(t0: Table, now: Progress, ms: seq<Migration>, o: Options, k: nat)
    requires k <= |ms| && StoppedAfterFiles(t0, now, ms, o, k)
    ensures StoppedAt(t0, now, ms, o)
  {
  }

  lemma CleanedAppends(p: Progress, q: Progress, files: set<string>, o: Options)
    requires p == q.(bodies := [], executed := [])
    ensures Cleaned(q, files, o) == Cleaned(p, files, o).(bodies := q.bodies, executed := q.executed)
  {
  }

  // Files whose body was committed have their row as written; files not
  // reached, the failing one included, have exactly the row they had.
  lemma {:induction false} CommittedHaveRows(t: Table, files: set<string>, ms: seq<Migration>, o: Options, k: nat,
                                             i: nat)
    requires Distinct(ms) && k <= |ms| && i < |ms| && forall j :: 0 <= j < |ms| ==> ms[j].name in files
    ensures var p := AfterAll(t, files, ms[..k], o);
            && (ms[i].name in p.bodies ==> i < k && ms[i].name in p.table && p.table[ms[i].name] == RowOf(ms[i]))
            && (i >= k ==>
                  && (ms[i].name in p.table <==> ms[i].name in t)
                  && (ms[i].name in t ==> p.table[ms[i].name] == t[ms[i].name]))
  {
    hide After, Decide;
    if k > 0 {
      CommittedHaveRows(t, files, ms, o, k - 1, i);
      assert ms[..k][..k - 1] == ms[..k - 1];
      var q, m := AfterAll(t, files, ms[..k - 1], o), ms[k - 1];
      AfterOne(q, files, m, o);
      assert i != k - 1 ==> ms[i].name != m.name;
      BodiesAfter(q, files, m, o);
    }
  }

  lemma BodiesAfter(p: Progress, files: set<string>, m: Migration, o: Options)
    ensures var p' := After(p, files, m, o);
            || p'.bodies == p.bodies
            || (p'.bodies == p.bodies + [m.name] && m.name in p'.table && p'.table[m.name] == RowOf(m))
  {
  }

  // ---------------------------------------------------------------------
  // Which bodies a run executes

  ghost predicate Runs(t: Table, files: set<string>, m: Migration, o: Options) {
    Decide(t, files, m, o) == Apply || Decide(t, files, m, o) == Reapply
  }

  lemma OneFile(p: Progress, files: set<string>, m: Migration, o: Options)
    ensures var p', d := After(p, files, m, o), Decide(p.table, files, m, o);
            && p'.bodies == p.bodies + (if Runs(p.table, files, m, o) then [m.name] else [])
            && p'.executed == p.executed + (if Runs(p.table, files, m, o) then Body(m.statements) else [])
            && p'.counts.applied == p.counts.applied + (if Runs(p.table, files, m, o) then 1 else 0)
            && p'.counts.rehashed == p.counts.rehashed + (if d == Rehash then 1 else 0)
            && p'.counts.archived == p.counts.archived + (if d == Apply && m.state == "ARCHIVED" then 1 else 0)
            && p'.counts.orphans == p.counts.orphans
  {
    hide Decide;
  }

  // Until its turn a file keeps the row it had, or has none.
  lemma {:induction false} RowAtTurn(t: Table, files: set<string>, ms: seq<Migration>, o: Options, i: nat)
    requires Distinct(ms) && i < |ms| && forall k :: 0 <= k < |ms| ==> ms[k].name in files
    ensures var q := AfterAll(t, files, ms[..i], o).table;
            && (ms[i].name in q <==> ms[i].name in t)
            && (ms[i].name in t ==> q[ms[i].name] == t[ms[i].name])
  {
    CommittedHaveRows(t, files, ms, o, i, i);
  }

  // A file's body is executed once or not at all, as decided at its turn, and
  // the files applied are those whose bodies are.
  lemma {:induction false} BodiesOfRun(t: Table, files: set<string>, ms: seq<Migration>, o: Options, i: nat)
    requires Distinct(ms) && i < |ms|
    ensures var p := AfterAll(t, files, ms, o);
            && multiset(p.bodies)[ms[i].name]
               == (if Runs(AfterAll(t, files, ms[..i], o).table, files, ms[i], o) then 1 else 0)
            && p.counts.applied == |p.bodies|
            && (forall b :: b in p.bodies ==> exists k :: 0 <= k < |ms| && ms[k].name == b)
    decreases |ms|
  {
    hide Decide, After, Runs, AfterAll;
    var n := |ms| - 1;
    BodiesAreFiles(t, files, ms, o);
    BodiesStep(t, files, ms, o, ms[i].name);
    if i < n {
      BodiesOfRun(t, files, ms[..n], o, i);
      assert ms[..n][..i] == ms[..i] && ms[i].name != ms[n].name;
    } else {
      NotRunBefore(t, files, ms, o);
    }
  }

  lemma BodiesStep(t: Table, files: set<string>, ms: seq<Migration>, o: Options, name: string)
    requires |ms| > 0
    ensures var n := |ms| - 1;
            var p, q := AfterAll(t, files, ms, o), AfterAll(t, files, ms[..n], o);
            && multiset(p.bodies)[name]
               == multiset(q.bodies)[name] + (if Runs(q.table, files, ms[n], o) && ms[n].name == name then 1 else 0)
            && (name !in q.bodies ==> multiset(q.bodies)[name] == 0)
  {
    hide Decide, After, Runs;
    var n := |ms| - 1;
    var q := AfterAll(t, files, ms[..n], o);
    OneFile(q, files, ms[n], o);
    OneMore(q.bodies, ms[n].name, name);
  }

  lemma OneMore(bodies: seq<string>, more: string, name: string)
    ensures multiset(bodies + [more])[name] == multiset(bodies)[name] + if more == name then 1 else 0
    ensures multiset(bodies + [])[name] == multiset(bodies)[name]
    ensures name !in bodies ==> multiset(bodies)[name] == 0
  {
    assert multiset(bodies + [more]) == multiset(bodies) + multiset{more};
    assert bodies + [] == bodies;
  }

  lemma {:induction false} BodiesAreFiles(t: Table, files: set<string>, ms: seq<Migration>, o: Options)
    ensures var p := AfterAll(t, files, ms, o);
            && p.counts.applied == |p.bodies|
            && (forall b :: b in p.bodies ==> exists k :: 0 <= k < |ms| && ms[k].name == b)
  {
    hide Decide, After, Runs;
    if |ms| > 0 {
      var n := |ms| - 1;
      var q, p := AfterAll(t, files, ms[..n], o), AfterAll(t, files, ms, o);
      OneFile(q, files, ms[n], o);
      BodiesAreFiles(t, files, ms[..n], o);
      forall b | b in p.bodies ensures exists k :: 0 <= k < |ms| && ms[k].name == b {
        if b in q.bodies {
          var k :| 0 <= k < |ms[..n]| && ms[..n][k].name == b;
          assert ms[k].name == b;
        } else {
          assert ms[n].name == b;
        }
      }
    }
  }

  // The statements executed are those of these bodies, in the order of the files.
  lemma ExecutedGrows(t: Table, files: set<string>, ms: seq<Migration>, o: Options)
    requires |ms| > 0
    ensures var p, q := AfterAll(t, files, ms, o), AfterAll(t, files, ms[..|ms| - 1], o);
            var runs := |p.bodies| > |q.bodies|;
            && q.bodies <= p.bodies
            && p.executed == q.executed + (if runs then Body(ms[|ms| - 1].statements) else [])
    ensures AfterAll(t, files, [], o) == Progress(t, [], [], Counts(0, 0, 0, 0))
  {
    hide Decide, After, Runs;
    OneFile(AfterAll(t, files, ms[..|ms| - 1], o), files, ms[|ms| - 1], o);
  }

  // The body of a file that had a row before the run is executed exactly when
  // the row is checked and has another hash that is not to be filled in.
  lemma KnownFileRuns(t: Table, files: set<string>, ms: seq<Migration>, o: Options, i: nat)
    requires Distinct(ms) && i < |ms| && forall k :: 0 <= k < |ms| ==> ms[k].name in files
    requires ms[i].name in t
    ensures var m, row := ms[i], t[ms[i].name];
            multiset(AfterAll(t, files, ms, o).bodies)[m.name]
              == if && o.redundancyChecks
                    && (o.archivedRedundancy || row.state != "ARCHIVED" || m.state != "ARCHIVED")
                    && row.hash != m.hash && (row.hash != "" || !o.allowRehash)
                 then 1 else 0
  {
    hide Decide, AfterAll;
    var q := AfterAll(t, files, ms[..i], o).table;
    RowAtTurn(t, files, ms, o, i);
    BodiesOfRun(t, files, ms, o, i);
    DecidedWithRow(q, files, ms[i], o);
  }

  // The body of a file that had none is executed once, unless at its turn the
  // first row with its hash belongs to no file.
  lemma UnknownFileRuns(t: Table, files: set<string>, ms: seq<Migration>, o: Options, i: nat)
    requires Distinct(ms) && i < |ms| && forall k :: 0 <= k < |ms| ==> ms[k].name in files
    requires ms[i].name !in t
    ensures var q := AfterAll(t, files, ms[..i], o).table;
            multiset(AfterAll(t, files, ms, o).bodies)[ms[i].name]
              == if exists n :: n in q && q[n].hash == ms[i].hash && n !in files
                                && forall k :: k in q && q[k].hash == ms[i].hash && k != n ==> Less(n, k)
                 then 0 else 1
  {
    hide Decide, AfterAll, Less;
    var q := AfterAll(t, files, ms[..i], o).table;
    RowAtTurn(t, files, ms, o, i);
    BodiesOfRun(t, files, ms, o, i);
    DecidedWithoutRow(q, files, ms[i], o);
    var d := Decide(q, files, ms[i], o);
    if d.Rename? {
      assert d.was in q && q[d.was].hash == ms[i].hash && d.was !in files;
    }
  }

  // A file whose empty hash is filled in, and a new archived one that is executed.
  predicate IsFilledIn(t: Table, m: Migration, o: Options) {
    && m.name in t && o.redundancyChecks && o.allowRehash
    && (o.archivedRedundancy || t[m.name].state != "ARCHIVED" || m.state != "ARCHIVED")
    && t[m.name].hash == "" && m.hash != ""
  }

  predicate IsArchivedNew(t: Table, m: Migration, bodies: seq<string>) {
    m.name !in t && m.name in bodies && m.state == "ARCHIVED"
  }

  function FilledIn(t: Table, ms: seq<Migration>, o: Options): nat {
    if |ms| == 0 then 0
    else
      var n := |ms| - 1;
      FilledIn(t, ms[..n], o) + if IsFilledIn(t, ms[n], o) then 1 else 0
  }

  function ArchivedNew(t: Table, ms: seq<Migration>, bodies: seq<string>): nat {
    if |ms| == 0 then 0
    else
      var n := |ms| - 1;
      ArchivedNew(t, ms[..n], bodies) + if IsArchivedNew(t, ms[n], bodies) then 1 else 0
  }

  // What the counters of a run count.
  lemma {:induction false} CountersOfRun(t: Table, files: set<string>, ms: seq<Migration>, o: Options)
    requires Distinct(ms) && forall k :: 0 <= k < |ms| ==> ms[k].name in files
    ensures var p := AfterAll(t, files, ms, o);
            && p.counts.applied == |p.bodies| && p.counts.orphans == 0
            && p.counts.rehashed == FilledIn(t, ms, o)
            && p.counts.archived == ArchivedNew(t, ms, p.bodies)
  {
    hide Decide, After, Runs, FilledIn, ArchivedNew;
    BodiesAreFiles(t, files, ms, o);
    if |ms| == 0 {
      NoFiles(t, o);
    } else {
      var n := |ms| - 1;
      assert forall k :: 0 <= k < n ==> ms[..n][k] == ms[k];
      CountersOfRun(t, files, ms[..n], o);
      var q := AfterAll(t, files, ms[..n], o);
      OneFile(q, files, ms[n], o);
      RowAtTurn(t, files, ms, o, n);
      BodiesOfRun(t, files, ms, o, n);
      NotRunBefore(t, files, ms, o);
      CountersStep(t, q.table, files, ms, o, q.bodies);
    }
  }

  lemma NoFiles(t: Table, o: Options)
    ensures FilledIn(t, [], o) == 0 && ArchivedNew(t, [], []) == 0
  {
  }

  lemma NotRunBefore(t: Table, files: set<string>, ms: seq<Migration>, o: Options)
    requires Distinct(ms) && |ms| > 0
    ensures ms[|ms| - 1].name !in AfterAll(t, files, ms[..|ms| - 1], o).bodies
  {
    hide Decide, After;
    var n := |ms| - 1;
    var q := AfterAll(t, files, ms[..n], o);
    BodiesAreFiles(t, files, ms[..n], o);
    forall j | 0 <= j < |q.bodies| ensures q.bodies[j] != ms[n].name {
      assert q.bodies[j] in q.bodies;
      var k :| 0 <= k < |ms[..n]| && ms[..n][k].name == q.bodies[j];
      assert ms[k].name == q.bodies[j];
    }
  }

  lemma CountersStep(t: Table, q: Table, files: set<string>, ms: seq<Migration>, o: Options, bodies: seq<string>)
    requires Distinct(ms) && |ms| > 0 && ms[|ms| - 1].name !in bodies
    requires ms[|ms| - 1].name in q <==> ms[|ms| - 1].name in t
    requires ms[|ms| - 1].name in t ==> q[ms[|ms| - 1].name] == t[ms[|ms| - 1].name]
    ensures var n := |ms| - 1;
            var d := Decide(q, files, ms[n], o);
            var more := if Runs(q, files, ms[n], o) then [ms[n].name] else [];
            && FilledIn(t, ms, o) == FilledIn(t, ms[..n], o) + (if d == Rehash then 1 else 0)
            && ArchivedNew(t, ms, bodies + more)
               == ArchivedNew(t, ms[..n], bodies) + (if d == Apply && ms[n].state == "ARCHIVED" then 1 else 0)
  {
    hide Decide, Distinct;
    var n := |ms| - 1;
    var m := ms[n];
    if m.name in t {
      DecidedWithRow(q, files, m, o);
    } else {
      DecidedWithoutRow(q, files, m, o);
    }
    var more := if Runs(q, files, m, o) then [m.name] else [];
    NamedOnce(ms);
    SameArchived(t, ms[..n], bodies, more);
  }

  lemma NamedOnce(ms: seq<Migration>)
    requires Distinct(ms) && |ms| > 0
    ensures var n := |ms| - 1; forall k :: 0 <= k < n ==> ms[..n][k].name != ms[n].name
  {
    assert forall k :: 0 <= k < |ms| - 1 ==> ms[..|ms| - 1][k] == ms[k];
  }

  lemma {:induction false} SameArchived(t: Table, ms: seq<Migration>, bodies: seq<string>, more: seq<string>)
    requires forall k :: 0 <= k < |ms| ==> ms[k].name !in more
    ensures ArchivedNew(t, ms, bodies + more) == ArchivedNew(t, ms, bodies)
  {
    if |ms| > 0 {
      SameArchived(t, ms[..|ms| - 1], bodies, more);
    }
  }

  // So a file is executed that is new by name and by hash, whatever the options.
  lemma NewFileRuns(t: Table, files: set<string>, ms: seq<Migration>, o: Options, i: nat)
    requires Distinct(ms) && i < |ms| && forall k :: 0 <= k < |ms| ==> ms[k].name in files
    requires ms[i].name !in t && forall n :: n in t ==> t[n].hash != ms[i].hash
    requires forall k :: 0 <= k < i ==> ms[k].hash != ms[i].hash
    ensures multiset(AfterAll(t, files, ms, o).bodies)[ms[i].name] == 1
  {
    hide AfterAll, Less;
    UnknownFileRuns(t, files, ms, o, i);
    assert forall k :: 0 <= k < i ==> ms[..i][k] == ms[k];
    HashesOfRun(t, files, ms[..i], o, ms[i].hash);
  }

  predicate NoneHas(t: Table, hash: string) {
    forall n :: n in t ==> t[n].hash != hash
  }

  lemma HashesAfter(p: Progress, files: set<string>, m: Migration, o: Options, hash: string)
    requires NoneHas(p.table, hash) && m.hash != hash
    ensures NoneHas(After(p, files, m, o).table, hash)
  {
    hide Decide;
  }

  lemma {:induction false} HashesOfRun(t: Table, files: set<string>, ms: seq<Migration>, o: Options, hash: string)
    requires NoneHas(t, hash) && forall k :: 0 <= k < |ms| ==> ms[k].hash != hash
    ensures NoneHas(AfterAll(t, files, ms, o).table, hash)
  {
    hide After;
    if |ms| > 0 {
      var n := |ms| - 1;
      assert ms[n].hash != hash && forall k :: 0 <= k < n ==> ms[..n][k] == ms[k];
      HashesOfRun(t, files, ms[..n], o, hash);
      HashesAfter(AfterAll(t, files, ms[..n], o), files, ms[n], o, hash);
    }
  }

  lemma AfterAppends(p: Progress, q: Progress, files: set<string>, m: Migration, o: Options)
    requires p == q.(bodies := [], executed := [])
    ensures var p' := After(p, files, m, o);
            After(q, files, m, o) == p'.(bodies := q.bodies + p'.bodies, executed := q.executed + p'.executed)
  {
  }
}
