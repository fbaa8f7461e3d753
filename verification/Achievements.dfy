// The achievement completion engine: criteria progress, the completion test,
// and the recursion from a completed achievement through meta-achievements,
// the achievement-points criterion and achievements that share criteria.
module Achievements {

  datatype Team = Alliance | Horde | NoTeam

  datatype Criterion = Criterion(id: nat, achievement: nat, kind: nat, asset: nat, quantity: nat, startTimer: nat)

  // counter, summ and realmFirst are the flag bits the engine reads.
  datatype Achievement = Achievement(id: nat, faction: int, points: nat, counter: bool, summ: bool, realmFirst: bool,
                                     minimum: nat, shares: nat)

  const COMPLETE_ACHIEVEMENT: nat := 8
  const EARN_ACHIEVEMENT_POINTS: nat := 115

  // Kinds that complete once the counter has reached the quantity.
  predicate CountsToQuantity(kind: nat) {
    || kind in {0, 1, 5, 7, 9, 10, 11, 13, 14, 24, 35, 36, 37, 39, 41, 42, 62, 72, 75, 76, 109, 110, 112, 113, 119}
    || 28 <= kind <= 31 || 45 <= kind <= 57 || 67 <= kind <= 70
  }

  // The per-kind threshold for a counter that exists.
  predicate Reached(c: Criterion, counter: nat) {
    if CountsToQuantity(c.kind) then counter >= c.quantity
    else if c.kind in {COMPLETE_ACHIEVEMENT, 27, 34, 43} then counter >= 1
    else if c.kind == 40 then counter >= c.quantity * 75
    else if c.kind == 32 then c.quantity != 0 && counter >= c.quantity
    else if c.kind == 74 then true
    else if c.kind == EARN_ACHIEVEMENT_POINTS then counter >= if c.quantity > 0 then c.quantity else 9000
    else false
  }

  lemma ReachedIsMonotone(c: Criterion, low: nat, high: nat)
    requires low <= high && Reached(c, low)
    ensures Reached(c, high)
  {
  }

  // ---------------------------------------------------------------------
  // The index

  function Lookup<K, V>(m: map<K, seq<V>>, k: K): seq<V> {
    if k in m then m[k] else []
  }

  function Append<K(!new), V(!new)>(m: map<K, seq<V>>, k: K, v: V): (r: map<K, seq<V>>)
    ensures forall j :: Lookup(r, j) == if j == k then Lookup(m, j) + [v] else Lookup(m, j)
  {
    m[k := Lookup(m, k) + [v]]
  }

  datatype Index = Index(byTypeAsset: map<(nat, nat), seq<Criterion>>, byAchieve: map<nat, seq<Criterion>>,
                         byReferenced: map<nat, seq<nat>>, achieveByID: map<nat, Achievement>)

  // What the engine needs of the index over the criterion rows it was built from.
  ghost predicate IndexOk(ix: Index, rows: seq<Criterion>) {
    && (forall i, j :: 0 <= i < |rows| && 0 <= j < |rows| && rows[i].id == rows[j].id ==> rows[i] == rows[j])
    && (forall k, c :: c in Lookup(ix.byTypeAsset, k) <==> c in rows && (c.kind, c.asset) == k)
    && (forall a, c :: c in Lookup(ix.byAchieve, a) <==> c in rows && c.achievement == a)
    && (forall a :: a in ix.achieveByID ==> ix.achieveByID[a].id == a)
    && (forall a :: a in ix.achieveByID && ix.achieveByID[a].shares != 0 ==>
          a in Lookup(ix.byReferenced, ix.achieveByID[a].shares))
  }

  // The rows of one key, in order.
  function OfType(rows: seq<Criterion>, k: (nat, nat)): seq<Criterion> {
    if |rows| == 0 then [] else
      var n := |rows| - 1;
      OfType(rows[..n], k) + if (rows[n].kind, rows[n].asset) == k then [rows[n]] else []
  }

  function OfAchievement(rows: seq<Criterion>, a: nat): seq<Criterion> {
    if |rows| == 0 then [] else
      var n := |rows| - 1;
      OfAchievement(rows[..n], a) + if rows[n].achievement == a then [rows[n]] else []
  }

  // The ids of the achievement rows that share the criteria of x, in order.
  function Referrers(achievements: seq<Achievement>, x: nat): seq<nat> {
    if |achievements| == 0 then [] else
      var n := |achievements| - 1;
      Referrers(achievements[..n], x)
      + if achievements[n].shares != 0 && achievements[n].shares == x then [achievements[n].id] else []
  }

  // The last row with this id.
  predicate IsLast(achievements: seq<Achievement>, e: Achievement) {
    exists i :: 0 <= i < |achievements| && achievements[i] == e
                && forall j :: i < j < |achievements| ==> achievements[j].id != e.id
  }

  lemma {:induction false} OfKeyMembers(rows: seq<Criterion>)
    ensures forall k, c :: c in OfType(rows, k) <==> c in rows && (c.kind, c.asset) == k
    ensures forall a, c :: c in OfAchievement(rows, a) <==> c in rows && c.achievement == a
  {
    if |rows| > 0 {
      var n := |rows| - 1;
      OfKeyMembers(rows[..n]);
      assert rows == rows[..n] + [rows[n]];
      assert forall c :: c in rows <==> c in rows[..n] || c == rows[n];
    }
  }

  lemma {:induction false} ReferrersMembers(achievements: seq<Achievement>)
    ensures forall e :: e in achievements && e.shares != 0 ==> e.id in Referrers(achievements, e.shares)
    ensures forall x, id :: id in Referrers(achievements, x) ==>
      exists e :: e in achievements && e.id == id && e.shares == x
  {
    if |achievements| > 0 {
      var n := |achievements| - 1;
      ReferrersMembers(achievements[..n]);
      assert achievements == achievements[..n] + [achievements[n]];
      assert forall e :: e in achievements <==> e in achievements[..n] || e == achievements[n];
      forall x, id | id in Referrers(achievements, x)
        ensures exists e :: e in achievements && e.id == id && e.shares == x
      {
        if id in Referrers(achievements[..n], x) {
          var e :| e in achievements[..n] && e.id == id && e.shares == x;
          assert e in achievements;
        } else {
          assert achievements[n] in achievements;
        }
      }
    }
  }

  // Rows are appended to the lists of their keys; a later achievement row
  // replaces an earlier one with the same id.
  method BuildIndex(rows: seq<Criterion>, achievements: seq<Achievement>) returns (ix: Index)
    requires forall i, j :: 0 <= i < |rows| && 0 <= j < |rows| && rows[i].id == rows[j].id ==> rows[i] == rows[j]
    ensures IndexOk(ix, rows)
    ensures forall k :: Lookup(ix.byTypeAsset, k) == OfType(rows, k)
    ensures forall a :: Lookup(ix.byAchieve, a) == OfAchievement(rows, a)
    ensures forall x :: Lookup(ix.byReferenced, x) == Referrers(achievements, x)
    ensures forall a :: a in ix.achieveByID <==> exists e :: e in achievements && e.id == a
    ensures forall a :: a in ix.achieveByID ==> ix.achieveByID[a].id == a && IsLast(achievements, ix.achieveByID[a])
  {
    hide OfType, OfAchievement, Referrers, IsLast;
    var byTypeAsset, byAchieve := IndexCriteria(rows);
    var byReferenced, achieveByID := IndexAchievements(achievements);
    OfKeyMembers(rows);
    ReferrersMembers(achievements);
    LastIsRow(achievements, achieveByID);
    ix := Index(byTypeAsset, byAchieve, byReferenced, achieveByID);
  }

  method IndexCriteria(rows: seq<Criterion>)
    returns (byTypeAsset: map<(nat, nat), seq<Criterion>>, byAchieve: map<nat, seq<Criterion>>)
    ensures forall k :: Lookup(byTypeAsset, k) == OfType(rows, k)
    ensures forall a :: Lookup(byAchieve, a) == OfAchievement(rows, a)
  {
    byTypeAsset, byAchieve := map[], map[];
    for i := 0 to |rows|
      invariant forall k :: Lookup(byTypeAsset, k) == OfType(rows[..i], k)
      invariant forall a :: Lookup(byAchieve, a) == OfAchievement(rows[..i], a)
    {
      var entry := rows[i];
      assert rows[..i + 1][..i] == rows[..i];
      byTypeAsset := Append(byTypeAsset, (entry.kind, entry.asset), entry);
      byAchieve := Append(byAchieve, entry.achievement, entry);
    }
    assert rows[..|rows|] == rows;
  }

  method IndexAchievements(achievements: seq<Achievement>)
    returns (byReferenced: map<nat, seq<nat>>, achieveByID: map<nat, Achievement>)
    ensures forall x :: Lookup(byReferenced, x) == Referrers(achievements, x)
    ensures forall a :: a in achieveByID ==> achieveByID[a].id == a && IsLast(achievements, achieveByID[a])
    ensures forall e :: e in achievements ==> e.id in achieveByID
  {
    hide IsLast;
    byReferenced, achieveByID := map[], map[];
    for i := 0 to |achievements|
      invariant forall a :: a in achieveByID ==> achieveByID[a].id == a && IsLast(achievements[..i], achieveByID[a])
      invariant forall e :: e in achievements[..i] ==> e.id in achieveByID
      invariant forall x :: Lookup(byReferenced, x) == Referrers(achievements[..i], x)
    {
      ghost var before := achieveByID;
      var entry := achievements[i];
      assert achievements[..i + 1] == achievements[..i] + [entry] && achievements[..i + 1][..i] == achievements[..i];
      achieveByID := achieveByID[entry.id := entry];
      if entry.shares != 0 {
        byReferenced := Append(byReferenced, entry.shares, entry.id);
      }
      LastOneMore(achievements[..i], entry, before, achieveByID);
    }
    assert achievements[..|achievements|] == achievements;
  }

  lemma LastOneMore(list: seq<Achievement>, entry: Achievement, m: map<nat, Achievement>, m': map<nat, Achievement>)
    requires forall a :: a in m ==> m[a].id == a && IsLast(list, m[a])
    requires m' == m[entry.id := entry]
    ensures forall a :: a in m' ==> m'[a].id == a && IsLast(list + [entry], m'[a])
  {
    var longer := list + [entry];
    forall a | a in m' ensures m'[a].id == a && IsLast(longer, m'[a]) {
      if a == entry.id {
        assert longer[|list|] == entry;
      } else {
        var i :| 0 <= i < |list| && list[i] == m[a] && forall j :: i < j < |list| ==> list[j].id != a;
        assert longer[i] == m[a];
      }
    }
  }

  lemma LastIsRow(list: seq<Achievement>, m: map<nat, Achievement>)
    requires forall a :: a in m ==> m[a].id == a && IsLast(list, m[a])
    ensures forall a :: a in m ==> m[a] in list
  {
    forall a | a in m ensures m[a] in list {
      var i :| 0 <= i < |list| && list[i] == m[a];
    }
  }

  // ---------------------------------------------------------------------
  // One character's achievement state

  // The completion an award was given for: id, with the counters and the
  // realm-wide completions of that moment.
  datatype Award = Award(id: nat, progress: map<nat, nat>, realm: set<nat>)

  datatype Book = Book(progress: map<nat, nat>, earned: set<nat>, realm: set<nat>, timed: set<nat>, awards: seq<Award>)

  // Everything that stays fixed during one update. blocked is the game-master
  // and permission gate; hasDb tells whether realm-wide completions are stored.
  datatype Rules = Rules(ix: Index, rows: seq<Criterion>, team: Team, hasDb: bool, blocked: bool,
                         disabled: nat -> bool, meets: (Criterion, nat, nat) -> bool)

  function Counter(progress: map<nat, nat>, id: nat): nat {
    if id in progress then progress[id] else 0
  }

  // A realm-first achievement already completed on the realm never completes again.
  predicate RealmHeld(r: Rules, realm: set<nat>, a: nat) {
    a in r.ix.achieveByID && r.ix.achieveByID[a].realmFirst && r.hasDb && a in realm
  }

  predicate CriterionCompleted(r: Rules, realm: set<nat>, c: Criterion, counter: nat) {
    !RealmHeld(r, realm, c.achievement) && Reached(c, counter)
  }

  predicate Completed(r: Rules, progress: map<nat, nat>, realm: set<nat>, c: Criterion) {
    c.id in progress && CriterionCompleted(r, realm, c, progress[c.id])
  }

  function CompletedCount(r: Rules, progress: map<nat, nat>, realm: set<nat>, list: seq<Criterion>): nat {
    if |list| == 0 then 0
    else
      var n := |list| - 1;
      CompletedCount(r, progress, realm, list[..n]) + if Completed(r, progress, realm, list[n]) then 1 else 0
  }

  function SumOf(progress: map<nat, nat>, list: seq<Criterion>): nat {
    if |list| == 0 then 0
    else SumOf(progress, list[..|list| - 1]) + Counter(progress, list[|list| - 1].id)
  }

  // Some criterion with a counter is reached by the sum of the counters up to it.
  predicate SumReached(progress: map<nat, nat>, list: seq<Criterion>) {
    exists k :: 0 <= k < |list| && list[k].id in progress && SumOf(progress, list[..k + 1]) >= list[k].quantity
  }

  function TestId(e: Achievement): nat {
    if e.shares != 0 then e.shares else e.id
  }

  predicate WrongTeam(r: Rules, e: Achievement) {
    (e.faction == 0 && r.team != Horde) || (e.faction == 1 && r.team != Alliance)
  }

  // The completion test of an achievement.
  predicate Satisfied(r: Rules, progress: map<nat, nat>, realm: set<nat>, a: nat) {
    a in r.ix.achieveByID &&
    var e := r.ix.achieveByID[a];
    var list := Lookup(r.ix.byAchieve, TestId(e));
    && |list| != 0 && !WrongTeam(r, e)
    && if e.summ then SumReached(progress, list)
       else CompletedCount(r, progress, realm, list) >= if e.minimum == 0 then |list| else e.minimum
  }

  // The completion test holds, yet the achievement is not earned.
  predicate Pending(r: Rules, b: Book, a: nat) {
    && Satisfied(r, b.progress, b.realm, a)
    && !r.ix.achieveByID[a].summ && !r.ix.achieveByID[a].counter
    && a !in b.earned
  }

  // A summing achievement whose test held in b is earned in b'.
  predicate SumEarned(r: Rules, b: Book, b': Book, a: nat) {
    && a in r.ix.achieveByID && r.ix.achieveByID[a].summ && !r.ix.achieveByID[a].counter
    && Satisfied(r, b.progress, b.realm, a)
    ==> a in b'.earned
  }

  function PointsOf(ix: Index, a: nat): nat {
    if a in ix.achieveByID then ix.achieveByID[a].points else 0
  }

  ghost function TotalPoints(ix: Index, earned: set<nat>): nat {
    if earned == {} then 0
    else
      var a :| a in earned;
      PointsOf(ix, a) + TotalPoints(ix, earned - {a})
  }

  lemma {:induction false} TotalPointsAnyOrder(ix: Index, earned: set<nat>, a: nat)
    requires a in earned
    ensures TotalPoints(ix, earned)
      == (if a in ix.achieveByID then ix.achieveByID[a].points else 0) + TotalPoints(ix, earned - {a})
    decreases |earned|
  {
    var x :| x in earned && TotalPoints(ix, earned) == PointsOf(ix, x) + TotalPoints(ix, earned - {x});
    assert forall y :: PointsOf(ix, y) == if y in ix.achieveByID then ix.achieveByID[y].points else 0;
    if x != a {
      TotalPointsAnyOrder(ix, earned - {x}, a);
      TotalPointsAnyOrder(ix, earned - {a}, x);
      assert earned - {x} - {a} == earned - {a} - {x};
    }
  }

  // ---------------------------------------------------------------------
  // What every engine call keeps

  // Nothing is forgotten.
  ghost predicate Grows(b: Book, b': Book) {
    && b.earned <= b'.earned && b.realm <= b'.realm && b'.timed <= b.timed
    && (forall k :: k in b.progress ==> k in b'.progress && b.progress[k] <= b'.progress[k])
  }

  // Each achievement is awarded at most once, and only after its completion
  // test held (except the ones granted outright by the caller).
  ghost predicate AwardsJust(r: Rules, b: Book, b': Book, granted: set<nat>) {
    && b.awards <= b'.awards
    && (forall i :: |b.awards| <= i < |b'.awards| ==>
          var w := b'.awards[i];
          && w.id !in b.earned && w.id in b'.earned
          && (w.id in granted || Satisfied(r, w.progress, w.realm, w.id))
          && !(w.id in r.ix.achieveByID && r.ix.achieveByID[w.id].counter))
    && (forall i, j :: |b.awards| <= i < j < |b'.awards| ==> b'.awards[i].id != b'.awards[j].id)
    && (forall a :: a in b'.earned && a !in b.earned ==>
          exists i :: |b.awards| <= i < |b'.awards| && b'.awards[i].id == a)
    && (r.blocked ==> b'.earned == b.earned)
  }

  // An update of a criterion by this amount has arrived: its achievement is
  // earned, it is complete, or its counter has moved that far.
  predicate TookIn(r: Rules, b: Book, c: Criterion, amount: nat, asset: nat, floor: map<nat, nat>) {
    !r.disabled(c.id) && r.meets(c, amount, asset) && c.startTimer == 0 ==>
      || c.achievement in b.earned
      || (c.id in b.progress && Reached(c, b.progress[c.id]))
      || (c.id in b.progress && b.progress[c.id] >= Counter(floor, c.id) + amount)
  }

  predicate Told(r: Rules, b: Book, list: seq<Criterion>, amount: nat, asset: nat, floor: map<nat, nat>) {
    forall c :: c in list ==> TookIn(r, b, c, amount, asset, floor)
  }

  function Matched(ix: Index, kind: nat, asset: nat): seq<Criterion> {
    Lookup(ix.byTypeAsset, (kind, asset)) + if asset != 0 then Lookup(ix.byTypeAsset, (kind, 0)) else []
  }

  // The points criteria have seen the points of everything earned so far.
  ghost predicate PointsCurrent(r: Rules, b: Book) {
    Told(r, b, Matched(r.ix, EARN_ACHIEVEMENT_POINTS, 0), TotalPoints(r.ix, b.earned), 0, map[])
  }

  // The meta-achievements over a have seen that a is complete.
  ghost predicate MetaTold(r: Rules, b: Book, a: nat) {
    Told(r, b, Matched(r.ix, COMPLETE_ACHIEVEMENT, a), 1, a, map[])
  }

  ghost predicate Spreads(r: Rules, b: Book, b': Book) {
    && (b'.earned == b.earned || PointsCurrent(r, b'))
    && (forall a :: a in b'.earned && a !in b.earned ==> MetaTold(r, b', a))
  }

  // No newly satisfied achievement is left behind.
  ghost predicate Closed(r: Rules, b: Book, b': Book) {
    !r.blocked ==> forall a :: Pending(r, b', a) ==> Pending(r, b, a)
  }

  // The counters of what is earned or complete stay, and the realm holds the
  // new achievements when there is a place to store them.
  ghost predicate Keeps(r: Rules, b: Book, b': Book) {
    && (forall c :: c in r.rows && (c.achievement in b.earned || Completed(r, b.progress, b.realm, c)) ==>
          SameCounter(b, b', c))
    && (forall a :: a in b'.realm <==> a in b.realm || (r.hasDb && a in b'.earned && a !in b.earned))
  }

  predicate SameCounter(b: Book, b': Book, c: Criterion) {
    (c.id in b.progress <==> c.id in b'.progress) && Counter(b.progress, c.id) == Counter(b'.progress, c.id)
  }

  // Of the criteria that no award moves, only those on the list move, each by
  // at most the quantity whenever the list names it.
  ghost predicate Moves(r: Rules, b: Book, b': Book, list: seq<Criterion>, quantity: nat) {
    forall c :: c in r.rows && c.kind !in {COMPLETE_ACHIEVEMENT, EARN_ACHIEVEMENT_POINTS} ==>
      if c !in list then SameCounter(b, b', c)
      else Counter(b'.progress, c.id) <= Counter(b.progress, c.id) + multiset(list)[c] * quantity
  }

  // Of those, only the ones on the list move, and to this value.
  ghost predicate Sets(r: Rules, b: Book, b': Book, list: seq<Criterion>, value: nat) {
    forall c :: c in r.rows && c.kind !in {COMPLETE_ACHIEVEMENT, EARN_ACHIEVEMENT_POINTS} ==>
      SameCounter(b, b', c) || (c in list && Counter(b'.progress, c.id) == value)
  }

  ghost predicate Step(r: Rules, b: Book, b': Book, granted: set<nat>) {
    Grows(b, b') && AwardsJust(r, b, b', granted) && Spreads(r, b, b') && Keeps(r, b, b')
  }

  lemma KeepsTrans(r: Rules, b0: Book, b1: Book, b2: Book)
    requires Keeps(r, b0, b1) && Keeps(r, b1, b2) && Grows(b0, b1) && Grows(b1, b2)
    ensures Keeps(r, b0, b2)
  {
    hide Reached;
    forall c | c in r.rows && (c.achievement in b0.earned || Completed(r, b0.progress, b0.realm, c))
      ensures SameCounter(b0, b2, c)
    {
      assert SameCounter(b0, b1, c);
      assert c.achievement in b1.earned || Completed(r, b1.progress, b1.realm, c);
    }
  }

  lemma GrowsTrans(b0: Book, b1: Book, b2: Book)
    requires Grows(b0, b1) && Grows(b1, b2)
    ensures Grows(b0, b2)
  {
  }

  lemma AwardsTrans(r: Rules, b0: Book, b1: Book, b2: Book, granted: set<nat>)
    requires Grows(b0, b1) && Grows(b1, b2)
    requires AwardsJust(r, b0, b1, granted) && AwardsJust(r, b1, b2, {})
    ensures AwardsJust(r, b0, b2, granted)
  {
    hide Satisfied;
    forall i | |b0.awards| <= i < |b2.awards|
      ensures var w := b2.awards[i];
              && w.id !in b0.earned && w.id in b2.earned
              && (w.id in granted || Satisfied(r, w.progress, w.realm, w.id))
              && !(w.id in r.ix.achieveByID && r.ix.achieveByID[w.id].counter)
    {
      if i < |b1.awards| { assert b2.awards[i] == b1.awards[i]; }
    }
    forall i, j | |b0.awards| <= i < j < |b2.awards| ensures b2.awards[i].id != b2.awards[j].id {
      if i < |b1.awards| { assert b2.awards[i] == b1.awards[i]; }
      if j < |b1.awards| { assert b2.awards[j] == b1.awards[j]; }
    }
    forall a | a in b2.earned && a !in b0.earned
      ensures exists i :: |b0.awards| <= i < |b2.awards| && b2.awards[i].id == a
    {
      if a in b1.earned {
        var i :| |b0.awards| <= i < |b1.awards| && b1.awards[i].id == a;
        assert b2.awards[i].id == a;
      }
    }
  }

  lemma ToldLater(r: Rules, b: Book, b': Book, list: seq<Criterion>, amount: nat, asset: nat, floor: map<nat, nat>)
    requires Told(r, b, list, amount, asset, floor) && Grows(b, b')
    ensures Told(r, b', list, amount, asset, floor)
  {
    forall c | c in list ensures TookIn(r, b', c, amount, asset, floor) {
      assert TookIn(r, b, c, amount, asset, floor);
      if c.id in b.progress && Reached(c, b.progress[c.id]) {
        ReachedIsMonotone(c, b.progress[c.id], b'.progress[c.id]);
      }
    }
  }

  lemma ToldOneMore(r: Rules, b: Book, b': Book, list: seq<Criterion>, c: Criterion, amount: nat, asset: nat,
                    floor: map<nat, nat>)
    requires Told(r, b, list, amount, asset, floor) && Grows(b, b') && TookIn(r, b', c, amount, asset, floor)
    ensures Told(r, b', list + [c], amount, asset, floor)
  {
    ToldLater(r, b, b', list, amount, asset, floor);
  }

  lemma StepTrans(r: Rules, b0: Book, b1: Book, b2: Book, granted: set<nat>)
    requires Step(r, b0, b1, granted) && Step(r, b1, b2, {})
    ensures Step(r, b0, b2, granted)
  {
    hide Told, Satisfied, AwardsJust, Keeps;
    GrowsTrans(b0, b1, b2);
    AwardsTrans(r, b0, b1, b2, granted);
    KeepsTrans(r, b0, b1, b2);
    if b2.earned == b1.earned && b2.earned != b0.earned {
      ToldLater(r, b1, b2, Matched(r.ix, EARN_ACHIEVEMENT_POINTS, 0), TotalPoints(r.ix, b1.earned), 0, map[]);
    }
    forall a | a in b2.earned && a !in b0.earned ensures MetaTold(r, b2, a) {
      if a in b1.earned {
        ToldLater(r, b1, b2, Matched(r.ix, COMPLETE_ACHIEVEMENT, a), 1, a, map[]);
      }
    }
  }

  // ---------------------------------------------------------------------
  // How the completion test moves

  lemma {:induction false} SumGrows(b: Book, b': Book, list: seq<Criterion>)
    requires Grows(b, b')
    ensures SumOf(b.progress, list) <= SumOf(b'.progress, list)
  {
    if |list| != 0 {
      SumGrows(b, b', list[..|list| - 1]);
    }
  }

  lemma SumStays(r: Rules, b: Book, b': Book, b2: Book, a: nat)
    requires Grows(b, b') && SumEarned(r, b', b2, a)
    ensures SumEarned(r, b, b2, a)
  {
    if a in r.ix.achieveByID && r.ix.achieveByID[a].summ && Satisfied(r, b.progress, b.realm, a) {
      var list := Lookup(r.ix.byAchieve, TestId(r.ix.achieveByID[a]));
      var k :| 0 <= k < |list| && list[k].id in b.progress && SumOf(b.progress, list[..k + 1]) >= list[k].quantity;
      SumGrows(b, b', list[..k + 1]);
    }
  }

  // Fewer completed criteria, fewer satisfied achievements.
  lemma {:induction false} CountShrinks(r: Rules, p: map<nat, nat>, realm: set<nat>, p': map<nat, nat>,
                                        realm': set<nat>, list: seq<Criterion>)
    requires forall c :: c in list && Completed(r, p', realm', c) ==> Completed(r, p, realm, c)
    ensures CompletedCount(r, p', realm', list) <= CompletedCount(r, p, realm, list)
  {
    if |list| != 0 {
      CountShrinks(r, p, realm, p', realm', list[..|list| - 1]);
    }
  }

  // A step that completes criteria of the achievements xs only leaves the tests
  // of achievements on other criteria where they were.
  lemma PendingOnlyOn(r: Rules, b: Book, b': Book, xs: set<nat>)
    requires b.earned <= b'.earned
    requires forall c :: c in r.rows && c.achievement !in xs && Completed(r, b'.progress, b'.realm, c) ==>
               Completed(r, b.progress, b.realm, c)
    requires IndexOk(r.ix, r.rows)
    ensures forall a :: Pending(r, b', a) && TestId(r.ix.achieveByID[a]) !in xs ==> Pending(r, b, a)
  {
    hide Completed, Reached;
    forall a | Pending(r, b', a) && TestId(r.ix.achieveByID[a]) !in xs ensures Pending(r, b, a) {
      var list := Lookup(r.ix.byAchieve, TestId(r.ix.achieveByID[a]));
      CountShrinks(r, b.progress, b.realm, b'.progress, b'.realm, list);
    }
  }

  // Earning an achievement satisfies nothing by itself.
  lemma EarningClosed(r: Rules, b: Book, b': Book)
    requires b'.progress == b.progress && b.realm <= b'.realm && b.earned <= b'.earned
    ensures Closed(r, b, b')
  {
    hide Reached;
    forall a | Pending(r, b', a) ensures Pending(r, b, a) {
      CountShrinks(r, b.progress, b.realm, b'.progress, b'.realm, Lookup(r.ix.byAchieve, TestId(r.ix.achieveByID[a])));
    }
  }

  // An absolute update with value 0 only creates missing counters, and it
  // checks no achievement.
  function ZeroFilled(r: Rules, b: Book, list: seq<Criterion>, asset: nat): Book {
    if |list| == 0 then b
    else
      var c, b' := list[|list| - 1], ZeroFilled(r, b, list[..|list| - 1], asset);
      if !r.disabled(c.id) && c.achievement !in b.earned && r.meets(c, 0, asset)
         && (c.startTimer == 0 || c.id in b.timed) && c.id !in b'.progress
      then b'.(progress := b'.progress[c.id := 0]) else b'
  }

  predicate NoneReachedAtZero(list: seq<Criterion>) {
    forall c :: c in list ==> !Reached(c, 0)
  }

  lemma {:induction false} ZeroFilledGrows(r: Rules, b: Book, list: seq<Criterion>, asset: nat)
    ensures var b' := ZeroFilled(r, b, list, asset);
            && Grows(b, b') && b' == b.(progress := b'.progress)
            && (forall k :: k in b'.progress ==>
                  if k in b.progress then b'.progress[k] == b.progress[k]
                  else b'.progress[k] == 0 && exists c :: c in list && c.id == k)
  {
    if |list| != 0 {
      var n := |list| - 1;
      ZeroFilledGrows(r, b, list[..n], asset);
      assert list[n] in list;
    }
  }

  // Creating zero counters is harmless when no matched criterion is already
  // complete at zero.
  lemma ZeroFilledClosed(r: Rules, b: Book, list: seq<Criterion>, asset: nat)
    requires IndexOk(r.ix, r.rows) && NoneReachedAtZero(list)
    requires forall c :: c in list ==> c in r.rows
    ensures Closed(r, b, ZeroFilled(r, b, list, asset))
  {
    var b' := ZeroFilled(r, b, list, asset);
    ZeroFilledGrows(r, b, list, asset);
    forall c | c in r.rows && c.id in b'.progress && c.id !in b.progress ensures c in list {
      var d :| d in list && d.id == c.id;
      assert d == c;
    }
    PendingOnlyOn(r, b, b', {});
  }

  lemma SubsetSize(a: set<nat>, b: set<nat>)
    requires a <= b
    ensures |a| <= |b|
  {
    assert b == a + (b - a);
  }

  // ---------------------------------------------------------------------
  // The session's achievement methods

  class Player {
    const rules: Rules
    var progress: map<nat, nat>
    var earned: set<nat>
    var realm: set<nat>
    var timed: set<nat>
    ghost var awards: seq<Award>

    ghost function Now(): Book
      reads this
    {
      Book(progress, earned, realm, timed, awards)
    }

    // Indexed achievements not earned yet: what the recursion uses up.
    ghost function Unearned(): nat
      reads this
    {
      |rules.ix.achieveByID.Keys - earned|
    }

    ghost predicate Valid() {
      IndexOk(rules.ix, rules.rows)
    }

    constructor (rules: Rules, progress: map<nat, nat>, earned: set<nat>, realm: set<nat>, timed: set<nat>)
      ensures this.rules == rules && Now() == Book(progress, earned, realm, timed, [])
    {
      this.rules, this.progress, this.earned, this.realm, this.timed := rules, progress, earned, realm, timed;
      awards := [];
    }

    // updateAchievementCriteria: every criterion of this kind and asset
    // advances by quantity.
    method UpdateCriteria(kind: nat, asset: nat, quantity: nat)
      requires Valid()
      modifies this
      ensures Step(rules, old(Now()), Now(), {}) && Closed(rules, old(Now()), Now())
      ensures Told(rules, Now(), Matched(rules.ix, kind, asset), quantity, asset, old(progress))
      ensures Moves(rules, old(Now()), Now(), Matched(rules.ix, kind, asset), quantity)
      decreases Unearned(), 5
    {
      hide Step, Closed, Told, TookIn, Applied, IndexOk, Matched, Moves;
      ghost var b0 := Now();
      StepRefl(rules, b0);
      var matched, i := Matched(rules.ix, kind, asset), 0;
      MatchedAreRows(rules, kind, asset);
      ToldNone(rules, b0, quantity, asset, b0.progress);
      MovesNone(rules, b0, quantity);
      assert matched[..0] == [];
      while i < |matched|
        invariant 0 <= i <= |matched|
        invariant Step(rules, b0, Now(), {}) && Closed(rules, b0, Now())
        invariant Told(rules, Now(), matched[..i], quantity, asset, b0.progress)
        invariant Moves(rules, b0, Now(), matched[..i], quantity)
      {
        var criterion := matched[i];
        ghost var b := Now();
        Fewer(rules, b0, b);
        assert matched[..i + 1] == matched[..i] + [criterion];
        StepRefl(rules, b);
        MovesNone(rules, b, quantity);
        MovesMore(rules, b, b, criterion, quantity);
        if !rules.disabled(criterion.id) {
          ApplyProgress(criterion, quantity, asset);
        }
        MovesTrans(rules, b0, b, Now(), matched[..i], [criterion], quantity);
        StepTrans(rules, b0, b, Now(), {});
        ClosedTrans(rules, b0, b, Now());
        TookInNow(rules, b0, b, Now(), criterion, quantity, asset);
        ToldOneMore(rules, b, Now(), matched[..i], criterion, quantity, asset, b0.progress);
        i := i + 1;
      }
      assert matched[..|matched|] == matched;
    }

    // applyCriteriaProgress: the gates, the counter, and the completion check.
    method ApplyProgress(c: Criterion, quantity: nat, asset: nat)
      requires Valid() && c in rules.rows
      modifies this
      ensures Step(rules, old(Now()), Now(), {}) && Closed(rules, old(Now()), Now())
      ensures Applied(rules, old(Now()), Now(), c, quantity, asset)
      ensures Moves(rules, old(Now()), Now(), [c], quantity)
      ensures var gates := c.achievement !in old(earned) && rules.meets(c, quantity, asset)
                           && (c.startTimer == 0 || c.id in old(timed))
                           && !(c.id in old(progress) && CriterionCompleted(rules, old(realm), c, old(progress)[c.id]));
              if gates then c.id in progress && progress[c.id] == Counter(old(progress), c.id) + quantity
              else Now() == old(Now())
      ensures var b := Advanced(old(Now()), c, quantity);
              Open(rules, old(Now()), c, quantity, asset) && Completed(rules, b.progress, b.realm, c)
              && !rules.blocked ==>
                forall a :: a in rules.ix.achieveByID && TestId(rules.ix.achieveByID[a]) == c.achievement ==>
                  SumEarned(rules, b, Now(), a)
      decreases Unearned(), 4
    {
      hide AwardsJust, Spreads, Reached, Pending, Closed, IndexOk, Grows, Step, Moves, Keeps, Satisfied;
      ghost var b := Now();
      StepRefl(rules, b);
      MovesNone(rules, b, quantity);
      MovesMore(rules, b, b, c, quantity);
      if c.achievement in earned {
        return;
      }
      if !rules.meets(c, quantity, asset) {
        return;
      }
      if c.startTimer > 0 && c.id !in timed {
        return;
      }
      if c.id in progress && CriterionCompleted(rules, realm, c, progress[c.id]) {
        return;
      }
      progress := progress[c.id := Counter(progress, c.id) + quantity];
      CounterStep(rules, b, Now(), c);
      OneMoves(rules, b, Now(), c, quantity);
      if CriterionCompleted(rules, realm, c, progress[c.id]) {
        timed := timed - {c.id};
        ghost var b1 := Now();
        OneMoves(rules, b, b1, c, quantity);
        CheckComplete(c.achievement);
        CheckedStep(rules, b, b1, Now(), c);
        StepParts(rules, b1, Now(), {});
        CounterStays(rules, b1, Now(), c);
        MovesTrans(rules, b, b1, Now(), [c], [], quantity);
        assert [c] + [] == [c];
      }
    }

    // checkAchievementComplete: the achievement itself, then every achievement
    // that shares its criteria.
    method CheckComplete(x: nat)
      requires Valid()
      modifies this
      ensures Step(rules, old(Now()), Now(), {}) && Closed(rules, old(Now()), Now())
      ensures !rules.blocked ==> forall a :: Pending(rules, Now(), a) ==> TestId(rules.ix.achieveByID[a]) != x
      ensures !rules.blocked ==> forall a :: a in rules.ix.achieveByID && TestId(rules.ix.achieveByID[a]) == x ==>
                                   SumEarned(rules, old(Now()), Now(), a)
      ensures forall q :: Moves(rules, old(Now()), Now(), [], q)
      decreases Unearned(), 3
    {
      hide Satisfied, AwardsJust, Spreads, IndexOk, Pending, Keeps, Moves, Step;
      ghost var b0 := Now();
      CheckSingle(x);
      var parents, i := Lookup(rules.ix.byReferenced, x), 0;
      while i < |parents|
        invariant 0 <= i <= |parents|
        invariant Step(rules, b0, Now(), {}) && Closed(rules, b0, Now())
        invariant !rules.blocked ==> !Pending(rules, Now(), x)
        invariant forall q :: Moves(rules, b0, Now(), [], q)
        invariant !rules.blocked ==> SumEarned(rules, b0, Now(), x)
        invariant !rules.blocked ==> forall j :: 0 <= j < i ==> SumEarned(rules, b0, Now(), parents[j])
        invariant !rules.blocked ==> forall j :: 0 <= j < i ==> !Pending(rules, Now(), parents[j])
      {
        ghost var b := Now();
        Fewer(rules, b0, b);
        CheckSingle(parents[i]);
        StepParts(rules, b, Now(), {});
        StepTrans(rules, b0, b, Now(), {});
        NoMovesTrans(rules, b0, b, Now());
        StepParts(rules, b0, b, {});
        if !rules.blocked {
          SumStays(rules, b0, b, Now(), parents[i]);
        }
        i := i + 1;
      }
      if !rules.blocked {
        AllTestersChecked(rules, Now(), x);
        AllSumsChecked(rules, b0, Now(), x);
      }
    }

    // checkSingleAchievementComplete: the completion test of one achievement.
    method CheckSingle(a: nat)
      requires Valid()
      modifies this
      ensures Step(rules, old(Now()), Now(), {}) && Closed(rules, old(Now()), Now())
      ensures !rules.blocked ==> !Pending(rules, Now(), a)
      ensures var deserved := Satisfied(rules, old(progress), old(realm), a) && !rules.ix.achieveByID[a].counter;
              if deserved && !rules.blocked then a in earned else Now() == old(Now())
      ensures forall q :: Moves(rules, old(Now()), Now(), [], q)
      decreases Unearned(), 2
    {
      hide Grows, AwardsJust, Spreads, Completed, Closed, Keeps, Moves;
      ghost var b := Now();
      StepRefl(rules, b);
      NoneMoves(rules, b, b);
      if a !in rules.ix.achieveByID {
        return;
      }
      var entry := rules.ix.achieveByID[a];
      var criteria := Lookup(rules.ix.byAchieve, TestId(entry));
      if |criteria| == 0 || WrongTeam(rules, entry) {
        return;
      }
      var passed;
      if entry.summ {
        passed := SumTest(criteria);
      } else {
        var completedCount := CountCompleted(criteria);
        passed := completedCount >= if entry.minimum == 0 then |criteria| else entry.minimum;
      }
      if passed {
        assert Satisfied(rules, progress, realm, a);
        Complete(a);
        GrantDeserved(rules, b, Now(), a);
      }
    }

    method CountCompleted(criteria: seq<Criterion>) returns (count: nat)
      ensures count == CompletedCount(rules, progress, realm, criteria)
    {
      count := 0;
      for i := 0 to |criteria|
        invariant count == CompletedCount(rules, progress, realm, criteria[..i])
      {
        assert criteria[..i + 1][..i] == criteria[..i];
        if criteria[i].id in progress && CriterionCompleted(rules, realm, criteria[i], progress[criteria[i].id]) {
          count := count + 1;
        }
      }
      assert criteria[..|criteria|] == criteria;
    }

    method SumTest(criteria: seq<Criterion>) returns (passed: bool)
      ensures passed <==> SumReached(progress, criteria)
    {
      var sum: nat := 0;
      for i := 0 to |criteria|
        invariant sum == SumOf(progress, criteria[..i])
        invariant forall k :: 0 <= k < i && criteria[k].id in progress ==>
          SumOf(progress, criteria[..k + 1]) < criteria[k].quantity
      {
        assert criteria[..i + 1][..i] == criteria[..i];
        if criteria[i].id in progress {
          sum := sum + progress[criteria[i].id];
          if sum >= criteria[i].quantity {
            return true;
          }
        }
      }
      passed := false;
    }

    // completeAchievement: the gates and the award.
    method Complete(a: nat)
      requires Valid()
      modifies this
      ensures Step(rules, old(Now()), Now(), {a}) && Closed(rules, old(Now()), Now())
      ensures var refused :=
                rules.blocked || a in old(earned) || (a in rules.ix.achieveByID && rules.ix.achieveByID[a].counter);
              if refused then Now() == old(Now())
              else a in earned && old(awards) + [Award(a, old(progress), old(realm))] <= awards
      ensures forall q :: Moves(rules, old(Now()), Now(), [], q)
      decreases Unearned() + if a in rules.ix.achieveByID then 0 else 1, 1
    {
      hide Step, Closed, AwardsJust, Pending, IndexOk, MetaTold, PointsCurrent, Keeps, Moves;
      ghost var b := Now();
      StepRefl(rules, b, {a});
      NoneMoves(rules, b, b);
      if rules.blocked {
        return;
      }
      if a in earned {
        return;
      }
      if a in rules.ix.achieveByID && rules.ix.achieveByID[a].counter {
        return;
      }
      awards := awards + [Award(a, progress, realm)];
      earned := earned + {a};
      if rules.hasDb {
        realm := realm + {a};
      }
      ghost var b1 := Now();
      NoneMoves(rules, b, b1);
      EarnedOne(rules, b, b1, a);
      OneFewer(rules.ix.achieveByID.Keys, b.earned, a);
      SpreadAward(a);
      NoMovesTrans(rules, b, b1, Now());
      AwardSpreads(rules, b, b1, Now(), a);
    }

    // The rest of completeAchievement: the meta-achievements over a, then the
    // points criteria.
    method SpreadAward(a: nat)
      requires Valid()
      modifies this
      ensures Step(rules, old(Now()), Now(), {}) && Closed(rules, old(Now()), Now())
      ensures MetaTold(rules, Now(), a) && PointsCurrent(rules, Now())
      ensures forall q :: Moves(rules, old(Now()), Now(), [], q)
      decreases Unearned(), 6
    {
      hide Closed, Told, Matched, IndexOk, AwardsJust, ZeroFilled, Keeps, Moves, Sets;
      ghost var b1 := Now();
      UpdateCriteria(COMPLETE_ACHIEVEMENT, a, 1);
      ghost var b2 := Now();
      MatchedAreRows(rules, COMPLETE_ACHIEVEMENT, a);
      AwardMoves(rules, b1, b2, Matched(rules.ix, COMPLETE_ACHIEVEMENT, a), 1);
      Fewer(rules, b1, b2);
      var points := EarnedPoints();
      SetCriteria(EARN_ACHIEVEMENT_POINTS, 0, points);
      MatchedAreRows(rules, EARN_ACHIEVEMENT_POINTS, 0);
      AwardSets(rules, b2, Now(), Matched(rules.ix, EARN_ACHIEVEMENT_POINTS, 0), points);
      NoMovesTrans(rules, b1, b2, Now());
      PointsUpdateClosed(rules, b2, Now(), points);
      StepTrans(rules, b1, b2, Now(), {});
      ClosedTrans(rules, b1, b2, Now());
      ToldFromZero(rules, b2, Matched(rules.ix, COMPLETE_ACHIEVEMENT, a), 1, a, b1.progress);
      ToldLater(rules, b2, Now(), Matched(rules.ix, COMPLETE_ACHIEVEMENT, a), 1, a, map[]);
    }

    // The points of everything earned, in whatever order the map is walked.
    method EarnedPoints() returns (total: nat)
      ensures total == TotalPoints(rules.ix, earned)
    {
      var left := earned;
      total := 0;
      while left != {}
        invariant total + TotalPoints(rules.ix, left) == TotalPoints(rules.ix, earned)
        decreases left
      {
        var a :| a in left;
        TotalPointsAnyOrder(rules.ix, left, a);
        total := total + PointsOf(rules.ix, a);
        left := left - {a};
      }
    }

    // setAchievementCriteria: every criterion of this kind and asset is raised
    // to value, never lowered.
    method SetCriteria(kind: nat, asset: nat, value: nat)
      requires Valid()
      modifies this
      ensures Step(rules, old(Now()), Now(), {})
      ensures Told(rules, Now(), Matched(rules.ix, kind, asset), value, asset, map[])
      ensures value > 0 ==> Closed(rules, old(Now()), Now())
      ensures value == 0 ==> Now() == ZeroFilled(rules, old(Now()), Matched(rules.ix, kind, asset), asset)
      ensures Sets(rules, old(Now()), Now(), Matched(rules.ix, kind, asset), value)
      decreases Unearned(), 5
    {
      hide Step, Closed, Told, TookIn, IndexOk, Matched, Raised, Sets, Moves;
      ghost var b0 := Now();
      StepRefl(rules, b0);
      var matched, i := Matched(rules.ix, kind, asset), 0;
      MatchedAreRows(rules, kind, asset);
      ToldNone(rules, b0, value, asset, map[]);
      MovesNone(rules, b0, value);
      assert matched[..0] == [];
      while i < |matched|
        invariant 0 <= i <= |matched|
        invariant Step(rules, b0, Now(), {})
        invariant Told(rules, Now(), matched[..i], value, asset, map[])
        invariant Sets(rules, b0, Now(), matched[..i], value)
        invariant value > 0 ==> Closed(rules, b0, Now())
        invariant value == 0 ==> Now() == ZeroFilled(rules, b0, matched[..i], asset)
      {
        var criterion := matched[i];
        ghost var b := Now();
        Fewer(rules, b0, b);
        assert matched[..i + 1] == matched[..i] + [criterion];
        StepRefl(rules, b);
        SetsMore(rules, b, criterion, value);
        if !rules.disabled(criterion.id) {
          SetOne(criterion, value, asset);
        }
        SetsTrans(rules, b0, b, Now(), matched[..i], [criterion], value);
        StepTrans(rules, b0, b, Now(), {});
        if value > 0 {
          ClosedTrans(rules, b0, b, Now());
        } else {
          ZeroFilledOneMore(rules, b0, Now(), matched[..i], criterion, asset);
        }
        RaisedNow(rules, b, Now(), criterion, value, asset);
        ToldOneMore(rules, b, Now(), matched[..i], criterion, value, asset, map[]);
        i := i + 1;
      }
      assert matched[..|matched|] == matched;
    }

    // One criterion of an absolute update.
    method SetOne(c: Criterion, value: nat, asset: nat)
      requires Valid() && c in rules.rows
      modifies this
      ensures Step(rules, old(Now()), Now(), {})
      ensures value > 0 ==> Closed(rules, old(Now()), Now())
      ensures Raised(rules, old(Now()), Now(), c, value, asset)
      ensures Sets(rules, old(Now()), Now(), [c], value)
      ensures var gates := c.achievement !in old(earned) && rules.meets(c, value, asset)
                           && (c.startTimer == 0 || c.id in old(timed))
                           && !(c.id in old(progress) && CriterionCompleted(rules, old(realm), c, old(progress)[c.id]));
              if gates then c.id in progress
                            && progress[c.id] == if Counter(old(progress), c.id) < value then value
                                                 else Counter(old(progress), c.id)
              else Now() == old(Now())
      decreases Unearned(), 4
    {
      hide AwardsJust, Spreads, Reached, Pending, Closed, IndexOk, Grows, Step, Sets, Moves, Keeps;
      ghost var b := Now();
      StepRefl(rules, b);
      SetsMore(rules, b, c, value);
      if c.achievement in earned {
        return;
      }
      if !rules.meets(c, value, asset) {
        return;
      }
      if c.startTimer > 0 && c.id !in timed {
        return;
      }
      if c.id in progress && CriterionCompleted(rules, realm, c, progress[c.id]) {
        return;
      }
      if c.id !in progress {
        progress := progress[c.id := 0];
      }
      if progress[c.id] >= value {
        if c.id !in b.progress {
          CounterStep(rules, b, Now(), c);
          OneSet(rules, b, Now(), c, 0);
        }
        return;
      }
      progress := progress[c.id := value];
      CounterStep(rules, b, Now(), c);
      OneSet(rules, b, Now(), c, value);
      if CriterionCompleted(rules, realm, c, progress[c.id]) {
        ghost var b1 := Now();
        CheckComplete(c.achievement);
        CheckedStep(rules, b, b1, Now(), c);
        StepParts(rules, b1, Now(), {});
        CounterStays(rules, b1, Now(), c);
        NoMovesSet(rules, b1, Now(), value);
        SetsTrans(rules, b, b1, Now(), [c], [], value);
        assert [c] + [] == [c];
      }
    }
  }

  // What an absolute update of one criterion does.
  ghost predicate Raised(r: Rules, b: Book, b': Book, c: Criterion, value: nat, asset: nat) {
    var kept := if c.id in b.progress && b.progress[c.id] >= value then b.progress[c.id] else value;
    var raised := b.(progress := b.progress[c.id := kept]);
    if !Open(r, b, c, value, asset) then b' == b
    else if Completed(r, raised.progress, raised.realm, c) && raised.progress != b.progress && value > 0 then
      Grows(raised, b')
    else b' == raised
  }

  lemma RaisedNow(r: Rules, b: Book, b': Book, c: Criterion, value: nat, asset: nat)
    requires Step(r, b, b', {}) && (r.disabled(c.id) || Raised(r, b, b', c, value, asset))
    ensures TookIn(r, b', c, value, asset, map[]) && Grows(b, b')
  {
    hide AwardsJust, Spreads;
    if c.id in b.progress && Reached(c, b.progress[c.id]) {
      ReachedIsMonotone(c, b.progress[c.id], b'.progress[c.id]);
    }
    if Open(r, b, c, value, asset) && !r.disabled(c.id) {
      assert c.id in b'.progress && b'.progress[c.id] >= value;
    }
  }

  lemma ZeroFilledOneMore(r: Rules, b0: Book, b': Book, list: seq<Criterion>, c: Criterion, asset: nat)
    requires var b := ZeroFilled(r, b0, list, asset);
             if r.disabled(c.id) then b' == b else Raised(r, b, b', c, 0, asset)
    ensures b' == ZeroFilled(r, b0, list + [c], asset)
  {
    assert (list + [c])[..|list|] == list;
    var b := ZeroFilled(r, b0, list, asset);
    ZeroFilledGrows(r, b0, list, asset);
    if c.id in b.progress {
      assert b.progress[c.id := b.progress[c.id]] == b.progress;
    }
  }

  // The points criteria never complete at zero, so the inner absolute update
  // of a completion is always safe.
  lemma PointsUpdateClosed(r: Rules, b: Book, b': Book, points: nat)
    requires IndexOk(r.ix, r.rows)
    requires points > 0 ==> Closed(r, b, b')
    requires points == 0 ==> b' == ZeroFilled(r, b, Matched(r.ix, EARN_ACHIEVEMENT_POINTS, 0), 0)
    ensures Closed(r, b, b')
  {
    if points == 0 {
      var list := Matched(r.ix, EARN_ACHIEVEMENT_POINTS, 0);
      forall c | c in list ensures !Reached(c, 0) && c in r.rows {
        assert c.kind == EARN_ACHIEVEMENT_POINTS && !CountsToQuantity(115);
      }
      ZeroFilledClosed(r, b, list, 0);
    }
  }

  lemma EarnedOne(r: Rules, b: Book, b1: Book, a: nat)
    requires a !in b.earned && !r.blocked && !(a in r.ix.achieveByID && r.ix.achieveByID[a].counter)
    requires b1 == Book(b.progress, b.earned + {a}, if r.hasDb then b.realm + {a} else b.realm, b.timed,
                        b.awards + [Award(a, b.progress, b.realm)])
    ensures Grows(b, b1) && AwardsJust(r, b, b1, {a}) && Closed(r, b, b1) && Keeps(r, b, b1)
  {
    hide Pending, Satisfied;
    EarningClosed(r, b, b1);
    assert b1.awards[|b.awards|].id == a;
  }

  lemma OneFewer(keys: set<nat>, earned: set<nat>, a: nat)
    requires a !in earned
    ensures |keys - (earned + {a})| + (if a in keys then 1 else 0) == |keys - earned|
  {
    if a in keys {
      assert keys - earned == (keys - (earned + {a})) + {a};
    } else {
      assert keys - earned == keys - (earned + {a});
    }
  }

  // A completed criterion whose achievements have all been checked leaves none behind.
  lemma CheckedStep(r: Rules, b: Book, b1: Book, b2: Book, c: Criterion)
    requires IndexOk(r.ix, r.rows) && c in r.rows && c.id in b1.progress
    requires Counter(b.progress, c.id) <= b1.progress[c.id]
    requires b1 == b.(progress := b.progress[c.id := b1.progress[c.id]], timed := b1.timed) && b1.timed <= b.timed
    requires c.achievement !in b.earned && !Completed(r, b.progress, b.realm, c)
    requires Step(r, b1, b2, {}) && Closed(r, b1, b2)
    requires !r.blocked ==> forall a :: Pending(r, b2, a) ==> TestId(r.ix.achieveByID[a]) != c.achievement
    ensures Step(r, b, b2, {}) && Closed(r, b, b2)
  {
    hide Satisfied, IndexOk, Step;
    CounterStep(r, b, b1, c);
    StepTrans(r, b, b1, b2, {});
  }

  // Every achievement that tests the criteria of x is x or refers to x.
  lemma AllTestersChecked(r: Rules, b: Book, x: nat)
    requires IndexOk(r.ix, r.rows) && !Pending(r, b, x)
    requires forall j :: 0 <= j < |Lookup(r.ix.byReferenced, x)| ==> !Pending(r, b, Lookup(r.ix.byReferenced, x)[j])
    ensures forall a :: Pending(r, b, a) ==> TestId(r.ix.achieveByID[a]) != x
  {
    hide CompletedCount, SumReached;
    forall a | Pending(r, b, a) ensures TestId(r.ix.achieveByID[a]) != x {
      var e := r.ix.achieveByID[a];
      assert e.shares != 0 ==> a in Lookup(r.ix.byReferenced, e.shares);
    }
  }

  lemma AllSumsChecked(r: Rules, b: Book, b': Book, x: nat)
    requires IndexOk(r.ix, r.rows) && SumEarned(r, b, b', x)
    requires forall j :: 0 <= j < |Lookup(r.ix.byReferenced, x)| ==>
               SumEarned(r, b, b', Lookup(r.ix.byReferenced, x)[j])
    ensures forall a :: a in r.ix.achieveByID && TestId(r.ix.achieveByID[a]) == x ==> SumEarned(r, b, b', a)
  {
    hide Satisfied, SumEarned;
    forall a | a in r.ix.achieveByID && TestId(r.ix.achieveByID[a]) == x ensures SumEarned(r, b, b', a) {
      var e := r.ix.achieveByID[a];
      assert e.shares != 0 ==> a in Lookup(r.ix.byReferenced, e.shares);
    }
  }

  // After an award, the meta-achievements over it and the points criteria know.
  lemma AwardSpreads(r: Rules, b: Book, b1: Book, b3: Book, a: nat)
    requires Grows(b, b1) && AwardsJust(r, b, b1, {a}) && Closed(r, b, b1) && b1.earned == b.earned + {a}
    requires Keeps(r, b, b1)
    requires Step(r, b1, b3, {}) && Closed(r, b1, b3) && MetaTold(r, b3, a) && PointsCurrent(r, b3)
    ensures Step(r, b, b3, {a}) && Closed(r, b, b3)
    ensures b1.awards <= b3.awards && a in b3.earned
  {
    hide Satisfied, Pending, MetaTold, PointsCurrent, Keeps;
    GrowsTrans(b, b1, b3);
    KeepsTrans(r, b, b1, b3);
    AwardsTrans(r, b, b1, b3, {a});
  }

  lemma ToldFromZero(r: Rules, b: Book, list: seq<Criterion>, amount: nat, asset: nat, floor: map<nat, nat>)
    requires Told(r, b, list, amount, asset, floor)
    ensures Told(r, b, list, amount, asset, map[])
  {
    forall c | c in list ensures TookIn(r, b, c, amount, asset, map[]) {
      assert TookIn(r, b, c, amount, asset, floor);
    }
  }

  // The gates of a relative update, all of which must be open.
  predicate Open(r: Rules, b: Book, c: Criterion, quantity: nat, asset: nat) {
    && c.achievement !in b.earned && r.meets(c, quantity, asset)
    && (c.startTimer == 0 || c.id in b.timed)
    && !Completed(r, b.progress, b.realm, c)
  }

  function Advanced(b: Book, c: Criterion, quantity: nat): Book {
    b.(progress := b.progress[c.id := Counter(b.progress, c.id) + quantity])
  }

  lemma StepRefl(r: Rules, b: Book, granted: set<nat> := {})
    ensures Step(r, b, b, granted) && Closed(r, b, b)
  {
  }

  lemma StepParts(r: Rules, b: Book, b': Book, granted: set<nat>)
    requires Step(r, b, b', granted)
    ensures Grows(b, b') && AwardsJust(r, b, b', granted) && Spreads(r, b, b') && Keeps(r, b, b')
  {
  }

  lemma MovesNone(r: Rules, b: Book, quantity: nat)
    ensures Moves(r, b, b, [], quantity) && Sets(r, b, b, [], quantity)
  {
  }

  lemma NoneMoves(r: Rules, b: Book, b': Book)
    requires b'.progress == b.progress
    ensures forall q :: Moves(r, b, b', [], q)
  {
  }

  lemma MovesMore(r: Rules, b: Book, b': Book, c: Criterion, quantity: nat)
    requires Moves(r, b, b', [], quantity)
    ensures Moves(r, b, b', [c], quantity)
  {
  }

  lemma MovesTrans(r: Rules, b0: Book, b1: Book, b2: Book, list: seq<Criterion>, more: seq<Criterion>, quantity: nat)
    requires Moves(r, b0, b1, list, quantity) && Moves(r, b1, b2, more, quantity)
    ensures Moves(r, b0, b2, list + more, quantity)
  {
    forall c | c in r.rows && c.kind !in {COMPLETE_ACHIEVEMENT, EARN_ACHIEVEMENT_POINTS} && c in list + more
      ensures Counter(b2.progress, c.id) <= Counter(b0.progress, c.id) + multiset(list + more)[c] * quantity
    {
      NamedInBoth(list, more, c, quantity);
    }
  }

  lemma NamedInBoth(list: seq<Criterion>, more: seq<Criterion>, c: Criterion, quantity: nat)
    ensures multiset(list + more)[c] * quantity == multiset(list)[c] * quantity + multiset(more)[c] * quantity
    ensures c !in list ==> multiset(list)[c] * quantity == 0
    ensures c !in more ==> multiset(more)[c] * quantity == 0
  {
    assert multiset(list + more)[c] == multiset(list)[c] + multiset(more)[c];
  }

  // An award moves only the criteria of its two kinds.
  lemma AwardMoves(r: Rules, b: Book, b': Book, list: seq<Criterion>, quantity: nat)
    requires Moves(r, b, b', list, quantity)
    requires forall c :: c in list ==> c.kind in {COMPLETE_ACHIEVEMENT, EARN_ACHIEVEMENT_POINTS}
    ensures forall q :: Moves(r, b, b', [], q)
  {
  }

  lemma AwardSets(r: Rules, b: Book, b': Book, list: seq<Criterion>, value: nat)
    requires Sets(r, b, b', list, value)
    requires forall c :: c in list ==> c.kind in {COMPLETE_ACHIEVEMENT, EARN_ACHIEVEMENT_POINTS}
    ensures forall q :: Moves(r, b, b', [], q)
  {
  }

  lemma NoMovesTrans(r: Rules, b0: Book, b1: Book, b2: Book)
    requires (forall q :: Moves(r, b0, b1, [], q)) && forall q :: Moves(r, b1, b2, [], q)
    ensures forall q :: Moves(r, b0, b2, [], q)
  {
    assert Moves(r, b0, b1, [], 0) && Moves(r, b1, b2, [], 0);
  }

  lemma SetsMore(r: Rules, b: Book, c: Criterion, value: nat)
    ensures Sets(r, b, b, [c], value)
  {
  }

  lemma NoMovesSet(r: Rules, b: Book, b': Book, value: nat)
    requires forall q :: Moves(r, b, b', [], q)
    ensures Sets(r, b, b', [], value)
  {
    assert Moves(r, b, b', [], 0);
  }

  lemma SetsTrans(r: Rules, b0: Book, b1: Book, b2: Book, list: seq<Criterion>, more: seq<Criterion>, value: nat)
    requires Sets(r, b0, b1, list, value) && Sets(r, b1, b2, more, value)
    ensures Sets(r, b0, b2, list + more, value)
  {
  }

  lemma ClosedTrans(r: Rules, b0: Book, b1: Book, b2: Book)
    requires Closed(r, b0, b1) && Closed(r, b1, b2)
    ensures Closed(r, b0, b2)
  {
  }

  lemma MatchedAreRows(r: Rules, kind: nat, asset: nat)
    requires IndexOk(r.ix, r.rows)
    ensures forall c :: c in Matched(r.ix, kind, asset) ==> c in r.rows && c.kind == kind
  {
  }

  lemma Fewer(r: Rules, b: Book, b': Book)
    requires Step(r, b, b', {})
    ensures |r.ix.achieveByID.Keys - b'.earned| <= |r.ix.achieveByID.Keys - b.earned|
  {
    SubsetSize(r.ix.achieveByID.Keys - b'.earned, r.ix.achieveByID.Keys - b.earned);
  }

  lemma CounterKeeps(r: Rules, b: Book, b': Book, c: Criterion)
    requires IndexOk(r.ix, r.rows) && c in r.rows && c.id in b'.progress
    requires b' == b.(progress := b.progress[c.id := b'.progress[c.id]], timed := b'.timed)
    requires c.achievement !in b.earned && !Completed(r, b.progress, b.realm, c)
    ensures Keeps(r, b, b')
    ensures forall d :: d in r.rows && d != c ==> SameCounter(b, b', d)
  {
    hide Reached;
  }

  lemma OneMoves(r: Rules, b: Book, b': Book, c: Criterion, quantity: nat)
    requires IndexOk(r.ix, r.rows) && c in r.rows
    requires b' == b.(progress := b.progress[c.id := Counter(b.progress, c.id) + quantity], timed := b'.timed)
    ensures Moves(r, b, b', [c], quantity)
  {
    assert multiset([c])[c] == 1;
  }

  lemma OneSet(r: Rules, b: Book, b': Book, c: Criterion, value: nat)
    requires IndexOk(r.ix, r.rows) && c in r.rows
    requires b' == b.(progress := b.progress[c.id := value])
    ensures Sets(r, b, b', [c], value)
  {
  }

  lemma CounterStays(r: Rules, b: Book, b': Book, c: Criterion)
    requires c in r.rows && Completed(r, b.progress, b.realm, c) && Keeps(r, b, b')
    ensures c.id in b'.progress && b'.progress[c.id] == b.progress[c.id]
  {
    hide Reached;
    assert SameCounter(b, b', c);
  }

  // Moving one counter completes at most criteria of its own achievement.
  lemma CounterStep(r: Rules, b: Book, b': Book, c: Criterion)
    requires IndexOk(r.ix, r.rows) && c in r.rows && c.id in b'.progress
    requires Counter(b.progress, c.id) <= b'.progress[c.id]
    requires b' == b.(progress := b.progress[c.id := b'.progress[c.id]], timed := b'.timed) && b'.timed <= b.timed
    requires c.achievement !in b.earned && !Completed(r, b.progress, b.realm, c)
    ensures Step(r, b, b', {})
    ensures !Completed(r, b'.progress, b'.realm, c) ==> Closed(r, b, b')
    ensures forall a :: Pending(r, b', a) && TestId(r.ix.achieveByID[a]) != c.achievement ==> Pending(r, b, a)
  {
    hide Pending, Satisfied, Reached;
    CounterKeeps(r, b, b', c);
    if !Completed(r, b'.progress, b'.realm, c) {
      PendingOnlyOn(r, b, b', {});
    }
    PendingOnlyOn(r, b, b', {c.achievement});
  }

  // What a relative update of one criterion does.
  ghost predicate Applied(r: Rules, b: Book, b': Book, c: Criterion, quantity: nat, asset: nat) {
    var advanced := Advanced(b, c, quantity);
    if !Open(r, b, c, quantity, asset) then b' == b
    else if Completed(r, advanced.progress, advanced.realm, c) then
      Grows(advanced.(timed := advanced.timed - {c.id}), b')
    else b' == advanced
  }

  lemma ToldNone(r: Rules, b: Book, amount: nat, asset: nat, floor: map<nat, nat>)
    ensures Told(r, b, [], amount, asset, floor)
  {
  }

  // An achievement granted after its test held is an ordinary award.
  lemma GrantDeserved(r: Rules, b: Book, b': Book, a: nat)
    requires Step(r, b, b', {a}) && Satisfied(r, b.progress, b.realm, a)
    requires a in b'.earned && a !in b.earned ==> b.awards + [Award(a, b.progress, b.realm)] <= b'.awards
    ensures Step(r, b, b', {})
  {
    hide Satisfied, Spreads;
    forall i | |b.awards| <= i < |b'.awards|
      ensures Satisfied(r, b'.awards[i].progress, b'.awards[i].realm, b'.awards[i].id) {
      if b'.awards[i].id == a {
        assert (b.awards + [Award(a, b.progress, b.realm)])[|b.awards|] == b'.awards[|b.awards|];
        assert i == |b.awards|;
      }
    }
  }

  // One criterion's turn in a relative update.
  lemma TookInNow(r: Rules, b0: Book, b: Book, b': Book, c: Criterion, quantity: nat, asset: nat)
    requires Step(r, b0, b, {}) && Step(r, b, b', {})
    requires r.disabled(c.id) || Applied(r, b, b', c, quantity, asset)
    ensures TookIn(r, b', c, quantity, asset, b0.progress) && Grows(b, b')
  {
    hide AwardsJust, Spreads;
    if c.id in b.progress && Reached(c, b.progress[c.id]) {
      ReachedIsMonotone(c, b.progress[c.id], b'.progress[c.id]);
    }
    if Open(r, b, c, quantity, asset) && !r.disabled(c.id) {
      assert c.id in b'.progress && b'.progress[c.id] >= Counter(b.progress, c.id) + quantity;
    }
  }

  // ---------------------------------------------------------------------
  // The one update that can leave an achievement behind: an absolute value 0

  // Criteria a zero update completes: gates open, no counter yet, complete at 0.
  predicate FreshAtZero(r: Rules, b: Book, list: seq<Criterion>, asset: nat, c: Criterion) {
    && c in list && c.id !in b.progress && ZeroGate(r, b, asset, c)
    && CriterionCompleted(r, b.realm, c, 0)
  }

  predicate ZeroGate(r: Rules, b: Book, asset: nat, c: Criterion) {
    && !r.disabled(c.id) && c.achievement !in b.earned && r.meets(c, 0, asset)
    && (c.startTimer == 0 || c.id in b.timed)
  }

  function FreshCount(r: Rules, b: Book, list: seq<Criterion>, asset: nat, criteria: seq<Criterion>): nat {
    if |criteria| == 0 then 0
    else
      var n := |criteria| - 1;
      FreshCount(r, b, list, asset, criteria[..n]) + if FreshAtZero(r, b, list, asset, criteria[n]) then 1 else 0
  }

  // Told before the update: the criteria that are complete do not suffice, and
  // together with those that zero completes they do.
  ghost predicate TippedByZero(r: Rules, b: Book, list: seq<Criterion>, asset: nat, a: nat) {
    && a in r.ix.achieveByID && a !in b.earned
    && var e := r.ix.achieveByID[a];
       var criteria := Lookup(r.ix.byAchieve, TestId(e));
       var needed := if e.minimum == 0 then |criteria| else e.minimum;
       var done := CompletedCount(r, b.progress, b.realm, criteria);
       && !e.summ && !e.counter && !WrongTeam(r, e) && |criteria| != 0
       && done < needed <= done + FreshCount(r, b, list, asset, criteria)
  }

  lemma {:induction false} ZeroFilledExactly(r: Rules, b: Book, list: seq<Criterion>, asset: nat, c: Criterion)
    requires IndexOk(r.ix, r.rows) && c in r.rows && forall d :: d in list ==> d in r.rows
    ensures c.id in ZeroFilled(r, b, list, asset).progress
      <==> c.id in b.progress || (c in list && ZeroGate(r, b, asset, c))
  {
    if |list| != 0 {
      var n := |list| - 1;
      ZeroFilledExactly(r, b, list[..n], asset, c);
      ZeroFilledGrows(r, b, list[..n], asset);
      assert list == list[..n] + [list[n]];
      assert list[n] in list;
    }
  }

  lemma {:induction false} CountAfterZero(r: Rules, b: Book, list: seq<Criterion>, asset: nat, criteria: seq<Criterion>)
    requires IndexOk(r.ix, r.rows)
    requires (forall d :: d in list ==> d in r.rows) && forall c :: c in criteria ==> c in r.rows
    ensures var b' := ZeroFilled(r, b, list, asset);
            CompletedCount(r, b'.progress, b'.realm, criteria)
            == CompletedCount(r, b.progress, b.realm, criteria) + FreshCount(r, b, list, asset, criteria)
  {
    hide Reached, IndexOk;
    if |criteria| != 0 {
      var c := criteria[|criteria| - 1];
      assert c in criteria;
      CountAfterZero(r, b, list, asset, criteria[..|criteria| - 1]);
      ZeroFilledGrows(r, b, list, asset);
      ZeroFilledExactly(r, b, list, asset, c);
    }
  }

  // An absolute update to 0 is closed exactly when zero tips no achievement.
  lemma ZeroUpdateClosedExactly(r: Rules, b: Book, list: seq<Criterion>, asset: nat)
    requires IndexOk(r.ix, r.rows) && (forall d :: d in list ==> d in r.rows) && !r.blocked
    ensures Closed(r, b, ZeroFilled(r, b, list, asset)) <==> forall a :: !TippedByZero(r, b, list, asset, a)
  {
    hide CompletedCount, FreshCount, SumReached;
    var b' := ZeroFilled(r, b, list, asset);
    ZeroFilledGrows(r, b, list, asset);
    forall a | a in r.ix.achieveByID
      ensures TippedByZero(r, b, list, asset, a) <==> Pending(r, b', a) && !Pending(r, b, a)
    {
      CountAfterZero(r, b, list, asset, Lookup(r.ix.byAchieve, TestId(r.ix.achieveByID[a])));
    }
  }

  // Such an update exists: a level criterion with quantity 0 gets its first
  // counter, completes its achievement, and the achievement is not awarded.
  lemma ZeroUpdateCanLeaveBehind()
    ensures exists r: Rules, b: Book ::
              IndexOk(r.ix, r.rows) && !r.blocked && !Closed(r, b, ZeroFilled(r, b, Matched(r.ix, 5, 0), 0))
  {
    var c := Criterion(1, 1, 5, 0, 0, 0);
    var e := Achievement(1, -1, 10, false, false, false, 0, 0);
    var r := Rules(Index(map[(5, 0) := [c]], map[1 := [c]], map[], map[1 := e]), [c], NoTeam, false, false,
                   _ => false, (_, _, _) => true);
    var b := Book(map[], {}, {}, {}, []);
    assert Matched(r.ix, 5, 0) == [c];
    assert [c][..0] == [] && [c][0] == c;
    assert ZeroFilled(r, b, [], 0) == b;
    assert !r.disabled(1) && r.meets(c, 0, 0);
    var b' := ZeroFilled(r, b, [c], 0);
    assert b' == b.(progress := map[1 := 0]);
    assert r.ix.achieveByID[1] == e && Lookup(r.ix.byAchieve, TestId(e)) == [c];
    assert CountsToQuantity(5) && Completed(r, b'.progress, b'.realm, c);
    assert CompletedCount(r, b'.progress, b'.realm, [c]) == 1 && CompletedCount(r, b.progress, b.realm, [c]) == 0;
    assert Pending(r, b', 1) && !Pending(r, b, 1);
  }
}
