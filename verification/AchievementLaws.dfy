// What the completion engine promises, told in the rows, counters and flags
// themselves: who earns an achievement, and what a counter becomes.
module AchievementLaws {
  import opened Achievements

  // The counter that completes a criterion, by kind: those done once, skill tiers
  // of 75 points, arena wins, the login, the points, and the quantity kinds.
  // Nothing completes any other kind.
  lemma ReachedByKind(c: Criterion, counter: nat)
    ensures c.kind in {8, 27, 34, 43} ==> (Reached(c, counter) <==> counter > 0)
    ensures c.kind == 40 ==> (Reached(c, counter) <==> counter >= 75 * c.quantity)
    ensures c.kind == 32 ==> (Reached(c, counter) <==> c.quantity > 0 && counter >= c.quantity)
    ensures c.kind == 74 ==> Reached(c, counter)
    ensures c.kind == 115 ==> (Reached(c, counter) <==> counter >= if c.quantity == 0 then 9000 else c.quantity)
    ensures c.kind !in {8, 27, 32, 34, 40, 43, 74, 115} ==>
              (Reached(c, counter) <==>
               && counter >= c.quantity
               && c.kind in {0, 1, 5, 7, 9, 10, 11, 13, 14, 24, 28, 29, 30, 31, 35, 36, 37, 39, 41, 42, 45, 46, 47, 48,
                             49, 50, 51, 52, 53, 54, 55, 56, 57, 62, 67, 68, 69, 70, 72, 75, 76, 109, 110, 112, 113,
                             119})
  {
  }

  // A realm-first achievement that the realm holds completes for nobody else.
  lemma CompletedExactly(r: Rules, progress: map<nat, nat>, realm: set<nat>, c: Criterion)
    ensures Completed(r, progress, realm, c) <==>
      && c.id in progress && Reached(c, progress[c.id])
      && !(r.hasDb && c.achievement in realm
           && c.achievement in r.ix.achieveByID && r.ix.achieveByID[c.achievement].realmFirst)
  {
  }

  lemma {:induction false} CountedExactly(r: Rules, progress: map<nat, nat>, realm: set<nat>, list: seq<Criterion>)
    ensures CompletedCount(r, progress, realm, list)
      == |set i | 0 <= i < |list| && Completed(r, progress, realm, list[i])|
  {
    hide Completed;
    if |list| > 0 {
      var n := |list| - 1;
      CountedExactly(r, progress, realm, list[..n]);
      var now := set i | 0 <= i < |list| && Completed(r, progress, realm, list[i]);
      var before := set i | 0 <= i < n && Completed(r, progress, realm, list[..n][i]);
      assert now == before + if Completed(r, progress, realm, list[n]) then {n} else {};
    }
  }

  lemma SummedExactly(progress: map<nat, nat>, list: seq<Criterion>, c: Criterion)
    ensures SumOf(progress, []) == 0
    ensures SumOf(progress, list + [c]) == SumOf(progress, list) + if c.id in progress then progress[c.id] else 0
  {
    assert (list + [c])[..|list|] == list;
  }

  // Who deserves an achievement: a player of its faction whose counters complete
  // enough of its criteria, or, for a summing one, reach together the quantity
  // of a criterion that has a counter.
  lemma DeservedExactly(r: Rules, progress: map<nat, nat>, realm: set<nat>, a: nat)
    ensures Satisfied(r, progress, realm, a) <==>
      && a in r.ix.achieveByID
      && var e := r.ix.achieveByID[a];
         var id := if e.shares != 0 then e.shares else e.id;
         && id in r.ix.byAchieve
         && var list := r.ix.byAchieve[id];
            && |list| > 0
            && (e.faction == 0 ==> r.team == Horde) && (e.faction == 1 ==> r.team == Alliance)
            && (e.summ ==> exists k :: 0 <= k < |list| && list[k].id in progress
                                       && SumOf(progress, list[..k + 1]) >= list[k].quantity)
            && (!e.summ ==>
                  |set i | 0 <= i < |list| && Completed(r, progress, realm, list[i])|
                    >= if e.minimum == 0 then |list| else e.minimum)
  {
    hide Completed;
    if a in r.ix.achieveByID {
      var e := r.ix.achieveByID[a];
      CountedExactly(r, progress, realm, Lookup(r.ix.byAchieve, TestId(e)));
    }
  }

  // An award that was not granted outright goes to the right team, for criteria
  // that were complete at that moment, and never for a counter achievement.
  lemma AwardIsDeserved(r: Rules, b: Book, b': Book, granted: set<nat>, i: nat)
    requires AwardsJust(r, b, b', granted) && |b.awards| <= i < |b'.awards| && b'.awards[i].id !in granted
    ensures var w := b'.awards[i];
      && w.id !in b.earned && w.id in b'.earned && !r.blocked
      && w.id in r.ix.achieveByID
      && var e := r.ix.achieveByID[w.id];
         && !e.counter
         && (e.faction == 0 ==> r.team == Horde) && (e.faction == 1 ==> r.team == Alliance)
         && var id := if e.shares != 0 then e.shares else e.id;
            && id in r.ix.byAchieve
            && (!e.summ ==>
                  |set k | 0 <= k < |r.ix.byAchieve[id]| && Completed(r, w.progress, w.realm, r.ix.byAchieve[id][k])|
                    >= if e.minimum == 0 then |r.ix.byAchieve[id]| else e.minimum)
  {
    hide Completed, Satisfied;
    var w := b'.awards[i];
    DeservedExactly(r, w.progress, w.realm, w.id);
  }

  // Once an achievement is checked, whoever deserves it has it, if it is no
  // counter and no sum and awards are not blocked.
  lemma CheckedHasIt(r: Rules, b: Book, a: nat)
    requires !Pending(r, b, a) && a in r.ix.achieveByID
    requires var e := r.ix.achieveByID[a];
      && !e.counter && !e.summ
      && (e.faction == 0 ==> r.team == Horde) && (e.faction == 1 ==> r.team == Alliance)
      && var id := if e.shares != 0 then e.shares else e.id;
         && id in r.ix.byAchieve
         && |r.ix.byAchieve[id]| > 0
         && |set k | 0 <= k < |r.ix.byAchieve[id]| && Completed(r, b.progress, b.realm, r.ix.byAchieve[id][k])|
              >= if e.minimum == 0 then |r.ix.byAchieve[id]| else e.minimum
    ensures a in b.earned
  {
    hide Completed, Satisfied;
    DeservedExactly(r, b.progress, b.realm, a);
  }

  // After an update, nobody deserves and misses one who did not before.
  lemma DeservingHasIt(r: Rules, b: Book, b': Book, a: nat)
    requires Closed(r, b, b') && !r.blocked && a in r.ix.achieveByID && !Satisfied(r, b.progress, b.realm, a)
    requires var e := r.ix.achieveByID[a];
      && !e.counter && !e.summ
      && (e.faction == 0 ==> r.team == Horde) && (e.faction == 1 ==> r.team == Alliance)
      && var id := if e.shares != 0 then e.shares else e.id;
         && id in r.ix.byAchieve
         && |r.ix.byAchieve[id]| > 0
         && |set k | 0 <= k < |r.ix.byAchieve[id]| && Completed(r, b'.progress, b'.realm, r.ix.byAchieve[id][k])|
              >= if e.minimum == 0 then |r.ix.byAchieve[id]| else e.minimum
    ensures a in b'.earned
  {
    hide Completed, Satisfied;
    assert !Pending(r, b', a);
    CheckedHasIt(r, b', a);
  }

  // The criteria of an update: those of its kind on its asset or on asset 0.
  lemma MatchedExactly(r: Rules, kind: nat, asset: nat, c: Criterion)
    requires IndexOk(r.ix, r.rows)
    ensures c in Matched(r.ix, kind, asset) <==> c in r.rows && c.kind == kind && (c.asset == asset || c.asset == 0)
  {
  }

  // Each of them has taken the amount in, unless it is disabled, timed, refused
  // or finished.
  lemma UpdateReaches(r: Rules, b: Book, b': Book, kind: nat, asset: nat, amount: nat, c: Criterion)
    requires IndexOk(r.ix, r.rows) && Told(r, b', Matched(r.ix, kind, asset), amount, asset, b.progress)
    requires c in r.rows && c.kind == kind && (c.asset == asset || c.asset == 0)
    requires !r.disabled(c.id) && r.meets(c, amount, asset) && c.startTimer == 0 && c.achievement !in b'.earned
    ensures c.id in b'.progress
    ensures Reached(c, b'.progress[c.id])
            || b'.progress[c.id] >= (if c.id in b.progress then b.progress[c.id] else 0) + amount
  {
    hide Reached;
    MatchedExactly(r, kind, asset, c);
    assert TookIn(r, b', c, amount, asset, b.progress);
  }

  // No other criterion has, but for those that an award moves.
  lemma UpdateSparesOthers(r: Rules, b: Book, b': Book, kind: nat, asset: nat, amount: nat, c: Criterion)
    requires IndexOk(r.ix, r.rows) && Moves(r, b, b', Matched(r.ix, kind, asset), amount)
    requires c in r.rows && c.kind != 8 && c.kind != 115 && (c.kind != kind || (c.asset != asset && c.asset != 0))
    ensures c.id in b.progress <==> c.id in b'.progress
    ensures c.id in b.progress ==> b.progress[c.id] == b'.progress[c.id]
  {
    MatchedExactly(r, kind, asset, c);
    assert SameCounter(b, b', c);
  }

  // The one that has, and stands once in the rows of the index, moved by at most
  // the amount.
  lemma UpdateMovesOnce(r: Rules, b: Book, b': Book, kind: nat, asset: nat, amount: nat, c: Criterion)
    requires Moves(r, b, b', Matched(r.ix, kind, asset), amount)
    requires c in r.rows && c.kind != 8 && c.kind != 115 && multiset(Matched(r.ix, kind, asset))[c] == 1
    ensures (if c.id in b'.progress then b'.progress[c.id] else 0)
      <= (if c.id in b.progress then b.progress[c.id] else 0) + amount
  {
    assert c in multiset(Matched(r.ix, kind, asset));
  }

  // Every award is told to the achievements over it, and the points of all that
  // is earned to the criteria on points.
  lemma AwardReachesMetas(r: Rules, b: Book, b': Book, a: nat, c: Criterion)
    requires IndexOk(r.ix, r.rows) && Spreads(r, b, b') && a in b'.earned && a !in b.earned
    requires c in r.rows && c.kind == 8 && (c.asset == a || c.asset == 0)
    requires !r.disabled(c.id) && r.meets(c, 1, a) && c.startTimer == 0 && c.achievement !in b'.earned
    ensures c.id in b'.progress && b'.progress[c.id] > 0
  {
    hide Reached;
    ReachedByKind(c, if c.id in b'.progress then b'.progress[c.id] else 0);
    assert MetaTold(r, b', a);
    UpdateReaches(r, b'.(progress := map[]), b', 8, a, 1, c);
  }

  lemma AwardReachesPoints(r: Rules, b: Book, b': Book, c: Criterion)
    requires IndexOk(r.ix, r.rows) && Spreads(r, b, b') && b'.earned != b.earned
    requires c in r.rows && c.kind == 115 && c.asset == 0
    requires var points := TotalPoints(r.ix, b'.earned);
      !r.disabled(c.id) && r.meets(c, points, 0) && c.startTimer == 0 && c.achievement !in b'.earned
    ensures c.id in b'.progress
    ensures b'.progress[c.id] >= TotalPoints(r.ix, b'.earned) || Reached(c, b'.progress[c.id])
  {
    hide Reached;
    UpdateReaches(r, b'.(progress := map[]), b', 115, 0, TotalPoints(r.ix, b'.earned), c);
  }

  // What is earned or complete keeps its counter, and the realm remembers new
  // achievements when there is a place to store them.
  lemma FinishedStays(r: Rules, b: Book, b': Book, c: Criterion)
    requires Keeps(r, b, b') && c in r.rows && (c.achievement in b.earned || Completed(r, b.progress, b.realm, c))
    ensures c.id in b.progress <==> c.id in b'.progress
    ensures c.id in b.progress ==> b.progress[c.id] == b'.progress[c.id]
    ensures forall a :: a in b'.realm <==> a in b.realm || (r.hasDb && a in b'.earned && a !in b.earned)
  {
    hide Completed;
    assert SameCounter(b, b', c);
  }

  lemma NoPoints(ix: Index)
    ensures TotalPoints(ix, {}) == 0
  {
  }

  // The lists of the index hold the rows of their key in the order of the rows.
  lemma RowsInOrder(rows: seq<Criterion>, row: Criterion, kind: nat, asset: nat, a: nat)
    ensures OfType([], (kind, asset)) == [] && OfAchievement([], a) == []
    ensures OfType(rows + [row], (kind, asset))
      == OfType(rows, (kind, asset)) + if row.kind == kind && row.asset == asset then [row] else []
    ensures OfAchievement(rows + [row], a) == OfAchievement(rows, a) + if row.achievement == a then [row] else []
  {
    var all := rows + [row];
    assert all[..|all| - 1] == rows;
  }

  lemma ReferrersInOrder(achievements: seq<Achievement>, e: Achievement, x: nat)
    ensures Referrers([], x) == []
    ensures Referrers(achievements + [e], x)
      == Referrers(achievements, x) + if e.shares == x && x != 0 then [e.id] else []
  {
    var all := achievements + [e];
    assert all[..|all| - 1] == achievements;
  }
}
