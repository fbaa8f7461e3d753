// What absorption shields are worth, told in amounts, prices and mana.
module AbsorptionLaws {
  import opened Absorption
  import opened Numbers
  import opened Wrappers

  // The price of so many points, cut off to a whole number.
  lemma CostExactly(points: nat, price: real)
    ensures price <= 0.0 ==> Cost(points, price) == 0
    ensures price > 0.0 ==> var cost := Cost(points, price); cost as real <= points as real * price < cost as real + 1.0
    ensures 2 * Cost(points, 1.5) <= 3 * points < 2 * Cost(points, 1.5) + 2
  {
    var x := points as real * price;
    if price <= 0.0 {
      assert x <= 0.0;
    } else {
      assert x >= 0.0;
    }
  }

  lemma ShareExactly(candidate: nat, mana: nat, cost: nat)
    requires mana < cost
    ensures Share(candidate, mana, cost) == candidate * mana / cost
  {
    hide Share;
    ShareBounds(candidate, mana, cost);
    QuotientIs(candidate * mana, cost, Share(candidate, mana, cost));
  }

  // A shield answers when its misc value and the school share a bit: one of 0
  // answers to nothing, one of 127 to every school.
  lemma AnswersExactly(miscValue: bv32, schoolMask: bv8)
    ensures Overlaps(miscValue, schoolMask) <==> miscValue & (schoolMask as bv32) != 0
    ensures !Overlaps(0, schoolMask) && !Overlaps(miscValue, 0)
    ensures schoolMask & 127 != 0 ==> Overlaps(127, schoolMask)
  {
  }

  // A player's school shield absorbs the lesser of its amount and the damage.
  // A mana shield does so for the whole price when there is the mana for it;
  // otherwise it absorbs the part that the mana pays for, and the mana is gone
  // unless that part is nothing.
  lemma PlayerTakes(a: Aura, mana: nat, remaining: nat, schoolMask: bv8)
    ensures var t := Take(a, mana, remaining, schoolMask, Player);
      var live := !a.stopped && a.amount > 0 && Overlaps(a.miscValue, schoolMask);
      var candidate := if a.amount < remaining then a.amount else remaining;
      var cost := Cost(candidate, if a.multiplier == 0.0 then 1.0 else a.multiplier);
      && (live && a.auraType == 69 ==> t.absorbed == candidate && t.mana == 0)
      && (live && a.auraType == 97 && 0 < mana && cost <= mana ==> t.absorbed == candidate && t.mana == cost)
      && (live && a.auraType == 97 && 0 < mana < cost ==>
            && t.absorbed == candidate * mana / cost
            && t.mana == if candidate * mana / cost > 0 then mana else 0)
      && (!live || (a.auraType == 97 && mana == 0) || a.auraType !in {69, 97} ==> t.absorbed == 0 && t.mana == 0)
  {
    hide Cost, Share, Overlaps, Buy;
    var candidate, price := Min(a.amount, remaining), Price(a, Player);
    BuyExactly(candidate, mana, price);
    CostExactly(0, price);
  }

  lemma BuyExactly(candidate: nat, mana: nat, price: real)
    ensures var cost := Cost(candidate, price);
      Buy(candidate, mana, price)
        == if cost <= mana then Taken(candidate, cost) else Taken(candidate * mana / cost, mana)
  {
    hide Cost, Share;
    if mana < Cost(candidate, price) {
      ShareExactly(candidate, mana, Cost(candidate, price));
    }
  }

  // A creature pays one and a half for a point, and pays first.
  lemma CreatureTakes(a: Aura, mana: nat, remaining: nat, schoolMask: bv8)
    ensures var t := Take(a, mana, remaining, schoolMask, Creature);
      var meets := Overlaps(a.miscValue, schoolMask);
      var candidate := if a.amount < remaining then a.amount else remaining;
      var cost := 3 * candidate / 2;
      && (meets && a.auraType == 69 ==> t.absorbed == candidate && t.mana == 0)
      && (meets && a.auraType == 97 && 0 < mana && cost <= mana ==> t.absorbed == candidate && t.mana == cost)
      && (meets && a.auraType == 97 && 0 < mana < cost ==> t.absorbed == candidate * mana / cost && t.mana == mana)
      && (!meets || (a.auraType == 97 && mana == 0) || a.auraType !in {69, 97} ==> t.absorbed == 0 && t.mana == 0)
  {
    hide Cost, Share, Overlaps, Buy;
    var candidate := Min(a.amount, remaining);
    CostExactly(candidate, 1.5);
    assert Cost(candidate, 1.5) == 3 * candidate / 2;
    BuyExactly(candidate, mana, 1.5);
  }

  // The order of use: priority, then spell id.
  lemma OrderIsByPriority(order: seq<nat>, ids: set<nat>, auras: Auras, i: nat, j: nat)
    requires InOrder(order, ids, auras) && i < j < |order|
    ensures order[i] in auras && order[j] in auras
    ensures var p, q := AbsorbAuraPriority(order[i], auras[order[i]]), AbsorbAuraPriority(order[j], auras[order[j]]);
      p < q || (p == q && order[i] < order[j])
    ensures order[i] in ids && forall id :: id in ids ==> id in order
  {
  }

  // So much mana buys no point of so many.
  predicate TooLittle(a: Aura, leg: Leg, candidate: nat, mana: nat) {
    candidate > 0 && candidate * mana < Cost(candidate, Price(a, leg))
  }

  // There was too little mana for some candidate of the shield.
  ghost predicate TooDear(a: Aura, leg: Leg, low: nat, high: nat, damage: nat) {
    exists candidate: nat, mana: nat ::
      TooLittle(a, leg, candidate, mana) && candidate <= a.amount && candidate <= damage && low <= mana <= high
  }

  // What is left of a shield that answers when damage remains: a school shield
  // is used up; a mana shield is, or the mana is, or, for a player, there was
  // too little for a single point.
  ghost predicate Spent(a: Aura, amount: nat, leg: Leg, mana: nat, before: nat, damage: nat) {
    && (a.auraType == 69 ==> amount == 0)
    && (a.auraType == 97 ==> amount == 0 || mana == 0 || (leg == Player && TooDear(a, leg, mana, before, damage)))
  }

  lemma SpentLater(a: Aura, amount: nat, leg: Leg, mana: nat, before: nat, damage: nat,
                   mana': nat, before': nat, damage': nat)
    requires Spent(a, amount, leg, mana, before, damage) && mana' <= mana && before <= before' && damage <= damage'
    ensures Spent(a, amount, leg, mana', before', damage')
  {
    hide TooLittle;
    if leg == Player && TooDear(a, leg, mana, before, damage) {
      var c: nat, m: nat :| TooLittle(a, leg, c, m) && c <= a.amount && c <= damage && mana <= m <= before;
      assert TooDear(a, leg, mana', before', damage');
    }
  }

  lemma {:induction false} DamageRemains(order: seq<nat>, run: Run, schoolMask: bv8, leg: Leg)
    requires Known(order, run.auras) && Distinct(order)
    requires forall i :: 0 <= i < |order| ==> !run.auras[order[i]].stopped
    ensures var r := UseAll(order, run, schoolMask, leg);
      r.remaining > 0 ==> forall id :: id in order && Overlaps(run.auras[id].miscValue, schoolMask) ==>
        Spent(run.auras[id], r.auras[id].amount, leg, r.mana, run.mana, run.remaining)
    decreases |order|
  {
    hide Use, Overlaps, Spent;
    if |order| > 0 && run.remaining > 0 {
      var id, more := order[0], order[1..];
      var mid := Use(id, run, schoolMask, leg);
      var r := UseAll(more, mid, schoolMask, leg);
      UseFrame(id, run, schoolMask, leg);
      RestIsApart(order);
      assert forall i :: 0 <= i < |more| ==> more[i] == order[i + 1];
      OnlyAmountsDrop(more, mid, schoolMask, leg);
      DamageRemains(more, mid, schoolMask, leg);
      if r.remaining > 0 {
        forall x | x in order && Overlaps(run.auras[x].miscValue, schoolMask)
          ensures Spent(run.auras[x], r.auras[x].amount, leg, r.mana, run.mana, run.remaining)
        {
          if x == id {
            OneRemains(id, run, schoolMask, leg);
            SpentLater(run.auras[id], mid.auras[id].amount, leg, mid.mana, run.mana, run.remaining,
                       r.mana, run.mana, run.remaining);
          } else {
            assert x in more && mid.auras[x] == run.auras[x];
            SpentLater(run.auras[x], r.auras[x].amount, leg, r.mana, mid.mana, mid.remaining,
                       r.mana, run.mana, run.remaining);
          }
        }
      }
    }
  }

  lemma OneRemains(id: nat, run: Run, schoolMask: bv8, leg: Leg)
    requires id in run.auras && !run.auras[id].stopped && Overlaps(run.auras[id].miscValue, schoolMask)
    ensures var a, r := run.auras[id], Use(id, run, schoolMask, leg);
      r.remaining > 0 ==> Spent(a, r.auras[id].amount, leg, r.mana, run.mana, run.remaining)
  {
    hide Overlaps, TooDear, Take, UseAll;
    var a := run.auras[id];
    var t := Take(a, run.mana, run.remaining, schoolMask, leg);
    UseFrame(id, run, schoolMask, leg);
    if a.amount > 0 && run.remaining > t.absorbed {
      TakeSpends(a, run.mana, run.remaining, schoolMask, leg);
    }
  }

  lemma TakeSpends(a: Aura, mana: nat, remaining: nat, schoolMask: bv8, leg: Leg)
    requires !a.stopped && a.amount > 0 && Overlaps(a.miscValue, schoolMask)
    requires Take(a, mana, remaining, schoolMask, leg).absorbed < remaining
    ensures var t := Take(a, mana, remaining, schoolMask, leg);
      && (a.auraType == 69 ==> t.absorbed == a.amount)
      && (a.auraType == 97 ==>
            || t.absorbed == a.amount || t.mana == mana
            || (leg == Player && t.mana == 0 && TooDear(a, leg, mana, mana, remaining)))
  {
    hide Cost, Share;
    var candidate := Min(a.amount, remaining);
    var cost := Cost(candidate, Price(a, leg));
    if a.auraType == 97 && 0 < mana < cost && Share(candidate, mana, cost) == 0 {
      ShareFits(candidate, mana, cost);
      assert TooLittle(a, leg, candidate, mana);
    }
  }

  // So it is for a whole hit. What stays of a mana shield that answers stays
  // for want of mana.
  lemma HitSpendsShields(auras: Auras, mana: nat, damage: nat, schoolMask: bv8, leg: Leg,
                         after: Auras, manaAfter: nat, absorbed: nat, remaining: nat, id: nat)
    requires Absorbs(auras, mana, damage, schoolMask, leg, after, manaAfter, absorbed, remaining) && remaining > 0
    requires id in auras && auras[id].amount > 0 && !auras[id].stopped && Overlaps(auras[id].miscValue, schoolMask)
    ensures auras[id].auraType == 69 ==> id !in after
    ensures auras[id].auraType == 97 ==>
      || id !in after || manaAfter == 0
      || (leg == Player &&
          exists candidate: nat, had: nat ::
            && TooLittle(auras[id], leg, candidate, had)
            && candidate <= auras[id].amount && candidate <= damage && manaAfter <= had <= mana)
  {
    hide UseAll, Overlaps, TooLittle, Sorted;
    var list := ListOf(Active(auras));
    ActiveAreKnown(list, auras);
    SortOrders(list, Active(auras), auras);
    var order, run := Sort(list, auras), Run(auras, mana, damage, []);
    var r := UseAll(order, run, schoolMask, leg);
    SortedPutsSchoolsFirst(order, auras);
    forall i | 0 <= i < |order| ensures !auras[order[i]].stopped {
      assert order[i] in order;
    }
    DamageRemains(order, run, schoolMask, leg);
    ExhaustedAreEmptied(order, run, schoolMask, leg);
    EmptiedMembers(order, auras, r.auras);
    assert id in order;
  }

  // How little that is.
  lemma TooLittleExactly(a: Aura, candidate: nat, mana: nat)
    ensures TooLittle(a, Player, candidate, mana) <==>
      candidate > 0 && candidate * mana < Cost(candidate, if a.multiplier == 0.0 then 1.0 else a.multiplier)
  {
  }
}
