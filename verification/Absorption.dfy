// Absorption of damage by shield auras, on players and on creatures. A victim
// holds one aura for each spell id; the order in which they are listed is
// arbitrary and is fixed by a sort.
module Absorption {
  import opened Wrappers

  const SCHOOL_ABSORB: nat := 69
  const MANA_SHIELD: nat := 97
  const FAMILY_MAGE: nat := 3
  const FAMILY_WARLOCK: nat := 5

  // The static data of a spell that the priority reads.
  datatype Spell = Spell(family: nat, category: nat, icon: nat)

  // An active aura; spell is None when the id is not in the data, and
  // multiplier is the mana cost of one point for its caster.
  datatype Aura = Aura(auraType: nat, schoolMask: nat, miscValue: bv32, amount: nat, stopped: bool,
                       multiplier: real, spell: Option<Spell>)

  datatype Leg = Player | Creature

  predicate Overlaps(miscValue: bv32, schoolMask: bv8) { miscValue & (schoolMask as bv32) != 0 }

  // ---------------------------------------------------------------------
  // Priority and order

  function AbsorbAuraPriority(id: nat, a: Aura): nat {
    if a.auraType == SCHOOL_ABSORB then
      if a.spell.Some? && (a.spell.value.family == FAMILY_MAGE || a.spell.value.family == FAMILY_WARLOCK)
         && a.spell.value.category == 56 then 1
      else if a.spell.Some? && id == 58597 then 2
      else if a.spell.Some? && id == 28527 then 3
      else if a.spell.Some? && id == 47753 then 4
      else if a.spell.Some? && a.spell.value.category == 471 then 5
      else if a.spell.Some? && a.spell.value.family == FAMILY_WARLOCK && a.spell.value.icon == 693 then 6
      else if a.schoolMask != 0 && a.schoolMask != 127 then 7
      else 9
    else if a.auraType == MANA_SHIELD then 10
    else 99
  }

  // Wards come first and mana shields after all school shields; in between
  // Sacred Shield, Fel Blossom, Divine Aegis, Ice Barrier and Sacrifice precede
  // all that is not named before them, and shields of some schools precede the
  // rest of those of all schools. Only shields known to the data are named.
  lemma PriorityLadder(x: nat, a: Aura, y: nat, b: Aura)
    requires a.auraType == 69
    ensures var first := AbsorbAuraPriority(x, a) < AbsorbAuraPriority(y, b);
      var known := (s: Aura) => s.auraType == 69 && s.spell.Some?;
      var ward := (s: Aura) => known(s) && s.spell.value.category == 56 && s.spell.value.family in {3, 5};
      var barrier := (s: Aura) => known(s) && s.spell.value.category == 471;
      var sacrifice := (s: Aura) => known(s) && s.spell.value.family == 5 && s.spell.value.icon == 693;
      var sacred, fel, aegis := known(b) && y == 58597, known(b) && y == 28527, known(b) && y == 47753;
      var rest := !ward(b) && !sacred && !fel && !aegis && !barrier(b) && !sacrifice(b);
      && (b.auraType != 69 ==> first)
      && (ward(a) ==> first || ward(b)) && (ward(a) && ward(b) ==> !first)
      && (known(a) && x == 58597 && !ward(b) && !sacred ==> first)
      && (known(a) && x == 28527 && !ward(b) && !sacred && !fel ==> first)
      && (known(a) && x == 47753 && !ward(b) && !sacred && !fel && !aegis ==> first)
      && (barrier(a) && !ward(b) && !sacred && !fel && !aegis && !barrier(b) ==> first)
      && (sacrifice(a) && rest ==> first)
      && (a.schoolMask !in {0, 127} && b.schoolMask in {0, 127} && rest ==> first)
  {
  }

  type Auras = map<nat, Aura>

  predicate Before(x: nat, y: nat, auras: Auras)
    requires x in auras && y in auras
  {
    var p, q := AbsorbAuraPriority(x, auras[x]), AbsorbAuraPriority(y, auras[y]);
    p < q || (p == q && x < y)
  }

  predicate Known(order: seq<nat>, auras: Auras) { forall i :: 0 <= i < |order| ==> order[i] in auras }

  predicate Sorted(order: seq<nat>, auras: Auras)
    requires Known(order, auras)
  {
    forall i, j :: 0 <= i < j < |order| ==> Before(order[i], order[j], auras)
  }

  function Insert(x: nat, order: seq<nat>, auras: Auras): seq<nat>
    requires x in auras && Known(order, auras)
  {
    if |order| == 0 || Before(x, order[0], auras) then [x] + order
    else [order[0]] + Insert(x, order[1..], auras)
  }

  // Sorting by priority, then by spell id.
  function Sort(list: seq<nat>, auras: Auras): (r: seq<nat>)
    requires Known(list, auras)
    ensures Known(r, auras)
  {
    if |list| == 0 then [] else
      var rest := Sort(list[1..], auras);
      InsertKeeps(list[0], rest, auras);
      Insert(list[0], rest, auras)
  }

  lemma {:induction false} InsertKeeps(x: nat, order: seq<nat>, auras: Auras)
    requires x in auras && Known(order, auras)
    ensures var r := Insert(x, order, auras);
      && Known(r, auras)
      && (forall y :: y in r <==> y == x || y in order)
      && (Sorted(order, auras) && x !in order ==> Sorted(r, auras))
  {
    if |order| == 0 || Before(x, order[0], auras) {
    } else {
      InsertKeeps(x, order[1..], auras);
      var r := Insert(x, order[1..], auras);
      assert forall y :: y in order <==> y == order[0] || y in order[1..];
      if Sorted(order, auras) && x !in order {
        forall i | 0 <= i < |r| ensures Before(order[0], r[i], auras) {
          assert r[i] in r;
          assert r[i] == x || r[i] in order[1..];
        }
      }
    }
  }

  predicate Distinct(order: seq<nat>) { forall i, j :: 0 <= i < j < |order| ==> order[i] != order[j] }

  lemma RestIsApart(order: seq<nat>)
    requires Distinct(order) && |order| > 0
    ensures order[0] !in order[1..] && Distinct(order[1..])
  {
    assert forall i :: 0 <= i < |order| - 1 ==> order[1..][i] == order[i + 1];
  }

  // The ids in the order in which their shields are used.
  ghost predicate InOrder(order: seq<nat>, ids: set<nat>, auras: Auras) {
    Known(order, auras) && Sorted(order, auras) && (forall x :: x in order <==> x in ids)
  }

  lemma {:induction false} SortOrders(list: seq<nat>, ids: set<nat>, auras: Auras)
    requires Known(list, auras) && Distinct(list) && forall x :: x in list <==> x in ids
    ensures InOrder(Sort(list, auras), ids, auras)
  {
    if |list| > 0 {
      RestIsApart(list);
      assert forall x :: x in list <==> x == list[0] || x in list[1..];
      SortOrders(list[1..], ids - {list[0]}, auras);
      InsertKeeps(list[0], Sort(list[1..], auras), auras);
    }
  }

  // There is only one such order, so nothing depends on the order of listing.
  lemma {:induction false} OrderIsUnique(s: seq<nat>, t: seq<nat>, ids: set<nat>, auras: Auras)
    requires InOrder(s, ids, auras) && InOrder(t, ids, auras)
    ensures s == t
    decreases |s|
  {
    if |s| == 0 {
      if |t| > 0 {
        HasMember(t);
        assert false;
      }
    } else {
      assert s[0] in t;
      assert t[0] in s;
      assert s[0] == t[0];
      assert forall x :: x in s <==> x == s[0] || x in s[1..];
      assert forall x :: x in t <==> x == t[0] || x in t[1..];
      assert s[0] !in s[1..] && t[0] !in t[1..];
      OrderIsUnique(s[1..], t[1..], ids - {s[0]}, auras);
    }
  }

  lemma HasMember(t: seq<nat>)
    requires |t| > 0
    ensures t[0] in t
  {
  }

  // ---------------------------------------------------------------------
  // One shield

  // What a shield absorbs, and the mana it takes.
  datatype Taken = Taken(absorbed: nat, mana: nat)

  // Conversion to a whole number, cutting off below zero as well.
  function Whole(x: real): nat { if x <= 0.0 then 0 else x.Floor }

  // The mana for so many points, cut off to a whole number.
  function Cost(points: nat, price: real): nat { Whole(points as real * price) }

  function Times(a: real, b: real): real { a * b }

  // What can be absorbed when only paid of the cost can be paid.
  function Share(candidate: nat, paid: nat, cost: nat): nat
    requires paid < cost
  {
    Whole(Times(candidate as real, paid as real / cost as real))
  }

  // The mana for one point: fixed for creatures; a player's zero counts as one.
  function Price(a: Aura, leg: Leg): real {
    if leg == Creature then 1.5 else if a.multiplier == 0.0 then 1.0 else a.multiplier
  }

  function Buy(candidate: nat, mana: nat, price: real): Taken {
    var cost := Cost(candidate, price);
    var paid := Min(mana, cost);
    Taken(if paid < cost then Share(candidate, paid, cost) else candidate, paid)
  }

  function Take(a: Aura, mana: nat, remaining: nat, schoolMask: bv8, leg: Leg): Taken {
    if leg == Player && (a.stopped || a.amount == 0) then Taken(0, 0)
    else if a.auraType == SCHOOL_ABSORB then
      Taken(if Overlaps(a.miscValue, schoolMask) then Min(a.amount, remaining) else 0, 0)
    else if a.auraType == MANA_SHIELD && mana > 0 && Overlaps(a.miscValue, schoolMask) then
      var t := Buy(Min(a.amount, remaining), mana, Price(a, leg));
      if t.absorbed == 0 && leg == Player then Taken(0, 0) else t
    else Taken(0, 0)
  }

  lemma ShareFits(candidate: nat, paid: nat, cost: nat)
    requires paid < cost
    ensures Share(candidate, paid, cost) <= candidate
    ensures Share(candidate, paid, cost) == 0 <==> candidate * paid < cost
    ensures Share(candidate, paid, cost) * cost <= candidate * paid
  {
    hide Share;
    ShareBounds(candidate, paid, cost);
    var k, have := Share(candidate, paid, cost), candidate * paid;
    assert candidate * paid <= candidate * cost;
    if k > candidate {
      Grows(k - candidate, cost);
      assert false;
    }
    if k >= 1 {
      Grows(k, cost);
    }
  }

  lemma Grows(d: nat, cost: nat)
    requires d >= 1
    ensures d * cost >= cost
  {
  }

  // The share is the integer quotient of candidate * paid by cost.
  lemma ShareBounds(candidate: nat, paid: nat, cost: nat)
    requires paid < cost
    ensures var k := Share(candidate, paid, cost); k * cost <= candidate * paid < (k + 1) * cost
  {
    hide Times;
    var x := Times(candidate as real, paid as real / cost as real);
    ScaleBack(candidate as real, paid as real, cost as real);
    var k := Share(candidate, paid, cost);
    assert k as real <= x < (k + 1) as real;
    TimesWhole(candidate, paid);
    FloorScaled(k, x, cost, candidate * paid);
  }

  lemma ScaleBack(c: real, p: real, n: real)
    requires 0.0 <= c && 0.0 <= p && 0.0 < n
    ensures var x := Times(c, p / n); x >= 0.0 && Times(x, n) == Times(c, p)
  {
    var q := p / n;
    assert q * n == p && q >= 0.0;
    assert (c * q) * n == c * (q * n);
  }

  lemma FloorScaled(k: nat, x: real, cost: nat, whole: nat)
    requires k as real <= x < (k + 1) as real && cost > 0 && Times(x, cost as real) == whole as real
    ensures k * cost <= whole < (k + 1) * cost
  {
    hide Times;
    TimesOrder(k as real, x, cost as real);
    TimesStrict(x, (k + 1) as real, cost as real);
    var low, high := k * cost, (k + 1) * cost;
    TimesWhole(k, cost);
    TimesWhole(k + 1, cost);
    assert low as real <= whole as real < high as real;
  }

  lemma TimesStrict(x: real, y: real, n: real)
    requires x < y && n > 0.0
    ensures Times(x, n) < Times(y, n)
  {
  }

  lemma TimesOrder(x: real, y: real, n: real)
    requires x <= y && n > 0.0
    ensures Times(x, n) <= Times(y, n)
  {
  }

  lemma TimesWhole(a: nat, b: nat)
    ensures Times(a as real, b as real) == (a * b) as real
  {
  }

  // A shield never absorbs more than it holds or than there is, never takes
  // mana that is not there, and takes none unless it is a mana shield.
  lemma TakeFits(a: Aura, mana: nat, remaining: nat, schoolMask: bv8, leg: Leg)
    ensures var t := Take(a, mana, remaining, schoolMask, leg);
      && t.absorbed <= a.amount && t.absorbed <= remaining && t.mana <= mana
      && (t.mana > 0 ==> a.auraType == MANA_SHIELD)
      && (leg == Player && t.mana > 0 ==> t.absorbed > 0)
      && (!Overlaps(a.miscValue, schoolMask) ==> t == Taken(0, 0))
  {
    hide Overlaps, Buy, Price;
    BuyFits(Min(a.amount, remaining), mana, Price(a, leg));
  }

  // Mana is only spent where it is, and all of the candidate is bought when it suffices.
  lemma BuyFits(candidate: nat, mana: nat, price: real)
    ensures var t := Buy(candidate, mana, price);
      && t.absorbed <= candidate && t.mana <= mana
      && t.mana <= Cost(candidate, price)
      && (Cost(candidate, price) <= mana ==> t.absorbed == candidate)
  {
    hide Share, Cost;
    var cost := Cost(candidate, price);
    if mana < cost {
      ShareFits(candidate, mana, cost);
    }
  }

  // What is bought costs at least its own truncated price.
  lemma BuyIsPaid(candidate: nat, mana: nat, price: real, absorbed: nat)
    requires absorbed == Buy(candidate, mana, price).absorbed
    ensures Cost(absorbed, price) <= Buy(candidate, mana, price).mana
  {
    hide Share, Cost;
    var cost := Cost(candidate, price);
    if price <= 0.0 {
      NothingIsOwed(absorbed, price);
    } else if mana < cost {
      assert absorbed == Share(candidate, mana, cost);
      assert Buy(candidate, mana, price).mana == mana;
      ShareFits(candidate, mana, cost);
      SharePrice(candidate, mana, cost, absorbed, price);
      assert Cost(absorbed, price) <= mana;
    } else {
      assert absorbed == candidate;
    }
  }

  // Every absorbed point is paid for: a player pays at least the truncated
  // price of what was absorbed, and never more than that of the whole candidate.
  lemma AbsorbedIsPaid(a: Aura, mana: nat, remaining: nat, schoolMask: bv8)
    requires a.auraType == MANA_SHIELD
    ensures var t := Take(a, mana, remaining, schoolMask, Player);
      && Cost(t.absorbed, Price(a, Player)) <= t.mana
      && t.mana <= Cost(Min(a.amount, remaining), Price(a, Player))
  {
    hide Overlaps, Buy, Cost, Min, Price;
    var candidate, price := Min(a.amount, remaining), Price(a, Player);
    var t, b := Take(a, mana, remaining, schoolMask, Player), Buy(candidate, mana, price);
    BuyFits(candidate, mana, price);
    BuyIsPaid(candidate, mana, price, b.absorbed);
    NothingIsFree(price);
    assert t == b || t == Taken(0, 0);
  }

  lemma NothingIsOwed(points: nat, price: real)
    requires price <= 0.0
    ensures Cost(points, price) == 0
  {
    assert points as real * price <= 0.0;
  }

  lemma NothingIsFree(price: real)
    ensures Cost(0, price) == 0
  {
    assert 0 as real * price == 0.0;
  }

  lemma SharePrice(candidate: nat, paid: nat, cost: nat, share: nat, multiplier: real)
    requires paid < cost && multiplier > 0.0 && cost == Cost(candidate, multiplier)
    requires share * cost <= candidate * paid
    ensures Cost(share, multiplier) <= paid
  {
    var c, p, n, s := candidate as real, paid as real, cost as real, share as real;
    assert s * n <= c * p by {
      assert s * n == (share * cost) as real && c * p == (candidate * paid) as real;
    }
    assert c * multiplier < n + 1.0;
    calc {
      (s * multiplier) * n;
    ==
      (s * n) * multiplier;
    <= { assert (s * n) * multiplier <= (c * p) * multiplier; }
      (c * p) * multiplier;
    ==
      (c * multiplier) * p;
    <= { assert (c * multiplier) * p <= (n + 1.0) * p; }
      (n + 1.0) * p;
    ==
      n * p + p;
    <
      n * p + n;
    ==
      (p + 1.0) * n;
    }
    assert s * multiplier < p + 1.0;
  }

  // A creature pays before it is known whether anything is absorbed. It pays
  // for nothing exactly when its last point of mana meets two points or more.
  lemma CreatureWastesMana(a: Aura, mana: nat, remaining: nat, schoolMask: bv8)
    ensures var t := Take(a, mana, remaining, schoolMask, Creature);
      t.mana > 0 && t.absorbed == 0 <==>
        a.auraType == MANA_SHIELD && Overlaps(a.miscValue, schoolMask) && mana == 1 && Min(a.amount, remaining) >= 2
  {
    hide Overlaps, Buy;
    var candidate := Min(a.amount, remaining);
    if mana > 0 {
      BuyAtOneAndAHalf(candidate, mana);
    }
  }

  lemma BuyAtOneAndAHalf(candidate: nat, mana: nat)
    requires mana > 0
    ensures var t := Buy(candidate, mana, 1.5);
      t.mana > 0 && t.absorbed == 0 <==> mana == 1 && candidate >= 2
  {
    hide Share;
    var cost := Cost(candidate, 1.5);
    assert 2 * cost <= 3 * candidate < 2 * cost + 2;
    if mana < cost {
      ShareFits(candidate, mana, cost);
      if mana >= 2 {
        assert candidate * mana >= candidate * 2;
      }
    }
  }

  // ---------------------------------------------------------------------
  // The whole list

  function SetAmount(auras: Auras, id: nat, amount: nat): (r: Auras)
    requires id in auras
    ensures r.Keys == auras.Keys && r[id] == auras[id].(amount := amount)
    ensures forall x :: x in auras && x != id ==> r[x] == auras[x]
  {
    auras[id := auras[id].(amount := amount)]
  }

  datatype Run = Run(auras: Auras, mana: nat, remaining: nat, exhausted: seq<nat>)

  function Use(id: nat, run: Run, schoolMask: bv8, leg: Leg): (r: Run)
    requires id in run.auras
    ensures r.auras.Keys == run.auras.Keys && r.mana <= run.mana
  {
    var a := run.auras[id];
    var t := Take(a, run.mana, run.remaining, schoolMask, leg);
    TakeFits(a, run.mana, run.remaining, schoolMask, leg);
    if t.absorbed > 0 then
      Run(SetAmount(run.auras, id, a.amount - t.absorbed), run.mana - t.mana, run.remaining - t.absorbed,
          if t.absorbed == a.amount then run.exhausted + [id] else run.exhausted)
    else Run(run.auras, run.mana - t.mana, run.remaining, run.exhausted)
  }

  function UseAll(order: seq<nat>, run: Run, schoolMask: bv8, leg: Leg): (r: Run)
    requires Known(order, run.auras)
    ensures r.auras.Keys == run.auras.Keys && r.mana <= run.mana
  {
    if |order| == 0 || run.remaining == 0 then run
    else UseAll(order[1..], Use(order[0], run, schoolMask, leg), schoolMask, leg)
  }

  // A sum over the list, of all amounts or of those that answer to the school.
  function Total(order: seq<nat>, auras: Auras): nat
    requires Known(order, auras)
  {
    if |order| == 0 then 0 else auras[order[0]].amount + Total(order[1..], auras)
  }

  predicate Answers(a: Aura, schoolMask: bv8) { a.auraType == SCHOOL_ABSORB && Overlaps(a.miscValue, schoolMask) }

  function SchoolTotal(order: seq<nat>, auras: Auras, schoolMask: bv8): nat
    requires Known(order, auras)
  {
    if |order| == 0 then 0
    else (if Answers(auras[order[0]], schoolMask) then auras[order[0]].amount else 0)
         + SchoolTotal(order[1..], auras, schoolMask)
  }

  lemma {:induction false} TotalsAgree(order: seq<nat>, a: Auras, b: Auras, schoolMask: bv8)
    requires Known(order, a) && Known(order, b) && forall i :: 0 <= i < |order| ==> a[order[i]] == b[order[i]]
    ensures Total(order, a) == Total(order, b) && SchoolTotal(order, a, schoolMask) == SchoolTotal(order, b, schoolMask)
  {
    if |order| > 0 {
      assert a[order[0]] == b[order[0]];
      TotalsAgree(order[1..], a, b, schoolMask);
    }
  }

  // What using one shield changes: its own amount, downwards, and nothing else.
  lemma UseFrame(id: nat, run: Run, schoolMask: bv8, leg: Leg)
    requires id in run.auras
    ensures var r := Use(id, run, schoolMask, leg);
      && (forall x :: x in run.auras && x != id ==> r.auras[x] == run.auras[x])
      && r.auras[id].amount <= run.auras[id].amount && r.remaining <= run.remaining
      && r.auras[id] == run.auras[id].(amount := r.auras[id].amount)
      && run.auras[id].amount - r.auras[id].amount == run.remaining - r.remaining
      && r.exhausted == run.exhausted + (if r.auras[id].amount == 0 < run.auras[id].amount then [id] else [])
  {
    TakeFits(run.auras[id], run.mana, run.remaining, schoolMask, leg);
  }

  // Using the list: shields outside it are untouched, and the others only lose amount.
  lemma {:induction false} OnlyAmountsDrop(order: seq<nat>, run: Run, schoolMask: bv8, leg: Leg)
    requires Known(order, run.auras)
    ensures var r := UseAll(order, run, schoolMask, leg);
      && (forall x :: x in run.auras && x !in order ==> r.auras[x] == run.auras[x])
      && (forall x :: x in run.auras ==> r.auras[x] == run.auras[x].(amount := r.auras[x].amount)
                                         && r.auras[x].amount <= run.auras[x].amount)
      && r.remaining <= run.remaining
    decreases |order|
  {
    hide Use, Total, SchoolTotal;
    if |order| > 0 && run.remaining > 0 {
      UseFrame(order[0], run, schoolMask, leg);
      OnlyAmountsDrop(order[1..], Use(order[0], run, schoolMask, leg), schoolMask, leg);
    }
  }

  // What the shields lose together is what the damage loses.
  lemma {:induction false} LossIsAbsorbed(order: seq<nat>, run: Run, schoolMask: bv8, leg: Leg)
    requires Known(order, run.auras) && Distinct(order)
    ensures var r := UseAll(order, run, schoolMask, leg);
      Total(order, run.auras) - Total(order, r.auras) == run.remaining - r.remaining
    decreases |order|
  {
    hide Use, SchoolTotal;
    if |order| > 0 && run.remaining > 0 {
      var id, more := order[0], order[1..];
      var mid := Use(id, run, schoolMask, leg);
      UseFrame(id, run, schoolMask, leg);
      RestIsApart(order);
      OnlyAmountsDrop(more, mid, schoolMask, leg);
      LossIsAbsorbed(more, mid, schoolMask, leg);
      TotalsAgree(more, run.auras, mid.auras, schoolMask);
    }
  }

  // Which shields are used up: those of the list that were not empty and are now.
  function Emptied(order: seq<nat>, before: Auras, after: Auras): seq<nat>
    requires Known(order, before) && Known(order, after)
  {
    if |order| == 0 then []
    else (if after[order[0]].amount == 0 < before[order[0]].amount then [order[0]] else [])
         + Emptied(order[1..], before, after)
  }

  lemma {:induction false} EmptiedAgree(order: seq<nat>, a: Auras, b: Auras, after: Auras)
    requires Known(order, a) && Known(order, b) && Known(order, after)
    requires forall i :: 0 <= i < |order| ==> a[order[i]] == b[order[i]]
    ensures Emptied(order, a, after) == Emptied(order, b, after)
  {
    if |order| > 0 {
      assert a[order[0]] == b[order[0]];
      EmptiedAgree(order[1..], a, b, after);
    }
  }

  lemma {:induction false} NothingEmptied(order: seq<nat>, auras: Auras)
    requires Known(order, auras)
    ensures Emptied(order, auras, auras) == []
  {
    if |order| > 0 {
      NothingEmptied(order[1..], auras);
    }
  }

  lemma EmptiedNext(order: seq<nat>, before: Auras, mid: Auras, after: Auras)
    requires Known(order, before) && Known(order, mid) && Known(order, after) && |order| > 0 && Distinct(order)
    requires forall x :: x in before && x != order[0] ==> x in mid && mid[x] == before[x]
    ensures Emptied(order, before, after) ==
      (if after[order[0]].amount == 0 < before[order[0]].amount then [order[0]] else [])
      + Emptied(order[1..], mid, after)
  {
    RestIsApart(order);
    EmptiedAgree(order[1..], before, mid, after);
  }

  lemma {:induction false} ExhaustedAreEmptied(order: seq<nat>, run: Run, schoolMask: bv8, leg: Leg)
    requires Known(order, run.auras) && Distinct(order)
    ensures var r := UseAll(order, run, schoolMask, leg);
      r.exhausted == run.exhausted + Emptied(order, run.auras, r.auras)
    decreases |order|
  {
    hide Use, Total, SchoolTotal, Emptied;
    if |order| > 0 && run.remaining > 0 {
      var id, more := order[0], order[1..];
      var mid := Use(id, run, schoolMask, leg);
      var r := UseAll(more, mid, schoolMask, leg);
      UseFrame(id, run, schoolMask, leg);
      RestIsApart(order);
      OnlyAmountsDrop(more, mid, schoolMask, leg);
      ExhaustedAreEmptied(more, mid, schoolMask, leg);
      EmptiedNext(order, run.auras, mid.auras, r.auras);
    } else {
      NothingEmptied(order, run.auras);
    }
  }

  // School shields come before all others in the list.
  predicate SchoolsFirst(order: seq<nat>, auras: Auras)
    requires Known(order, auras)
  {
    forall i, j :: 0 <= i < j < |order| && auras[order[j]].auraType == SCHOOL_ABSORB ==>
      auras[order[i]].auraType == SCHOOL_ABSORB
  }

  lemma SortedPutsSchoolsFirst(order: seq<nat>, auras: Auras)
    requires Known(order, auras) && Sorted(order, auras)
    ensures SchoolsFirst(order, auras) && Distinct(order)
  {
    forall i, j | 0 <= i < j < |order|
      ensures auras[order[j]].auraType == SCHOOL_ABSORB ==> auras[order[i]].auraType == SCHOOL_ABSORB
      ensures order[i] != order[j]
    {
      assert Before(order[i], order[j], auras);
    }
  }

  lemma UseSchool(id: nat, run: Run, schoolMask: bv8, leg: Leg)
    requires id in run.auras && !run.auras[id].stopped
    ensures var a := run.auras[id];
      var r := Use(id, run, schoolMask, leg);
      a.auraType == SCHOOL_ABSORB ==>
        && r.mana == run.mana
        && a.amount - r.auras[id].amount == (if Answers(a, schoolMask) then Min(a.amount, run.remaining) else 0)
  {
    hide Overlaps;
  }

  // School shields that answer take what they can before any mana shield does:
  // together the lesser of the damage and their sum, and while that covers the
  // damage no mana shield and no mana is touched.
  lemma {:induction false} SchoolsAbsorbFirst(order: seq<nat>, run: Run, schoolMask: bv8, leg: Leg)
    requires Known(order, run.auras) && Distinct(order) && SchoolsFirst(order, run.auras)
    requires forall i :: 0 <= i < |order| ==> !run.auras[order[i]].stopped
    ensures var r := UseAll(order, run, schoolMask, leg);
      && var all := SchoolTotal(order, run.auras, schoolMask);
      && all - SchoolTotal(order, r.auras, schoolMask) == Min(all, run.remaining)
      && (run.remaining <= all ==> r.remaining == 0 && r.mana == run.mana)
      && (run.remaining <= all ==>
            forall x :: x in order && run.auras[x].auraType != SCHOOL_ABSORB ==> r.auras[x] == run.auras[x])
    decreases |order|
  {
    hide Use, Take, Overlaps, Total;
    if |order| > 0 && run.remaining > 0 {
      var id, more := order[0], order[1..];
      var mid := Use(id, run, schoolMask, leg);
      var r := UseAll(more, mid, schoolMask, leg);
      UseFrame(id, run, schoolMask, leg);
      UseSchool(id, run, schoolMask, leg);
      RestIsApart(order);
      assert forall i :: 0 <= i < |more| ==> more[i] == order[i + 1];
      OnlyAmountsDrop(more, mid, schoolMask, leg);
      TotalsAgree(more, run.auras, mid.auras, schoolMask);
      assert r.auras[id] == mid.auras[id];
      SchoolsAbsorbFirst(more, mid, schoolMask, leg);
      if run.auras[id].auraType != SCHOOL_ABSORB {
        NoSchools(more, run.auras, schoolMask);
      }
    }
  }

  lemma {:induction false} NoSchools(order: seq<nat>, auras: Auras, schoolMask: bv8)
    requires Known(order, auras) && forall i :: 0 <= i < |order| ==> auras[order[i]].auraType != SCHOOL_ABSORB
    ensures SchoolTotal(order, auras, schoolMask) == 0
  {
    if |order| > 0 {
      assert auras[order[0]].auraType != SCHOOL_ABSORB;
      NoSchools(order[1..], auras, schoolMask);
    }
  }

  // A player's mana drops only when some mana shield absorbs.
  lemma {:induction false} ManaBuysAbsorption(order: seq<nat>, run: Run, schoolMask: bv8)
    requires Known(order, run.auras) && Distinct(order)
    ensures var r := UseAll(order, run, schoolMask, Player);
      r.mana < run.mana ==>
        exists x :: x in order && run.auras[x].auraType == MANA_SHIELD && r.auras[x].amount < run.auras[x].amount
    decreases |order|
  {
    if |order| > 0 && run.remaining > 0 {
      var id, more := order[0], order[1..];
      var mid := Use(id, run, schoolMask, Player);
      var r := UseAll(more, mid, schoolMask, Player);
      UseFrame(id, run, schoolMask, Player);
      TakeFits(run.auras[id], run.mana, run.remaining, schoolMask, Player);
      RestIsApart(order);
      OnlyAmountsDrop(more, mid, schoolMask, Player);
      ManaBuysAbsorption(more, mid, schoolMask);
      if mid.mana < run.mana {
        assert id in order && r.auras[id].amount < run.auras[id].amount;
      } else if r.mana < mid.mana {
        var x :| x in more && mid.auras[x].auraType == MANA_SHIELD && r.auras[x].amount < mid.auras[x].amount;
        assert x in order && r.auras[x].amount < run.auras[x].amount;
      }
    }
  }

  predicate Concerned(a: Aura, schoolMask: bv8) {
    Overlaps(a.miscValue, schoolMask) && (a.auraType == SCHOOL_ABSORB || a.auraType == MANA_SHIELD)
  }

  // The first shield of the list that the school concerns.
  function FirstConcerned(order: seq<nat>, auras: Auras, schoolMask: bv8): Option<Aura>
    requires Known(order, auras)
  {
    if |order| == 0 then None
    else if Concerned(auras[order[0]], schoolMask) then Some(auras[order[0]])
    else FirstConcerned(order[1..], auras, schoolMask)
  }

  // One shield of a creature: nothing happens, or damage is absorbed, or the
  // last point of mana is lost.
  lemma UseCreature(id: nat, run: Run, schoolMask: bv8)
    requires id in run.auras && run.remaining > 0 && run.auras[id].amount > 0
    ensures var a := run.auras[id];
      var r := Use(id, run, schoolMask, Creature);
      var mana := a.auraType == MANA_SHIELD;
      var lost := run.mana == 1 && Min(a.amount, run.remaining) >= 2;
      && (!Concerned(a, schoolMask) || (mana && run.mana == 0) ==> r == run)
      && (Concerned(a, schoolMask) && mana && lost ==> r == run.(mana := 0))
      && (Concerned(a, schoolMask) && (!mana || (run.mana > 0 && !lost)) ==> r.remaining < run.remaining)
  {
    hide Overlaps, Buy;
    var a := run.auras[id];
    TakeFits(a, run.mana, run.remaining, schoolMask, Creature);
    CreatureWastesMana(a, run.mana, run.remaining, schoolMask);
    if run.mana > 0 {
      BuyAtOneAndAHalf(Min(a.amount, run.remaining), run.mana);
      BuySpends(Min(a.amount, run.remaining), run.mana);
    }
  }

  lemma BuySpends(candidate: nat, mana: nat)
    requires candidate > 0 && mana > 0
    ensures Buy(candidate, mana, 1.5).mana > 0
  {
    hide Share;
    var cost := Cost(candidate, 1.5);
    assert 3 * candidate < 2 * cost + 2;
  }

  // A creature loses mana and absorbs nothing at all exactly when it has one
  // point of mana and the first shield concerned is a mana shield that would
  // absorb two points or more.
  lemma {:induction false} CreatureWaste(order: seq<nat>, run: Run, schoolMask: bv8)
    requires Known(order, run.auras) && Distinct(order) && SchoolsFirst(order, run.auras) && run.remaining > 0
    requires forall i :: 0 <= i < |order| ==> run.auras[order[i]].amount > 0
    ensures var r := UseAll(order, run, schoolMask, Creature);
      var first := FirstConcerned(order, run.auras, schoolMask);
      r.mana < run.mana && r.remaining == run.remaining <==>
        run.mana == 1 && first.Some? && first.value.auraType == MANA_SHIELD
        && Min(first.value.amount, run.remaining) >= 2
    decreases |order|
  {
    hide Use, Concerned, Total, SchoolTotal, Min;
    if |order| > 0 {
      var id, more := order[0], order[1..];
      var a := run.auras[id];
      var mid := Use(id, run, schoolMask, Creature);
      UseCreature(id, run, schoolMask);
      UseFrame(id, run, schoolMask, Creature);
      RestIsApart(order);
      if !Concerned(a, schoolMask) {
        CreatureWaste(more, run, schoolMask);
      } else {
        OnlyAmountsDrop(more, mid, schoolMask, Creature);
        if mid.remaining == run.remaining {
          OnlyManaShields(order, run.auras);
          NoManaNoChange(more, mid, schoolMask);
        }
      }
    }
  }

  lemma OnlyManaShields(order: seq<nat>, auras: Auras)
    requires Known(order, auras) && SchoolsFirst(order, auras) && |order| > 0
    requires auras[order[0]].auraType != SCHOOL_ABSORB
    ensures forall i :: 0 <= i < |order[1..]| ==> auras[order[1..][i]].auraType != SCHOOL_ABSORB
  {
    forall i | 0 <= i < |order[1..]| ensures auras[order[1..][i]].auraType != SCHOOL_ABSORB {
      assert order[i + 1] == order[1..][i];
    }
  }

  // Such a hit: two points of damage, one point of mana, a shield of two points.
  lemma CreatureWasteExists()
    ensures var shield := Aura(MANA_SHIELD, 0, 1, 2, false, 1.0, None);
      var run := Run(map[7 := shield], 1, 2, []);
      UseAll([7], run, 1, Creature) == run.(mana := 0)
  {
    var shield := Aura(MANA_SHIELD, 0, 1, 2, false, 1.0, None);
    var run := Run(map[7 := shield], 1, 2, []);
    UseCreature(7, run, 1);
    assert Overlaps(1, 1);
    assert Use(7, run, 1, Creature) == run.(mana := 0);
    UseNext([7], run, 1, Creature);
    UseNone([], run.(mana := 0), 1, Creature);
  }

  lemma {:induction false} NoManaNoChange(order: seq<nat>, run: Run, schoolMask: bv8)
    requires Known(order, run.auras) && run.mana == 0
    requires forall i :: 0 <= i < |order| ==> run.auras[order[i]].auraType != SCHOOL_ABSORB
    ensures UseAll(order, run, schoolMask, Creature) == run
    decreases |order|
  {
    if |order| > 0 {
      assert run.auras[order[0]].auraType != SCHOOL_ABSORB;
      NoManaNoChange(order[1..], run, schoolMask);
    }
  }

  // ---------------------------------------------------------------------
  // The victim

  ghost function Active(auras: Auras): set<nat> {
    set id | id in auras && !auras[id].stopped && auras[id].amount > 0
  }

  // The state after a hit: the list of active shields in order is used, and
  // the exhausted ones are removed.
  ghost predicate Absorbs(auras: Auras, mana: nat, damage: nat, schoolMask: bv8, leg: Leg,
                          after: Auras, manaAfter: nat, absorbed: nat, remaining: nat)
  {
    forall order :: InOrder(order, Active(auras), auras) ==>
      var r := UseAll(order, Run(auras, mana, damage, []), schoolMask, leg);
      && after == r.auras - (set id | id in r.exhausted)
      && manaAfter == r.mana && remaining == r.remaining && absorbed == damage - r.remaining
  }

  lemma {:induction false} ListOf(ids: set<nat>) returns (list: seq<nat>)
    ensures Distinct(list) && forall id :: id in list <==> id in ids
    decreases |ids|
  {
    list := [];
    if ids != {} {
      var id :| id in ids;
      var rest := ListOf(ids - {id});
      list := [id] + rest;
    }
  }

  // What a hit does, told without the loop. The damage is absorbed or remains;
  // what is absorbed is what the active shields lose together; school shields
  // that answer give the lesser of their sum and the damage; an aura is removed
  // exactly when it was active and is used up; mana never grows, and a player's
  // mana drops only when something is absorbed.
  lemma HitIsAccounted(auras: Auras, mana: nat, damage: nat, schoolMask: bv8, leg: Leg,
                       after: Auras, manaAfter: nat, absorbed: nat, remaining: nat)
    returns (order: seq<nat>, used: Auras)
    requires Absorbs(auras, mana, damage, schoolMask, leg, after, manaAfter, absorbed, remaining)
    ensures InOrder(order, Active(auras), auras) && used.Keys == auras.Keys
    ensures absorbed + remaining == damage
    ensures Total(order, auras) - Total(order, used) == absorbed
    ensures SchoolTotal(order, auras, schoolMask) - SchoolTotal(order, used, schoolMask)
         == Min(SchoolTotal(order, auras, schoolMask), damage)
    ensures forall id :: id in auras && id !in Active(auras) ==> used[id] == auras[id]
    ensures forall id :: id in auras ==> used[id] == auras[id].(amount := used[id].amount)
    ensures forall id :: id in auras ==> (id !in after <==> id in Active(auras) && used[id].amount == 0)
    ensures forall id :: id in after ==> id in used && after[id] == used[id]
    ensures manaAfter <= mana && (leg == Player && manaAfter < mana ==> absorbed > 0)
  {
    hide UseAll, Active, Emptied, Total, SchoolTotal, Sorted, Min;
    var list := ListOf(Active(auras));
    ActiveAreKnown(list, auras);
    SortOrders(list, Active(auras), auras);
    order := Sort(list, auras);
    var run := Run(auras, mana, damage, []);
    var r := UseAll(order, run, schoolMask, leg);
    used := r.auras;
    SortedPutsSchoolsFirst(order, auras);
    RunIsAccounted(order, run, schoolMask, leg);
    ExhaustedAreEmptied(order, run, schoolMask, leg);
    EmptiedMembers(order, auras, used);
    assert r.exhausted == Emptied(order, auras, used);
    forall id | id in auras ensures id !in after <==> id in Active(auras) && used[id].amount == 0 {
      ActiveHold(id, auras);
    }
  }

  lemma ActiveAreKnown(list: seq<nat>, auras: Auras)
    requires forall id :: id in list <==> id in Active(auras)
    ensures Known(list, auras)
  {
    forall i | 0 <= i < |list| ensures list[i] in auras {
      assert list[i] in Active(auras);
    }
  }

  lemma ActiveHold(id: nat, auras: Auras)
    ensures id in Active(auras) <==> id in auras && auras[id].amount > 0 && !auras[id].stopped
  {
  }

  lemma RunIsAccounted(order: seq<nat>, run: Run, schoolMask: bv8, leg: Leg)
    requires InOrder(order, Active(run.auras), run.auras)
    ensures var r := UseAll(order, run, schoolMask, leg);
      && Total(order, run.auras) - Total(order, r.auras) == run.remaining - r.remaining
      && SchoolTotal(order, run.auras, schoolMask) - SchoolTotal(order, r.auras, schoolMask)
         == Min(SchoolTotal(order, run.auras, schoolMask), run.remaining)
      && (forall id :: id in run.auras && id !in Active(run.auras) ==> r.auras[id] == run.auras[id])
      && (forall id :: id in run.auras ==> r.auras[id] == run.auras[id].(amount := r.auras[id].amount))
      && (leg == Player && r.mana < run.mana ==> r.remaining < run.remaining)
  {
    hide UseAll, Total, SchoolTotal, Min, Active;
    var r := UseAll(order, run, schoolMask, leg);
    SortedPutsSchoolsFirst(order, run.auras);
    OnlyAmountsDrop(order, run, schoolMask, leg);
    LossIsAbsorbed(order, run, schoolMask, leg);
    forall i | 0 <= i < |order| ensures !run.auras[order[i]].stopped {
      assert order[i] in order;
      ActiveHold(order[i], run.auras);
    }
    SchoolsAbsorbFirst(order, run, schoolMask, leg);
    if leg == Player && r.mana < run.mana {
      ManaBuysAbsorption(order, run, schoolMask);
      TotalDrops(order, run.auras, r.auras);
    }
  }

  lemma {:induction false} EmptiedMembers(order: seq<nat>, before: Auras, after: Auras)
    requires Known(order, before) && Known(order, after)
    ensures forall id :: id in Emptied(order, before, after) <==>
      id in order && after[id].amount == 0 < before[id].amount
  {
    if |order| > 0 {
      EmptiedMembers(order[1..], before, after);
      assert forall id :: id in order <==> id == order[0] || id in order[1..];
    }
  }

  // When no amount grew and one dropped, the sum dropped.
  lemma {:induction false} TotalDrops(order: seq<nat>, before: Auras, after: Auras)
    requires Known(order, before) && Known(order, after)
    requires forall id :: id in order ==> after[id].amount <= before[id].amount
    ensures Total(order, after) <= Total(order, before)
    ensures (exists id :: id in order && after[id].amount < before[id].amount) ==>
      Total(order, after) < Total(order, before)
  {
    if |order| > 0 {
      assert order[0] in order;
      assert forall id :: id in order <==> id == order[0] || id in order[1..];
      TotalDrops(order[1..], before, after);
    }
  }

  lemma UseNext(order: seq<nat>, run: Run, schoolMask: bv8, leg: Leg)
    requires Known(order, run.auras) && |order| > 0 && run.remaining > 0
    ensures UseAll(order, run, schoolMask, leg)
      == UseAll(order[1..], Use(order[0], run, schoolMask, leg), schoolMask, leg)
  {
    hide Use;
  }

  lemma UseTakes(id: nat, run: Run, schoolMask: bv8, leg: Leg)
    requires id in run.auras && run.remaining > 0
    ensures var a := run.auras[id];
      var t := Take(a, run.mana, run.remaining, schoolMask, leg);
      && t.absorbed <= a.amount && t.absorbed <= run.remaining && t.mana <= run.mana
      && Use(id, run, schoolMask, leg) ==
           Run(SetAmount(run.auras, id, a.amount - t.absorbed), run.mana - t.mana, run.remaining - t.absorbed,
               if t.absorbed > 0 && t.absorbed == a.amount then run.exhausted + [id] else run.exhausted)
  {
    hide Take;
    var a := run.auras[id];
    TakeFits(a, run.mana, run.remaining, schoolMask, leg);
    assert SetAmount(run.auras, id, a.amount - 0) == run.auras;
  }

  lemma UseNone(order: seq<nat>, run: Run, schoolMask: bv8, leg: Leg)
    requires Known(order, run.auras) && (|order| == 0 || run.remaining == 0)
    ensures UseAll(order, run, schoolMask, leg) == run
  {
  }

  lemma AbsorbsByOrder(start: Run, damage: nat, schoolMask: bv8, leg: Leg, list: seq<nat>,
                       after: Auras, manaAfter: nat, absorbed: nat, remaining: nat)
    requires InOrder(list, Active(start.auras), start.auras)
    requires start.remaining == damage && start.exhausted == []
    requires var r := UseAll(list, start, schoolMask, leg);
      && after == r.auras - (set id | id in r.exhausted)
      && manaAfter == r.mana && remaining == r.remaining && absorbed == damage - r.remaining
    ensures Absorbs(start.auras, start.mana, damage, schoolMask, leg, after, manaAfter, absorbed, remaining)
  {
    hide UseAll, Active;
    forall order | InOrder(order, Active(start.auras), start.auras) ensures order == list {
      OrderIsUnique(order, list, Active(start.auras), start.auras);
    }
  }

  class Victim {
    var auras: Auras
    var mana: nat

    // The map is listed in an arbitrary order.
    method ListShields() returns (list: seq<nat>)
      ensures Known(list, auras) && Distinct(list) && forall id :: id in list <==> id in Active(auras)
    {
      list := [];
      var left := auras.Keys;
      while left != {}
        invariant left <= auras.Keys && Known(list, auras) && Distinct(list)
        invariant forall id :: id in list <==> id in Active(auras) && id !in left
      {
        var id :| id in left;
        left := left - {id};
        if !auras[id].stopped && auras[id].amount > 0 {
          list := list + [id];
        }
      }
    }

    // One shield of a player: its amount and the mana are updated in place.
    method UsePlayerShield(id: nat, remaining: nat, schoolMask: bv8) returns (taken: nat)
      requires id in auras && remaining > 0
      modifies this
      ensures taken == Take(old(auras)[id], old(mana), remaining, schoolMask, Player).absorbed <= old(auras)[id].amount
      ensures auras == SetAmount(old(auras), id, old(auras)[id].amount - taken)
      ensures mana == old(mana) - Take(old(auras)[id], old(mana), remaining, schoolMask, Player).mana
    {
      hide Overlaps, Share, Cost;
      TakeFits(auras[id], mana, remaining, schoolMask, Player);
      var a := auras[id];
      assert SetAmount(auras, id, a.amount - 0) == auras;
      taken := 0;
      if a.stopped || a.amount == 0 {
        return;
      }
      if a.auraType == SCHOOL_ABSORB {
        if Overlaps(a.miscValue, schoolMask) {
          taken := if a.amount > remaining then remaining else a.amount;
          auras := SetAmount(auras, id, a.amount - taken);
        }
        return;
      }
      if a.auraType == MANA_SHIELD && mana > 0 {
        if !Overlaps(a.miscValue, schoolMask) {
          return;
        }
        var multiplier := a.multiplier;
        if multiplier == 0.0 {
          multiplier := 1.0;
        }
        var candidate := if a.amount > remaining then remaining else a.amount;
        var manaReduction := Cost(candidate, multiplier);
        var manaTaken := if mana > manaReduction then manaReduction else mana;
        var possible := candidate;
        if manaReduction > 0 && manaTaken < manaReduction {
          possible := Share(candidate, manaTaken, manaReduction);
        }
        if possible > 0 {
          mana := mana - manaTaken;
          auras := SetAmount(auras, id, a.amount - possible);
          taken := possible;
        }
      }
    }

    // One shield of a creature: the mana is taken first.
    method UseCreatureShield(id: nat, remaining: nat, schoolMask: bv8) returns (taken: nat)
      requires id in auras && remaining > 0
      modifies this
      ensures taken
        == Take(old(auras)[id], old(mana), remaining, schoolMask, Creature).absorbed <= old(auras)[id].amount
      ensures auras == SetAmount(old(auras), id, old(auras)[id].amount - taken)
      ensures mana == old(mana) - Take(old(auras)[id], old(mana), remaining, schoolMask, Creature).mana
    {
      hide Overlaps, Share, Cost;
      TakeFits(auras[id], mana, remaining, schoolMask, Creature);
      var a := auras[id];
      assert SetAmount(auras, id, a.amount - 0) == auras;
      taken := 0;
      if a.auraType == SCHOOL_ABSORB {
        if Overlaps(a.miscValue, schoolMask) {
          taken := if a.amount > remaining then remaining else a.amount;
          auras := SetAmount(auras, id, a.amount - taken);
        }
        return;
      }
      if a.auraType == MANA_SHIELD && mana > 0 {
        if !Overlaps(a.miscValue, schoolMask) {
          return;
        }
        var possible := if a.amount > remaining then remaining else a.amount;
        var neededMana := Cost(possible, 1.5);
        var manaTaken := if mana > neededMana then neededMana else mana;
        mana := mana - manaTaken;
        if neededMana > 0 && manaTaken < neededMana {
          possible := Share(possible, manaTaken, neededMana);
        }
        if possible > 0 {
          auras := SetAmount(auras, id, a.amount - possible);
          taken := possible;
        }
      }
    }

    // Exhausted shields are removed one by one.
    method RemoveExhausted(exhausted: seq<nat>)
      modifies `auras
      ensures auras == old(auras) - (set id | id in exhausted)
    {
      for i := 0 to |exhausted|
        invariant auras == old(auras) - (set id | id in exhausted[..i])
      {
        auras := auras - {exhausted[i]};
        assert exhausted[..i + 1] == exhausted[..i] + [exhausted[i]];
      }
      assert exhausted[..|exhausted|] == exhausted;
    }

    method ApplyAbsorptionShields(damage: nat, schoolMask: bv8) returns (absorbed: nat, remaining: nat)
      modifies this
      ensures Absorbs(old(auras), old(mana), damage, schoolMask, Player, auras, mana, absorbed, remaining)
    {
      hide UseAll, Use, Take, Active, Overlaps;
      absorbed, remaining := 0, damage;
      var list := ListShields();
      SortOrders(list, Active(auras), auras);
      list := Sort(list, auras);
      ghost var start := Run(auras, mana, damage, []);
      var exhausted: seq<nat> := [];
      var i := 0;
      assert list[0..] == list;
      while i < |list| && remaining > 0
        invariant i <= |list| && absorbed + remaining == damage && auras.Keys == start.auras.Keys
        invariant Known(list[i..], auras)
        invariant UseAll(list[i..], Run(auras, mana, remaining, exhausted), schoolMask, Player)
               == UseAll(list, start, schoolMask, Player)
      {
        ghost var before := Run(auras, mana, remaining, exhausted);
        assert list[i..][0] == list[i] && list[i..][1..] == list[i + 1..];
        UseNext(list[i..], before, schoolMask, Player);
        UseTakes(list[i], before, schoolMask, Player);
        var taken := UsePlayerShield(list[i], remaining, schoolMask);
        if taken > 0 {
          remaining := remaining - taken;
          absorbed := absorbed + taken;
          if auras[list[i]].amount == 0 {
            exhausted := exhausted + [list[i]];
          }
        }
        assert Run(auras, mana, remaining, exhausted) == Use(list[i], before, schoolMask, Player);
        i := i + 1;
      }
      UseNone(list[i..], Run(auras, mana, remaining, exhausted), schoolMask, Player);
      RemoveExhausted(exhausted);
      AbsorbsByOrder(start, damage, schoolMask, Player, list, auras, mana, absorbed, remaining);
    }

    method ApplyCreatureAbsorptionShields(damage: nat, schoolMask: bv8) returns (absorbed: nat, remaining: nat)
      modifies this
      ensures Absorbs(old(auras), old(mana), damage, schoolMask, Creature, auras, mana, absorbed, remaining)
    {
      hide UseAll, Use, Take, Active, Overlaps;
      absorbed, remaining := 0, damage;
      var list := ListShields();
      SortOrders(list, Active(auras), auras);
      list := Sort(list, auras);
      ghost var start := Run(auras, mana, damage, []);
      var exhausted: seq<nat> := [];
      var i := 0;
      assert list[0..] == list;
      while i < |list| && remaining > 0
        invariant i <= |list| && absorbed + remaining == damage && auras.Keys == start.auras.Keys
        invariant Known(list[i..], auras)
        invariant UseAll(list[i..], Run(auras, mana, remaining, exhausted), schoolMask, Creature)
               == UseAll(list, start, schoolMask, Creature)
      {
        ghost var before := Run(auras, mana, remaining, exhausted);
        assert list[i..][0] == list[i] && list[i..][1..] == list[i + 1..];
        UseNext(list[i..], before, schoolMask, Creature);
        UseTakes(list[i], before, schoolMask, Creature);
        var taken := UseCreatureShield(list[i], remaining, schoolMask);
        if taken > 0 {
          remaining := remaining - taken;
          absorbed := absorbed + taken;
          if auras[list[i]].amount == 0 {
            exhausted := exhausted + [list[i]];
          }
        }
        assert Run(auras, mana, remaining, exhausted) == Use(list[i], before, schoolMask, Creature);
        i := i + 1;
      }
      UseNone(list[i..], Run(auras, mana, remaining, exhausted), schoolMask, Creature);
      RemoveExhausted(exhausted);
      AbsorbsByOrder(start, damage, schoolMask, Creature, list, auras, mana, absorbed, remaining);
    }
  }
}
