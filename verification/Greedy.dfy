/** Greedy selection within a budget: take every item that still fits, in the given order. */
module Greedy {
  import opened Prelude

  function Sum(costs: seq<nat>): nat {
    if costs == [] then 0 else costs[0] + Sum(costs[1..])
  }

  /** The cost of the items kept. */
  function Total(costs: seq<nat>, keep: seq<bool>): nat
    requires |keep| == |costs|
  {
    if costs == [] then 0 else (if keep[0] then costs[0] else 0) + Total(costs[1..], keep[1..])
  }

  function Select<T>(items: seq<T>, keep: seq<bool>): seq<T>
    requires |keep| == |items|
  {
    if items == [] then [] else (if keep[0] then [items[0]] else []) + Select(items[1..], keep[1..])
  }

  /** Which items the greedy pass keeps; the budget may be negative. */
  function Choose(costs: seq<nat>, budget: int): (keep: seq<bool>)
    ensures |keep| == |costs|
  {
    if costs == [] then []
    else if costs[0] <= budget then [true] + Choose(costs[1..], budget - costs[0])
    else [false] + Choose(costs[1..], budget)
  }

  /** a comes no later than b when, at the first item they treat differently, b keeps it. */
  predicate LexLe(a: seq<bool>, b: seq<bool>)
    requires |a| == |b|
  {
    a == [] || (!a[0] && b[0]) || (a[0] == b[0] && LexLe(a[1..], b[1..]))
  }

  function All(n: nat): (keep: seq<bool>)
    ensures |keep| == n && forall i :: 0 <= i < n ==> keep[i]
  {
    seq(n, _ => true)
  }

  lemma {:induction false} FitsBudget(costs: seq<nat>, budget: int)
    ensures budget >= 0 ==> Total(costs, Choose(costs, budget)) <= budget
    ensures budget < 0 ==>
              Total(costs, Choose(costs, budget)) == 0 && forall i :: 0 <= i < |costs| ==> !Choose(costs, budget)[i]
  {
    if costs != [] {
      FitsBudget(costs[1..], if costs[0] <= budget then budget - costs[0] else budget);
    }
  }

  /** Among all selections within the budget the greedy one is the lexicographically greatest. */
  lemma {:induction false} GreatestWithinBudget(costs: seq<nat>, budget: int, other: seq<bool>)
    requires |other| == |costs| && Total(costs, other) <= budget
    ensures LexLe(other, Choose(costs, budget))
  {
    if costs != [] {
      var keep := Choose(costs, budget);
      if other[0] == keep[0] {
        GreatestWithinBudget(costs[1..], if keep[0] then budget - costs[0] else budget, other[1..]);
      }
    }
  }

  /** What comes later in the order has no influence on what is decided before. */
  lemma {:induction false} ChooseConcat(a: seq<nat>, b: seq<nat>, budget: int)
    ensures Choose(a + b, budget) == Choose(a, budget) + Choose(b, budget - Total(a, Choose(a, budget)))
    decreases |a|
  {
    if a == [] {
      assert a + b == b;
    } else {
      var fits, left := a[0] <= budget, if a[0] <= budget then budget - a[0] else budget;
      assert (a + b)[1..] == a[1..] + b;
      ChooseConcat(a[1..], b, left);
      var early := Choose(a[1..], left);
      assert Choose(a, budget) == [fits] + early && Choose(a + b, budget) == [fits] + Choose(a[1..] + b, left);
      assert left - Total(a[1..], early) == budget - Total(a, Choose(a, budget)) by {
        assert ([fits] + early)[1..] == early;
      }
      Regrouped([fits], early, Choose(b, left - Total(a[1..], early)));
    }
  }

  /** If everything fits together, everything is kept. */
  lemma {:induction false} AllFit(costs: seq<nat>, budget: int)
    requires Sum(costs) <= budget
    ensures Choose(costs, budget) == All(|costs|)
  {
    if costs != [] {
      AllFit(costs[1..], budget - costs[0]);
    }
  }

  lemma {:induction false} NoneFits(costs: seq<nat>, budget: int)
    requires forall i :: 0 <= i < |costs| ==> costs[i] > budget
    ensures forall i :: 0 <= i < |costs| ==> !Choose(costs, budget)[i]
    ensures Total(costs, Choose(costs, budget)) == 0
  {
    if costs != [] {
      NoneFits(costs[1..], budget);
    }
  }

  /** If some item fits on its own, some item is kept. */
  lemma {:induction false} SomeFits(costs: seq<nat>, budget: int, i: nat) returns (k: nat)
    requires i < |costs| && costs[i] <= budget
    ensures k < |costs| && Choose(costs, budget)[k]
  {
    if costs[0] <= budget {
      k := 0;
    } else {
      var k' := SomeFits(costs[1..], budget, i - 1);
      k := k' + 1;
    }
  }

  lemma {:induction false} SumOfSelected(costs: seq<nat>, keep: seq<bool>)
    requires |keep| == |costs|
    ensures Sum(Select<nat>(costs, keep)) == Total(costs, keep)
  {
    if costs != [] {
      SumOfSelected(costs[1..], keep[1..]);
      var rest := Select<nat>(costs[1..], keep[1..]);
      assert ([costs[0]] + rest)[1..] == rest && [] + rest == rest;
    }
  }

  /** Choosing again among what was kept keeps it all. */
  lemma ChooseAgain(costs: seq<nat>, budget: int)
    ensures
      var kept := Select<nat>(costs, Choose(costs, budget));
      Choose(kept, budget) == All(|kept|)
  {
    var keep := Choose(costs, budget);
    FitsBudget(costs, budget);
    SumOfSelected(costs, keep);
    if budget >= 0 {
      AllFit(Select<nat>(costs, keep), budget);
    } else {
      SelectNothing<nat>(costs, keep);
    }
  }

  lemma {:induction false} SelectNothing<T>(items: seq<T>, keep: seq<bool>)
    requires |keep| == |items| && forall i :: 0 <= i < |keep| ==> !keep[i]
    ensures Select(items, keep) == []
  {
    if items != [] {
      SelectNothing(items[1..], keep[1..]);
    }
  }

  /******* When the kept items are exactly the first ones *******/

  /** How many leading items fit together. */
  function Leading(costs: seq<nat>, budget: int): (k: nat)
    ensures k <= |costs|
  {
    if costs == [] || costs[0] > budget then 0 else 1 + Leading(costs[1..], budget - costs[0])
  }

  ghost predicate KeepsOnlyLeading(keep: seq<bool>) {
    forall i, j :: 0 <= i < j < |keep| && keep[j] ==> keep[i]
  }

  ghost predicate AllKept(keep: seq<bool>) {
    forall i :: 0 <= i < |keep| ==> keep[i]
  }

  /** The first k items are kept, the next one does not fit, and the rest is chosen from what is left. */
  ghost predicate KeptUpTo(costs: seq<nat>, keep: seq<bool>, budget: int, k: nat) {
    && k <= |costs| == |keep|
    && AllKept(keep[..k])
    && (k < |costs| ==> !keep[k] && costs[k] > budget - Sum(costs[..k]))
    && keep[k..] == Choose(costs[k..], budget - Sum(costs[..k]))
  }

  lemma KeptUpToCons(cost: nat, costs: seq<nat>, keep: seq<bool>, left: int, k: nat)
    requires KeptUpTo(costs, keep, left, k)
    ensures KeptUpTo([cost] + costs, [true] + keep, left + cost, k + 1)
  {
    ConsSlices(cost, costs, k + 1);
    ConsSlices(true, keep, k + 1);
    assert Sum([cost] + costs[..k]) == cost + Sum(costs[..k]) by {
      assert ([cost] + costs[..k])[1..] == costs[..k];
    }
    assert k < |costs| ==> ([cost] + costs)[k + 1] == costs[k] && ([true] + keep)[k + 1] == keep[k];
  }

  lemma {:induction false} LeadingAreKept(costs: seq<nat>, budget: int)
    ensures KeptUpTo(costs, Choose(costs, budget), budget, Leading(costs, budget))
  {
    if Leading(costs, budget) == 0 {
      assert costs[..0] == [] && costs[0..] == costs;
    } else {
      LeadingAreKept(costs[1..], budget - costs[0]);
      KeptUpToCons(costs[0], costs[1..], Choose(costs[1..], budget - costs[0]), budget - costs[0],
                   Leading(costs, budget) - 1);
      assert costs == [costs[0]] + costs[1..];
    }
  }

  /** The greedy pass drops everything after the first item that does not fit iff none of those later items
      fits into what was left at that point. */
  lemma KeepsOnlyLeadingIff(costs: seq<nat>, budget: int)
    ensures
      var k := Leading(costs, budget);
      KeepsOnlyLeading(Choose(costs, budget)) <==>
        forall j :: k < j < |costs| ==> costs[j] > budget - Sum(costs[..k])
  {
    var k, keep := Leading(costs, budget), Choose(costs, budget);
    assert AllKept(keep[..k]) && (k < |costs| ==> !keep[k]) by {
      LeadingAreKept(costs, budget);
    }
    if forall j :: k < j < |costs| ==> costs[j] > budget - Sum(costs[..k]) {
      NoneAfter(costs, budget);
      forall i, j | 0 <= i < j < |keep| && keep[j]
        ensures keep[i]
      {
        assert keep[..k][i];
      }
    } else {
      var j :| k < j < |costs| && costs[j] <= budget - Sum(costs[..k]);
      var kept := SomeAfter(costs, budget, j);
      assert keep[kept] && !keep[k];
    }
  }

  lemma SomeAfter(costs: seq<nat>, budget: int, j: nat) returns (kept: nat)
    requires
      var k := Leading(costs, budget);
      k < j < |costs| && costs[j] <= budget - Sum(costs[..k])
    ensures Leading(costs, budget) < kept < |costs| && Choose(costs, budget)[kept]
  {
    var k := Leading(costs, budget);
    LeadingAreKept(costs, budget);
    var i := SomeFits(costs[k..], budget - Sum(costs[..k]), j - k);
    kept := k + i;
    assert Choose(costs, budget)[k..][i] == Choose(costs, budget)[kept];
  }

  lemma NoneAfter(costs: seq<nat>, budget: int)
    requires
      var k := Leading(costs, budget);
      forall j :: k < j < |costs| ==> costs[j] > budget - Sum(costs[..k])
    ensures forall i :: Leading(costs, budget) <= i < |costs| ==> !Choose(costs, budget)[i]
  {
    var k, keep := Leading(costs, budget), Choose(costs, budget);
    LeadingAreKept(costs, budget);
    NoneFits(costs[k..], budget - Sum(costs[..k]));
    forall i | k <= i < |costs|
      ensures !keep[i]
    {
      assert keep[k..][i - k] == keep[i];
    }
  }

  /******* The pass, item by item *******/

  /** Item k is kept iff it fits beside what was kept before it. */
  lemma {:induction false} ChooseAt(costs: seq<nat>, budget: int, k: nat)
    requires k < |costs|
    ensures Choose(costs, budget)[k] <==> Total(costs[..k], Choose(costs, budget)[..k]) + costs[k] <= budget
  {
    if k > 0 {
      var keep := Choose(costs, budget);
      var rest, left := costs[1..], if keep[0] then budget - costs[0] else budget;
      ChooseAt(rest, left, k - 1);
      assert costs[..k][1..] == rest[..k - 1] && keep[..k][1..] == Choose(rest, left)[..k - 1];
    }
  }

  lemma {:induction false} TotalSnoc(costs: seq<nat>, keep: seq<bool>, k: nat)
    requires |keep| == |costs| && k < |costs|
    ensures Total(costs[..k + 1], keep[..k + 1]) == Total(costs[..k], keep[..k]) + if keep[k] then costs[k] else 0
  {
    if k > 0 {
      TotalSnoc(costs[1..], keep[1..], k - 1);
      assert costs[..k + 1][1..] == costs[1..][..k] && keep[..k + 1][1..] == keep[1..][..k];
      assert costs[..k][1..] == costs[1..][..k - 1] && keep[..k][1..] == keep[1..][..k - 1];
    }
  }

  lemma {:induction false} SelectSnoc<T>(items: seq<T>, keep: seq<bool>, k: nat)
    requires |keep| == |items| && k < |items|
    ensures Select(items[..k + 1], keep[..k + 1]) == Select(items[..k], keep[..k]) + if keep[k] then [items[k]] else []
  {
    if k > 0 {
      SelectSnoc(items[1..], keep[1..], k - 1);
      assert items[..k + 1][1..] == items[1..][..k] && keep[..k + 1][1..] == keep[1..][..k];
      assert items[..k][1..] == items[1..][..k - 1] && keep[..k][1..] == keep[1..][..k - 1];
    } else {
      assert items[..1] == [items[0]] && items[..1][1..] == [];
    }
  }

  lemma {:induction false} SelectSubset<T>(items: seq<T>, keep: seq<bool>)
    requires |keep| == |items|
    ensures forall x :: x in Select(items, keep) ==> x in items
  {
    if items != [] {
      SelectSubset(items[1..], keep[1..]);
    }
  }

  lemma {:induction false} KeptIsSelected<T>(items: seq<T>, keep: seq<bool>, k: nat)
    requires |keep| == |items| && k < |items| && keep[k]
    ensures items[k] in Select(items, keep)
  {
    if k > 0 {
      KeptIsSelected(items[1..], keep[1..], k - 1);
    }
  }

  /** An item that occurs once is selected exactly when it is kept. */
  lemma SelectedIffKept<T>(items: seq<T>, keep: seq<bool>, k: nat)
    requires |keep| == |items| && k < |items| && multiset(items)[items[k]] == 1
    ensures items[k] in Select(items, keep) <==> keep[k]
    ensures items[k] in Select(items, Negated(keep)) <==> !keep[k]
  {
    SelectPartition(items, keep);
    var kept, dropped := Select(items, keep), Select(items, Negated(keep));
    assert multiset(kept)[items[k]] + multiset(dropped)[items[k]] == 1;
    if keep[k] {
      KeptIsSelected(items, keep, k);
      assert items[k] in multiset(kept);
    } else {
      KeptIsSelected(items, Negated(keep), k);
      assert items[k] in multiset(dropped);
    }
  }

  function Negated(keep: seq<bool>): (r: seq<bool>)
    ensures |r| == |keep| && forall i :: 0 <= i < |keep| ==> r[i] == !keep[i]
  {
    seq(|keep|, i requires 0 <= i < |keep| => !keep[i])
  }

  lemma SelectCons<T>(items: seq<T>, keep: seq<bool>)
    requires |keep| == |items| && items != []
    ensures multiset(Select(items, keep)) ==
            (if keep[0] then multiset{items[0]} else multiset{}) + multiset(Select(items[1..], keep[1..]))
  {
    var later := Select(items[1..], keep[1..]);
    assert !keep[0] ==> [] + later == later;
  }

  lemma NegatedCons(keep: seq<bool>)
    requires keep != []
    ensures Negated(keep)[0] == !keep[0] && Negated(keep)[1..] == Negated(keep[1..])
  {
  }

  /** One more element goes to one of the two sides. */
  lemma OneMore<T>(x: T, left: bool, a: multiset<T>, b: multiset<T>)
    ensures ((if left then multiset{x} else multiset{}) + a) + ((if !left then multiset{x} else multiset{}) + b) ==
            multiset{x} + (a + b)
  {
  }

  /** Kept and dropped items together are the items. */
  lemma {:induction false} SelectPartition<T>(items: seq<T>, keep: seq<bool>)
    requires |keep| == |items|
    ensures multiset(Select(items, keep)) + multiset(Select(items, Negated(keep))) == multiset(items)
  {
    if items != [] {
      var rest, later := items[1..], keep[1..];
      SelectPartition(rest, later);
      SelectCons(items, keep);
      NegatedCons(keep);
      SelectCons(items, Negated(keep));
      OneMore(items[0], keep[0], multiset(Select(rest, later)), multiset(Select(rest, Negated(later))));
      assert items == [items[0]] + rest;
    }
  }
}
