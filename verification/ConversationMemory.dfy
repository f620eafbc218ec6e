/** Trimming a conversation to a token budget: system turns stay, the others are chosen newest first. */
module ConversationMemory {
  import opened Prelude
  import opened Greedy

  datatype TurnRole = User | Assistant | System

  class Turn {
    const role: TurnRole
    const content: string
    var tokenCount: nat

    constructor (role: TurnRole, content: string, tokenCount: nat)
      ensures this.role == role && this.content == content && this.tokenCount == tokenCount
    {
      this.role, this.content, this.tokenCount := role, content, tokenCount;
    }
  }

  /** What trimming looks at in a turn: whether it must stay, and its cost. */
  datatype Item = Item(pinned: bool, cost: nat)

  function PinnedCost(items: seq<Item>): nat {
    if items == [] then 0 else (if items[0].pinned then items[0].cost else 0) + PinnedCost(items[1..])
  }

  /** The costs of the turns that may be dropped, oldest first. */
  function OtherCosts(items: seq<Item>): seq<nat> {
    if items == [] then [] else (if items[0].pinned then [] else [items[0].cost]) + OtherCosts(items[1..])
  }

  /** The costs of the turns that may be dropped, newest first. */
  function NewestCosts(items: seq<Item>): (costs: seq<nat>)
    ensures |costs| == |OtherCosts(items)|
  {
    Reversed<nat>(OtherCosts(items))
  }

  /** The decisions about those turns, newest first. */
  function NewestFirst(items: seq<Item>, budget: int): (keep: seq<bool>)
    ensures |keep| == |OtherCosts(items)|
  {
    Choose(NewestCosts(items), budget - PinnedCost(items))
  }

  /** The decisions about all turns, given those about the others, oldest first. */
  function Woven(items: seq<Item>, others: seq<bool>): (keep: seq<bool>)
    requires |others| == |OtherCosts(items)|
    ensures |keep| == |items|
  {
    if items == [] then []
    else if items[0].pinned then [true] + Woven(items[1..], others)
    else [others[0]] + Woven(items[1..], others[1..])
  }

  /** Which turns trimming keeps. */
  function Kept(items: seq<Item>, budget: int): (keep: seq<bool>)
    ensures |keep| == |items|
  {
    Woven(items, Reversed(NewestFirst(items, budget)))
  }

  function Cost(items: seq<Item>, keep: seq<bool>): nat
    requires |keep| == |items|
  {
    if items == [] then 0 else (if keep[0] then items[0].cost else 0) + Cost(items[1..], keep[1..])
  }

  /** The decisions a selection makes about the turns that may be dropped, oldest first. */
  function OthersOf(items: seq<Item>, keep: seq<bool>): (others: seq<bool>)
    requires |keep| == |items|
    ensures |others| == |OtherCosts(items)|
  {
    if items == [] then []
    else if items[0].pinned then OthersOf(items[1..], keep[1..])
    else [keep[0]] + OthersOf(items[1..], keep[1..])
  }

  ghost predicate KeepsPinned(items: seq<Item>, keep: seq<bool>)
    requires |keep| == |items|
  {
    forall i :: 0 <= i < |items| && items[i].pinned ==> keep[i]
  }

  /******* Properties *******/

  lemma {:induction false} WovenProperties(items: seq<Item>, others: seq<bool>)
    requires |others| == |OtherCosts(items)|
    ensures KeepsPinned(items, Woven(items, others))
    ensures OthersOf(items, Woven(items, others)) == others
  {
    if items != [] {
      WovenProperties(items[1..], if items[0].pinned then others else others[1..]);
    }
  }

  lemma {:induction false} CostSplits(items: seq<Item>, keep: seq<bool>)
    requires |keep| == |items| && KeepsPinned(items, keep)
    ensures Cost(items, keep) == PinnedCost(items) + Total(OtherCosts(items), OthersOf(items, keep))
  {
    if items != [] {
      assert KeepsPinned(items[1..], keep[1..]) by {
        assert forall i :: 0 <= i < |items[1..]| ==> items[1..][i] == items[i + 1] && keep[1..][i] == keep[i + 1];
      }
      CostSplits(items[1..], keep[1..]);
      var rest, flags := OtherCosts(items[1..]), OthersOf(items[1..], keep[1..]);
      assert ([items[0].cost] + rest)[1..] == rest && ([keep[0]] + flags)[1..] == flags;
      assert [] + rest == rest;
    }
  }

  lemma {:induction false} TotalOfConcat(a: seq<nat>, b: seq<nat>, keepA: seq<bool>, keepB: seq<bool>)
    requires |keepA| == |a| && |keepB| == |b|
    ensures Total(a + b, keepA + keepB) == Total(a, keepA) + Total(b, keepB)
  {
    if a == [] {
      assert a + b == b && keepA + keepB == keepB;
    } else {
      assert (a + b)[1..] == a[1..] + b && (keepA + keepB)[1..] == keepA[1..] + keepB;
      TotalOfConcat(a[1..], b, keepA[1..], keepB);
    }
  }

  lemma {:induction false} TotalReversed(costs: seq<nat>, keep: seq<bool>)
    requires |keep| == |costs|
    ensures Total(Reversed<nat>(costs), Reversed(keep)) == Total(costs, keep)
  {
    if costs != [] {
      TotalReversed(costs[1..], keep[1..]);
      TotalOfConcat(Reversed<nat>(costs[1..]), [costs[0]], Reversed(keep[1..]), [keep[0]]);
      assert [costs[0]][1..] == [];
    }
  }

  lemma KeptCost(items: seq<Item>, budget: int)
    ensures KeepsPinned(items, Kept(items, budget))
    ensures Reversed(OthersOf(items, Kept(items, budget))) == NewestFirst(items, budget)
    ensures Cost(items, Kept(items, budget)) ==
              PinnedCost(items) + Total(NewestCosts(items), NewestFirst(items, budget))
  {
    var newest := NewestFirst(items, budget);
    WovenProperties(items, Reversed(newest));
    CostSplits(items, Kept(items, budget));
    TotalReversed(NewestCosts(items), newest);
    ReversedTwice<nat>(OtherCosts(items));
    ReversedTwice(newest);
  }

  /** Every system turn stays, and the result fits the budget iff the system turns alone do. */
  lemma FitsBudgetIff(items: seq<Item>, budget: int)
    ensures KeepsPinned(items, Kept(items, budget))
    ensures Cost(items, Kept(items, budget)) <= budget <==> PinnedCost(items) <= budget
  {
    KeptCost(items, budget);
    FitsBudget(NewestCosts(items), budget - PinnedCost(items));
  }

  /** The decisions a selection makes about the turns that may be dropped, newest first. */
  function NewestDecisions(items: seq<Item>, keep: seq<bool>): (r: seq<bool>)
    requires |keep| == |items|
    ensures |r| == |OtherCosts(items)|
  {
    Reversed(OthersOf(items, keep))
  }

  lemma KeptDecisions(items: seq<Item>, budget: int)
    ensures NewestDecisions(items, Kept(items, budget)) == NewestFirst(items, budget)
  {
    KeptCost(items, budget);
  }

  lemma OthersTotal(items: seq<Item>, keep: seq<bool>)
    requires |keep| == |items| && KeepsPinned(items, keep)
    ensures Total(NewestCosts(items), NewestDecisions(items, keep)) == Cost(items, keep) - PinnedCost(items)
  {
    CostSplits(items, keep);
    TotalReversed(OtherCosts(items), OthersOf(items, keep));
  }

  /** Among all selections that keep the system turns and fit the budget, the other turns are chosen
      lexicographically greatest from newest to oldest. */
  lemma NewestTurnsPreferred(items: seq<Item>, budget: int, other: seq<bool>)
    requires |other| == |items| && KeepsPinned(items, other) && Cost(items, other) <= budget
    ensures LexLe(NewestDecisions(items, other), NewestDecisions(items, Kept(items, budget)))
  {
    var costs, mine, left := NewestCosts(items), NewestDecisions(items, other), budget - PinnedCost(items);
    assert Total(costs, mine) <= left by { OthersTotal(items, other); }
    assert LexLe(mine, Choose(costs, left)) by { GreatestWithinBudget(costs, left, mine); }
    assert NewestDecisions(items, Kept(items, budget)) == Choose(costs, left) by { KeptDecisions(items, budget); }
  }

  /** The documentation says the oldest turns are dropped first. That holds, in that the turns dropped are all older
      than those kept, iff no turn older than the newest one that does not fit would itself fit into what was left
      there. */
  lemma OldestDroppedFirstIff(items: seq<Item>, budget: int, k: nat)
    requires k == Leading(NewestCosts(items), budget - PinnedCost(items))
    ensures
      var (costs, left) := (NewestCosts(items), budget - PinnedCost(items));
      KeepsOnlyLeading(NewestDecisions(items, Kept(items, budget))) <==>
        forall j :: k < j < |costs| ==> costs[j] > left - Sum(costs[..k])
  {
    KeptDecisions(items, budget);
    KeepsOnlyLeadingIff(NewestCosts(items), budget - PinnedCost(items));
  }

  lemma {:induction false} SelectedItems(items: seq<Item>, keep: seq<bool>)
    requires |keep| == |items| && KeepsPinned(items, keep)
    ensures PinnedCost(Select(items, keep)) == PinnedCost(items)
    ensures OtherCosts(Select(items, keep)) == Select<nat>(OtherCosts(items), OthersOf(items, keep))
  {
    if items != [] {
      assert KeepsPinned(items[1..], keep[1..]) by {
        assert forall i :: 0 <= i < |items[1..]| ==> items[1..][i] == items[i + 1] && keep[1..][i] == keep[i + 1];
      }
      SelectedItems(items[1..], keep[1..]);
      var rest := Select(items[1..], keep[1..]);
      assert ([items[0]] + rest)[1..] == rest && [] + rest == rest;
      var others, flags := OtherCosts(items[1..]), OthersOf(items[1..], keep[1..]);
      assert ([items[0].cost] + others)[1..] == others && ([keep[0]] + flags)[1..] == flags;
      assert [] + others == others;
    }
  }

  lemma {:induction false} SelectConcat<T>(a: seq<T>, b: seq<T>, keepA: seq<bool>, keepB: seq<bool>)
    requires |keepA| == |a| && |keepB| == |b|
    ensures Select(a + b, keepA + keepB) == Select(a, keepA) + Select(b, keepB)
  {
    if a == [] {
      assert a + b == b && keepA + keepB == keepB && [] + Select(b, keepB) == Select(b, keepB);
    } else {
      assert (a + b)[1..] == a[1..] + b && (keepA + keepB)[1..] == keepA[1..] + keepB;
      SelectConcat(a[1..], b, keepA[1..], keepB);
      var first := if keepA[0] then [a[0]] else [];
      assert first + (Select(a[1..], keepA[1..]) + Select(b, keepB)) ==
             (first + Select(a[1..], keepA[1..])) + Select(b, keepB);
    }
  }

  lemma {:induction false} SelectReversed<T>(items: seq<T>, keep: seq<bool>)
    requires |keep| == |items|
    ensures Select(Reversed(items), Reversed(keep)) == Reversed(Select(items, keep))
  {
    if items != [] {
      SelectReversed(items[1..], keep[1..]);
      SelectConcat(Reversed(items[1..]), [items[0]], Reversed(keep[1..]), [keep[0]]);
      assert [items[0]][1..] == [];
      var rest := Select(items[1..], keep[1..]);
      assert ([items[0]] + rest)[1..] == rest && [] + rest == rest && Reversed(rest) + [] == Reversed(rest);
    }
  }

  lemma {:induction false} WovenAll(items: seq<Item>, others: seq<bool>)
    requires |others| == |OtherCosts(items)| && others == All(|others|)
    ensures Woven(items, others) == All(|items|)
  {
    if items != [] {
      if items[0].pinned {
        WovenAll(items[1..], others);
      } else {
        assert others[1..] == All(|others| - 1);
        WovenAll(items[1..], others[1..]);
      }
    }
  }

  lemma ReversedAll(n: nat)
    ensures Reversed(All(n)) == All(n)
  {
    forall i | 0 <= i < n
      ensures Reversed(All(n))[i]
    {
      ReversedAt(All(n), i);
    }
  }

  /** Trimming what is already trimmed keeps everything. */
  lemma TrimmingIsIdempotent(items: seq<Item>, budget: int)
    ensures
      var kept := Select(items, Kept(items, budget));
      Kept(kept, budget) == All(|kept|)
  {
    var keep := Kept(items, budget);
    var kept := Select(items, keep);
    KeptCost(items, budget);
    SelectedItems(items, keep);
    SelectReversed<nat>(OtherCosts(items), OthersOf(items, keep));
    ChooseAgain(NewestCosts(items), budget - PinnedCost(items));
    assert NewestFirst(kept, budget) == All(|OtherCosts(kept)|);
    ReversedAll(|OtherCosts(kept)|);
    WovenAll(kept, Reversed(NewestFirst(kept, budget)));
  }

  /******* The method *******/

  /** The count a turn has once a missing count is filled in. */
  function CountedTokens(before: nat, content: string, count: string -> nat): nat {
    if before == 0 then count(content) else before
  }

  function ItemsOf(turns: seq<Turn>, preserveSystem: bool): (items: seq<Item>)
    reads turns
    ensures |items| == |turns|
    ensures forall i :: 0 <= i < |turns| ==>
            items[i] == Item(preserveSystem && turns[i].role == System, turns[i].tokenCount)
  {
    if turns == [] then []
    else [Item(preserveSystem && turns[0].role == System, turns[0].tokenCount)] + ItemsOf(turns[1..], preserveSystem)
  }

  function TokenSum(turns: seq<Turn>): nat
    reads turns
  {
    if turns == [] then 0 else turns[0].tokenCount + TokenSum(turns[1..])
  }

  /** The turns whose items are, or are not, pinned. */
  function Partitioned(turns: seq<Turn>, items: seq<Item>, pinned: bool): (part: seq<Turn>)
    requires |items| == |turns|
    ensures !pinned ==> |part| == |OtherCosts(items)|
  {
    if turns == [] then []
    else (if items[0].pinned == pinned then [turns[0]] else []) + Partitioned(turns[1..], items[1..], pinned)
  }

  function Elements(turns: seq<Turn>): set<Turn> {
    set t | t in turns
  }

  function Members(turns: seq<Turn>, among: set<Turn>): seq<Turn> {
    if turns == [] then [] else (if turns[0] in among then [turns[0]] else []) + Members(turns[1..], among)
  }

  lemma {:induction false} PartitionMembers(turns: seq<Turn>, items: seq<Item>, pinned: bool)
    requires |items| == |turns|
    ensures forall t :: t in Partitioned(turns, items, pinned) ==> t in turns
    ensures forall i :: 0 <= i < |turns| && items[i].pinned == pinned ==> turns[i] in Partitioned(turns, items, pinned)
  {
    if turns != [] {
      PartitionMembers(turns[1..], items[1..], pinned);
      forall i | 0 <= i < |turns| && items[i].pinned == pinned
        ensures turns[i] in Partitioned(turns, items, pinned)
      {
        if i > 0 {
          assert turns[1..][i - 1] == turns[i] && items[1..][i - 1] == items[i];
        }
      }
    }
  }

  lemma {:induction false} PartitionDisjoint(turns: seq<Turn>, items: seq<Item>)
    requires |items| == |turns| && Distinct(turns)
    ensures Distinct(Partitioned(turns, items, false))
    ensures forall t :: t in Partitioned(turns, items, false) ==> t !in Partitioned(turns, items, true)
  {
    if turns != [] {
      assert Distinct(turns[1..]);
      assert turns[0] !in turns[1..];
      PartitionDisjoint(turns[1..], items[1..]);
      PartitionMembers(turns[1..], items[1..], false);
      PartitionMembers(turns[1..], items[1..], true);
    }
  }

  lemma {:induction false} PartitionTokens(turns: seq<Turn>, items: seq<Item>)
    requires |items| == |turns| && forall i :: 0 <= i < |turns| ==> items[i].cost == turns[i].tokenCount
    ensures TokenSum(Partitioned(turns, items, true)) == PinnedCost(items)
    ensures |Partitioned(turns, items, false)| == |OtherCosts(items)|
    ensures forall j :: 0 <= j < |OtherCosts(items)| ==>
            Partitioned(turns, items, false)[j].tokenCount == OtherCosts(items)[j]
  {
    if turns != [] {
      var ts, its := turns[1..], items[1..];
      assert forall i :: 0 <= i < |ts| ==> its[i] == items[i + 1] && ts[i] == turns[i + 1];
      PartitionTokens(ts, its);
      var system, others, costs := Partitioned(ts, its, true), Partitioned(ts, its, false), OtherCosts(its);
      if items[0].pinned {
        assert Partitioned(turns, items, true) == [turns[0]] + system && ([turns[0]] + system)[1..] == system;
        assert [] + others == others && [] + costs == costs;
      } else {
        assert [] + system == system;
        assert Partitioned(turns, items, false) == [turns[0]] + others && OtherCosts(items) == [items[0].cost] + costs;
      }
    }
  }

  lemma WovenCons(turns: seq<Turn>, items: seq<Item>, others: seq<bool>)
    requires |items| == |turns| && |others| == |OtherCosts(items)| && turns != []
    ensures
      var first, later := items[0].pinned || others[0], if items[0].pinned then others else others[1..];
      && |later| == |OtherCosts(items[1..])|
      && Select(turns, Woven(items, others)) ==
         (if first then [turns[0]] else []) + Select(turns[1..], Woven(items[1..], later))
  {
    var first, later := items[0].pinned || others[0], if items[0].pinned then others else others[1..];
    assert Woven(items, others) == [first] + Woven(items[1..], later);
  }

  /** Keeping the members of a set is weaving in decisions that agree with membership. */
  lemma {:induction false} MembersAreWoven(turns: seq<Turn>, items: seq<Item>, others: seq<bool>, among: set<Turn>)
    requires |items| == |turns| && |others| == |OtherCosts(items)| == |Partitioned(turns, items, false)|
    requires forall i :: 0 <= i < |turns| && items[i].pinned ==> turns[i] in among
    requires forall j :: 0 <= j < |others| ==> (Partitioned(turns, items, false)[j] in among <==> others[j])
    ensures Members(turns, among) == Select(turns, Woven(items, others))
  {
    if turns != [] {
      var rest := Partitioned(turns[1..], items[1..], false);
      assert forall i :: 0 <= i < |turns[1..]| ==> items[1..][i] == items[i + 1] && turns[1..][i] == turns[i + 1];
      if items[0].pinned {
        assert [] + rest == rest;
        MembersAreWoven(turns[1..], items[1..], others, among);
        WovenCons(turns, items, others);
      } else {
        var all, later := Partitioned(turns, items, false), others[1..];
        assert all == [turns[0]] + rest && all[0] == turns[0];
        assert forall j :: 0 <= j < |rest| ==> rest[j] == all[j + 1] && later[j] == others[j + 1];
        MembersAreWoven(turns[1..], items[1..], later, among);
        WovenCons(turns, items, others);
      }
    }
  }

  lemma {:induction false} SelectedIffKept<T>(items: seq<T>, keep: seq<bool>)
    requires |keep| == |items| && Distinct(items)
    ensures forall j :: 0 <= j < |items| ==> (items[j] in Select(items, keep) <==> keep[j])
  {
    if items != [] {
      assert Distinct(items[1..]);
      SelectedIffKept(items[1..], keep[1..]);
      SelectSubset(items[1..], keep[1..]);
      forall j | 0 <= j < |items|
        ensures items[j] in Select(items, keep) <==> keep[j]
      {
        if j > 0 {
          assert items[1..][j - 1] == items[j] && keep[1..][j - 1] == keep[j] && items[j] != items[0];
        } else {
          assert items[0] !in items[1..];
        }
      }
    }
  }

  lemma {:induction false} SelectedTokens(turns: seq<Turn>, items: seq<Item>, keep: seq<bool>)
    requires |items| == |turns| == |keep| && forall i :: 0 <= i < |turns| ==> items[i].cost == turns[i].tokenCount
    ensures TokenSum(Select(turns, keep)) == Cost(items, keep)
  {
    if turns != [] {
      assert forall i :: 0 <= i < |turns[1..]| ==> items[1..][i] == items[i + 1] && turns[1..][i] == turns[i + 1];
      SelectedTokens(turns[1..], items[1..], keep[1..]);
      var rest := Select(turns[1..], keep[1..]);
      assert ([turns[0]] + rest)[1..] == rest && [] + rest == rest;
    }
  }

  method FillCounts(turns: seq<Turn>, count: string -> nat)
    modifies turns
    ensures forall t :: t in turns && old(t.tokenCount) == 0 ==> t.tokenCount == count(t.content)
    ensures forall t :: t in turns && old(t.tokenCount) != 0 ==> t.tokenCount == old(t.tokenCount)
  {
    for i := 0 to |turns|
      invariant forall t :: t in turns && t in turns[..i] ==>
                t.tokenCount == CountedTokens(old(t.tokenCount), t.content, count)
      invariant forall t :: t in turns && t !in turns[..i] ==> t.tokenCount == old(t.tokenCount)
    {
      assert turns[..i + 1] == turns[..i] + [turns[i]];
      if turns[i].tokenCount == 0 {
        turns[i].tokenCount := count(turns[i].content);
      }
    }
    assert turns[..|turns|] == turns;
  }

  method SumTokens(turns: seq<Turn>) returns (sum: nat)
    ensures sum == TokenSum(turns)
  {
    sum := 0;
    for i := 0 to |turns|
      invariant TokenSum(turns) == sum + TokenSum(turns[i..])
    {
      sum := sum + turns[i].tokenCount;
    }
  }

  ghost predicate CountsAre(turns: seq<Turn>, costs: seq<nat>)
    reads turns
  {
    |costs| == |turns| && forall j :: 0 <= j < |turns| ==> turns[j].tokenCount == costs[j]
  }

  /** Newest first, keep what still fits; returned oldest first. */
  method KeepNewest(others: seq<Turn>, ghost costs: seq<nat>, budget: int) returns (kept: seq<Turn>)
    requires CountsAre(others, costs)
    ensures kept == Select(others, Reversed(Choose(Reversed<nat>(costs), budget)))
  {
    var remaining, newest := budget, Reversed(others);
    ghost var newestCosts := Reversed<nat>(costs);
    ghost var keep := Choose(newestCosts, budget);
    var chosen: seq<Turn> := [];
    for k := 0 to |newest|
      invariant chosen == Select(newest[..k], keep[..k])
      invariant remaining == budget - Total(newestCosts[..k], keep[..k])
    {
      ReversedAt(others, k);
      ReversedAt<nat>(costs, k);
      ChooseAt(newestCosts, budget, k);
      TotalSnoc(newestCosts, keep, k);
      SelectSnoc(newest, keep, k);
      if remaining >= newest[k].tokenCount {
        chosen := chosen + [newest[k]];
        remaining := remaining - newest[k].tokenCount;
      }
    }
    assert newest[..|newest|] == newest && keep[..|newest|] == keep;
    kept := Reversed(chosen);
    SelectReversed(newest, keep);
    ReversedTwice(others);
  }

  lemma MembersUnfold(merged: seq<Turn>, turns: seq<Turn>, i: nat, among: set<Turn>)
    requires i < |turns|
    ensures merged + Members(turns[i..], among) ==
            (if turns[i] in among then merged + [turns[i]] else merged) + Members(turns[i + 1..], among)
  {
    var first, later := [turns[i]], Members(turns[i + 1..], among);
    assert turns[i..][0] == turns[i] && turns[i..][1..] == turns[i + 1..];
    if turns[i] in among {
      assert Members(turns[i..], among) == first + later;
      Regrouped(merged, first, later);
    } else {
      assert [] + later == later;
    }
  }

  method MergePreservingOrder(original: seq<Turn>, system: seq<Turn>, others: seq<Turn>) returns (merged: seq<Turn>)
    ensures merged == Members(original, Elements(system) + Elements(others))
  {
    var among := Elements(system) + Elements(others);
    merged := [];
    for i := 0 to |original|
      invariant Members(original, among) == merged + Members(original[i..], among)
    {
      var t := original[i];
      MembersUnfold(merged, original, i, among);
      if t in among {
        merged := merged + [t];
      }
    }
    assert original[|original|..] == [] && merged + [] == merged;
  }

  /** The turns returned, in order: those that must stay and the others chosen, wherever their objects occur. */
  function Trimmed(turns: seq<Turn>, items: seq<Item>, budget: int): seq<Turn>
    requires |items| == |turns|
  {
    var system, others := Partitioned(turns, items, true), Partitioned(turns, items, false);
    Members(turns, Elements(system) + Elements(Select(others, Reversed(NewestFirst(items, budget)))))
  }

  /** When no object occurs twice the turns returned are those kept, and cost what was planned. */
  method TrimToBudget(turns: seq<Turn>, budget: int, count: string -> nat, preserveSystem: bool)
    returns (finalTurns: seq<Turn>, total: nat)
    modifies turns
    ensures forall t :: t in turns && old(t.tokenCount) == 0 ==> t.tokenCount == count(t.content)
    ensures forall t :: t in turns && old(t.tokenCount) != 0 ==> t.tokenCount == old(t.tokenCount)
    ensures
      var items := ItemsOf(turns, preserveSystem);
      && finalTurns == Trimmed(turns, items, budget) && total == TokenSum(finalTurns)
      && (Distinct(turns) ==>
            finalTurns == Select(turns, Kept(items, budget)) && total == Cost(items, Kept(items, budget)))
  {
    FillCounts(turns, count);
    finalTurns, total := TrimCounted(turns, budget, preserveSystem);
    if Distinct(turns) {
      TrimmedIsKept(turns, preserveSystem, budget);
    }
  }

  lemma TrimmedIs(turns: seq<Turn>, items: seq<Item>, budget: int, system: seq<Turn>, others: seq<Turn>,
                  kept: seq<Turn>)
    requires |items| == |turns|
    requires system == Partitioned(turns, items, true) && others == Partitioned(turns, items, false)
    requires kept == Select(others, Reversed(Choose(Reversed<nat>(OtherCosts(items)), budget - PinnedCost(items))))
    ensures Trimmed(turns, items, budget) == Members(turns, Elements(system) + Elements(kept))
  {
  }

  /** With preserveSystem no system turn is dropped, and without it every turn may be. */
  lemma SystemTurnsStay(turns: seq<Turn>, budget: int, t: Turn)
    requires t in turns
    ensures t.role == System ==> t in Trimmed(turns, ItemsOf(turns, true), budget)
    ensures Partitioned(turns, ItemsOf(turns, false), true) == []
  {
    PartitionMembers(turns, ItemsOf(turns, true), true);
    MembersOf(turns, Elements(Partitioned(turns, ItemsOf(turns, true), true)) +
                     Elements(Select(Partitioned(turns, ItemsOf(turns, true), false),
                                     Reversed(NewestFirst(ItemsOf(turns, true), budget)))));
    NonePinned(turns, ItemsOf(turns, false));
  }

  lemma {:induction false} MembersOf(turns: seq<Turn>, among: set<Turn>)
    ensures forall t :: t in Members(turns, among) <==> t in turns && t in among
  {
    if turns != [] {
      MembersOf(turns[1..], among);
    }
  }

  lemma {:induction false} NonePinned(turns: seq<Turn>, items: seq<Item>)
    requires |items| == |turns| && forall i :: 0 <= i < |items| ==> !items[i].pinned
    ensures Partitioned(turns, items, true) == []
  {
    if turns != [] {
      NonePinned(turns[1..], items[1..]);
    }
  }

  /** Trimming once every turn has its count. */
  method TrimCounted(turns: seq<Turn>, budget: int, preserveSystem: bool) returns (finalTurns: seq<Turn>, total: nat)
    ensures finalTurns == Trimmed(turns, ItemsOf(turns, preserveSystem), budget) && total == TokenSum(finalTurns)
  {
    ghost var items := ItemsOf(turns, preserveSystem);
    var system, others := PartitionTurns(turns, items, preserveSystem);
    ghost var costs := OtherCosts(items);
    assert TokenSum(system) == PinnedCost(items) && CountsAre(others, costs) by {
      PartitionTokens(turns, items);
    }
    var systemCost := SumTokens(system);
    var keptOthers := KeepNewest(others, costs, budget - systemCost);
    assert Trimmed(turns, items, budget) == Members(turns, Elements(system) + Elements(keptOthers)) by {
      TrimmedIs(turns, items, budget, system, others, keptOthers);
    }
    finalTurns := MergePreservingOrder(turns, system, keptOthers);
    total := SumTokens(finalTurns);
    assert items == ItemsOf(turns, preserveSystem);
  }

  lemma TrimmedIsKept(turns: seq<Turn>, preserveSystem: bool, budget: int)
    requires Distinct(turns)
    ensures
      var items := ItemsOf(turns, preserveSystem);
      var kept := Select(turns, Kept(items, budget));
      Trimmed(turns, items, budget) == kept && TokenSum(kept) == Cost(items, Kept(items, budget))
  {
    var items := ItemsOf(turns, preserveSystem);
    MergedIsKept(turns, items, budget);
    SelectedTokens(turns, items, Kept(items, budget));
  }

  lemma PartitionUnfold(part: seq<Turn>, turns: seq<Turn>, items: seq<Item>, i: nat, pinned: bool)
    requires |items| == |turns| && i < |turns|
    ensures part + Partitioned(turns[i..], items[i..], pinned) ==
            (if items[i].pinned == pinned then part + [turns[i]] else part) +
              Partitioned(turns[i + 1..], items[i + 1..], pinned)
  {
    var first, later := [turns[i]], Partitioned(turns[i + 1..], items[i + 1..], pinned);
    assert turns[i..][1..] == turns[i + 1..] && items[i..][1..] == items[i + 1..];
    if items[i].pinned == pinned {
      assert Partitioned(turns[i..], items[i..], pinned) == first + later;
      Regrouped(part, first, later);
    } else {
      assert [] + later == later;
    }
  }

  method PartitionTurns(turns: seq<Turn>, ghost items: seq<Item>, preserveSystem: bool)
    returns (system: seq<Turn>, others: seq<Turn>)
    requires |items| == |turns| && forall i :: 0 <= i < |turns| ==>
             items[i].pinned == (preserveSystem && turns[i].role == System)
    ensures system == Partitioned(turns, items, true) && others == Partitioned(turns, items, false)
  {
    system, others := [], [];
    for i := 0 to |turns|
      invariant Partitioned(turns, items, true) == system + Partitioned(turns[i..], items[i..], true)
      invariant Partitioned(turns, items, false) == others + Partitioned(turns[i..], items[i..], false)
    {
      PartitionUnfold(system, turns, items, i, true);
      PartitionUnfold(others, turns, items, i, false);
      if preserveSystem && turns[i].role == System {
        system := system + [turns[i]];
      } else {
        others := others + [turns[i]];
      }
    }
  }

  lemma MergedIsKept(turns: seq<Turn>, items: seq<Item>, budget: int)
    requires Distinct(turns) && |items| == |turns|
    ensures Trimmed(turns, items, budget) == Select(turns, Kept(items, budget))
  {
    var system, others := Partitioned(turns, items, true), Partitioned(turns, items, false);
    var decisions := Reversed(NewestFirst(items, budget));
    var kept := Select(others, decisions);
    var among := Elements(system) + Elements(kept);
    PartitionDisjoint(turns, items);
    PartitionMembers(turns, items, true);
    SelectedIffKept(others, decisions);
    assert forall j :: 0 <= j < |others| ==> others[j] !in system;
    MembersAreWoven(turns, items, decisions, among);
  }

  /******* Trimming again *******/

  lemma {:induction false} ItemsOfSelected(turns: seq<Turn>, preserveSystem: bool, keep: seq<bool>)
    requires |keep| == |turns|
    ensures ItemsOf(Select(turns, keep), preserveSystem) == Select(ItemsOf(turns, preserveSystem), keep)
  {
    if turns != [] {
      ItemsOfSelected(turns[1..], preserveSystem, keep[1..]);
      assert ItemsOf(turns, preserveSystem)[1..] == ItemsOf(turns[1..], preserveSystem);
      var rest := Select(turns[1..], keep[1..]);
      assert ([turns[0]] + rest)[1..] == rest && [] + rest == rest;
    }
  }

  lemma {:induction false} SelectAll<T>(items: seq<T>)
    ensures Select(items, All(|items|)) == items
  {
    if items != [] {
      SelectAll(items[1..]);
      assert All(|items|)[1..] == All(|items[1..]|);
      assert items == [items[0]] + items[1..];
    }
  }

  lemma DistinctCons<T>(x: T, rest: seq<T>)
    ensures Distinct([x] + rest) <==> Distinct(rest) && x !in rest
  {
    var all := [x] + rest;
    if Distinct(all) {
      assert forall i :: 0 <= i < |rest| ==> rest[i] == all[i + 1];
      forall y | y in rest ensures y != x {
        var j :| 0 <= j < |rest| && rest[j] == y;
        assert all[0] != all[j + 1];
      }
    }
  }

  lemma {:induction false} SelectDistinct<T>(items: seq<T>, keep: seq<bool>)
    requires |keep| == |items| && Distinct(items)
    ensures Distinct(Select(items, keep))
  {
    if items != [] {
      var rest := Select(items[1..], keep[1..]);
      assert items == [items[0]] + items[1..] && [] + rest == rest;
      DistinctCons(items[0], items[1..]);
      SelectDistinct(items[1..], keep[1..]);
      SelectSubset(items[1..], keep[1..]);
      DistinctCons(items[0], rest);
    }
  }

  /** Turns that were trimmed once, and so have their counts, come back unchanged from being trimmed again: no count is
      filled in, every turn is kept, and the total is the same. */
  lemma TrimmedTurnsStay(turns: seq<Turn>, budget: int, count: string -> nat, preserveSystem: bool)
    requires Distinct(turns) && forall t :: t in turns && t.tokenCount == 0 ==> count(t.content) == 0
    ensures
      var trimmed := Trimmed(turns, ItemsOf(turns, preserveSystem), budget);
      && (forall t :: t in trimmed ==> CountedTokens(t.tokenCount, t.content, count) == t.tokenCount)
      && Distinct(trimmed) && Trimmed(trimmed, ItemsOf(trimmed, preserveSystem), budget) == trimmed
  {
    var items := ItemsOf(turns, preserveSystem);
    var keep := Kept(items, budget);
    var trimmed := Select(turns, keep);
    TrimmedIsKept(turns, preserveSystem, budget);
    SelectSubset(turns, keep);
    SelectDistinct(turns, keep);
    ItemsOfSelected(turns, preserveSystem, keep);
    TrimmingIsIdempotent(items, budget);
    TrimmedIsKept(trimmed, preserveSystem, budget);
    SelectAll(trimmed);
  }
}
