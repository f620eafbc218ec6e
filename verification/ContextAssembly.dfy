/** Priority-based assembly of a context window within a token budget. */
module ContextAssembly {
  import opened Sorting
  import opened Greedy

  class ContextBlock {
    const name: string  // the label of the block
    const content: string
    const priority: int
    var tokenCount: nat

    constructor (name: string, content: string, priority: int)
      ensures this.name == name && this.content == content && this.priority == priority && tokenCount == 0
    {
      this.name, this.content, this.priority, tokenCount := name, content, priority, 0;
    }
  }

  datatype AssembledContext = AssembledContext(blocks: seq<ContextBlock>, totalTokens: nat, droppedLabels: seq<string>,
                                               budget: int)

  /** What assembly looks at in a block. */
  datatype Entry = Entry(priority: int, tokens: nat, name: string)

  function EntriesOf(blocks: seq<ContextBlock>, count: string -> nat): (entries: seq<Entry>)
    ensures |entries| == |blocks|
    ensures forall i :: 0 <= i < |blocks| ==>
            entries[i] == Entry(blocks[i].priority, count(blocks[i].content), blocks[i].name)
  {
    seq(|blocks|, i requires 0 <= i < |blocks| => Entry(blocks[i].priority, count(blocks[i].content), blocks[i].name))
  }

  /******* Ranking: highest priority first, insertion order within a priority *******/

  function PriorityAt(entries: seq<Entry>, i: nat): int {
    if i < |entries| then entries[i].priority else 0
  }

  /** The sort key of the source: (-priority, position). */
  function ByPriorityThenPosition(entries: seq<Entry>): (nat, nat) -> bool {
    (i: nat, j: nat) =>
      PriorityAt(entries, i) > PriorityAt(entries, j) || (PriorityAt(entries, i) == PriorityAt(entries, j) && i <= j)
  }

  function Positions(from: nat, n: nat): (s: seq<nat>)
    requires from <= n
    ensures |s| == n - from && forall i :: 0 <= i < |s| ==> s[i] == from + i
    decreases n - from
  {
    if from == n then [] else [from] + Positions(from + 1, n)
  }

  ghost predicate Within(positions: seq<nat>, from: nat, n: nat) {
    forall k :: 0 <= k < |positions| ==> from <= positions[k] < n
  }

  lemma WithinByMembership(a: seq<nat>, b: seq<nat>, from: nat, n: nat)
    requires Within(a, from, n) && forall x :: x in b ==> x in a
    ensures Within(b, from, n)
  {
    assert forall k :: 0 <= k < |b| ==> b[k] in a;
  }

  function Ranking(entries: seq<Entry>): seq<nat> {
    Sort(Positions(0, |entries|), ByPriorityThenPosition(entries))
  }

  predicate HigherFirst(a: Entry, b: Entry) {
    a.priority >= b.priority
  }

  function Ranked(entries: seq<Entry>): seq<Entry> {
    Sort(entries, HigherFirst)
  }

  function ElementsAt<T>(s: seq<T>, positions: seq<nat>): (r: seq<T>)
    requires Within(positions, 0, |s|)
    ensures |r| == |positions| && forall k :: 0 <= k < |r| ==> r[k] == s[positions[k]]
  {
    seq(|positions|, k requires 0 <= k < |positions| => s[positions[k]])
  }

  lemma RankingIsPermutation(entries: seq<Entry>)
    ensures multiset(Ranking(entries)) == multiset(Positions(0, |entries|))
    ensures |Ranking(entries)| == |entries| && Within(Ranking(entries), 0, |entries|)
  {
    var positions := Positions(0, |entries|);
    SortElements(positions, ByPriorityThenPosition(entries));
    WithinByMembership(positions, Ranking(entries), 0, |entries|);
  }

  /** Sorting positions by the source's key is the stable sort of the entries by priority. */
  lemma {:induction false} RankingFrom(entries: seq<Entry>, from: nat)
    requires from <= |entries|
    ensures
      var r := Sort(Positions(from, |entries|), ByPriorityThenPosition(entries));
      Within(r, from, |entries|) && ElementsAt(entries, r) == Sort(entries[from..], HigherFirst)
    decreases |entries| - from
  {
    var key := ByPriorityThenPosition(entries);
    if from < |entries| {
      RankingFrom(entries, from + 1);
      var rest := Sort(Positions(from + 1, |entries|), key);
      assert entries[from..][1..] == entries[from + 1..];
      assert Positions(from, |entries|)[1..] == Positions(from + 1, |entries|);
      InsertPosition(entries, from, rest);
    } else {
      assert entries[from..] == [];
    }
  }

  lemma {:induction false} InsertPosition(entries: seq<Entry>, x: nat, positions: seq<nat>)
    requires x < |entries| && Within(positions, x + 1, |entries|)
    ensures
      var r := Insert(x, positions, ByPriorityThenPosition(entries));
      && Within(r, x, |entries|)
      && ElementsAt(entries, r) == Insert(entries[x], ElementsAt(entries, positions), HigherFirst)
    decreases |positions|
  {
    var key := ByPriorityThenPosition(entries);
    if positions == [] || key(x, positions[0]) {
      assert ElementsAt(entries, [x] + positions) == [entries[x]] + ElementsAt(entries, positions);
    } else {
      InsertPosition(entries, x, positions[1..]);
      var rest := Insert(x, positions[1..], key);
      assert ElementsAt(entries, positions)[1..] == ElementsAt(entries, positions[1..]);
      assert ElementsAt(entries, [positions[0]] + rest) == [entries[positions[0]]] + ElementsAt(entries, rest);
    }
  }

  lemma RankingOrdersEntries(entries: seq<Entry>)
    ensures Within(Ranking(entries), 0, |entries|) && ElementsAt(entries, Ranking(entries)) == Ranked(entries)
  {
    RankingFrom(entries, 0);
    assert entries[0..] == entries;
  }

  function Costs(entries: seq<Entry>): (costs: seq<nat>)
    ensures |costs| == |entries| && forall i :: 0 <= i < |costs| ==> costs[i] == entries[i].tokens
  {
    seq(|entries|, i requires 0 <= i < |entries| => entries[i].tokens)
  }

  /** The decisions, in rank order. */
  function Included(entries: seq<Entry>, budget: int): (keep: seq<bool>)
    ensures |keep| == |Ranked(entries)| == |entries|
  {
    SortElements(entries, HigherFirst);
    Choose(Costs(Ranked(entries)), budget)
  }

  /** The positions kept, in rank order. */
  function KeptPositions(entries: seq<Entry>, budget: int): (kept: seq<nat>)
    ensures Within(kept, 0, |entries|)
  {
    RankingIsPermutation(entries);
    SelectSubset(Ranking(entries), Included(entries, budget));
    WithinByMembership(Ranking(entries), Select(Ranking(entries), Included(entries, budget)), 0, |entries|);
    Select(Ranking(entries), Included(entries, budget))
  }

  /** The positions dropped, in rank order. */
  function DroppedPositions(entries: seq<Entry>, budget: int): (dropped: seq<nat>)
    ensures Within(dropped, 0, |entries|)
  {
    RankingIsPermutation(entries);
    SelectSubset(Ranking(entries), Negated(Included(entries, budget)));
    WithinByMembership(Ranking(entries), Select(Ranking(entries), Negated(Included(entries, budget))), 0, |entries|);
    Select(Ranking(entries), Negated(Included(entries, budget)))
  }

  predicate AtMost(i: nat, j: nat) {
    i <= j
  }

  function LabelsAt(entries: seq<Entry>, positions: seq<nat>): (r: seq<string>)
    requires Within(positions, 0, |entries|)
    ensures |r| == |positions| && forall k :: 0 <= k < |r| ==> r[k] == entries[positions[k]].name
  {
    seq(|positions|, k requires 0 <= k < |positions| => entries[positions[k]].name)
  }

  /** The positions kept, in the original order. */
  function Survivors(entries: seq<Entry>, budget: int): (s: seq<nat>)
    ensures Within(s, 0, |entries|)
  {
    var kept := KeptPositions(entries, budget);
    SortElements(kept, AtMost);
    WithinByMembership(kept, Sort(kept, AtMost), 0, |entries|);
    Sort(kept, AtMost)
  }

  /******* The method *******/

  /** First pass: count the tokens of every block and remember its priority and position. */
  method CountBlocks(blocks: seq<ContextBlock>, count: string -> nat) returns (counted: seq<Entry>)
    modifies blocks
    ensures forall b :: b in blocks ==> b.tokenCount == count(b.content)
    ensures counted == EntriesOf(blocks, count)
  {
    counted := [];
    for i := 0 to |blocks|
      invariant forall k :: 0 <= k < i ==> blocks[k].tokenCount == count(blocks[k].content)
      invariant counted == EntriesOf(blocks, count)[..i]
    {
      var block := blocks[i];
      block.tokenCount := count(block.content);
      counted := counted + [Entry(block.priority, block.tokenCount, block.name)];
    }
  }

  /** Second pass: include what still fits, in rank order. */
  method Pack(blocks: seq<ContextBlock>, ghost counted: seq<Entry>, order: seq<nat>, budget: int)
    returns (included: seq<nat>, dropped: seq<string>, total: nat)
    requires |counted| == |blocks| && Within(order, 0, |blocks|)
    requires forall i :: 0 <= i < |blocks| ==>
             blocks[i].tokenCount == counted[i].tokens && blocks[i].name == counted[i].name
    ensures
      var costs := Costs(ElementsAt(counted, order));
      var keep := Choose(costs, budget);
      && total == Total(costs, keep) && included == Select(order, keep)
      && dropped == DroppedNames(counted, order, keep, |order|)
  {
    ghost var costs := Costs(ElementsAt(counted, order));
    ghost var keep := Choose(costs, budget);
    included, dropped, total := [], [], 0;
    for k := 0 to |order|
      invariant total == Total(costs[..k], keep[..k])
      invariant included == Select(order[..k], keep[..k])
      invariant dropped == DroppedNames(counted, order, keep, k)
    {
      var block := blocks[order[k]];
      ChooseAt(costs, budget, k);
      TotalSnoc(costs, keep, k);
      SelectSnoc(order, keep, k);
      if total + block.tokenCount <= budget {
        total := total + block.tokenCount;
        included := included + [order[k]];
      } else {
        dropped := dropped + [block.name];
      }
    }
    assert order[..|order|] == order && keep[..|order|] == keep && costs[..|order|] == costs;
  }

  method AssembleContext(blocks: seq<ContextBlock>, budget: int, count: string -> nat)
    returns (result: AssembledContext)
    modifies blocks
    ensures forall b :: b in blocks ==> b.tokenCount == count(b.content)
    ensures
      var entries := EntriesOf(blocks, count);
      && result.blocks == ElementsAt(blocks, Survivors(entries, budget))
      && result.totalTokens == Total(Costs(Ranked(entries)), Included(entries, budget)) == BlockTokens(result.blocks)
      && result.droppedLabels == LabelsAt(entries, DroppedPositions(entries, budget))
      && result.budget == budget
  {
    var counted := CountBlocks(blocks, count);
    assert forall i :: 0 <= i < |blocks| ==> blocks[i] in blocks;
    var order := Sort(Positions(0, |blocks|), ByPriorityThenPosition(counted));
    RankingIsPermutation(counted);
    RankingOrdersEntries(counted);
    var included, dropped, total := Pack(blocks, counted, order, budget);
    DroppedAreLabels(counted, budget);
    assert included == KeptPositions(counted, budget);
    SortElements(included, AtMost);
    WithinByMembership(included, Sort(included, AtMost), 0, |blocks|);
    var positions := Sort(included, AtMost);
    SurvivingTokens(counted, budget);
    BlockTokensAre(blocks, counted, positions);
    result := AssembledContext(ElementsAt(blocks, positions), total, dropped, budget);
  }

  lemma DroppedAreLabels(entries: seq<Entry>, budget: int)
    requires Within(Ranking(entries), 0, |entries|) && |Ranking(entries)| == |entries|
    ensures DroppedNames(entries, Ranking(entries), Included(entries, budget), |entries|) ==
            LabelsAt(entries, DroppedPositions(entries, budget))
  {
    var order, keep := Ranking(entries), Included(entries, budget);
    DroppedNamesAreLabels(entries, order, keep, |order|);
    assert order[..|order|] == order && Negated(keep)[..|order|] == Negated(keep);
  }

  ghost function DroppedNames(entries: seq<Entry>, order: seq<nat>, keep: seq<bool>, k: nat): seq<string>
    requires |keep| == |order| && Within(order, 0, |entries|) && k <= |order|
  {
    if k == 0 then []
    else DroppedNames(entries, order, keep, k - 1) + if keep[k - 1] then [] else [entries[order[k - 1]].name]
  }

  lemma {:induction false} DroppedNamesAreLabels(entries: seq<Entry>, order: seq<nat>, keep: seq<bool>, k: nat)
    requires |keep| == |order| && Within(order, 0, |entries|) && k <= |order|
    ensures
      var dropped := Select(order[..k], Negated(keep)[..k]);
      Within(dropped, 0, |entries|) && DroppedNames(entries, order, keep, k) == LabelsAt(entries, dropped)
    decreases k
  {
    if k > 0 {
      DroppedNamesAreLabels(entries, order, keep, k - 1);
      SelectSnoc(order, Negated(keep), k - 1);
      var before := Select(order[..k - 1], Negated(keep)[..k - 1]);
      if !keep[k - 1] {
        assert LabelsAt(entries, before + [order[k - 1]]) == LabelsAt(entries, before) + [entries[order[k - 1]].name];
      } else {
        assert before + [] == before;
      }
    }
  }

  /******* What the result means *******/

  /** Every position is kept or dropped, and no position is both. */
  lemma KeptAndDroppedPartition(entries: seq<Entry>, budget: int)
    ensures multiset(KeptPositions(entries, budget)) + multiset(DroppedPositions(entries, budget)) ==
            multiset(Positions(0, |entries|))
  {
    RankingIsPermutation(entries);
    SelectPartition(Ranking(entries), Included(entries, budget));
  }

  /** Positions rank by priority, and by position within a priority. */
  predicate RanksBefore(entries: seq<Entry>, i: nat, j: nat) {
    i < |entries| && j < |entries| &&
    (entries[i].priority > entries[j].priority || (entries[i].priority == entries[j].priority && i < j))
  }

  lemma RankingOnce(entries: seq<Entry>, k: nat)
    requires k < |entries|
    ensures |Ranking(entries)| == |Included(entries, 0)| == |entries| && Within(Ranking(entries), 0, |entries|)
    ensures multiset(Ranking(entries))[Ranking(entries)[k]] == 1
  {
    RankingIsPermutation(entries);
    PositionsOnce(0, |entries|, Ranking(entries)[k]);
    assert Ranking(entries)[k] in multiset(Ranking(entries));
  }

  /** The k-th position of the ranking comes before the later ones. */
  lemma RankingOrder(entries: seq<Entry>, k: nat, l: nat)
    requires k < l < |entries|
    ensures |Ranking(entries)| == |entries| && RanksBefore(entries, Ranking(entries)[k], Ranking(entries)[l])
  {
    RankingOnce(entries, k);
    SortSorts(Positions(0, |entries|), ByPriorityThenPosition(entries));
    if Ranking(entries)[k] == Ranking(entries)[l] {
      TwiceInMultiset(Ranking(entries), k, l);
    }
    assert ByPriorityThenPosition(entries)(Ranking(entries)[k], Ranking(entries)[l]);
  }

  /** A block is returned exactly when it was decided to include it, and its label is dropped exactly when not. */
  lemma SurvivorsAreIncluded(entries: seq<Entry>, budget: int, k: nat)
    requires k < |entries|
    ensures |Ranking(entries)| == |Included(entries, budget)| == |entries|
    ensures Ranking(entries)[k] in Survivors(entries, budget) <==> Included(entries, budget)[k]
    ensures Ranking(entries)[k] in DroppedPositions(entries, budget) <==> !Included(entries, budget)[k]
  {
    RankingOnce(entries, k);
    SelectedIffKept(Ranking(entries), Included(entries, budget), k);
    SortElements(KeptPositions(entries, budget), AtMost);
  }

  lemma {:induction false} SelectKeepsRank(entries: seq<Entry>, order: seq<nat>, keep: seq<bool>, i: nat, j: nat)
    requires |keep| == |order| && i < j < |Select(order, keep)|
    requires forall k, l :: 0 <= k < l < |order| ==> RanksBefore(entries, order[k], order[l])
    ensures RanksBefore(entries, Select(order, keep)[i], Select(order, keep)[j])
    decreases |order|
  {
    var rest, later := order[1..], keep[1..];
    assert forall k :: 0 <= k < |rest| ==> rest[k] == order[k + 1];
    if !keep[0] {
      SelectKeepsRank(entries, rest, later, i, j);
    } else if i > 0 {
      SelectKeepsRank(entries, rest, later, i - 1, j - 1);
    } else {
      SelectSubset(rest, later);
      assert Select(order, keep)[j] == Select(rest, later)[j - 1] && Select(rest, later)[j - 1] in rest;
    }
  }

  /** Labels are dropped in the order of their ranks. */
  lemma DroppedInRankOrder(entries: seq<Entry>, budget: int, i: nat, j: nat)
    requires i < j < |DroppedPositions(entries, budget)|
    ensures RanksBefore(entries, DroppedPositions(entries, budget)[i], DroppedPositions(entries, budget)[j])
  {
    RankingIsPermutation(entries);
    forall k, l | 0 <= k < l < |Ranking(entries)|
      ensures RanksBefore(entries, Ranking(entries)[k], Ranking(entries)[l])
    {
      RankingOrder(entries, k, l);
    }
    SelectKeepsRank(entries, Ranking(entries), Negated(Included(entries, budget)), i, j);
  }

  /** Survivors appear strictly in their original order. */
  lemma SurvivorsInOriginalOrder(entries: seq<Entry>, budget: int, i: nat, j: nat)
    requires i < j < |Survivors(entries, budget)|
    ensures Survivors(entries, budget)[i] < Survivors(entries, budget)[j]
  {
    var kept := KeptPositions(entries, budget);
    var s := Survivors(entries, budget);
    SortSorts(kept, AtMost);
    SortElements(kept, AtMost);
    KeptAndDroppedPartition(entries, budget);
    PositionsOnce(0, |entries|, s[i]);
    if s[i] == s[j] {
      TwiceInMultiset(s, i, j);
    }
    assert AtMost(s[i], s[j]);
  }

  lemma {:induction false} PositionsOnce(from: nat, n: nat, x: nat)
    requires from <= n
    ensures multiset(Positions(from, n))[x] <= 1
    ensures x < from ==> x !in multiset(Positions(from, n))
    decreases n - from
  {
    if from < n {
      PositionsOnce(from + 1, n, x);
      assert Positions(from, n) == [from] + Positions(from + 1, n);
    }
  }

  lemma TwiceInMultiset(s: seq<nat>, i: nat, j: nat)
    requires i < j < |s| && s[i] == s[j]
    ensures multiset(s)[s[i]] >= 2
  {
    assert s == s[..i] + [s[i]] + s[i + 1..j] + [s[j]] + s[j + 1..];
  }

  /** The decisions in rank order are the lexicographically greatest among all selections within the budget. */
  lemma LexicographicallyGreatest(entries: seq<Entry>, budget: int, other: seq<bool>)
    requires |other| == |Ranked(entries)| && Total(Costs(Ranked(entries)), other) <= budget
    ensures LexLe(other, Included(entries, budget))
    ensures Total(Costs(Ranked(entries)), Included(entries, budget)) <= budget
  {
    FitsBudget(Costs(Ranked(entries)), budget);
    GreatestWithinBudget(Costs(Ranked(entries)), budget, other);
  }

  /******* Tokens *******/

  function TokensAt(entries: seq<Entry>, positions: seq<nat>): nat
    requires Within(positions, 0, |entries|)
  {
    if positions == [] then 0 else entries[positions[0]].tokens + TokensAt(entries, positions[1..])
  }

  /** The tokens of the blocks, as they were counted. */
  function BlockTokens(blocks: seq<ContextBlock>): nat
    reads blocks
  {
    if blocks == [] then 0 else blocks[0].tokenCount + BlockTokens(blocks[1..])
  }

  lemma {:induction false} BlockTokensAre(blocks: seq<ContextBlock>, counted: seq<Entry>, positions: seq<nat>)
    requires |counted| == |blocks| && Within(positions, 0, |blocks|)
    requires forall i :: 0 <= i < |blocks| ==> blocks[i].tokenCount == counted[i].tokens
    ensures BlockTokens(ElementsAt(blocks, positions)) == TokensAt(counted, positions)
  {
    if positions != [] {
      BlockTokensAre(blocks, counted, positions[1..]);
      assert ElementsAt(blocks, positions)[1..] == ElementsAt(blocks, positions[1..]);
    }
  }

  lemma {:induction false} InsertTokens(entries: seq<Entry>, x: nat, positions: seq<nat>)
    requires x < |entries| && Within(positions, 0, |entries|)
    ensures Within(Insert(x, positions, AtMost), 0, |entries|)
    ensures TokensAt(entries, Insert(x, positions, AtMost)) == entries[x].tokens + TokensAt(entries, positions)
  {
    if positions == [] || AtMost(x, positions[0]) {
      assert ([x] + positions)[1..] == positions;
    } else {
      InsertTokens(entries, x, positions[1..]);
      var rest := Insert(x, positions[1..], AtMost);
      assert ([positions[0]] + rest)[1..] == rest;
    }
  }

  lemma {:induction false} SortTokens(entries: seq<Entry>, positions: seq<nat>)
    requires Within(positions, 0, |entries|)
    ensures Within(Sort(positions, AtMost), 0, |entries|)
    ensures TokensAt(entries, Sort(positions, AtMost)) == TokensAt(entries, positions)
  {
    if positions != [] {
      SortTokens(entries, positions[1..]);
      InsertTokens(entries, positions[0], Sort(positions[1..], AtMost));
    }
  }

  lemma TokensCons(entries: seq<Entry>, x: nat, positions: seq<nat>)
    requires x < |entries| && Within(positions, 0, |entries|)
    ensures Within([x] + positions, 0, |entries|) && [] + positions == positions
    ensures TokensAt(entries, [x] + positions) == entries[x].tokens + TokensAt(entries, positions)
  {
    assert ([x] + positions)[1..] == positions;
  }

  lemma {:induction false} SelectedTokens(entries: seq<Entry>, order: seq<nat>, keep: seq<bool>)
    requires |keep| == |order| && Within(order, 0, |entries|)
    ensures Within(Select(order, keep), 0, |entries|)
    ensures TokensAt(entries, Select(order, keep)) == Total(Costs(ElementsAt(entries, order)), keep)
  {
    if order != [] {
      SelectedTokens(entries, order[1..], keep[1..]);
      var rest := Select(order[1..], keep[1..]);
      assert Costs(ElementsAt(entries, order)) == [entries[order[0]].tokens] + Costs(ElementsAt(entries, order[1..]));
      assert Select(order, keep) == (if keep[0] then [order[0]] else []) + rest;
      TokensCons(entries, order[0], rest);
    }
  }

  /** What the chosen blocks cost in rank order is what the survivors cost. */
  lemma SurvivingTokens(entries: seq<Entry>, budget: int)
    ensures TokensAt(entries, Survivors(entries, budget)) == Total(Costs(Ranked(entries)), Included(entries, budget))
  {
    RankingIsPermutation(entries);
    RankingOrdersEntries(entries);
    SelectedTokens(entries, Ranking(entries), Included(entries, budget));
    SortTokens(entries, KeptPositions(entries, budget));
  }

  /******* Priorities *******/

  function AtLeast(entries: seq<Entry>, p: int): seq<Entry> {
    if entries == [] then []
    else (if entries[0].priority >= p then [entries[0]] else []) + AtLeast(entries[1..], p)
  }

  ghost predicate Descending(entries: seq<Entry>) {
    SortedBy(entries, HigherFirst)
  }

  lemma {:induction false} InsertAndFilter(e: Entry, ranked: seq<Entry>, p: int)
    requires Descending(ranked)
    ensures AtLeast(Insert(e, ranked, HigherFirst), p) ==
              if e.priority >= p then Insert(e, AtLeast(ranked, p), HigherFirst) else AtLeast(ranked, p)
  {
    if ranked == [] || HigherFirst(e, ranked[0]) {
      assert ([e] + ranked)[1..] == ranked;
      if e.priority >= p && ranked != [] {
        AtLeastSubset(ranked, p);
        forall x | x in AtLeast(ranked, p)
          ensures HigherFirst(e, x)
        {
          var i :| 0 <= i < |ranked| && ranked[i] == x;
          assert i > 0 ==> HigherFirst(ranked[0], ranked[i]);
        }
      }
    } else {
      InsertAndFilter(e, ranked[1..], p);
      var rest := Insert(e, ranked[1..], HigherFirst);
      assert ([ranked[0]] + rest)[1..] == rest;
      assert ([ranked[0]] + AtLeast(ranked[1..], p))[1..] == AtLeast(ranked[1..], p);
    }
  }

  lemma {:induction false} AtLeastSubset(entries: seq<Entry>, p: int)
    ensures forall e :: e in AtLeast(entries, p) ==> e in entries
  {
    if entries != [] {
      AtLeastSubset(entries[1..], p);
    }
  }

  /** Ranking and selecting by priority commute. */
  lemma {:induction false} RankedAtLeast(entries: seq<Entry>, p: int)
    ensures AtLeast(Ranked(entries), p) == Ranked(AtLeast(entries, p))
  {
    if entries != [] {
      var first, rest := entries[0], entries[1..];
      RankedAtLeast(rest, p);
      SortSorts(rest, HigherFirst);
      InsertAndFilter(first, Ranked(rest), p);
      assert AtLeast(entries, p) == (if first.priority >= p then [first] else []) + AtLeast(rest, p);
      if first.priority >= p {
        SortCons(first, AtLeast(rest, p));
      } else {
        assert [] + AtLeast(rest, p) == AtLeast(rest, p);
      }
    }
  }

  lemma SortCons(e: Entry, rest: seq<Entry>)
    ensures Ranked([e] + rest) == Insert(e, Ranked(rest), HigherFirst)
  {
    assert ([e] + rest)[1..] == rest;
  }

  /** In a ranking, the entries of priority at least p come first. */
  lemma {:induction false} AtLeastIsPrefix(ranked: seq<Entry>, p: int) returns (lower: seq<Entry>)
    requires Descending(ranked)
    ensures ranked == AtLeast(ranked, p) + lower
    ensures forall k :: 0 <= k < |lower| ==> lower[k].priority < p
  {
    if ranked == [] {
      lower := [];
    } else if ranked[0].priority < p {
      lower := ranked;
      assert forall k :: 0 < k < |ranked| ==> HigherFirst(ranked[0], ranked[k]);
      NoneAtLeast(ranked, p);
    } else {
      lower := AtLeastIsPrefix(ranked[1..], p);
    }
  }

  lemma {:induction false} NoneAtLeast(entries: seq<Entry>, p: int)
    requires forall k :: 0 <= k < |entries| ==> entries[k].priority < p
    ensures AtLeast(entries, p) == []
  {
    if entries != [] {
      NoneAtLeast(entries[1..], p);
    }
  }

  lemma CostsConcat(a: seq<Entry>, b: seq<Entry>)
    ensures Costs(a + b) == Costs(a) + Costs(b)
  {
  }

  /** What is left of the budget once the blocks of priority at least p are decided. */
  function LeftAfter(entries: seq<Entry>, p: int, budget: int): int {
    var high := AtLeast(entries, p);
    budget - Total(Costs(Ranked(high)), Included(high, budget))
  }

  /** Lower-priority blocks never change what happens to higher ones: the blocks of priority at least p are ranked and
      decided as if they were alone, and the others then share what is left. */
  lemma LowerPrioritiesDoNotMatter(entries: seq<Entry>, p: int, budget: int) returns (lower: seq<Entry>)
    ensures Ranked(entries) == Ranked(AtLeast(entries, p)) + lower
    ensures forall k :: 0 <= k < |Ranked(AtLeast(entries, p))| ==> Ranked(AtLeast(entries, p))[k].priority >= p
    ensures forall k :: 0 <= k < |lower| ==> lower[k].priority < p
    ensures Included(entries, budget) ==
            Included(AtLeast(entries, p), budget) + Choose(Costs(lower), LeftAfter(entries, p, budget))
  {
    lower := SplitRanking(entries, p);
    var high := Ranked(AtLeast(entries, p));
    CostsConcat(high, lower);
    ChooseConcat(Costs(high), Costs(lower), budget);
  }

  lemma SplitRanking(entries: seq<Entry>, p: int) returns (lower: seq<Entry>)
    ensures Ranked(entries) == Ranked(AtLeast(entries, p)) + lower
    ensures forall k :: 0 <= k < |Ranked(AtLeast(entries, p))| ==> Ranked(AtLeast(entries, p))[k].priority >= p
    ensures forall k :: 0 <= k < |lower| ==> lower[k].priority < p
  {
    RankedAtLeast(entries, p);
    SortSorts(entries, HigherFirst);
    lower := AtLeastIsPrefix(Ranked(entries), p);
    AllAtLeast(Ranked(entries), p);
  }

  lemma {:induction false} AllAtLeast(entries: seq<Entry>, p: int)
    ensures forall k :: 0 <= k < |AtLeast(entries, p)| ==> AtLeast(entries, p)[k].priority >= p
  {
    if entries != [] {
      AllAtLeast(entries[1..], p);
    }
  }

  lemma CostsCons(e: Entry, rest: seq<Entry>)
    ensures Sum(Costs([e] + rest)) == e.tokens + Sum(Costs(rest))
  {
    assert Costs([e] + rest)[1..] == Costs(rest);
  }

  lemma {:induction false} SumOfInserted(e: Entry, entries: seq<Entry>)
    ensures Sum(Costs(Insert(e, entries, HigherFirst))) == e.tokens + Sum(Costs(entries))
  {
    CostsCons(e, entries);
    if entries != [] && !HigherFirst(e, entries[0]) {
      SumOfInserted(e, entries[1..]);
      CostsCons(entries[0], Insert(e, entries[1..], HigherFirst));
      CostsCons(entries[0], entries[1..]);
      assert entries == [entries[0]] + entries[1..];
    }
  }

  lemma {:induction false} SumOfRanked(entries: seq<Entry>)
    ensures Sum(Costs(Ranked(entries))) == Sum(Costs(entries))
  {
    if entries != [] {
      SumOfRanked(entries[1..]);
      SumOfInserted(entries[0], Ranked(entries[1..]));
      CostsCons(entries[0], entries[1..]);
      assert entries == [entries[0]] + entries[1..];
    }
  }

  /** If all blocks of priority at least p fit together, none of them is dropped. */
  lemma HighPrioritiesThatFitAreKept(entries: seq<Entry>, p: int, budget: int, k: nat)
    requires Sum(Costs(AtLeast(entries, p))) <= budget
    requires k < |Ranked(entries)| && Ranked(entries)[k].priority >= p
    ensures Included(entries, budget)[k]
  {
    SumOfRanked(AtLeast(entries, p));
    var lower := LowerPrioritiesDoNotMatter(entries, p, budget);
    AllFit(Costs(Ranked(AtLeast(entries, p))), budget);
    var n := |Ranked(AtLeast(entries, p))|;
    assert forall i :: n <= i < |Ranked(entries)| ==> Ranked(entries)[i] == lower[i - n];
  }

  /** An entry is dropped although one of strictly lower priority is kept. */
  ghost predicate Inversion(ranked: seq<Entry>, keep: seq<bool>)
    requires |keep| == |ranked|
  {
    exists i, j ::
      0 <= i < |ranked| && 0 <= j < |ranked| && !keep[i] && keep[j] && ranked[i].priority > ranked[j].priority
  }

  /** The documentation says the lowest priorities are dropped first. Let p be the priority of the first block, in rank
      order, that does not fit. The claim fails iff some block of lower priority fits into what the blocks of
      priority at least p leave. */
  lemma InversionIff(entries: seq<Entry>, budget: int)
    requires Leading(Costs(Ranked(entries)), budget) < |Ranked(entries)|
    ensures
      var p := Ranked(entries)[Leading(Costs(Ranked(entries)), budget)].priority;
      Inversion(Ranked(entries), Included(entries, budget)) <==>
        exists e :: e in entries && e.priority < p && e.tokens <= LeftAfter(entries, p, budget)
  {
    var d := Leading(Costs(Ranked(entries)), budget);
    var p := Ranked(entries)[d].priority;
    var left := LeftAfter(entries, p, budget);
    LeadingAreKept(Costs(Ranked(entries)), budget);
    var lower := LowerPrioritiesDoNotMatter(entries, p, budget);
    var high := Ranked(AtLeast(entries, p));
    SortSorts(entries, HigherFirst);
    assert forall i :: 0 <= i < |high| ==> Included(entries, budget)[i] == Included(AtLeast(entries, p), budget)[i];
    InversionInSplit(high, lower, Included(AtLeast(entries, p), budget), left, p, d);
    SortElements(entries, HigherFirst);
    assert forall e :: e in high + lower <==> e in entries;
  }

  lemma InversionInSplit(high: seq<Entry>, lower: seq<Entry>, keepHigh: seq<bool>, left: int, p: int, d: nat)
    requires |keepHigh| == |high| && Descending(high + lower)
    requires d < |high| && high[d].priority == p && !keepHigh[d] && forall i :: 0 <= i < d ==> keepHigh[i]
    requires (forall k :: 0 <= k < |high| ==> high[k].priority >= p) &&
             (forall k :: 0 <= k < |lower| ==> lower[k].priority < p)
    ensures Inversion(high + lower, keepHigh + Choose(Costs(lower), left)) <==>
            exists e :: e in high + lower && e.priority < p && e.tokens <= left
  {
    var ranked, keep, costs := high + lower, keepHigh + Choose(Costs(lower), left), Costs(lower);
    var n := |high|;
    if k :| 0 <= k < |lower| && lower[k].tokens <= left {
      var kept := SomeFits(costs, left, k);
      assert keep[n + kept] && !keep[d] && ranked[n + kept] == lower[kept] && ranked[d] == high[d];
      assert lower[k] in high + lower;
    } else {
      NoneFits(costs, left);
      forall i, j | 0 <= i < |ranked| && 0 <= j < |ranked| && !keep[i] && keep[j]
        ensures ranked[i].priority <= ranked[j].priority
      {
        assert d < i ==> HigherFirst(ranked[d], ranked[i]);
        assert j < n && ranked[j] == high[j];
      }
      forall e | e in high + lower && e.priority < p
        ensures e.tokens > left
      {
        var k :| 0 <= k < |ranked| && ranked[k] == e;
        assert k >= n && ranked[k] == lower[k - n];
      }
    }
  }
}
