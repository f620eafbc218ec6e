/** Stable sorting by a comparison, as the language's built-in sort provides it. */
module Sorting {

  ghost predicate TotalPreorder<T(!new)>(le: (T, T) -> bool) {
    && (forall a, b :: le(a, b) || le(b, a))
    && (forall a, b, c :: le(a, b) && le(b, c) ==> le(a, c))
  }

  ghost predicate SortedBy<T>(s: seq<T>, le: (T, T) -> bool) {
    forall i, j :: 0 <= i < j < |s| ==> le(s[i], s[j])
  }

  ghost predicate Pairwise<T>(s: seq<T>, related: (T, T) -> bool) {
    forall i, j :: 0 <= i < j < |s| ==> related(s[i], s[j])
  }

  function Insert<T>(x: T, s: seq<T>, le: (T, T) -> bool): seq<T> {
    if s == [] || le(x, s[0]) then [x] + s else [s[0]] + Insert(x, s[1..], le)
  }

  function Sort<T>(s: seq<T>, le: (T, T) -> bool): seq<T> {
    if s == [] then [] else Insert(s[0], Sort(s[1..], le), le)
  }

  lemma {:induction false} InsertElements<T>(x: T, s: seq<T>, le: (T, T) -> bool)
    ensures |Insert(x, s, le)| == |s| + 1
    ensures multiset(Insert(x, s, le)) == multiset{x} + multiset(s)
    ensures forall y :: y in Insert(x, s, le) <==> y == x || y in s
  {
    if s != [] && !le(x, s[0]) {
      InsertElements(x, s[1..], le);
      assert s == [s[0]] + s[1..];
    }
  }

  lemma {:induction false} InsertSorted<T(!new)>(x: T, s: seq<T>, le: (T, T) -> bool)
    requires TotalPreorder(le) && SortedBy(s, le)
    ensures SortedBy(Insert(x, s, le), le)
  {
    var r := Insert(x, s, le);
    if s == [] || le(x, s[0]) {
      assert forall j :: 0 < j < |r| ==> r[j] == s[j - 1];
    } else {
      InsertSorted(x, s[1..], le);
      InsertElements(x, s[1..], le);
      forall j | 0 < j < |r|
        ensures le(r[0], r[j])
      {
        assert r[j] in Insert(x, s[1..], le);
      }
      assert forall i, j :: 0 < i < j < |r| ==>
             r[i] == Insert(x, s[1..], le)[i - 1] && r[j] == Insert(x, s[1..], le)[j - 1];
    }
  }

  lemma {:induction false} SortSorts<T(!new)>(s: seq<T>, le: (T, T) -> bool)
    requires TotalPreorder(le)
    ensures SortedBy(Sort(s, le), le)
  {
    if s != [] {
      SortSorts(s[1..], le);
      InsertSorted(s[0], Sort(s[1..], le), le);
    }
  }

  lemma {:induction false} SortElements<T>(s: seq<T>, le: (T, T) -> bool)
    ensures |Sort(s, le)| == |s|
    ensures multiset(Sort(s, le)) == multiset(s)
    ensures forall y :: y in Sort(s, le) <==> y in s
  {
    if s != [] {
      SortElements(s[1..], le);
      InsertElements(s[0], Sort(s[1..], le), le);
      assert s == [s[0]] + s[1..];
    }
  }

  /** A symmetric relation between all elements does not care about their order. */
  lemma {:induction false} SortKeepsPairwise<T(!new)>(s: seq<T>, le: (T, T) -> bool, related: (T, T) -> bool)
    requires Pairwise(s, related) && forall a, b :: related(a, b) ==> related(b, a)
    ensures Pairwise(Sort(s, le), related)
  {
    if s != [] {
      SortKeepsPairwise(s[1..], le, related);
      SortElements(s[1..], le);
      forall y | y in Sort(s[1..], le)
        ensures related(s[0], y)
      {
        var k :| 0 <= k < |s[1..]| && s[1..][k] == y;
        assert s[k + 1] == y;
      }
      InsertKeepsPairwise(s[0], Sort(s[1..], le), le, related);
    }
  }

  lemma {:induction false} InsertKeepsPairwise<T(!new)>(x: T, s: seq<T>, le: (T, T) -> bool, related: (T, T) -> bool)
    requires Pairwise(s, related) && (forall a, b :: related(a, b) ==> related(b, a))
    requires forall y :: y in s ==> related(x, y)
    ensures Pairwise(Insert(x, s, le), related)
  {
    var r := Insert(x, s, le);
    if s == [] || le(x, s[0]) {
      assert forall j :: 0 < j < |r| ==> r[j] == s[j - 1];
    } else {
      InsertKeepsPairwise(x, s[1..], le, related);
      InsertElements(x, s[1..], le);
      var rest := Insert(x, s[1..], le);
      forall j | 0 < j < |r|
        ensures related(r[0], r[j])
      {
        assert r[j] in rest;
        if r[j] in s[1..] {
          var k :| 0 <= k < |s[1..]| && s[1..][k] == r[j];
          assert related(s[0], s[k + 1]);
        }
      }
      assert forall i, j :: 0 < i < j < |r| ==> r[i] == rest[i - 1] && r[j] == rest[j - 1];
    }
  }

  lemma {:induction false} SortReflectsPairwise<T(!new)>(s: seq<T>, le: (T, T) -> bool, related: (T, T) -> bool)
    requires Pairwise(Sort(s, le), related) && forall a, b :: related(a, b) ==> related(b, a)
    ensures Pairwise(s, related)
  {
    if s != [] {
      InsertReflectsPairwise(s[0], Sort(s[1..], le), le, related);
      SortReflectsPairwise(s[1..], le, related);
      SortElements(s[1..], le);
      forall i, j | 0 <= i < j < |s|
        ensures related(s[i], s[j])
      {
        if i > 0 {
          assert s[i] == s[1..][i - 1] && s[j] == s[1..][j - 1];
        } else {
          assert s[j] == s[1..][j - 1] && s[j] in Sort(s[1..], le);
        }
      }
    }
  }

  lemma {:induction false} InsertReflectsPairwise<T(!new)>(x: T, s: seq<T>, le: (T, T) -> bool, related: (T, T) -> bool)
    requires Pairwise(Insert(x, s, le), related) && forall a, b :: related(a, b) ==> related(b, a)
    ensures Pairwise(s, related) && forall y :: y in s ==> related(x, y)
  {
    var r := Insert(x, s, le);
    if s == [] || le(x, s[0]) {
      forall y | y in s ensures related(x, y) {
        var j :| 0 <= j < |s| && s[j] == y;
        assert related(r[0], r[j + 1]);
      }
      assert forall j :: 0 <= j < |s| ==> r[j + 1] == s[j];
    } else {
      var rest := Insert(x, s[1..], le);
      assert forall j :: 0 <= j < |rest| ==> r[j + 1] == rest[j];
      InsertReflectsPairwise(x, s[1..], le, related);
      InsertElements(x, s[1..], le);
      forall y | y in rest ensures related(s[0], y) {
        var j :| 0 <= j < |rest| && rest[j] == y;
        assert related(r[0], r[j + 1]);
      }
      forall i, j | 0 <= i < j < |s| ensures related(s[i], s[j]) {
        if i > 0 {
          assert s[i] == s[1..][i - 1] && s[j] == s[1..][j - 1];
        } else {
          assert s[j] == s[1..][j - 1];
        }
      }
    }
  }

  lemma SortPairwiseIff<T(!new)>(s: seq<T>, le: (T, T) -> bool, related: (T, T) -> bool)
    requires forall a, b :: related(a, b) ==> related(b, a)
    ensures Pairwise(s, related) <==> Pairwise(Sort(s, le), related)
  {
    if Pairwise(s, related) {
      SortKeepsPairwise(s, le, related);
    }
    if Pairwise(Sort(s, le), related) {
      SortReflectsPairwise(s, le, related);
    }
  }

  lemma SameElements<T>(a: seq<T>, b: seq<T>)
    requires multiset(a) == multiset(b)
    ensures |a| == |b| && forall x :: x in a <==> x in b
  {
    assert |a| == |multiset(a)| && |b| == |multiset(b)|;
    assert forall x :: x in a <==> x in multiset(a);
    assert forall x :: x in b <==> x in multiset(b);
  }

  lemma SameTails<T>(a: seq<T>, b: seq<T>)
    requires a != [] && b != [] && a[0] == b[0] && multiset(a) == multiset(b)
    ensures multiset(a[1..]) == multiset(b[1..])
  {
    assert a == [a[0]] + a[1..] && b == [b[0]] + b[1..];
    assert multiset(a) - multiset{a[0]} == multiset(a[1..]);
    assert multiset(b) - multiset{b[0]} == multiset(b[1..]);
  }

  /** Two sorted arrangements of the same elements are equal when ties are equal. */
  lemma {:induction false} SortedOnce<T(!new)>(a: seq<T>, b: seq<T>, le: (T, T) -> bool)
    requires SortedBy(a, le) && SortedBy(b, le) && multiset(a) == multiset(b) && forall x :: le(x, x)
    requires forall x, y :: x in b && y in b && le(x, y) && le(y, x) ==> x == y
    ensures a == b
    decreases |a|
  {
    SameElements(a, b);
    if a != [] {
      assert a[0] in a && b[0] in b;
      SameTails(a, b);
      assert SortedBy(a[1..], le) && SortedBy(b[1..], le);
      SortedOnce(a[1..], b[1..], le);
      assert a == [a[0]] + a[1..] && b == [b[0]] + b[1..];
    }
  }
}
