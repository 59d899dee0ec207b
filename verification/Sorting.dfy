/** A stable sort by a numeric key. */
module Sorting {

  ghost predicate IsSortedBy<T(!new)>(key: T -> nat, items: seq<T>) {
    forall i, j :: 0 <= i < j < |items| ==> key(items[i]) <= key(items[j])
  }

  ghost predicate AllAtMost<T(!new)>(key: T -> nat, items: seq<T>, bound: nat) {
    forall i :: 0 <= i < |items| ==> key(items[i]) <= bound
  }

  ghost predicate AreDistinct<T(!new)>(items: seq<T>) {
    forall i, j :: 0 <= i < j < |items| ==> items[i] != items[j]
  }

  function SortByKey<T(!new)>(key: T -> nat, items: seq<T>): (sorted: seq<T>)
    ensures IsSortedBy(key, sorted)
  {
    if items == [] then []
    else InsertByKey(key, items[|items| - 1], SortByKey(key, items[..|items| - 1]))
  }

  function InsertByKey<T(!new)>(key: T -> nat, item: T, sorted: seq<T>): (more: seq<T>)
    requires IsSortedBy(key, sorted)
    ensures IsSortedBy(key, more)
    ensures forall bound :: AllAtMost(key, sorted, bound) && key(item) <= bound ==> AllAtMost(key, more, bound)
  {
    if sorted == [] then [item]
    else
      var n := |sorted| - 1;
      if key(sorted[n]) <= key(item) then sorted + [item]
      else
        assert AllAtMost(key, sorted[..n], key(sorted[n]));
        InsertByKey(key, item, sorted[..n]) + [sorted[n]]
  }

  lemma {:induction false} InsertKeeps<T(!new)>(key: T -> nat, item: T, sorted: seq<T>)
    requires IsSortedBy(key, sorted)
    ensures multiset(InsertByKey(key, item, sorted)) == multiset(sorted) + multiset{item}
  {
    if sorted != [] {
      var n := |sorted| - 1;
      assert sorted == sorted[..n] + [sorted[n]];
      InsertKeeps(key, item, sorted[..n]);
    }
  }

  lemma {:induction false} SortKeeps<T(!new)>(key: T -> nat, items: seq<T>)
    ensures multiset(SortByKey(key, items)) == multiset(items)
  {
    if items != [] {
      var n := |items| - 1;
      assert items == items[..n] + [items[n]];
      SortKeeps(key, items[..n]);
      InsertKeeps(key, items[n], SortByKey(key, items[..n]));
    }
  }

  lemma OccursTwice<T(!new)>(items: seq<T>, i: nat, j: nat)
    requires i < j < |items| && items[i] == items[j]
    ensures multiset(items)[items[i]] >= 2
  {
    assert items == items[..j] + items[j..];
    assert items[..j][i] in multiset(items[..j]) && items[j..][0] in multiset(items[j..]);
  }

  lemma {:induction false} DistinctOccurOnce<T(!new)>(items: seq<T>, item: T)
    requires AreDistinct(items)
    ensures multiset(items)[item] == if item in items then 1 else 0
  {
    if items != [] {
      var n := |items| - 1;
      assert items == items[..n] + [items[n]];
      DistinctOccurOnce(items[..n], item);
    }
  }

  /** Rearranging distinct items leaves them distinct and loses none. */
  lemma RearrangedAreDistinct<T(!new)>(items: seq<T>, rearranged: seq<T>)
    requires AreDistinct(items) && multiset(rearranged) == multiset(items)
    ensures AreDistinct(rearranged)
    ensures forall item :: item in rearranged <==> item in items
  {
    forall i, j | 0 <= i < j < |rearranged|
      ensures rearranged[i] != rearranged[j]
    {
      if rearranged[i] == rearranged[j] {
        OccursTwice(rearranged, i, j);
        DistinctOccurOnce(items, rearranged[i]);
        assert false;
      }
    }
    forall item
      ensures item in rearranged <==> item in items
    {
      assert item in rearranged <==> item in multiset(rearranged);
      assert item in items <==> item in multiset(items);
    }
  }
}
