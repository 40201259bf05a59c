/**
 Sorting and searching as `graph_info.cc` uses them: `Uniquefy` (sort, then drop
 adjacent duplicates) and the `std::lower_bound` lookup over a sorted vector.
 */
module Ordering {

  ghost predicate TotalPreorder<T(!new)>(le: (T, T) -> bool) {
    && (forall x, y :: le(x, y) || le(y, x))
    && (forall x, y, z :: le(x, y) && le(y, z) ==> le(x, z))
  }

  ghost predicate TotalOrder<T(!new)>(le: (T, T) -> bool) {
    TotalPreorder(le) && forall x, y :: le(x, y) && le(y, x) ==> x == y
  }

  predicate IntLe(x: int, y: int) { x <= y }

  /** The lexicographic order of `std::pair`. */
  predicate PairLe(x: (int, int), y: (int, int)) {
    x.0 < y.0 || (x.0 == y.0 && x.1 <= y.1)
  }

  ghost predicate Sorted<T>(le: (T, T) -> bool, s: seq<T>) {
    forall i, j :: 0 <= i < j < |s| ==> le(s[i], s[j])
  }

  /** Sorted without repetitions. */
  ghost predicate StrictlySorted<T>(le: (T, T) -> bool, s: seq<T>) {
    forall i, j :: 0 <= i < j < |s| ==> le(s[i], s[j]) && s[i] != s[j]
  }

  ghost predicate SameElements<T(!new)>(s: seq<T>, r: seq<T>) {
    forall x :: x in s <==> x in r
  }

  function Inserted<T>(s: seq<T>, k: nat, x: T): seq<T>
    requires k <= |s|
  {
    s[..k] + [x] + s[k..]
  }

  lemma InsertKeepsSorted<T(!new)>(le: (T, T) -> bool, s: seq<T>, k: nat, x: T)
    requires TotalPreorder(le) && Sorted(le, s) && k <= |s|
    requires forall i :: 0 <= i < k ==> le(s[i], x)
    requires k < |s| ==> !le(s[k], x)
    ensures Sorted(le, Inserted(s, k, x))
  {
    var r := Inserted(s, k, x);
    forall i | k <= i < |s| ensures le(x, s[i]) {
      assert le(x, s[k]);
      assert k < i ==> le(s[k], s[i]);
    }
    forall j | 0 <= j < |r| ensures r[j] == if j < k then s[j] else if j == k then x else s[j - 1] {
    }
  }

  lemma InsertKeepsElements<T>(s: seq<T>, k: nat, x: T)
    requires k <= |s|
    ensures multiset(Inserted(s, k, x)) == multiset(s) + multiset{x}
  {
    assert s == s[..k] + s[k..];
  }

  /** Stand-in for `std::sort`: any sorting procedure that keeps the elements will do. */
  method Sort<T(!new,==)>(le: (T, T) -> bool, items: seq<T>) returns (r: seq<T>)
    requires TotalPreorder(le)
    ensures Sorted(le, r)
    ensures multiset(r) == multiset(items)
  {
    hide Inserted;
    r := [];
    for n := 0 to |items|
      invariant Sorted(le, r)
      invariant multiset(r) == multiset(items[..n])
    {
      var k := 0;
      while k < |r| && le(r[k], items[n])
        invariant 0 <= k <= |r|
        invariant forall i :: 0 <= i < k ==> le(r[i], items[n])
      {
        k := k + 1;
      }
      InsertKeepsSorted(le, r, k, items[n]);
      InsertKeepsElements(r, k, items[n]);
      assert items[..n + 1] == items[..n] + [items[n]];
      r := Inserted(r, k, items[n]);
    }
    assert items[..|items|] == items;
  }

  /** `std::unique` on a sorted vector followed by the erase of the tail. */
  method Unique<T(!new,==)>(le: (T, T) -> bool, items: seq<T>) returns (r: seq<T>)
    requires TotalOrder(le) && Sorted(le, items)
    ensures StrictlySorted(le, r)
    ensures SameElements(items, r)
  {
    r := [];
    for n := 0 to |items|
      invariant StrictlySorted(le, r)
      invariant SameElements(items[..n], r)
      invariant r != [] ==> n > 0 && r[|r| - 1] == items[n - 1]
      invariant r == [] ==> n == 0
    {
      assert items[..n + 1] == items[..n] + [items[n]];
      if r == [] || r[|r| - 1] != items[n] {
        forall i | 0 <= i < |r| ensures le(r[i], items[n]) && r[i] != items[n] {
          assert le(r[i], r[|r| - 1]);
          assert le(items[n - 1], items[n]);
        }
        r := r + [items[n]];
      }
    }
    assert items[..|items|] == items;
  }

  method Uniquefy<T(!new,==)>(le: (T, T) -> bool, items: seq<T>) returns (r: seq<T>)
    requires TotalOrder(le)
    ensures StrictlySorted(le, r)
    ensures SameElements(items, r)
  {
    var sorted := Sort(le, items);
    assert SameElements(items, sorted) by {
      forall x ensures x in items <==> x in sorted {
        assert x in items <==> x in multiset(items);
        assert x in sorted <==> x in multiset(sorted);
      }
    }
    r := Unique(le, sorted);
  }

  /** `std::lower_bound`: the first position whose element is not below `key`. */
  method LowerBound<T(!new,==)>(le: (T, T) -> bool, items: seq<T>, key: T) returns (pos: nat)
    requires TotalOrder(le) && Sorted(le, items)
    ensures pos <= |items|
    ensures forall i :: 0 <= i < pos ==> !le(key, items[i])
    ensures forall i :: pos <= i < |items| ==> le(key, items[i])
  {
    var lo, hi := 0, |items|;
    while lo < hi
      invariant 0 <= lo <= hi <= |items|
      invariant forall i :: 0 <= i < lo ==> !le(key, items[i])
      invariant forall i :: hi <= i < |items| ==> le(key, items[i])
    {
      var mid := (lo + hi) / 2;
      if le(key, items[mid]) {
        hi := mid;
      } else {
        lo := mid + 1;
      }
    }
    pos := lo;
  }
}
