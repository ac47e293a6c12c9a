/** Selecting the smallest elements of a set in a strict total order: insertion into a sorted list, and the
    uniqueness of the selection. */
module Selection {
  import opened Arithmetic

  /** A strict order that compares any two different members of s. */
  ghost predicate Ordered<T(!new)>(less: (T, T) -> bool, s: set<T>) {
    && (forall p :: p in s ==> !less(p, p))
    && (forall p, q :: p in s && q in s && p != q ==> less(p, q) || less(q, p))
    && (forall p, q, r :: p in s && q in s && r in s && less(p, q) && less(q, r) ==> less(p, r))
  }

  ghost predicate Ascending<T>(less: (T, T) -> bool, r: seq<T>) {
    forall i, j :: 0 <= i < j < |r| ==> less(r[i], r[j])
  }

  /** r lists the count smallest members of s, or all of them, in strictly increasing order. */
  ghost predicate IsSmallest<T(!new)>(less: (T, T) -> bool, s: set<T>, count: nat, r: seq<T>) {
    && |r| == Min(count, |s|)
    && Ascending(less, r)
    && (forall p :: p in r ==> p in s)
    && (forall p, q :: p in s && p !in r && q in r ==> less(q, p))
  }

  // ----- there is only one selection

  lemma NotLess<T(!new)>(less: (T, T) -> bool, s: set<T>, count: nat, r: seq<T>, r': seq<T>, n: nat)
    requires Ordered(less, s) && IsSmallest(less, s, count, r) && IsSmallest(less, s, count, r')
    requires n < |r| == |r'| && forall i :: 0 <= i < n ==> r[i] == r'[i]
    ensures !less(r[n], r'[n])
  {
    assert r[n] in r && r'[n] in r';
    if r[n] in r' {
      var j :| 0 <= j < |r'| && r'[j] == r[n];
    }
  }

  lemma {:induction false} SmallestAgree<T(!new)>(less: (T, T) -> bool, s: set<T>, count: nat, r: seq<T>, r': seq<T>, n: nat)
    requires Ordered(less, s) && IsSmallest(less, s, count, r) && IsSmallest(less, s, count, r') && n <= |r|
    ensures |r| == |r'| && forall i :: 0 <= i < n ==> r[i] == r'[i]
  {
    if n > 0 {
      SmallestAgree(less, s, count, r, r', n - 1);
      NotLess(less, s, count, r, r', n - 1);
      NotLess(less, s, count, r', r, n - 1);
      assert r[n - 1] in s && r'[n - 1] in s;
    }
  }

  lemma SmallestUnique<T(!new)>(less: (T, T) -> bool, s: set<T>, count: nat, r: seq<T>, r': seq<T>)
    requires Ordered(less, s) && IsSmallest(less, s, count, r) && IsSmallest(less, s, count, r')
    ensures r == r'
  {
    SmallestAgree(less, s, count, r, r', |r|);
  }

  // ----- sorting

  /** Inserts p behind the last entry that is less than it. */
  ghost function InsertInOrder<T>(less: (T, T) -> bool, r: seq<T>, p: T): seq<T> {
    if r == [] || less(r[|r| - 1], p) then r + [p]
    else InsertInOrder(less, r[..|r| - 1], p) + [r[|r| - 1]]
  }

  lemma AscendingAppend<T(!new)>(less: (T, T) -> bool, s: set<T>, r: seq<T>, p: T)
    requires Ordered(less, s) && p in s && (forall q :: q in r ==> q in s)
    requires Ascending(less, r) && (r == [] || less(r[|r| - 1], p))
    ensures Ascending(less, r + [p])
  {
    forall i | 0 <= i < |r|
      ensures less(r[i], p)
    {
      assert r[i] in r && r[|r| - 1] in r;
    }
  }

  lemma {:induction false} InsertMembers<T>(less: (T, T) -> bool, r: seq<T>, p: T)
    ensures InsertInOrder(less, r, p) != []
    ensures forall q :: q in InsertInOrder(less, r, p) <==> q in r || q == p
  {
    if r != [] && !less(r[|r| - 1], p) {
      InsertMembers(less, r[..|r| - 1], p);
      assert r == r[..|r| - 1] + [r[|r| - 1]];
    }
  }

  lemma {:induction false} InsertSorts<T(!new)>(less: (T, T) -> bool, s: set<T>, r: seq<T>, p: T)
    requires Ordered(less, s) && p in s && p !in r && (forall q :: q in r ==> q in s)
    requires Ascending(less, r)
    ensures Ascending(less, InsertInOrder(less, r, p))
  {
    if r == [] || less(r[|r| - 1], p) {
      AscendingAppend(less, s, r, p);
    } else {
      var init, last := r[..|r| - 1], r[|r| - 1];
      assert r == init + [last];
      InsertSorts(less, s, init, p);
      InsertMembers(less, init, p);
      var t := InsertInOrder(less, init, p);
      assert t[|t| - 1] in t;
      AscendingAppend(less, s, t, last);
    }
  }

  lemma {:induction false} SetOfList<T>(list: seq<T>, s: set<T>)
    requires forall i, j :: 0 <= i < j < |list| ==> list[i] != list[j]
    requires forall p :: p in s <==> p in list
    ensures |s| == |list|
    decreases |list|
  {
    if list == [] {
      assert s == {};
    } else {
      var init, last := list[..|list| - 1], list[|list| - 1];
      assert last !in init;
      assert list == init + [last];
      SetOfList(init, s - {last});
    }
  }

  /** The first entries of all members in ascending order are the smallest ones. */
  lemma TakeIsSmallest<T(!new)>(less: (T, T) -> bool, s: set<T>, count: nat, sorted: seq<T>)
    requires Ordered(less, s) && Ascending(less, sorted) && forall p :: p in s <==> p in sorted
    ensures IsSmallest(less, s, count, sorted[..Min(count, |sorted|)])
  {
    forall i, j | 0 <= i < j < |sorted|
      ensures sorted[i] != sorted[j]
    {
      assert sorted[j] in sorted;
    }
    SetOfList(sorted, s);
    var r := sorted[..Min(count, |sorted|)];
    forall p, q | p in s && p !in r && q in r
      ensures less(q, p)
    {
      var i :| 0 <= i < |r| && r[i] == q;
      var j :| 0 <= j < |sorted| && sorted[j] == p;
      assert forall m :: 0 <= m < |r| ==> r[m] == sorted[m] != p;
    }
  }
}
