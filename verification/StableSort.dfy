/** The standard library's stable `sort_by`, as a function of an integer key. */
module StableSort {
  import opened Prelude

  function Insert<T>(x: T, s: seq<T>, key: T -> int): (r: seq<T>)
    ensures multiset(r) == multiset{x} + multiset(s)
  {
    if s == [] then [x]
    else if key(x) <= key(s[0]) then [x] + s
    else
      assert s == [s[0]] + s[1..];
      [s[0]] + Insert(x, s[1..], key)
  }

  function SortBy<T>(s: seq<T>, key: T -> int): (r: seq<T>)
    ensures multiset(r) == multiset(s)
  {
    if s == [] then []
    else
      assert s == [s[0]] + s[1..];
      Insert(s[0], SortBy(s[1..], key), key)
  }

  ghost predicate Sorted<T>(s: seq<T>, key: T -> int) {
    forall i, j :: 0 <= i < j < |s| ==> key(s[i]) <= key(s[j])
  }

  ghost predicate StrictlySorted<T>(s: seq<T>, key: T -> int) {
    forall i, j :: 0 <= i < j < |s| ==> key(s[i]) < key(s[j])
  }

  lemma {:induction false} InsertSorted<T>(x: T, s: seq<T>, key: T -> int)
    requires Sorted(s, key)
    ensures Sorted(Insert(x, s, key), key)
  {
    if s != [] && key(x) > key(s[0]) {
      InsertSorted(x, s[1..], key);
      var r := Insert(x, s[1..], key);
      forall j | 0 <= j < |r| ensures key(s[0]) <= key(r[j]) {
        assert r[j] in multiset(r);
        assert r[j] == x || r[j] in s[1..];
      }
    }
  }

  lemma {:induction false} SortSorted<T>(s: seq<T>, key: T -> int)
    ensures Sorted(SortBy(s, key), key)
  {
    if s != [] {
      SortSorted(s[1..], key);
      InsertSorted(s[0], SortBy(s[1..], key), key);
    }
  }

  lemma {:induction false} FilterInsert<T>(x: T, s: seq<T>, key: T -> int, keep: T -> bool)
    requires Sorted(s, key)
    ensures Filter(Insert(x, s, key), keep)
         == if keep(x) then Insert(x, Filter(s, keep), key) else Filter(s, keep)
  {
    if s == [] {
    } else if key(x) <= key(s[0]) {
      assert ([x] + s)[1..] == s;
      if Filter(s, keep) != [] {
        FilterMember(s, keep, 0);
      }
    } else {
      var tail := Insert(x, s[1..], key);
      assert ([s[0]] + tail)[1..] == tail;
      FilterInsert(x, s[1..], key, keep);
      if keep(s[0]) {
        assert ([s[0]] + Filter(s[1..], keep))[1..] == Filter(s[1..], keep);
      }
    }
  }

  lemma {:induction false} FilterMember<T>(s: seq<T>, keep: T -> bool, i: nat)
    requires i < |Filter(s, keep)|
    ensures Filter(s, keep)[i] in s && keep(Filter(s, keep)[i])
  {
    if keep(s[0]) {
      if i > 0 {
        FilterMember(s[1..], keep, i - 1);
      }
    } else {
      FilterMember(s[1..], keep, i);
    }
  }

  /** Sorting a sublist is the sublist of the sorted list: with `keep` selecting one key, this is stability. */
  lemma {:induction false} SortFilter<T>(s: seq<T>, key: T -> int, keep: T -> bool)
    ensures Filter(SortBy(s, key), keep) == SortBy(Filter(s, keep), key)
  {
    if s != [] {
      SortFilter(s[1..], key, keep);
      SortSorted(s[1..], key);
      FilterInsert(s[0], SortBy(s[1..], key), key, keep);
      if keep(s[0]) {
        assert ([s[0]] + Filter(s[1..], keep))[1..] == Filter(s[1..], keep);
      }
    }
  }

  /** A list already in order is left alone; in particular elements of equal key keep their order. */
  lemma {:induction false} SortOfSorted<T>(s: seq<T>, key: T -> int)
    requires Sorted(s, key)
    ensures SortBy(s, key) == s
  {
    if s != [] {
      SortOfSorted(s[1..], key);
    }
  }

  /** The elements of one key, in the order of the list. */
  function WithKey<T>(s: seq<T>, key: T -> int, k: int): seq<T> { Filter(s, x => key(x) == k) }

  /** A sort keeps the order among elements whose keys it does not tell apart. */
  lemma {:induction false} SortKeepsOrder<T>(s: seq<T>, order: T -> int, key: T -> int, k: int)
    requires forall a, b :: a in s && b in s && key(a) == k && key(b) == k ==> order(a) == order(b)
    ensures WithKey(SortBy(s, order), key, k) == WithKey(s, key, k)
  {
    var keep := x => key(x) == k;
    SortFilter(s, order, keep);
    var f := Filter(s, keep);
    forall i | 0 <= i < |f| ensures f[i] in s && key(f[i]) == k {
      FilterMember(s, keep, i);
    }
    SortOfSorted(f, order);
  }

  lemma SortStable<T>(s: seq<T>, key: T -> int, k: int)
    ensures WithKey(SortBy(s, key), key, k) == WithKey(s, key, k)
  {
    SortKeepsOrder(s, key, key, k);
  }

  lemma {:induction false} WithKeyCons<T>(s: seq<T>, key: T -> int, k: int)
    requires s != []
    ensures WithKey(s, key, k) == (if key(s[0]) == k then [s[0]] else []) + WithKey(s[1..], key, k)
  {
  }

  lemma {:induction false} WithKeyMember<T>(s: seq<T>, key: T -> int, k: int)
    ensures WithKey(s, key, k) != [] <==> exists i :: 0 <= i < |s| && key(s[i]) == k
  {
    if s != [] {
      WithKeyMember(s[1..], key, k);
      WithKeyCons(s, key, k);
      hide WithKey;
      if WithKey(s[1..], key, k) != [] {
        var i :| 0 <= i < |s[1..]| && key(s[1..][i]) == k;
        assert key(s[i + 1]) == k;
      }
      forall i | 0 < i < |s| ensures key(s[i]) == key(s[1..][i - 1]) {
      }
    }
  }

  /** A sorted list is determined by its elements of each key. */
  lemma {:induction false} SortedByKeys<T>(a: seq<T>, b: seq<T>, key: T -> int)
    requires Sorted(a, key) && Sorted(b, key)
    requires forall k :: WithKey(a, key, k) == WithKey(b, key, k)
    ensures a == b
  {
    hide WithKey;
    if a == [] || b == [] {
      if a != [] {
        WithKeyMember(a, key, key(a[0]));
        WithKeyMember(b, key, key(a[0]));
      }
      if b != [] {
        WithKeyMember(a, key, key(b[0]));
        WithKeyMember(b, key, key(b[0]));
      }
    } else {
      WithKeyMember(a, key, key(a[0]));
      WithKeyMember(b, key, key(a[0]));
      WithKeyMember(a, key, key(b[0]));
      WithKeyMember(b, key, key(b[0]));
      assert key(a[0]) == key(b[0]);
      forall k ensures WithKey(a[1..], key, k) == WithKey(b[1..], key, k) && (k == key(a[0]) ==> [a[0]] == [b[0]]) {
        WithKeyCons(a, key, k);
        WithKeyCons(b, key, k);
        CancelPrefix(if key(a[0]) == k then [a[0]] else [], WithKey(a[1..], key, k),
                     if key(b[0]) == k then [b[0]] else [], WithKey(b[1..], key, k));
      }
      assert WithKey(a[1..], key, key(a[0])) == WithKey(b[1..], key, key(a[0]));
      assert [a[0]][0] == [b[0]][0];
      TailsInOrder(a, key);
      TailsInOrder(b, key);
      SortedByKeys(a[1..], b[1..], key);
      HeadAndTail(a);
      HeadAndTail(b);
    }
  }

  lemma TailsInOrder<T>(s: seq<T>, key: T -> int)
    requires s != [] && Sorted(s, key)
    ensures Sorted(s[1..], key)
  {
  }

  lemma WithKeyAppend<T>(a: seq<T>, b: seq<T>, key: T -> int, k: int)
    ensures WithKey(a + b, key, k) == WithKey(a, key, k) + WithKey(b, key, k)
  {
    FilterAppend(a, b, x => key(x) == k);
  }

  lemma {:induction false} WithKeyReverse<T>(s: seq<T>, key: T -> int, k: int)
    ensures WithKey(Reverse(s), key, k) == Reverse(WithKey(s, key, k))
  {
    if s != [] {
      var keep := x => key(x) == k;
      WithKeyReverse(s[1..], key, k);
      WithKeyCons(s, key, k);
      FilterAppend(Reverse(s[1..]), [s[0]], keep);
      ReverseAppend(if key(s[0]) == k then [s[0]] else [], WithKey(s[1..], key, k));
    }
  }

  /** A permutation whose keys strictly increase is the only sorted one. */
  lemma {:induction false} SortUnique<T>(s: seq<T>, t: seq<T>, key: T -> int)
    requires multiset(s) == multiset(t)
    requires StrictlySorted(t, key)
    ensures SortBy(s, key) == t
  {
    SortSorted(s, key);
    SortedPermutation(SortBy(s, key), t, key);
  }

  lemma SameHead<T>(a: seq<T>, b: seq<T>, key: T -> int)
    requires multiset(a) == multiset(b) && a != [] && b != []
    requires Sorted(a, key) && StrictlySorted(b, key)
    ensures a[0] == b[0]
  {
    assert b[0] in multiset(a) && a[0] in multiset(b);
    HeadIsLeast(a, b[0], key);
    var i :| 0 <= i < |b| && b[i] == a[0];
  }

  lemma {:induction false} SortedPermutation<T>(a: seq<T>, b: seq<T>, key: T -> int)
    requires multiset(a) == multiset(b)
    requires Sorted(a, key) && StrictlySorted(b, key)
    ensures a == b
  {
    hide Sorted;
    hide StrictlySorted;
    assert |a| == |multiset(a)| && |b| == |multiset(b)|;
    if a != [] {
      SameHead(a, b, key);
      TailsSorted(a, b, key);
      TailMultiset(a);
      TailMultiset(b);
      SortedPermutation(a[1..], b[1..], key);
      HeadAndTail(a);
      HeadAndTail(b);
    }
  }

  lemma TailsSorted<T>(a: seq<T>, b: seq<T>, key: T -> int)
    requires a != [] && b != [] && Sorted(a, key) && StrictlySorted(b, key)
    ensures Sorted(a[1..], key) && StrictlySorted(b[1..], key)
  {
  }

  lemma HeadAndTail<T>(s: seq<T>)
    requires s != []
    ensures s == [s[0]] + s[1..]
  {
  }

  lemma HeadIsLeast<T>(s: seq<T>, x: T, key: T -> int)
    requires Sorted(s, key) && x in multiset(s)
    ensures key(s[0]) <= key(x)
  {
    var i :| 0 <= i < |s| && s[i] == x;
  }

  lemma TailMultiset<T>(s: seq<T>)
    requires s != []
    ensures multiset(s[1..]) == multiset(s) - multiset{s[0]}
  {
    assert s == [s[0]] + s[1..];
  }
}
