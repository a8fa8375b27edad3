/** Sorting by an integer key, as `sort_by_key` does it: stable insertion of one
  * element at a time.  The result is a permutation in order of its keys, and
  * where the keys are distinct it is the only one, so sorting does not depend
  * on the order the elements were stored in.
  */
module Sorting {

  ghost predicate Sorted<T>(s: seq<T>, key: T -> int) {
    forall i, j :: 0 <= i < j < |s| ==> key(s[i]) <= key(s[j])
  }

  ghost predicate StrictlySorted<T>(s: seq<T>, key: T -> int) {
    forall i, j :: 0 <= i < j < |s| ==> key(s[i]) < key(s[j])
  }

  ghost predicate DistinctKeys<T>(s: seq<T>, key: T -> int) {
    forall i, j :: 0 <= i < j < |s| ==> key(s[i]) != key(s[j])
  }

  function Insert<T>(x: T, s: seq<T>, key: T -> int): (r: seq<T>)
    ensures |r| == |s| + 1
  {
    if s == [] then [x]
    else if key(s[0]) <= key(x) then [s[0]] + Insert(x, s[1..], key)
    else [x] + s
  }

  /** Stable: equal keys keep their order. */
  function SortByKey<T>(s: seq<T>, key: T -> int): (r: seq<T>)
    ensures |r| == |s|
  {
    if s == [] then [] else Insert(s[|s| - 1], SortByKey(s[..|s| - 1], key), key)
  }

  lemma {:induction false} InsertContents<T>(x: T, s: seq<T>, key: T -> int)
    ensures multiset(Insert(x, s, key)) == multiset(s) + multiset{x}
  {
    if s != [] {
      assert s == [s[0]] + s[1..];
      if key(s[0]) <= key(x) { InsertContents(x, s[1..], key); }
    }
  }

  lemma {:induction false} InsertMember<T>(x: T, s: seq<T>, key: T -> int, i: nat)
    requires i <= |s|
    ensures Insert(x, s, key)[i] == x || Insert(x, s, key)[i] in s
  {
    if s != [] && key(s[0]) <= key(x) && i > 0 { InsertMember(x, s[1..], key, i - 1); }
  }

  lemma {:induction false} InsertSorted<T>(x: T, s: seq<T>, key: T -> int)
    requires Sorted(s, key)
    ensures Sorted(Insert(x, s, key), key)
  {
    if s != [] && key(s[0]) <= key(x) {
      InsertSorted(x, s[1..], key);
      var t := Insert(x, s[1..], key);
      forall i | 0 <= i < |t| ensures key(s[0]) <= key(t[i]) {
        InsertMember(x, s[1..], key, i);
      }
    }
  }

  lemma {:induction false} SortSorts<T>(s: seq<T>, key: T -> int)
    ensures Sorted(SortByKey(s, key), key) && multiset(SortByKey(s, key)) == multiset(s)
  {
    if s != [] {
      SortSorts(s[..|s| - 1], key);
      InsertSorted(s[|s| - 1], SortByKey(s[..|s| - 1], key), key);
      InsertContents(s[|s| - 1], SortByKey(s[..|s| - 1], key), key);
      assert s == s[..|s| - 1] + [s[|s| - 1]];
    }
  }

  /** Two strictly sorted lists of the same elements are the same list, so with
    * distinct keys every sorting method gives this result. */
  lemma {:induction false} SortedUnique<T>(a: seq<T>, b: seq<T>, key: T -> int)
    requires StrictlySorted(a, key) && StrictlySorted(b, key) && multiset(a) == multiset(b)
    ensures a == b
  {
    SameSize(a, b);
    if a != [] {
      var n := |a| - 1;
      SameLast(a, b, key);
      WithoutLast(a);
      WithoutLast(b);
      hide StrictlySorted;
      SortedUnique(a[..n], b[..n], key);
    }
  }

  lemma {:induction false} SameLast<T>(a: seq<T>, b: seq<T>, key: T -> int)
    requires StrictlySorted(a, key) && StrictlySorted(b, key) && multiset(a) == multiset(b) && |a| == |b| > 0
    ensures a[|a| - 1] == b[|b| - 1]
  {
    var n := |a| - 1;
    GreatestIsLast(a, b, key);
    GreatestIsLast(b, a, key);
    var i :| 0 <= i < |b| && b[i] == a[n];
  }

  lemma SameSize<T>(a: seq<T>, b: seq<T>)
    requires multiset(a) == multiset(b)
    ensures |a| == |b|
  {
    assert |a| == |multiset(a)|;
    assert |b| == |multiset(b)|;
  }

  lemma GreatestIsLast<T>(a: seq<T>, b: seq<T>, key: T -> int)
    requires |a| == |b| > 0 && Sorted(b, key) && multiset(a) == multiset(b)
    ensures exists i :: 0 <= i < |b| && b[i] == a[|a| - 1]
    ensures key(a[|a| - 1]) <= key(b[|b| - 1])
  {
    assert a[|a| - 1] in multiset(a);
    assert a[|a| - 1] in b;
  }

  lemma WithoutLast<T>(a: seq<T>)
    requires a != []
    ensures a == a[..|a| - 1] + [a[|a| - 1]]
    ensures multiset(a[..|a| - 1]) == multiset(a) - multiset{a[|a| - 1]}
  {
    assert a == a[..|a| - 1] + [a[|a| - 1]];
  }

  /** Distinctness of keys does not depend on the order. */
  lemma {:induction false} DistinctPermuted<T>(a: seq<T>, b: seq<T>, key: T -> int)
    requires multiset(a) == multiset(b) && DistinctKeys(a, key)
    ensures DistinctKeys(b, key)
  {
    forall i, j | 0 <= i < j < |b| ensures key(b[i]) != key(b[j]) {
      if key(b[i]) == key(b[j]) {
        assert b[i] in multiset(a) && b[j] in multiset(a);
        var p :| 0 <= p < |a| && a[p] == b[i];
        var q :| 0 <= q < |a| && a[q] == b[j];
        assert p == q;
        assert b[i] == b[j];
        TwiceIn(b, i, j);
        OnceIn(a, p, key);
        assert false;
      }
    }
  }

  lemma {:induction false} TwiceIn<T>(b: seq<T>, i: nat, j: nat)
    requires i < j < |b| && b[i] == b[j]
    ensures multiset(b)[b[i]] >= 2
  {
    assert b == b[..j] + [b[j]] + b[j + 1..];
    assert b[..j] == b[..i] + [b[i]] + b[i + 1..j];
  }

  lemma {:induction false} OnceIn<T>(a: seq<T>, p: nat, key: T -> int)
    requires p < |a| && DistinctKeys(a, key)
    ensures multiset(a)[a[p]] == 1
  {
    assert a == a[..p] + [a[p]] + a[p + 1..];
    assert a[p] !in a[..p] && a[p] !in a[p + 1..];
  }

  lemma {:induction false} StrictIsDistinct<T>(s: seq<T>, key: T -> int)
    requires StrictlySorted(s, key)
    ensures DistinctKeys(s, key) && SortByKey(s, key) == s
  {
    SortSorts(s, key);
    DistinctPermuted(s, SortByKey(s, key), key);
    SortedUnique(SortByKey(s, key), s, key);
  }
}
