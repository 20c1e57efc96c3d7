/**
 * `ORDER BY major DESC, minor DESC` over a row list: an insertion sort by a key, with
 * the facts the queries need about it.
 */
module Ordering {
  /** A sort key compared lexicographically. */
  datatype Key = Key(major: int, minor: int)

  predicate Le(a: Key, b: Key) {
    a.major < b.major || (a.major == b.major && a.minor <= b.minor)
  }

  /** No element's key exceeds its predecessor's. */
  ghost predicate Descending<T>(s: seq<T>, key: T -> Key) {
    forall i :: 0 < i < |s| ==> Le(key(s[i]), key(s[i - 1]))
  }

  /** No two elements agree on `f`. */
  ghost predicate DistinctBy<T, K>(s: seq<T>, f: T -> K) {
    forall i, j :: 0 <= i < j < |s| ==> f(s[i]) != f(s[j])
  }

  /** Places `x` before the first element whose key does not exceed its own. */
  function Insert<T>(x: T, s: seq<T>, key: T -> Key): (r: seq<T>)
    requires Descending(s, key)
    ensures Descending(r, key)
    ensures multiset(r) == multiset(s) + multiset{x}
    ensures r[0] == x || (s != [] && r[0] == s[0])
    decreases |s|
  {
    if s == [] || Le(key(s[0]), key(x)) then [x] + s
    else
      var t := Insert(x, s[1..], key);
      assert s == [s[0]] + s[1..];
      [s[0]] + t
  }

  /** The rows in descending key order: a permutation of the input. */
  function Sort<T>(s: seq<T>, key: T -> Key): (r: seq<T>)
    ensures Descending(r, key)
    ensures multiset(r) == multiset(s) && |r| == |s|
    decreases |s|
  {
    if s == [] then []
    else
      assert s == [s[0]] + s[1..];
      Insert(s[0], Sort(s[1..], key), key)
  }

  /** Descending between neighbours means descending between any two positions. */
  lemma {:induction false} DescendingAll<T>(s: seq<T>, key: T -> Key, i: nat, j: nat)
    requires Descending(s, key) && i <= j < |s|
    ensures Le(key(s[j]), key(s[i]))
    decreases j - i
  {
    if i < j {
      DescendingAll(s, key, i + 1, j);
    }
  }

  lemma DescendingSlice<T>(s: seq<T>, key: T -> Key, lo: nat, hi: nat)
    requires Descending(s, key) && lo <= hi <= |s|
    ensures Descending(s[lo..hi], key)
  {
    forall i | 0 < i < hi - lo ensures Le(key(s[lo..hi][i]), key(s[lo..hi][i - 1])) {
      assert s[lo..hi][i] == s[lo + i] && s[lo..hi][i - 1] == s[lo + i - 1];
    }
  }

  /** An element found at two positions occurs at least twice. */
  lemma TwiceInSeq<T>(s: seq<T>, i: nat, j: nat)
    requires i < j < |s| && s[i] == s[j]
    ensures multiset(s)[s[i]] >= 2
  {
    assert s == s[..j] + [s[j]] + s[j + 1..];
    assert s[i] in s[..j];
  }

  /** In a sequence without repeated values of `f`, each element occurs once. */
  lemma OnceIfDistinct<T, K>(s: seq<T>, p: nat, f: T -> K)
    requires DistinctBy(s, f) && p < |s|
    ensures multiset(s)[s[p]] == 1
  {
    assert s == s[..p] + [s[p]] + s[p + 1..];
    assert s[p] !in s[..p];
    assert s[p] !in s[p + 1..];
  }

  /** Two sequences holding the same elements agree on whether they repeat a value of `f`. */
  lemma DistinctByPermutation<T, K>(a: seq<T>, b: seq<T>, f: T -> K)
    requires multiset(a) == multiset(b) && DistinctBy(a, f)
    ensures DistinctBy(b, f)
  {
    forall i, j | 0 <= i < j < |b| ensures f(b[i]) != f(b[j]) {
      assert b[i] in multiset(a) && b[j] in multiset(a);
      var p :| 0 <= p < |a| && a[p] == b[i];
      var q :| 0 <= q < |a| && a[q] == b[j];
      if p == q {
        TwiceInSeq(b, i, j);
        OnceIfDistinct(a, p, f);
        assert false;
      }
    }
  }

  /** Two descending arrangements of the same rows, with distinct keys, start with the same row. */
  lemma HeadsAgree<T>(a: seq<T>, b: seq<T>, key: T -> Key)
    requires Descending(a, key) && Descending(b, key)
    requires multiset(a) == multiset(b) && DistinctBy(a, key) && a != []
    ensures b != [] && a[0] == b[0]
  {
    assert a[0] in multiset(b);
    var j :| 0 <= j < |b| && b[j] == a[0];
    assert b[0] in multiset(a);
    var i :| 0 <= i < |a| && a[i] == b[0];
    DescendingAll(b, key, 0, j);
    DescendingAll(a, key, 0, i);
    assert key(a[i]) == key(a[0]);
  }

  lemma TailsPermutation<T>(a: seq<T>, b: seq<T>)
    requires a != [] && b != [] && a[0] == b[0] && multiset(a) == multiset(b)
    ensures multiset(a[1..]) == multiset(b[1..])
  {
    assert a == [a[0]] + a[1..];
    assert b == [b[0]] + b[1..];
    assert multiset(a) == multiset{a[0]} + multiset(a[1..]);
    assert multiset(b) == multiset{a[0]} + multiset(b[1..]);
    forall x ensures multiset(a[1..])[x] == multiset(b[1..])[x] {
      assert multiset(a)[x] == multiset{a[0]}[x] + multiset(a[1..])[x];
      assert multiset(b)[x] == multiset{a[0]}[x] + multiset(b[1..])[x];
    }
  }

  /**
   * With distinct keys there is one descending arrangement of a collection of rows:
   * the order of the result depends on the rows, not on how they were stored.
   */
  lemma {:induction false} SortedUnique<T>(a: seq<T>, b: seq<T>, key: T -> Key)
    requires Descending(a, key) && Descending(b, key)
    requires multiset(a) == multiset(b) && DistinctBy(a, key)
    ensures a == b
    decreases |a|
  {
    if a == [] {
      assert |b| == |multiset(b)| == |multiset(a)| == 0;
    } else {
      HeadsAgree(a, b, key);
      var a', b' := a[1..], b[1..];
      assert a == [a[0]] + a' && b == [b[0]] + b';
      TailsPermutation(a, b);
      DescendingSlice(a, key, 1, |a|);
      DescendingSlice(b, key, 1, |b|);
      assert DistinctBy(a', key) by {
        forall i, j | 0 <= i < j < |a'| ensures key(a'[i]) != key(a'[j]) {
          assert a'[i] == a[i + 1] && a'[j] == a[j + 1];
        }
      }
      SortedUnique(a', b', key);
    }
  }
}
