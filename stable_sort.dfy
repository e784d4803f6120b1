/**
  The stable sort that `Array.prototype.sort` performs (ECMA-262 requires stability since
  its 2019 edition), specialised to the comparators the core passes it: both order their
  elements by a key, larger keys first, as in `(a, b) => b.total - a.total` and
  `(a, b) => new Date(b.date) - new Date(a.date)`.

  The result is modelled by insertion sort. Its properties are that it is a permutation of
  the input, that keys never increase along it, that elements with equal keys keep their
  input order, and that these properties determine the result: any other stable sort of the
  same input by the same comparator returns the same sequence.
*/
module StableSort {

  /** `less` is a strict total order: irreflexive, transitive, and any two different keys are
      comparable. */
  ghost predicate StrictTotalOrder<K(!new)>(less: (K, K) -> bool) {
    && (forall a :: !less(a, a))
    && (forall a, b, c :: less(a, b) && less(b, c) ==> less(a, c))
    && (forall a, b :: a != b ==> less(a, b) || less(b, a))
  }

  ghost predicate Irreflexive<K(!new)>(less: (K, K) -> bool) {
    forall a :: !less(a, a)
  }

  /** Keys never increase from left to right. */
  ghost predicate SortedDesc<T, K>(s: seq<T>, key: T -> K, less: (K, K) -> bool) {
    forall i, j :: 0 <= i < j < |s| ==> !less(key(s[i]), key(s[j]))
  }

  /** The elements of `s` whose key is `k`, in the order they have in `s`. */
  function Select<T, K(==)>(s: seq<T>, key: T -> K, k: K): (r: seq<T>)
    ensures |r| <= |s|
  {
    if s == [] then []
    else (if key(s[0]) == k then [s[0]] else []) + Select(s[1..], key, k)
  }

  /** Equal keys keep their relative order: for every key, the elements carrying it appear in
      `r` in the same order as in `s`. */
  ghost predicate KeepsTieOrder<T, K(!new)>(r: seq<T>, s: seq<T>, key: T -> K) {
    forall k :: Select(r, key, k) == Select(s, key, k)
  }

  /** Inserts `x` into `r` in front of the first element whose key is not larger than `x`'s. */
  function Insert<T, K>(x: T, r: seq<T>, key: T -> K, less: (K, K) -> bool): (res: seq<T>)
    ensures multiset(res) == multiset(r) + multiset{x}
  {
    if r == [] || !less(key(x), key(r[0])) then [x] + r
    else
      assert r == [r[0]] + r[1..];
      [r[0]] + Insert(x, r[1..], key, less)
  }

  /** The stable sort of `s`, largest key first. */
  function SortDesc<T, K>(s: seq<T>, key: T -> K, less: (K, K) -> bool): (r: seq<T>)
    ensures multiset(r) == multiset(s)
    ensures |r| == |s|
  {
    if s == [] then []
    else
      assert s == [s[0]] + s[1..];
      Insert(s[0], SortDesc(s[1..], key, less), key, less)
  }

  // ---------------------------------------------------------------------------
  // Sortedness
  // ---------------------------------------------------------------------------

  lemma NotLessTransitive<K(!new)>(less: (K, K) -> bool, a: K, b: K, c: K)
    requires StrictTotalOrder(less)
    requires !less(a, b) && !less(b, c)
    ensures !less(a, c)
  {
    if a != b {
      assert less(b, a);
    }
  }

  lemma {:induction false} InsertSorted<T, K(!new)>(x: T, r: seq<T>, key: T -> K, less: (K, K) -> bool)
    requires StrictTotalOrder(less)
    requires SortedDesc(r, key, less)
    ensures SortedDesc(Insert(x, r, key, less), key, less)
  {
    var res := Insert(x, r, key, less);
    if r == [] || !less(key(x), key(r[0])) {
      forall j | 1 <= j < |res| ensures !less(key(x), key(res[j])) {
        assert res[j] == r[j - 1];
        if j > 1 {
          NotLessTransitive(less, key(x), key(r[0]), key(r[j - 1]));
        }
      }
    } else {
      var tail := Insert(x, r[1..], key, less);
      InsertSorted(x, r[1..], key, less);
      assert res == [r[0]] + tail;
      forall j | 0 <= j < |tail| ensures !less(key(r[0]), key(tail[j])) {
        assert tail[j] in multiset(r[1..]) + multiset{x};
        if tail[j] == x {
          assert !less(key(r[0]), key(x));
        } else {
          assert tail[j] in r[1..];
          var m :| 0 <= m < |r[1..]| && r[1..][m] == tail[j];
          assert r[m + 1] == tail[j];
        }
      }
    }
  }

  /** The keys of `SortDesc(s)` never increase. */
  lemma {:induction false} SortDescSorted<T, K(!new)>(s: seq<T>, key: T -> K, less: (K, K) -> bool)
    requires StrictTotalOrder(less)
    ensures SortedDesc(SortDesc(s, key, less), key, less)
  {
    if s != [] {
      SortDescSorted(s[1..], key, less);
      InsertSorted(s[0], SortDesc(s[1..], key, less), key, less);
    }
  }

  // ---------------------------------------------------------------------------
  // Stability
  // ---------------------------------------------------------------------------

  lemma {:induction false} InsertSelect<T, K(!new)>(x: T, r: seq<T>, key: T -> K, less: (K, K) -> bool, k: K)
    requires Irreflexive(less)
    ensures Select(Insert(x, r, key, less), key, k) == (if key(x) == k then [x] else []) + Select(r, key, k)
  {
    if r == [] || !less(key(x), key(r[0])) {
      assert ([x] + r)[1..] == r;
    } else {
      var tail := Insert(x, r[1..], key, less);
      InsertSelect(x, r[1..], key, less, k);
      assert ([r[0]] + tail)[1..] == tail;
      assert key(x) != key(r[0]);
    }
  }

  /** `SortDesc` keeps the input order among elements with equal keys. */
  lemma {:induction false} SortDescStable<T, K(!new)>(s: seq<T>, key: T -> K, less: (K, K) -> bool)
    requires Irreflexive(less)
    ensures KeepsTieOrder(SortDesc(s, key, less), s, key)
  {
    forall k {
      SortDescSelect(s, key, less, k);
    }
  }

  lemma {:induction false} SortDescSelect<T, K(!new)>(s: seq<T>, key: T -> K, less: (K, K) -> bool, k: K)
    requires Irreflexive(less)
    ensures Select(SortDesc(s, key, less), key, k) == Select(s, key, k)
  {
    if s != [] {
      SortDescSelect(s[1..], key, less, k);
      InsertSelect(s[0], SortDesc(s[1..], key, less), key, less, k);
    }
  }

  // ---------------------------------------------------------------------------
  // Uniqueness: sortedness and stability determine the result
  // ---------------------------------------------------------------------------

  lemma {:induction false} SelectWitness<T, K>(s: seq<T>, key: T -> K, k: K)
    requires Select(s, key, k) != []
    ensures exists j :: 0 <= j < |s| && key(s[j]) == k
  {
    if key(s[0]) != k {
      SelectWitness(s[1..], key, k);
      var j :| 0 <= j < |s[1..]| && key(s[1..][j]) == k;
      assert key(s[j + 1]) == k;
    }
  }

  lemma SelectOfHead<T, K>(s: seq<T>, key: T -> K)
    requires s != []
    ensures Select(s, key, key(s[0])) == [s[0]] + Select(s[1..], key, key(s[0]))
  {
  }

  /** Two sequences that are both sorted by key and have the same elements per key, in the same
      order, are equal. */
  lemma {:induction false} SortedTieOrderUnique<T, K(!new)>(t: seq<T>, u: seq<T>, key: T -> K, less: (K, K) -> bool)
    requires StrictTotalOrder(less)
    requires SortedDesc(t, key, less) && SortedDesc(u, key, less)
    requires KeepsTieOrder(t, u, key)
    ensures t == u
  {
    if t == [] && u != [] {
      SelectOfHead(u, key);
      assert false;
    } else if t != [] && u == [] {
      SelectOfHead(t, key);
      assert false;
    } else if t != [] && u != [] {
      var k0, k1 := key(t[0]), key(u[0]);
      assert Select(u, key, k0) == Select(t, key, k0) != [];
      SelectWitness(u, key, k0);
      var j :| 0 <= j < |u| && key(u[j]) == k0;
      assert !less(k1, k0) by {
        if j > 0 {
          assert !less(key(u[0]), key(u[j]));
        }
      }
      assert Select(t, key, k1) == Select(u, key, k1) != [];
      SelectWitness(t, key, k1);
      var m :| 0 <= m < |t| && key(t[m]) == k1;
      assert !less(k0, k1) by {
        if m > 0 {
          assert !less(key(t[0]), key(t[m]));
        }
      }
      assert k0 == k1;
      SelectOfHead(t, key);
      SelectOfHead(u, key);
      assert Select(t, key, k0) == Select(u, key, k0);
      assert t[0] == Select(t, key, k0)[0] == Select(u, key, k0)[0] == u[0];
      forall k ensures Select(t[1..], key, k) == Select(u[1..], key, k) {
        var st, su := Select(t[1..], key, k), Select(u[1..], key, k);
        assert Select(t, key, k) == Select(u, key, k);
        assert Select(t, key, k) == (if k0 == k then [t[0]] else []) + st;
        assert Select(u, key, k) == (if k0 == k then [u[0]] else []) + su;
        if k == k0 {
          assert st == ([t[0]] + st)[1..];
          assert su == ([u[0]] + su)[1..];
        } else {
          assert [] + st == st && [] + su == su;
        }
      }
      SortedTieOrderUnique(t[1..], u[1..], key, less);
      assert t == [t[0]] + t[1..] && u == [u[0]] + u[1..];
    }
  }

  /** Any arrangement of `s` that is sorted by key and keeps the order of equal keys is
      `SortDesc(s)`: the model is the one result a stable sort can return. */
  lemma SortDescIsTheStableSort<T, K(!new)>(s: seq<T>, t: seq<T>, key: T -> K, less: (K, K) -> bool)
    requires StrictTotalOrder(less)
    requires SortedDesc(t, key, less) && KeepsTieOrder(t, s, key)
    ensures t == SortDesc(s, key, less)
  {
    SortDescSorted(s, key, less);
    SortDescStable(s, key, less);
    SortedTieOrderUnique(t, SortDesc(s, key, less), key, less);
  }
}
