/** Python's `sorted(s, key=key, reverse=True)`: the elements ordered by
    descending key, elements with equal keys kept in their input order.
    Modelled as a stable insertion sort. */
module StableSort {
  import opened Seqs

  predicate SortedDesc<T>(s: seq<T>, key: T -> real) {
    forall i, j | 0 <= i < j < |s| :: key(s[i]) >= key(s[j])
  }

  /** Inserts `x` in front of the first element whose key is not larger. */
  function Insert<T>(x: T, l: seq<T>, key: T -> real): seq<T>
  {
    if l == [] || key(x) >= key(l[0]) then [x] + l
    else [l[0]] + Insert(x, l[1..], key)
  }

  function SortDesc<T>(s: seq<T>, key: T -> real): seq<T>
  {
    if s == [] then [] else Insert(s[0], SortDesc(s[1..], key), key)
  }

  /** The elements whose key is `k`. */
  function KeyIs<T>(key: T -> real, k: real): T -> bool {
    x => key(x) == k
  }

  lemma {:induction false} InsertPermutes<T>(x: T, l: seq<T>, key: T -> real)
    ensures multiset(Insert(x, l, key)) == multiset(l) + multiset{x}
  {
    if !(l == [] || key(x) >= key(l[0])) {
      InsertPermutes(x, l[1..], key);
      assert l == [l[0]] + l[1..];
    }
  }

  lemma {:induction false} InsertSorted<T>(x: T, l: seq<T>, key: T -> real)
    requires SortedDesc(l, key)
    ensures SortedDesc(Insert(x, l, key), key)
  {
    if !(l == [] || key(x) >= key(l[0])) {
      var rest := Insert(x, l[1..], key);
      InsertSorted(x, l[1..], key);
      InsertPermutes(x, l[1..], key);
      forall y | y in rest ensures key(l[0]) >= key(y) {
        assert y in multiset(rest);
        assert y == x || y in multiset(l[1..]);
      }
    }
  }

  /** Inserting `x` puts it before every element with its key, and leaves
      the other key classes as they were. */
  lemma {:induction false} InsertClass<T>(x: T, l: seq<T>, key: T -> real, k: real)
    ensures Filter(Insert(x, l, key), KeyIs(key, k)) == Filter([x], KeyIs(key, k)) + Filter(l, KeyIs(key, k))
  {
    var p := KeyIs(key, k);
    if l == [] || key(x) >= key(l[0]) {
      FilterAppend([x], l, p);
    } else {
      InsertClass(x, l[1..], key, k);
      FilterAppend([l[0]], Insert(x, l[1..], key), p);
      FilterAppend([l[0]], l[1..], p);
      assert l == [l[0]] + l[1..];
      if key(x) == k {
        assert Filter([l[0]], p) == [] by { assert [l[0]][..0] == []; }
      } else {
        assert Filter([x], p) == [] by { assert [x][..0] == []; }
      }
    }
  }

  /** The result is ordered by descending key. */
  lemma {:induction false} SortDescSorted<T>(s: seq<T>, key: T -> real)
    ensures SortedDesc(SortDesc(s, key), key)
  {
    if s != [] {
      SortDescSorted(s[1..], key);
      InsertSorted(s[0], SortDesc(s[1..], key), key);
    }
  }

  /** The result is a permutation of the input. */
  lemma {:induction false} SortDescPermutes<T>(s: seq<T>, key: T -> real)
    ensures multiset(SortDesc(s, key)) == multiset(s)
  {
    if s != [] {
      SortDescPermutes(s[1..], key);
      InsertPermutes(s[0], SortDesc(s[1..], key), key);
      assert s == [s[0]] + s[1..];
    }
  }

  /** The sort is stable: the elements of each key, in order, are those of the input. */
  lemma {:induction false} SortDescStable<T>(s: seq<T>, key: T -> real, k: real)
    ensures Filter(SortDesc(s, key), KeyIs(key, k)) == Filter(s, KeyIs(key, k))
  {
    if s != [] {
      SortDescStable(s[1..], key, k);
      InsertClass(s[0], SortDesc(s[1..], key), key, k);
      FilterAppend([s[0]], s[1..], KeyIs(key, k));
      assert s == [s[0]] + s[1..];
    }
  }
}
