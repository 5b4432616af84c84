/** A stable sort by a string key, the behaviour of Python's `sorted(s, key=key)`. */
module Sorting {
  import opened Text
  import opened Filtering

  /** Every element's key is at most the key of every later element. */
  predicate SortedBy<T>(s: seq<T>, key: T -> string)
  {
    forall i, j :: 0 <= i < j < |s| ==> LexLe(key(s[i]), key(s[j]))
  }

  /** Puts `x` before the first element whose key is not below its own. */
  function Insert<T>(x: T, s: seq<T>, key: T -> string): (r: seq<T>)
    ensures multiset(r) == multiset(s) + multiset{x}
    decreases |s|
  {
    if s == [] then [x]
    else if LexLe(key(x), key(s[0])) then [x] + s
    else
      assert s == [s[0]] + s[1..];
      [s[0]] + Insert(x, s[1..], key)
  }

  /** The ascending, stable order of `s` by `key`. */
  function StableSort<T>(s: seq<T>, key: T -> string): (r: seq<T>)
    ensures multiset(r) == multiset(s)
    decreases |s|
  {
    if s == [] then []
    else
      assert s == [s[0]] + s[1..];
      Insert(s[0], StableSort(s[1..], key), key)
  }

  lemma SortedTail<T>(s: seq<T>, key: T -> string)
    requires s != [] && SortedBy(s, key)
    ensures SortedBy(s[1..], key)
  {
    forall i, j | 0 <= i < j < |s| - 1
      ensures LexLe(key(s[1..][i]), key(s[1..][j]))
    {
      assert s[1..][i] == s[i + 1] && s[1..][j] == s[j + 1];
    }
  }

  lemma SortedCons<T>(x: T, s: seq<T>, key: T -> string)
    requires SortedBy(s, key)
    requires forall i :: 0 <= i < |s| ==> LexLe(key(x), key(s[i]))
    ensures SortedBy([x] + s, key)
  {
    var r := [x] + s;
    forall i, j | 0 <= i < j < |r|
      ensures LexLe(key(r[i]), key(r[j]))
    {
      assert r[j] == s[j - 1];
      if i > 0 {
        assert r[i] == s[i - 1];
      }
    }
  }

  /** The two sorted halves of a concatenation stay sorted inside it. */
  lemma SortedHalves<T>(a: seq<T>, b: seq<T>, key: T -> string)
    requires SortedBy(a, key) && SortedBy(b, key)
    ensures forall i, j :: 0 <= i < j < |a| ==> LexLe(key((a + b)[i]), key((a + b)[j]))
    ensures forall i, j :: |a| <= i < j < |a| + |b| ==> LexLe(key((a + b)[i]), key((a + b)[j]))
  {
    forall i, j | |a| <= i < j < |a| + |b|
      ensures LexLe(key((a + b)[i]), key((a + b)[j]))
    {
      assert (a + b)[i] == b[i - |a|] && (a + b)[j] == b[j - |a|];
    }
  }

  lemma {:induction false} InsertSorted<T>(x: T, s: seq<T>, key: T -> string)
    requires SortedBy(s, key)
    ensures SortedBy(Insert(x, s, key), key)
  {
    if s == [] {
    } else if LexLe(key(x), key(s[0])) {
      forall i | 0 <= i < |s|
        ensures LexLe(key(x), key(s[i]))
      {
        if i > 0 {
          LexLeTransitive(key(x), key(s[0]), key(s[i]));
        }
      }
      SortedCons(x, s, key);
    } else {
      LexLeTotal(key(x), key(s[0]));
      SortedTail(s, key);
      InsertSorted(x, s[1..], key);
      var t := Insert(x, s[1..], key);
      forall i | 0 <= i < |t|
        ensures LexLe(key(s[0]), key(t[i]))
      {
        assert t[i] in multiset(t);
        if t[i] != x {
          assert t[i] in multiset(s[1..]);
          var j :| 0 <= j < |s[1..]| && s[1..][j] == t[i];
          assert s[j + 1] == t[i];
        }
      }
      SortedCons(s[0], t, key);
    }
  }

  /** The result of sorting is in ascending key order. */
  lemma {:induction false} StableSortSorted<T>(s: seq<T>, key: T -> string)
    ensures SortedBy(StableSort(s, key), key)
  {
    if s != [] {
      StableSortSorted(s[1..], key);
      InsertSorted(s[0], StableSort(s[1..], key), key);
    }
  }

  /** Sorting an already sorted sequence leaves it as it is. */
  lemma {:induction false} StableSortOfSorted<T>(s: seq<T>, key: T -> string)
    requires SortedBy(s, key)
    ensures StableSort(s, key) == s
  {
    if s != [] {
      SortedTail(s, key);
      StableSortOfSorted(s[1..], key);
      if |s| > 1 {
        assert LexLe(key(s[0]), key(s[1]));
      }
      assert [s[0]] + s[1..] == s;
    }
  }

  /** Filtering a sorted sequence keeps it sorted. */
  lemma {:induction false} FilterSorted<T>(s: seq<T>, p: T -> bool, key: T -> string)
    requires SortedBy(s, key)
    ensures SortedBy(Filter(s, p), key)
  {
    if s != [] {
      SortedTail(s, key);
      FilterSorted(s[1..], p, key);
      var f := Filter(s[1..], p);
      if p(s[0]) {
        forall i | 0 <= i < |f|
          ensures LexLe(key(s[0]), key(f[i]))
        {
          var j :| 0 <= j < |s[1..]| && s[1..][j] == f[i];
          assert s[j + 1] == f[i];
        }
        SortedCons(s[0], f, key);
      } else {
        assert Filter(s, p) == f;
      }
    }
  }

  lemma {:induction false} FilterInsert<T>(x: T, s: seq<T>, key: T -> string, p: T -> bool)
    requires SortedBy(s, key)
    ensures Filter(Insert(x, s, key), p) == if p(x) then Insert(x, Filter(s, p), key) else Filter(s, p)
  {
    if s == [] {
      FilterCons(x, [], p);
    } else if LexLe(key(x), key(s[0])) {
      FilterCons(x, s, p);
      var f := Filter(s, p);
      if p(x) && f != [] {
        var j :| 0 <= j < |s| && s[j] == f[0];
        if j > 0 {
          LexLeTransitive(key(x), key(s[0]), key(f[0]));
        }
        assert Insert(x, f, key) == [x] + f;
      }
    } else {
      var t := s[1..];
      assert s == [s[0]] + t;
      SortedTail(s, key);
      FilterInsert(x, t, key, p);
      var h := if p(s[0]) then [s[0]] else [];
      var f := Filter(t, p);
      assert Insert(x, s, key) == [s[0]] + Insert(x, t, key);
      FilterCons(s[0], Insert(x, t, key), p);
      FilterCons(s[0], t, p);
      assert Filter(s, p) == h + f;
      assert Filter(Insert(x, s, key), p) == h + Filter(Insert(x, t, key), p);
      if p(x) {
        if p(s[0]) {
          assert ([s[0]] + f)[0] == s[0];
          assert ([s[0]] + f)[1..] == f;
          assert Insert(x, [s[0]] + f, key) == [s[0]] + Insert(x, f, key);
        } else {
          assert h == [];
          assert h + f == f;
          assert h + Insert(x, f, key) == Insert(x, f, key);
        }
      }
    }
  }

  /** Filtering commutes with sorting: a stable sort never reorders what it need not. */
  lemma {:induction false} FilterStableSort<T>(s: seq<T>, key: T -> string, p: T -> bool)
    ensures Filter(StableSort(s, key), p) == StableSort(Filter(s, p), key)
  {
    if s != [] {
      var t := s[1..];
      assert s == [s[0]] + t;
      FilterStableSort(t, key, p);
      StableSortSorted(t, key);
      FilterInsert(s[0], StableSort(t, key), key, p);
      FilterCons(s[0], t, p);
      var f := Filter(t, p);
      assert StableSort(s, key) == Insert(s[0], StableSort(t, key), key);
      if p(s[0]) {
        assert Filter(s, p) == [s[0]] + f;
        assert ([s[0]] + f)[0] == s[0];
        assert ([s[0]] + f)[1..] == f;
        assert StableSort([s[0]] + f, key) == Insert(s[0], StableSort(f, key), key);
      } else {
        assert Filter(s, p) == f;
      }
    }
  }

  /** Elements that share one key come out of the sort in their original order. */
  lemma StableSortKeepsTies<T>(s: seq<T>, key: T -> string, p: T -> bool)
    requires forall i, j :: 0 <= i < |s| && 0 <= j < |s| && p(s[i]) && p(s[j]) ==> key(s[i]) == key(s[j])
    ensures Filter(StableSort(s, key), p) == Filter(s, p)
  {
    FilterStableSort(s, key, p);
    var f := Filter(s, p);
    forall i, j | 0 <= i < j < |f|
      ensures LexLe(key(f[i]), key(f[j]))
    {
      var a :| 0 <= a < |s| && s[a] == f[i];
      var b :| 0 <= b < |s| && s[b] == f[j];
      LexLeReflexive(key(f[i]));
    }
    StableSortOfSorted(f, key);
  }
}
