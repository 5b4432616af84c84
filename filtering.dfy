/** Filtering a sequence by a predicate, the list comprehension `[x for x in s if p(x)]`. */
module Filtering {

  /** The elements of `s` that satisfy `p`, in their original order. */
  function Filter<T>(s: seq<T>, p: T -> bool): (r: seq<T>)
    ensures |r| <= |s|
    ensures forall i :: 0 <= i < |r| ==> r[i] in s && p(r[i])
    ensures forall i :: 0 <= i < |s| && p(s[i]) ==> s[i] in r
    decreases |s|
  {
    if s == [] then []
    else
      assert s == [s[0]] + s[1..];
      (if p(s[0]) then [s[0]] else []) + Filter(s[1..], p)
  }

  /** The negation of a predicate. */
  function Not<T>(p: T -> bool): T -> bool
  {
    x => !p(x)
  }

  lemma FilterCons<T>(x: T, s: seq<T>, p: T -> bool)
    ensures Filter([x] + s, p) == (if p(x) then [x] else []) + Filter(s, p)
  {
    assert ([x] + s)[0] == x;
    assert ([x] + s)[1..] == s;
  }

  lemma {:induction false} FilterConcat<T>(a: seq<T>, b: seq<T>, p: T -> bool)
    ensures Filter(a + b, p) == Filter(a, p) + Filter(b, p)
  {
    if a == [] {
      assert a + b == b;
    } else {
      assert (a + b)[0] == a[0];
      assert (a + b)[1..] == a[1..] + b;
      FilterConcat(a[1..], b, p);
    }
  }

  /** Filtering keeps a sequence whole when every element passes. */
  lemma {:induction false} FilterKeepsAll<T>(s: seq<T>, p: T -> bool)
    requires forall x :: x in s ==> p(x)
    ensures Filter(s, p) == s
  {
    if s != [] {
      assert s[0] in s;
      FilterKeepsAll(s[1..], p);
      assert s == [s[0]] + s[1..];
    }
  }

  /** Filtering empties a sequence when no element passes. */
  lemma FilterDropsAll<T>(s: seq<T>, p: T -> bool)
    requires forall x :: x in s ==> !p(x)
    ensures Filter(s, p) == []
  {
  }

  /** Filtering by `q` after filtering by a weaker `p` is filtering by `q` alone. */
  lemma {:induction false} FilterOfFilter<T>(s: seq<T>, p: T -> bool, q: T -> bool)
    requires forall x :: x in s && q(x) ==> p(x)
    ensures Filter(Filter(s, p), q) == Filter(s, q)
  {
    if s != [] {
      var head := if p(s[0]) then [s[0]] else [];
      assert forall x :: x in s[1..] ==> x in s;
      FilterOfFilter(s[1..], p, q);
      FilterConcat(head, Filter(s[1..], p), q);
    }
  }

  /** When every element gives the same answer, splitting by it leaves the sequence whole. */
  lemma FilterSplitUniform<T>(s: seq<T>, p: T -> bool)
    requires forall i :: 0 <= i < |s| ==> p(s[i]) == p(s[0])
    ensures Filter(s, Not(p)) + Filter(s, p) == s
  {
    if s != [] {
      if p(s[0]) {
        forall x | x in s ensures p(x) {
          var i :| 0 <= i < |s| && s[i] == x;
        }
        forall x | x in s ensures !Not(p)(x) {
          var i :| 0 <= i < |s| && s[i] == x;
        }
        FilterKeepsAll(s, p);
        FilterDropsAll(s, Not(p));
        assert [] + s == s;
      } else {
        forall x | x in s ensures Not(p)(x) {
          var i :| 0 <= i < |s| && s[i] == x;
        }
        forall x | x in s ensures !p(x) {
          var i :| 0 <= i < |s| && s[i] == x;
        }
        FilterKeepsAll(s, Not(p));
        FilterDropsAll(s, p);
        assert s + [] == s;
      }
    }
  }

  /** Two filters may be applied in either order. */
  lemma {:induction false} FilterCommute<T>(s: seq<T>, p: T -> bool, q: T -> bool)
    ensures Filter(Filter(s, p), q) == Filter(Filter(s, q), p)
  {
    if s != [] {
      var x, t := s[0], s[1..];
      assert s == [x] + t;
      FilterCommute(t, p, q);
      FilterCons(x, t, p);
      FilterCons(x, t, q);
      var hp := if p(x) then [x] else [];
      var hq := if q(x) then [x] else [];
      FilterConcat(hp, Filter(t, p), q);
      FilterConcat(hq, Filter(t, q), p);
      assert Filter(hp, q) == Filter(hq, p) by {
        if p(x) && q(x) {
          FilterCons(x, [], q);
          FilterCons(x, [], p);
        }
      }
    }
  }

  /** Splitting by a predicate and its negation loses and adds nothing. */
  lemma {:induction false} FilterSplit<T>(s: seq<T>, p: T -> bool)
    ensures multiset(Filter(s, Not(p))) + multiset(Filter(s, p)) == multiset(s)
  {
    if s != [] {
      FilterSplit(s[1..], p);
      assert s == [s[0]] + s[1..];
    }
  }

  /** Putting the failing elements before the passing ones leaves every failing element first. */
  lemma SplitOrdered<T>(s: seq<T>, p: T -> bool)
    ensures var a, b := Filter(s, Not(p)), Filter(s, p);
            && (forall i :: 0 <= i < |a| ==> !p((a + b)[i]))
            && (forall i :: |a| <= i < |a| + |b| ==> p((a + b)[i]))
  {
    var a, b := Filter(s, Not(p)), Filter(s, p);
    forall i | 0 <= i < |a| ensures !p((a + b)[i]) {
      assert (a + b)[i] == a[i] && Not(p)(a[i]);
    }
    forall i | |a| <= i < |a| + |b| ensures p((a + b)[i]) {
      assert (a + b)[i] == b[i - |a|];
    }
  }
}
