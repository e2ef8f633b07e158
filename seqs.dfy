/** `Array.prototype.filter` and `Array.prototype.findIndex` on sequences. */
module Seqs {
  import opened Common

  /** The elements of `s` that satisfy `f`, in their original order. */
  function Filter<T>(s: seq<T>, f: T -> bool): (r: seq<T>)
    ensures |r| <= |s|
    ensures forall i :: 0 <= i < |r| ==> r[i] in s && f(r[i])
    ensures forall i :: 0 <= i < |s| && f(s[i]) ==> s[i] in r
  {
    if s == [] then []
    else if f(s[0]) then [s[0]] + Filter(s[1..], f)
    else Filter(s[1..], f)
  }

  /** What the filter keeps: exactly the elements that satisfy `f`. */
  lemma FilterMembership<T>(s: seq<T>, f: T -> bool)
    ensures forall x :: x in Filter(s, f) <==> x in s && f(x)
  {
    var r := Filter(s, f);
    forall x | x in r ensures x in s && f(x) {
      var i :| 0 <= i < |r| && r[i] == x;
    }
    forall x | x in s && f(x) ensures x in r {
      var i :| 0 <= i < |s| && s[i] == x;
    }
  }

  lemma FilterCons<T>(x: T, s: seq<T>, f: T -> bool)
    ensures Filter([x] + s, f) == (if f(x) then [x] else []) + Filter(s, f)
  {
    assert ([x] + s)[1..] == s;
  }

  /** Filtering distributes over concatenation, so it keeps the relative order of what it keeps. */
  lemma {:induction false} FilterAppend<T>(a: seq<T>, b: seq<T>, f: T -> bool)
    ensures Filter(a + b, f) == Filter(a, f) + Filter(b, f)
  {
    if a != [] {
      assert a + b == [a[0]] + (a[1..] + b);
      FilterCons(a[0], a[1..] + b, f);
      FilterAppend(a[1..], b, f);
      assert a == [a[0]] + a[1..];
      FilterCons(a[0], a[1..], f);
    } else {
      assert a + b == b;
    }
  }

  /** The filter removes something exactly when some element fails the test. */
  lemma {:induction false} FilterShrinks<T>(s: seq<T>, f: T -> bool)
    ensures |Filter(s, f)| < |s| <==> exists x :: x in s && !f(x)
    ensures |Filter(s, f)| == |s| ==> Filter(s, f) == s
  {
    if s != [] {
      FilterShrinks(s[1..], f);
      assert forall x :: x in s <==> x == s[0] || x in s[1..];
    }
  }

  /** The key `g` takes pairwise distinct values along `s`. */
  predicate DistinctBy<T, K(==)>(s: seq<T>, g: T -> K) {
    forall i, j :: 0 <= i < j < |s| ==> g(s[i]) != g(s[j])
  }

  /** Dropping elements keeps keys distinct. */
  lemma {:induction false} FilterKeepsDistinct<T, K>(s: seq<T>, f: T -> bool, g: T -> K)
    requires DistinctBy(s, g)
    ensures DistinctBy(Filter(s, f), g)
  {
    if s != [] {
      var t := s[1..];
      assert s == [s[0]] + t;
      FilterKeepsDistinct(t, f, g);
      FilterCons(s[0], t, f);
      FilterMembership(t, f);
      if f(s[0]) {
        var r := [s[0]] + Filter(t, f);
        forall i, j | 0 <= i < j < |r| ensures g(r[i]) != g(r[j]) {
          if i == 0 {
            assert r[j] in t;
          }
        }
      }
    }
  }

  /** Appending an element whose key is new keeps keys distinct. */
  lemma AppendKeepsDistinct<T, K>(s: seq<T>, x: T, g: T -> K)
    requires DistinctBy(s, g)
    requires forall i :: 0 <= i < |s| ==> g(s[i]) != g(x)
    ensures DistinctBy(s + [x], g)
  {
  }

  /** Replacing one element by one whose key no other element has keeps keys distinct. */
  lemma ReplaceKeepsDistinct<T, K>(s: seq<T>, i: nat, x: T, g: T -> K)
    requires DistinctBy(s, g) && i < |s|
    requires forall j :: 0 <= j < |s| && j != i ==> g(s[j]) != g(x)
    ensures DistinctBy(s[i := x], g)
  {
  }

  /** The position of the first element that satisfies `f`, or `None` (`-1` in the source). */
  function FindIndex<T>(s: seq<T>, f: T -> bool): (r: Option<nat>)
    ensures r.Some? ==> r.value < |s| && f(s[r.value])
    ensures r.Some? ==> forall j :: 0 <= j < r.value ==> !f(s[j])
    ensures r.None? <==> forall j :: 0 <= j < |s| ==> !f(s[j])
  {
    if s == [] then None
    else if f(s[0]) then Some(0)
    else match FindIndex(s[1..], f)
      case None => None
      case Some(k) => Some(k + 1)
  }
}
