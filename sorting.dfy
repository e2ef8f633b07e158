/**
 * The stable sort behind `contacts.sort((a, b) => keyA.localeCompare(keyB))`: an insertion sort
 * by a string key, where an element goes before the first element whose key is not smaller,
 * so elements with equal keys keep their original order.
 */
module Sorting {
  import opened Text
  import opened Seqs

  /** Keys never decrease from left to right. */
  predicate SortedBy<T>(s: seq<T>, key: T -> string) {
    forall i, j :: 0 <= i < j < |s| ==> LexLe(key(s[i]), key(s[j]))
  }

  function Insert<T>(x: T, s: seq<T>, key: T -> string): (r: seq<T>)
    ensures multiset(r) == multiset(s) + multiset{x}
  {
    if s == [] then [x]
    else if LexLe(key(x), key(s[0])) then [x] + s
    else
      assert s == [s[0]] + s[1..];
      [s[0]] + Insert(x, s[1..], key)
  }

  /** The sorted arrangement of `s`. */
  function SortBy<T>(s: seq<T>, key: T -> string): (r: seq<T>)
    ensures multiset(r) == multiset(s)
  {
    if s == [] then []
    else
      assert s == [s[0]] + s[1..];
      Insert(s[0], SortBy(s[1..], key), key)
  }

  /** The first key of a sorted sequence bounds every key in it. */
  lemma HeadIsLeast<T>(s: seq<T>, key: T -> string)
    requires SortedBy(s, key) && s != []
    ensures forall y :: y in s ==> LexLe(key(s[0]), key(y))
  {
    forall y | y in s ensures LexLe(key(s[0]), key(y)) {
      var k :| 0 <= k < |s| && s[k] == y;
      if k == 0 { LexLeReflexive(key(y)); }
    }
  }

  lemma {:induction false} InsertSorted<T>(x: T, s: seq<T>, key: T -> string)
    requires SortedBy(s, key)
    ensures SortedBy(Insert(x, s, key), key)
  {
    if s == [] {
    } else if LexLe(key(x), key(s[0])) {
      HeadIsLeast(s, key);
      var r := [x] + s;
      forall i, j | 0 <= i < j < |r| ensures LexLe(key(r[i]), key(r[j])) {
        if i == 0 {
          LexLeTransitive(key(x), key(s[0]), key(r[j]));
        }
      }
    } else {
      LexLeTotal(key(x), key(s[0]));
      HeadIsLeast(s, key);
      var rest := Insert(x, s[1..], key);
      InsertSorted(x, s[1..], key);
      var r := [s[0]] + rest;
      forall i, j | 0 <= i < j < |r| ensures LexLe(key(r[i]), key(r[j])) {
        if i == 0 {
          assert r[j] in multiset(rest);
          assert r[j] == x || r[j] in s[1..];
        }
      }
    }
  }

  /** `SortBy` sorts: together with its ensures clause, the result is a sorted permutation. */
  lemma {:induction false} SortBySorted<T>(s: seq<T>, key: T -> string)
    ensures SortedBy(SortBy(s, key), key)
  {
    if s != [] {
      SortBySorted(s[1..], key);
      InsertSorted(s[0], SortBy(s[1..], key), key);
    }
  }

  /** Filtering after inserting into a sorted sequence is inserting into the filtered sequence. */
  lemma {:induction false} FilterInsert<T>(x: T, s: seq<T>, key: T -> string, f: T -> bool)
    requires SortedBy(s, key)
    ensures Filter(Insert(x, s, key), f) == if f(x) then Insert(x, Filter(s, f), key) else Filter(s, f)
  {
    if s == [] {
      FilterCons(x, [], f);
    } else if LexLe(key(x), key(s[0])) {
      FilterCons(x, s, f);
      var fs := Filter(s, f);
      if f(x) && fs != [] {
        HeadIsLeast(s, key);
        assert fs[0] in s;
        LexLeTransitive(key(x), key(s[0]), key(fs[0]));
      }
    } else {
      var t := s[1..];
      assert s == [s[0]] + t;
      FilterCons(s[0], t, f);
      FilterCons(s[0], Insert(x, t, key), f);
      FilterInsert(x, t, key, f);
      if f(x) && f(s[0]) {
        assert Filter(s, f) == [s[0]] + Filter(t, f);
        assert ([s[0]] + Filter(t, f))[1..] == Filter(t, f);
      }
    }
  }

  /** Sorting then filtering is filtering then sorting: the stable sort commutes with `filter`. */
  lemma {:induction false} FilterSortBy<T>(s: seq<T>, key: T -> string, f: T -> bool)
    ensures Filter(SortBy(s, key), f) == SortBy(Filter(s, f), key)
  {
    if s != [] {
      var t := s[1..];
      assert s == [s[0]] + t;
      SortBySorted(t, key);
      FilterInsert(s[0], SortBy(t, key), key, f);
      FilterSortBy(t, key, f);
      FilterCons(s[0], t, f);
      if f(s[0]) {
        var ft := [s[0]] + Filter(t, f);
        assert ft[0] == s[0] && ft[1..] == Filter(t, f);
      }
    }
  }
}
