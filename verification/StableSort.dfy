/** The program sorts with a stable comparison on a key: members by score, owners by
    locality, versions by number.  One sort, largest key first, serves all three. */
module StableSort {
  import opened Wrappers

  /** The elements satisfying p, in their original order. */
  function Filter<T(!new)>(s: seq<T>, p: T -> bool): seq<T> {
    if s == [] then []
    else if p(s[0]) then [s[0]] + Filter(s[1..], p)
    else Filter(s[1..], p)
  }

  lemma {:induction false} FilterSnoc<T(!new)>(s: seq<T>, x: T, p: T -> bool)
    ensures Filter(s + [x], p) == Filter(s, p) + (if p(x) then [x] else [])
  {
    if s == [] {
      assert s + [x] == [x];
    } else {
      FilterSnoc(s[1..], x, p);
      assert (s + [x])[1..] == s[1..] + [x];
    }
  }

  lemma {:induction false} FilterElements<T(!new)>(s: seq<T>, p: T -> bool)
    ensures forall x :: x in Filter(s, p) <==> x in s && p(x)
    ensures |Filter(s, p)| <= |s|
  {
    if s != [] {
      FilterElements(s[1..], p);
      assert s == [s[0]] + s[1..];
    }
  }

  /** x comes before every element of s in the original order, so it precedes its equals. */
  function Insert<T(!new)>(x: T, s: seq<T>, key: T -> int): (r: seq<T>)
    ensures multiset(r) == multiset(s) + multiset{x}
  {
    if s == [] || key(x) >= key(s[0]) then
      assert [x] + s == [x] + s;
      [x] + s
    else
      assert s == [s[0]] + s[1..];
      [s[0]] + Insert(x, s[1..], key)
  }

  function Sort<T(!new)>(s: seq<T>, key: T -> int): (r: seq<T>)
    ensures multiset(r) == multiset(s)
  {
    if s == [] then []
    else
      assert s == [s[0]] + s[1..];
      Insert(s[0], Sort(s[1..], key), key)
  }

  ghost predicate Descending<T(!new)>(s: seq<T>, key: T -> int) {
    forall i, j :: 0 <= i < j < |s| ==> key(s[i]) >= key(s[j])
  }

  lemma {:induction false} InsertDescending<T(!new)>(x: T, s: seq<T>, key: T -> int)
    requires Descending(s, key)
    ensures Descending(Insert(x, s, key), key)
  {
    if s == [] || key(x) >= key(s[0]) {
    } else {
      InsertDescending(x, s[1..], key);
      var r := Insert(x, s[1..], key);
      forall y | y in r ensures key(s[0]) >= key(y) {
        assert y in multiset(r);
        assert y == x || y in s[1..];
      }
    }
  }

  lemma {:induction false} SortDescending<T(!new)>(s: seq<T>, key: T -> int)
    ensures Descending(Sort(s, key), key)
  {
    if s != [] {
      SortDescending(s[1..], key);
      InsertDescending(s[0], Sort(s[1..], key), key);
    }
  }

  lemma {:induction false} SortElements<T(!new)>(s: seq<T>, key: T -> int)
    ensures |Sort(s, key)| == |s|
    ensures forall x :: x in Sort(s, key) <==> x in s
  {
    var r := Sort(s, key);
    assert |multiset(r)| == |multiset(s)|;
    forall x ensures x in r <==> x in s {
      assert x in r <==> x in multiset(r);
      assert x in s <==> x in multiset(s);
    }
  }

  lemma {:induction false} SortDistinct<T(!new)>(s: seq<T>, key: T -> int)
    requires Distinct(s)
    ensures Distinct(Sort(s, key))
  {
    SortElements(s, key);
    var r := Sort(s, key);
    DistinctCount(s);
    assert Elements(r) == Elements(s);
    SetSizeDistinct(r);
  }

  lemma {:induction false} FilterCons<T(!new)>(x: T, s: seq<T>, p: T -> bool)
    ensures Filter([x] + s, p) == if p(x) then [x] + Filter(s, p) else Filter(s, p)
  {
    assert ([x] + s)[1..] == s;
  }

  lemma {:induction false} InsertCons<T(!new)>(x: T, y: T, s: seq<T>, key: T -> int)
    ensures Insert(x, [y] + s, key)
         == if key(x) >= key(y) then [x] + ([y] + s) else [y] + Insert(x, s, key)
  {
    assert ([y] + s)[1..] == s;
  }

  lemma {:induction false} InsertFirst<T(!new)>(x: T, s: seq<T>, key: T -> int)
    requires forall y :: y in s ==> key(x) >= key(y)
    ensures Insert(x, s, key) == [x] + s
  {
  }

  lemma {:induction false} InsertFilter<T(!new)>(x: T, s: seq<T>, key: T -> int, p: T -> bool)
    requires Descending(s, key)
    ensures Filter(Insert(x, s, key), p)
         == if p(x) then Insert(x, Filter(s, p), key) else Filter(s, p)
  {
    if s == [] {
      FilterCons(x, s, p);
    } else if key(x) >= key(s[0]) {
      FilterCons(x, s, p);
      FilterElements(s, p);
      InsertFirst(x, Filter(s, p), key);
    } else {
      var rest := s[1..];
      assert s == [s[0]] + rest;
      FilterCons(s[0], rest, p);
      FilterCons(s[0], Insert(x, rest, key), p);
      InsertFilter(x, rest, key, p);
      InsertCons(x, s[0], Filter(rest, p), key);
    }
  }

  lemma {:induction false} SortCons<T(!new)>(x: T, s: seq<T>, key: T -> int)
    ensures Sort([x] + s, key) == Insert(x, Sort(s, key), key)
  {
    assert ([x] + s)[1..] == s;
  }

  /** Sorting commutes with dropping elements: the order of the survivors never depends on
      what was dropped.  With p testing for one key value this is stability; with p
      excluding one member it is independence from that member. */
  lemma {:induction false} SortFilter<T(!new)>(s: seq<T>, key: T -> int, p: T -> bool)
    ensures Filter(Sort(s, key), p) == Sort(Filter(s, p), key)
  {
    if s != [] {
      var x, rest := s[0], s[1..];
      assert s == [x] + rest;
      calc {
        Filter(Sort(s, key), p);
        { SortCons(x, rest, key); }
        Filter(Insert(x, Sort(rest, key), key), p);
        { SortDescending(rest, key); InsertFilter(x, Sort(rest, key), key, p); }
        if p(x) then Insert(x, Filter(Sort(rest, key), p), key) else Filter(Sort(rest, key), p);
        { SortFilter(rest, key, p); }
        if p(x) then Insert(x, Sort(Filter(rest, p), key), key) else Sort(Filter(rest, p), key);
        { SortCons(x, Filter(rest, p), key); FilterCons(x, rest, p); }
        Sort(Filter(s, p), key);
      }
    }
  }

  /** Only the order of the keys that occur matters. */
  lemma {:induction false} SortCongruence<T(!new)>(s: seq<T>, key: T -> int, other: T -> int)
    requires forall x :: x in s ==> key(x) == other(x)
    ensures Sort(s, key) == Sort(s, other)
  {
    if s != [] {
      SortCongruence(s[1..], key, other);
      SortElements(s[1..], key);
      InsertCongruence(s[0], Sort(s[1..], key), key, other);
    }
  }

  lemma {:induction false} InsertCongruence<T(!new)>(x: T, s: seq<T>, key: T -> int, other: T -> int)
    requires key(x) == other(x)
    requires forall y :: y in s ==> key(y) == other(y)
    ensures Insert(x, s, key) == Insert(x, s, other)
  {
    if s != [] {
      InsertCongruence(x, s[1..], key, other);
    }
  }
}
