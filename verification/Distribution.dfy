/** The distribution file: the versions a server offers, oldest first, of which only so many
    are kept. */
module Distribution {
  import opened Wrappers
  import opened StableSort
  import opened VersionNames

  datatype Entry = Entry(name: string, checksum: Digest, count: int)

  function Names(dist: seq<Entry>): (r: seq<string>)
    ensures |r| == |dist| && forall i :: 0 <= i < |r| ==> r[i] == dist[i].name
  {
    seq(|dist|, i requires 0 <= i < |dist| => dist[i].name)
  }

  /** The entries form a table: no name occurs twice. */
  ghost predicate Table(dist: seq<Entry>) {
    forall i, j :: 0 <= i < j < |dist| ==> dist[i].name != dist[j].name
  }

  function Position(dist: seq<Entry>, name: string): (k: nat)
    ensures k <= |dist|
    ensures k < |dist| ==> dist[k].name == name
    ensures forall i :: 0 <= i < k ==> dist[i].name != name
  {
    if dist == [] || dist[0].name == name then 0 else 1 + Position(dist[1..], name)
  }

  /** The table with the entry set: in place of one of that name, or at the end. */
  function With(dist: seq<Entry>, e: Entry): seq<Entry> {
    var k := Position(dist, e.name);
    if k < |dist| then dist[k := e] else dist + [e]
  }

  /** Sorting on this key puts the smallest number first. */
  function Recency(e: Entry): int {
    0 - Rank(e.name)
  }

  function Listed(dist: seq<Entry>): seq<Entry> {
    Sort(dist, Recency)
  }

  /** How many of n versions exceed the limit. */
  function Excess(n: nat, limit: int): (k: nat)
    ensures k <= n
  {
    if n > limit then Min(n - limit, n) else 0
  }

  /** The file after an update, and the names to remove. */
  function Updated(dist: seq<Entry>, e: Entry, limit: int): (seq<Entry>, seq<string>) {
    var all := Listed(With(dist, e));
    var k := Excess(|all|, limit);
    (all[k..], Names(all[..k]))
  }

  function Without(dist: seq<Entry>, names: set<string>): seq<Entry> {
    Filter(dist, (e: Entry) => e.name !in names)
  }

  method UpdateDistribution(dist: seq<Entry>, e: Entry, limit: int) returns (file: seq<Entry>, removed: seq<string>)
    requires Table(dist)
    ensures (file, removed) == Updated(dist, e, limit)
  {
    var table := With(dist, e);
    ghost var all := Listed(table);
    removed := [];
    WithIsTable(dist, e);
    SortElements(table, Recency);
    WithoutNone(table);
    if |table| > limit {
      var sorted := Sort(table, Recency);
      removed := Names(sorted[..Excess(|table|, limit)]);
      var i := 0;
      assert Elements(removed[..0]) == {};
      while i < |removed|
        invariant i <= |removed|
        invariant table == Without(With(dist, e), Elements(removed[..i]))
      {
        WithoutNext(With(dist, e), removed, i);
        table := Without(table, {removed[i]});
        i := i + 1;
      }
      assert removed[..|removed|] == removed;
    }
    KeptIsSuffix(With(dist, e), Excess(|With(dist, e)|, limit));
    file := Sort(table, Recency);
  }

  method RemoveVersions(dist: seq<Entry>, names: set<string>) returns (file: seq<Entry>)
    ensures file == if names == {} then dist else Listed(Without(dist, names))
  {
    if names == {} {
      return dist;
    }
    var table, left := dist, names;
    WithoutNone(dist);
    assert names - names == {};
    while left != {}
      invariant left <= names && table == Without(dist, names - left)
      decreases left
    {
      var name :| name in left;
      WithoutTwice(dist, names - left, {name});
      assert names - left + {name} == names - (left - {name});
      table := Without(table, {name});
      left := left - {name};
    }
    assert names - {} == names;
    file := Sort(table, Recency);
  }

  lemma {:induction false} WithIsTable(dist: seq<Entry>, e: Entry)
    requires Table(dist)
    ensures Table(With(dist, e))
  {
  }

  lemma {:induction false} WithMembers(dist: seq<Entry>, e: Entry)
    requires Table(dist)
    ensures e in With(dist, e)
    ensures forall x :: x in With(dist, e) <==> x == e || (x in dist && x.name != e.name)
  {
    var k, all := Position(dist, e.name), With(dist, e);
    if k < |dist| {
      assert all[k] == e;
      forall x | x in dist && x.name != e.name ensures x in all {
        var i :| 0 <= i < |dist| && dist[i] == x;
        assert all[i] == x;
      }
    }
  }

  lemma {:induction false} WithoutNone(dist: seq<Entry>)
    ensures Without(dist, {}) == dist
  {
    if dist != [] {
      WithoutNone(dist[1..]);
    }
  }

  lemma {:induction false} WithoutTwice(dist: seq<Entry>, a: set<string>, b: set<string>)
    ensures Without(Without(dist, a), b) == Without(dist, a + b)
  {
    if dist != [] {
      WithoutTwice(dist[1..], a, b);
      if dist[0].name !in a {
        FilterCons(dist[0], Without(dist[1..], a), (e: Entry) => e.name !in b);
      }
    }
  }

  lemma {:induction false} WithoutNext(dist: seq<Entry>, names: seq<string>, i: nat)
    requires i < |names|
    ensures Without(Without(dist, Elements(names[..i])), {names[i]}) == Without(dist, Elements(names[..i + 1]))
  {
    WithoutTwice(dist, Elements(names[..i]), {names[i]});
    assert names[..i + 1] == names[..i] + [names[i]];
    assert Elements(names[..i + 1]) == Elements(names[..i]) + {names[i]};
  }

  lemma {:induction false} WithoutSuffix(s: seq<Entry>, k: nat)
    requires Table(s) && k <= |s|
    ensures Without(s, Elements(Names(s[..k]))) == s[k..]
  {
    var names := Elements(Names(s[..k]));
    forall i | 0 <= i < |s| ensures s[i].name in names <==> i < k {
      if i < k {
        assert Names(s[..k])[i] == s[i].name;
      }
    }
    WithoutFrom(s, k, names, 0);
  }

  lemma {:induction false} WithoutFrom(s: seq<Entry>, k: nat, names: set<string>, j: nat)
    requires k <= |s| && j <= |s| && forall i :: 0 <= i < |s| ==> (s[i].name in names <==> i < k)
    ensures Without(s[j..], names) == s[Max(j, k)..]
    decreases |s| - j
  {
    if j < |s| {
      WithoutFrom(s, k, names, j + 1);
      assert s[j..][1..] == s[j + 1..];
    }
  }

  /** Sorting keeps a table a table. */
  lemma {:induction false} ListedTable(dist: seq<Entry>)
    requires Table(dist)
    ensures Table(Listed(dist))
  {
    SortDistinct(dist, Recency);
    SortElements(dist, Recency);
    var r := Listed(dist);
    forall i, j | 0 <= i < j < |r| ensures r[i].name != r[j].name {
      assert r[i] in dist && r[j] in dist;
    }
  }

  /** Deleting the first names of the sorted table one by one and sorting what is left gives
      the rest of the sorted table. */
  lemma {:induction false} KeptIsSuffix(dist: seq<Entry>, k: nat)
    requires Table(dist) && k <= |Listed(dist)|
    ensures Listed(Without(dist, Elements(Names(Listed(dist)[..k])))) == Listed(dist)[k..]
  {
    ListedTable(dist);
    var names := Elements(Names(Listed(dist)[..k]));
    WithoutSuffix(Listed(dist), k);
    SortFilter(dist, Recency, (e: Entry) => e.name !in names);
  }

  // ---------------------------------------------------------------- what an update keeps

  ghost predicate Ascending(dist: seq<Entry>) {
    forall i, j :: 0 <= i < j < |dist| ==> Rank(dist[i].name) <= Rank(dist[j].name)
  }

  lemma {:induction false} ListedAscending(dist: seq<Entry>)
    ensures Ascending(Listed(dist))
  {
    SortDescending(dist, Recency);
    var r := Listed(dist);
    forall i, j | 0 <= i < j < |r| ensures Rank(r[i].name) <= Rank(r[j].name) {
      assert Recency(r[i]) >= Recency(r[j]);
    }
  }

  /** The kept and the removed versions partition the old ones with the new one; no removed
      version is newer than a kept one; and as many are kept as the limit allows. */
  lemma {:induction false} UpdatePartitions(dist: seq<Entry>, e: Entry, limit: int)
    requires Table(dist)
    ensures var (kept, removed) := Updated(dist, e, limit);
      && (forall x :: x in kept <==> (x == e || (x in dist && x.name != e.name)) && x.name !in removed)
      && Elements(Names(kept)) + Elements(removed) == Elements(Names(dist)) + {e.name}
      && (forall x, gone :: x in kept && gone in removed ==> Rank(x.name) >= Rank(gone))
      && |kept| == Min(Max(limit, 0), |With(dist, e)|)
      && Table(kept) && Ascending(kept)
  {
    var all, k := Listed(With(dist, e)), Excess(|With(dist, e)|, limit);
    WithIsTable(dist, e);
    WithMembers(dist, e);
    SortElements(With(dist, e), Recency);
    ListedTable(With(dist, e));
    ListedAscending(With(dist, e));
    assert Updated(dist, e, limit) == (all[k..], Names(all[..k]));
    SplitTable(all, k);
    NamesOfMembers(all, dist, e);
  }

  lemma {:induction false} SplitTable(all: seq<Entry>, k: nat)
    requires Table(all) && Ascending(all) && k <= |all|
    ensures Table(all[k..]) && Ascending(all[k..])
    ensures forall x :: x in all[k..] <==> x in all && x.name !in Names(all[..k])
    ensures forall x, gone :: x in all[k..] && gone in Names(all[..k]) ==> Rank(x.name) >= Rank(gone)
    ensures Elements(Names(all[k..])) + Elements(Names(all[..k])) == Elements(Names(all))
  {
    forall x ensures x in all[k..] <==> x in all && x.name !in Names(all[..k]) {
      SplitMember(all, k, x);
    }
    forall x, gone | x in all[k..] && gone in Names(all[..k]) ensures Rank(x.name) >= Rank(gone) {
      SplitOrder(all, k, x, gone);
    }
    SplitNames(all, k);
  }

  lemma {:induction false} SplitNames(all: seq<Entry>, k: nat)
    requires k <= |all|
    ensures Elements(Names(all[k..])) + Elements(Names(all[..k])) == Elements(Names(all))
  {
    assert Names(all) == Names(all[..k]) + Names(all[k..]);
  }

  lemma {:induction false} SplitOrder(all: seq<Entry>, k: nat, x: Entry, gone: string)
    requires Ascending(all) && k <= |all| && x in all[k..] && gone in Names(all[..k])
    ensures Rank(x.name) >= Rank(gone)
  {
    var i :| 0 <= i < |all[k..]| && all[k..][i] == x;
    var j :| 0 <= j < k && Names(all[..k])[j] == gone;
    assert all[k + i] == x && all[j].name == gone;
  }

  lemma {:induction false} SplitMember(all: seq<Entry>, k: nat, x: Entry)
    requires Table(all) && k <= |all|
    ensures x in all[k..] <==> x in all && x.name !in Names(all[..k])
  {
    if i :| 0 <= i < |all| && all[i] == x {
      if i < k {
        assert Names(all[..k])[i] == x.name;
        assert forall j :: 0 <= j < |all[k..]| ==> all[k..][j] == all[k + j] != x;
      } else {
        assert all[k..][i - k] == x;
        assert forall j :: 0 <= j < k ==> Names(all[..k])[j] == all[j].name != x.name;
      }
    }
  }

  lemma {:induction false} NamesOfMembers(all: seq<Entry>, dist: seq<Entry>, e: Entry)
    requires forall x :: x in all <==> x == e || (x in dist && x.name != e.name)
    ensures Elements(Names(all)) == Elements(Names(dist)) + {e.name}
  {
    NameMembers(all);
    NameMembers(dist);
    assert e in all;
    forall n ensures n in Elements(Names(all)) <==> n in Elements(Names(dist)) + {e.name} {
    }
  }

  lemma {:induction false} NameMembers(dist: seq<Entry>)
    ensures forall n :: n in Names(dist) <==> exists x :: x in dist && x.name == n
  {
    forall n ensures n in Names(dist) <==> exists x :: x in dist && x.name == n {
      if x :| x in dist && x.name == n {
        var i :| 0 <= i < |dist| && dist[i] == x;
        assert Names(dist)[i] == n;
      }
      if n in Names(dist) {
        var i :| 0 <= i < |dist| && Names(dist)[i] == n;
        assert dist[i] in dist;
      }
    }
  }

  /** In an ascending table the strictly newest entry comes last. */
  lemma {:induction false} NewestIsLast(all: seq<Entry>, e: Entry)
    requires Ascending(all) && e in all && forall x :: x in all && x != e ==> Rank(x.name) < Rank(e.name)
    ensures all != [] && all[|all| - 1] == e
  {
    var i :| 0 <= i < |all| && all[i] == e;
    var last := all[|all| - 1];
    assert last in all && Rank(last.name) >= Rank(e.name);
  }

  lemma {:induction false} ListedLast(dist: seq<Entry>, e: Entry)
    requires Table(dist) && forall x :: x in dist ==> Rank(x.name) < Rank(e.name)
    ensures var all := Listed(With(dist, e)); Table(all) && all != [] && all[|all| - 1] == e
  {
    WithIsTable(dist, e);
    WithMembers(dist, e);
    SortElements(With(dist, e), Recency);
    ListedTable(With(dist, e));
    ListedAscending(With(dist, e));
    NewestIsLast(Listed(With(dist, e)), e);
  }

  lemma {:induction false} LastInSuffix(all: seq<Entry>, k: nat)
    requires Table(all) && all != [] && k <= |all|
    ensures var e := all[|all| - 1];
      && (e in all[k..] <==> k < |all|) && (e.name in Names(all[..k]) <==> k == |all|)
      && (k < |all| ==> all[k..][|all[k..]| - 1] == e)
  {
    if k == |all| {
      assert Names(all[..k])[k - 1] == all[k - 1].name;
    } else {
      assert all[k..][|all| - 1 - k] == all[|all| - 1];
      assert forall i :: 0 <= i < k ==> Names(all[..k])[i] == all[i].name != all[|all| - 1].name;
    }
  }

  /** A version newer than all others is kept exactly if the limit leaves room for any. */
  lemma {:induction false} NewestKept(dist: seq<Entry>, e: Entry, limit: int)
    requires Table(dist) && forall x :: x in dist ==> Rank(x.name) < Rank(e.name)
    ensures var (kept, removed) := Updated(dist, e, limit);
      (e in kept <==> limit >= 1) && (e.name in removed <==> limit < 1) && (limit >= 1 ==> kept[|kept| - 1] == e)
  {
    var all := Listed(With(dist, e));
    ListedLast(dist, e);
    LastInSuffix(all, Excess(|all|, limit));
  }
}
