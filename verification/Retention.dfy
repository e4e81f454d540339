/** A publisher's origin is given memory for exactly the versions it retains.  That is enough:
    no publication is lost to eviction before the retention limit would remove it anyway. */
module Retention {
  import opened Wrappers
  import opened Sharding
  import opened StoreModel
  import opened StoreProofs
  import opened Manifest
  import opened VersionNames
  import opened Distribution
  import opened Publication
  import opened PublicationProofs
  import PublicationRuns

  /** Strictly rising version numbers. */
  ghost predicate InOrder(dist: seq<Entry>) {
    forall i, j :: 0 <= i < j < |dist| ==> Rank(dist[i].name) < Rank(dist[j].name)
  }

  lemma {:induction false} InOrderIsTable(dist: seq<Entry>)
    requires InOrder(dist)
    ensures Table(dist) && Ascending(dist)
  {
    forall i, j | 0 <= i < j < |dist| ensures dist[i].name != dist[j].name {
      assert Rank(dist[i].name) < Rank(dist[j].name);
    }
  }

  lemma {:induction false} AppendInOrder(dist: seq<Entry>, e: Entry, n: nat)
    requires InOrder(dist) && forall x :: x in dist ==> Rank(x.name) < Rank(e.name)
    ensures InOrder(dist + [e]) && InOrder(KeepLast(dist + [e], n))
  {
  }

  /** Both lists name the same versions. */
  ghost predicate SameNames(versions: seq<Stored>, dist: seq<Entry>) {
    |versions| == |dist| && forall i :: 0 <= i < |dist| ==> versions[i].meta.name == dist[i].name
  }

  lemma {:induction false} AppendSameNames(versions: seq<Stored>, dist: seq<Entry>, v: Stored, e: Entry, n: nat)
    requires SameNames(versions, dist) && v.meta.name == e.name
    ensures SameNames(KeepLast(versions + [v], n), KeepLast(dist + [e], n))
  {
  }

  ghost predicate Bounded(versions: seq<Stored>, maxBytes: nat) {
    forall v :: v in versions ==> v.data.Some? && |v.data.value| <= maxBytes
  }

  lemma {:induction false} AppendBounded(versions: seq<Stored>, v: Stored, n: nat, maxBytes: nat)
    requires Bounded(versions, maxBytes) && v.data.Some? && |v.data.value| <= maxBytes
    ensures Bounded(KeepLast(versions + [v], n), maxBytes)
  {
    forall x | x in KeepLast(versions + [v], n) ensures x in versions || x == v {
      assert x in versions + [v];
    }
  }

  /** Memory and distribution file list the same versions in the same order, each a buffer of
      bounded size, and the memory has room for as many as the limit allows. */
  ghost predicate Aligned(o: Origin, maxBytes: nat) {
    && o.limit >= 1 && o.store.capacity == o.limit * maxBytes
    && |o.dist| <= o.limit && SameNames(o.store.versions, o.dist) && InOrder(o.dist)
    && Bounded(o.store.versions, maxBytes)
    && o.store.size == Total(o.store.versions, Counted)
  }

  lemma {:induction false} TotalBounded(versions: seq<Stored>, maxBytes: nat)
    requires Bounded(versions, maxBytes)
    ensures Total(versions, Counted) <= |versions| * maxBytes
  {
    if versions != [] {
      TotalBounded(versions[1..], maxBytes);
      assert |versions| * maxBytes == (|versions| - 1) * maxBytes + maxBytes;
    }
  }

  /** At most the oldest version has to go, and only when the limit is reached. */
  lemma {:induction false} EvictsAtMostOldest(versions: seq<Stored>, size: int, need: nat, limit: nat, maxBytes: nat)
    requires Bounded(versions, maxBytes)
    requires size == Total(versions, Counted) && need <= maxBytes && |versions| <= limit && limit >= 1
    ensures EvictionCount(versions, size, need, limit * maxBytes) <= (if |versions| == limit then 1 else 0)
  {
    if |versions| < limit {
      TotalBounded(versions, maxBytes);
      TimesMonotone(|versions|, limit, maxBytes);
    } else {
      TotalBounded(versions[1..], maxBytes);
      TimesMonotone(limit - 1, limit, maxBytes);
      assert EvictionCount(versions[1..], Total(versions[1..], Counted), need, limit * maxBytes) == 0;
    }
  }

  /** Sorting a list that is in order changes nothing. */
  lemma {:induction false} ListedInOrder(dist: seq<Entry>)
    requires Ascending(dist)
    ensures Listed(dist) == dist
  {
    if dist != [] {
      ListedInOrder(dist[1..]);
      assert dist == [dist[0]] + dist[1..];
      assert |dist| > 1 ==> Recency(dist[0]) >= Recency(dist[1]);
    }
  }

  lemma {:induction false} WithoutOthers(dist: seq<Entry>, names: set<string>)
    requires forall x :: x in dist ==> x.name !in names
    ensures Without(dist, names) == dist
  {
    if dist != [] {
      WithoutOthers(dist[1..], names);
      assert dist == [dist[0]] + dist[1..];
    }
  }

  lemma {:induction false} WithNewest(dist: seq<Entry>, e: Entry)
    requires InOrder(dist) && forall x :: x in dist ==> Rank(x.name) < Rank(e.name)
    ensures With(dist, e) == dist + [e] && Listed(dist + [e]) == dist + [e]
  {
    forall i | 0 <= i < |dist| ensures dist[i].name != e.name {
      assert dist[i] in dist;
    }
    AppendInOrder(dist, e, 0);
    InOrderIsTable(dist + [e]);
    ListedInOrder(dist + [e]);
  }

  /** The file after an update with a newer entry: the last ones of the longer list. */
  lemma {:induction false} UpdatedInOrder(dist: seq<Entry>, e: Entry, limit: nat)
    requires limit >= 1 && |dist| <= limit
    requires InOrder(dist) && forall x :: x in dist ==> Rank(x.name) < Rank(e.name)
    ensures Updated(dist, e, limit)
         == (KeepLast(dist + [e], limit), if |dist| == limit then [dist[0].name] else [])
  {
    WithNewest(dist, e);
    var all := dist + [e];
    var gone := Excess(|all|, limit);
    assert Updated(dist, e, limit) == (all[gone..], Names(all[..gone]));
    if |dist| == limit {
      assert gone == 1 && Names(all[..1]) == [dist[0].name];
    } else {
      assert gone == 0 && all[0..] == all && Names(all[..0]) == [];
    }
  }

  /** The memory with the new version in it, before anything is removed. */
  lemma {:induction false} FullStore(l: Ledger, v: Stored, need: nat, limit: nat, maxBytes: nat)
    requires l.capacity == limit * maxBytes && limit >= 1 && |l.versions| <= limit && need <= maxBytes
    requires Bounded(l.versions, maxBytes)
    requires l.size == Total(l.versions, Counted) && v.meta.name !in StoreNames(l.versions)
    requires v.data.Some? && |v.data.value| == need
    ensures var full := StoreComplete(l, v, need); var k := EvictionCount(l.versions, l.size, need, l.capacity);
      && full.versions == l.versions[k..] + [v] && full.size == Total(full.versions, Counted)
      && full.capacity == l.capacity && k <= (if |l.versions| == limit then 1 else 0)
  {
    var k := EvictionCount(l.versions, l.size, need, l.capacity);
    EvictsAtMostOldest(l.versions, l.size, need, limit, maxBytes);
    NotHeld(l.versions, v.meta.name);
    PutFresh(l, v, need);
    TotalSplit(l.versions, k, Counted);
    TotalAppended(l.versions[k..], [v], Counted);
    assert Total([v], Counted) == need;
  }

  /** Taking out the oldest version, whether or not it was evicted already. */
  lemma {:induction false} DropOldest(full: Ledger, versions: seq<Stored>, k: nat, v: Stored)
    requires Unique(versions) && versions != [] && v.meta.name !in StoreNames(versions) && k <= 1
    requires full.versions == versions[k..] + [v] && full.size == Total(full.versions, Counted)
    ensures var after := Drop(full, versions[0].meta.name);
      after.versions == versions[1..] + [v] && after.size == Total(after.versions, Counted) && after.capacity == full.capacity
  {
    var name := versions[0].meta.name;
    assert StoreNames(versions)[0] == name;
    if k == 0 {
      assert IndexOf(full.versions, name) == 0;
      assert full.versions[0] == versions[0] && full.versions[1..] == versions[1..] + [v];
      assert full.versions[..0] + full.versions[1..] == full.versions[1..];
    } else {
      forall i | 0 <= i < |full.versions| ensures full.versions[i].meta.name != name {
        assert full.versions[i] == (if i < |versions| - 1 then versions[i + 1] else v);
      }
      assert IndexOf(full.versions, name) == |full.versions|;
    }
  }

  /** The memory after the new version is in and the removed one is out. */
  lemma {:induction false} StoreInOrder(l: Ledger, v: Stored, need: nat, limit: nat, maxBytes: nat, removed: seq<string>)
    requires l.capacity == limit * maxBytes && limit >= 1 && |l.versions| <= limit && need <= maxBytes
    requires Bounded(l.versions, maxBytes)
    requires l.size == Total(l.versions, Counted) && Unique(l.versions) && v.meta.name !in StoreNames(l.versions)
    requires v.data.Some? && |v.data.value| == need && removed == if |l.versions| == limit then [l.versions[0].meta.name] else []
    ensures var after := RemoveAll(StoreComplete(l, v, need), removed);
      && after.versions == KeepLast(l.versions + [v], limit) && after.capacity == l.capacity
      && after.size == Total(after.versions, Counted)
  {
    FullStore(l, v, need, limit, maxBytes);
    if removed != [] {
      var full := StoreComplete(l, v, need);
      DropOldest(full, l.versions, EvictionCount(l.versions, l.size, need, l.capacity), v);
      assert removed[..0] == [];
      assert RemoveAll(full, removed) == Drop(full, removed[0]);
    }
  }

  /** The buffer is within the bound and its manifest, under that name, within its own. */
  ghost predicate Fits(hash: Bytes -> Digest, name: string, data: Bytes, shardSize: int, maxBytes: nat) {
    && shardSize > 0 && |data| <= maxBytes && ManifestFits(name, |data|, shardSize)
    && forall x :: |hash(x)| == 32
  }

  lemma {:induction false} AlignedTidy(o: Origin, maxBytes: nat)
    requires Aligned(o, maxBytes)
    ensures Tidy(o)
  {
    InOrderIsTable(o.dist);
  }

  lemma {:induction false} FitsMemory(o: Origin, need: nat, maxBytes: nat)
    requires o.limit >= 1 && o.store.capacity == o.limit * maxBytes && need <= maxBytes
    ensures need <= o.store.capacity
  {
    TimesMonotone(1, o.limit, maxBytes);
  }

  lemma {:induction false} AnnounceParts(o: Origin, store: Ledger, e: Entry, files: seq<Bytes>, evicted: set<string>)
    ensures var after := Announce(o, store, e, files, evicted); var (kept, removed) := Updated(o.dist, e, o.limit);
      && after.limit == o.limit && after.store == RemoveAll(store, removed)
      && after.dist == if evicted == {} then kept else Listed(Without(kept, evicted))
  {
  }

  /** Publishing appends to the file and cuts it to the limit; no entry is lost to eviction. */
  lemma {:induction false} PublishInOrder(hash: Bytes -> Digest, o: Origin, data: Bytes, shardSize: int, maxBytes: nat)
    requires Aligned(o, maxBytes) && Fits(hash, NextName(o), data, shardSize, maxBytes)
    ensures var (after, r) := PublishBuffer(hash, o, data, shardSize, false);
      var e := NewEntry(hash, o, data, ShardCount(|data|, shardSize));
      var v := Complete(e.name, data, shardSize, hash(data), DigestsOf(hash, Shards(data, shardSize)));
      && r.Ok? && after.limit == o.limit && after.dist == KeepLast(o.dist + [e], o.limit)
      && after.store.versions == KeepLast(o.store.versions + [v], o.limit)
      && after.store.capacity == o.store.capacity && after.store.size == Total(after.store.versions, Counted)
  {
    var e := NewEntry(hash, o, data, ShardCount(|data|, shardSize));
    var v := Complete(e.name, data, shardSize, hash(data), DigestsOf(hash, Shards(data, shardSize)));
    var (store, _) := Stores(hash, o, data, shardSize);
    FitsMemory(o, |data|, maxBytes);
    PublicationRuns.FittingIsStored(hash, o, data, shardSize);
    AcceptedIsPublished(hash, o, data, shardSize, false);
    PublishedIs(hash, o, data, shardSize, false);
    AnnounceParts(o, store, e, [], Evicted(o.store, store));
    NewestInOrder(o, e);
    UpdatedInOrder(o.dist, e, o.limit);
    EvictedIsRemoved(hash, o, data, shardSize, maxBytes, KeepLast(o.dist + [e], o.limit));
    AlignedTidy(o, maxBytes);
    NextUnknown(o);
    StoreInOrder(o.store, v, |data|, o.limit, maxBytes, Updated(o.dist, e, o.limit).1);
  }

  lemma {:induction false} EvictedAreDisplaced(hash: Bytes -> Digest, o: Origin, data: Bytes, shardSize: nat)
    requires Tidy(o) && shardSize > 0 && |data| <= o.store.capacity && forall x :: |hash(x)| == 32
    ensures Evicted(o.store, Stores(hash, o, data, shardSize).0) == Displaced(o, |data|)
  {
    PublicationRuns.FittingIsStored(hash, o, data, shardSize);
    BufferStored(hash, o, data, shardSize);
  }

  lemma {:induction false} EvictedAre(hash: Bytes -> Digest, o: Origin, data: Bytes, shardSize: int, maxBytes: nat) returns (k: nat)
    requires Aligned(o, maxBytes) && Fits(hash, NextName(o), data, shardSize, maxBytes)
    ensures k <= (if |o.dist| == o.limit then 1 else 0)
    ensures Evicted(o.store, Stores(hash, o, data, shardSize).0) == Elements(StoreNames(o.store.versions[..k]))
  {
    AlignedTidy(o, maxBytes);
    FitsMemory(o, |data|, maxBytes);
    EvictedAreDisplaced(hash, o, data, shardSize);
    EvictsAtMostOldest(o.store.versions, o.store.size, |data|, o.limit, maxBytes);
    k := EvictionCount(o.store.versions, o.store.size, |data|, o.store.capacity);
  }

  lemma {:induction false} EvictedIsRemoved(hash: Bytes -> Digest, o: Origin, data: Bytes, shardSize: int, maxBytes: nat, kept: seq<Entry>)
    requires Aligned(o, maxBytes) && Fits(hash, NextName(o), data, shardSize, maxBytes)
    requires kept == KeepLast(o.dist + [NewEntry(hash, o, data, ShardCount(|data|, shardSize))], o.limit)
    ensures var evicted := Evicted(o.store, Stores(hash, o, data, shardSize).0);
      (if evicted == {} then kept else Listed(Without(kept, evicted))) == kept
  {
    var e := NewEntry(hash, o, data, ShardCount(|data|, shardSize));
    var k := EvictedAre(hash, o, data, shardSize, maxBytes);
    NewestInOrder(o, e);
    WithdrawsNothing(o, e, k);
  }

  lemma {:induction false} NewestInOrder(o: Origin, e: Entry)
    requires InOrder(o.dist) && e.name == NextName(o)
    ensures InOrder(o.dist + [e]) && forall x :: x in o.dist ==> Rank(x.name) < Rank(e.name)
  {
    NextUnknown(o);
    NameMembers(o.dist);
    AppendInOrder(o.dist, e, 0);
  }

  lemma {:induction false} WithdrawsNothing(o: Origin, e: Entry, k: nat)
    requires SameNames(o.store.versions, o.dist) && |o.dist| <= o.limit && o.limit >= 1
    requires InOrder(o.dist + [e]) && k <= (if |o.dist| == o.limit then 1 else 0)
    ensures var kept := KeepLast(o.dist + [e], o.limit);
      Listed(Without(kept, Elements(StoreNames(o.store.versions[..k])))) == kept
  {
    var kept := KeepLast(o.dist + [e], o.limit);
    InOrderIsTable(o.dist + [e]);
    forall x | x in kept ensures x.name !in Elements(StoreNames(o.store.versions[..k])) {
      KeptNotOldest(o, e, k, x);
    }
    WithoutOthers(kept, Elements(StoreNames(o.store.versions[..k])));
    InOrderIsTable(kept);
    ListedInOrder(kept);
  }

  lemma {:induction false} KeptNotOldest(o: Origin, e: Entry, k: nat, x: Entry)
    requires SameNames(o.store.versions, o.dist) && |o.dist| <= o.limit && o.limit >= 1
    requires Table(o.dist + [e]) && x in KeepLast(o.dist + [e], o.limit) && k <= (if |o.dist| == o.limit then 1 else 0)
    ensures x.name !in StoreNames(o.store.versions[..k])
  {
    var all := o.dist + [e];
    var kept := KeepLast(all, o.limit);
    var i :| 0 <= i < |kept| && kept[i] == x;
    assert x == all[i + |all| - |kept|];
    if k == 1 {
      assert StoreNames(o.store.versions[..1]) == [all[0].name];
    }
  }

  lemma {:induction false} AlignedStep(hash: Bytes -> Digest, o: Origin, data: Bytes, shardSize: int, maxBytes: nat)
    requires Aligned(o, maxBytes) && Fits(hash, NextName(o), data, shardSize, maxBytes)
    ensures Aligned(PublishBuffer(hash, o, data, shardSize, false).0, maxBytes)
  {
    var e := NewEntry(hash, o, data, ShardCount(|data|, shardSize));
    var v := Complete(e.name, data, shardSize, hash(data), DigestsOf(hash, Shards(data, shardSize)));
    PublishInOrder(hash, o, data, shardSize, maxBytes);
    NewestInOrder(o, e);
    AppendInOrder(o.dist, e, o.limit);
    AppendSameNames(o.store.versions, o.dist, v, e, o.limit);
    AppendBounded(o.store.versions, v, o.limit, maxBytes);
  }

  /** The file advertises the last of the published buffers, in order, each under the name of
      its number. */
  ghost predicate ListsLast(hash: Bytes -> Digest, dist: seq<Entry>, first: nat, ps: seq<Publication>) {
    && |dist| <= |ps| && (forall i :: 0 <= i < |ps| ==> ps[i].Buffer?)
    && (forall j :: 0 <= j < |dist| ==>
          && dist[j].name == Name(first + |ps| - |dist| + j)
          && dist[j].checksum == hash(ps[|ps| - |dist| + j].data))
  }

  lemma {:induction false} AppendListsLast(hash: Bytes -> Digest, dist: seq<Entry>, first: nat, ps: seq<Publication>, e: Entry, p: Publication, n: nat)
    requires ListsLast(hash, dist, first, ps) && p.Buffer? && e.name == Name(first + |ps|) && e.checksum == hash(p.data)
    ensures ListsLast(hash, KeepLast(dist + [e], n), first, ps + [p])
  {
    var kept := KeepLast(dist + [e], n);
    forall j | 0 <= j < |kept|
      ensures kept[j].name == Name(first + |ps + [p]| - |kept| + j)
      ensures kept[j].checksum == hash((ps + [p])[|ps + [p]| - |kept| + j].data)
    {
      var i := |dist| + 1 - |kept| + j;
      assert first + |ps + [p]| - |kept| + j == first + |ps| - |dist| + i;
      KeptAt(dist, e, n, j);
      if i < |dist| {
        assert kept[j] == dist[i] && (ps + [p])[|ps| - |dist| + i] == ps[|ps| - |dist| + i];
      }
    }
  }

  /** The memory holds the last of the published buffers. */
  ghost predicate HoldsLast(versions: seq<Stored>, ps: seq<Publication>) {
    && |versions| <= |ps| && (forall i :: 0 <= i < |ps| ==> ps[i].Buffer?)
    && (forall j :: 0 <= j < |versions| ==> versions[j].data == Some(ps[|ps| - |versions| + j].data))
  }

  lemma {:induction false} AppendHoldsLast(versions: seq<Stored>, ps: seq<Publication>, v: Stored, p: Publication, n: nat)
    requires HoldsLast(versions, ps) && p.Buffer? && v.data == Some(p.data)
    ensures HoldsLast(KeepLast(versions + [v], n), ps + [p])
  {
    var kept, all := KeepLast(versions + [v], n), ps + [p];
    forall j | 0 <= j < |kept| ensures kept[j].data == Some(all[|all| - |kept| + j].data) {
      KeptAt(versions, v, n, j);
      KeptAt(ps, p, |kept|, j);
    }
  }

  /** The publication is an unmirrored one that fits as the version of that number. */
  ghost predicate Plain(hash: Bytes -> Digest, number: nat, p: Publication, maxBytes: nat) {
    p.Buffer? && !p.mirror && Fits(hash, Name(number), p.data, p.shardSize, maxBytes)
  }

  /** The state after a run of unmirrored publications that began at the given number. */
  ghost predicate ListsRun(hash: Bytes -> Digest, o: Origin, first: nat, ps: seq<Publication>, maxBytes: nat, retain: nat) {
    && Aligned(o, maxBytes) && o.limit == retain && NextNumber(o) == first + |ps|
    && |o.dist| == Min(|ps|, retain)
    && ListsLast(hash, o.dist, first, ps) && HoldsLast(o.store.versions, ps)
  }

  lemma {:induction false} ListsStep(hash: Bytes -> Digest, o: Origin, first: nat, ps: seq<Publication>, p: Publication,
                                     maxBytes: nat, retain: nat, after: Origin)
    requires ListsRun(hash, o, first, ps, maxBytes, retain) && Plain(hash, first + |ps|, p, maxBytes)
    requires after == Publish(hash, o, p).0
    ensures ListsRun(hash, after, first, ps + [p], maxBytes, retain)
  {
    var e, v := StepFacts(hash, o, p.data, p.shardSize, maxBytes, after);
    AppendListsLast(hash, o.dist, first, ps, e, p, retain);
    AppendHoldsLast(o.store.versions, ps, v, p, retain);
  }

  lemma {:induction false} StepFacts(hash: Bytes -> Digest, o: Origin, data: Bytes, shardSize: int, maxBytes: nat, after: Origin)
      returns (e: Entry, v: Stored)
    requires Aligned(o, maxBytes) && Fits(hash, NextName(o), data, shardSize, maxBytes)
    requires after == PublishBuffer(hash, o, data, shardSize, false).0
    ensures e.name == NextName(o) && e.checksum == hash(data) && v.data == Some(data)
    ensures Aligned(after, maxBytes) && after.limit == o.limit && NextNumber(after) == NextNumber(o) + 1
    ensures after.dist == KeepLast(o.dist + [e], o.limit)
    ensures after.store.versions == KeepLast(o.store.versions + [v], o.limit)
  {
    e := NewEntry(hash, o, data, ShardCount(|data|, shardSize));
    v := Complete(e.name, data, shardSize, hash(data), DigestsOf(hash, Shards(data, shardSize)));
    PublishInOrder(hash, o, data, shardSize, maxBytes);
    AlignedStep(hash, o, data, shardSize, maxBytes);
    AlignedTidy(o, maxBytes);
    PublicationRuns.BufferNumber(hash, o, data, shardSize, false);
  }

  lemma {:induction false} ListsStart(hash: Bytes -> Digest, maxBytes: nat, retain: nat, folders: seq<Folder>)
    requires retain >= 1
    ensures var start := PublicationRuns.Start(retain * maxBytes, folders, retain);
      ListsRun(hash, start, NextNumber(start), [], maxBytes, retain)
  {
  }

  lemma {:induction false} RunLists(hash: Bytes -> Digest, start: Origin, first: nat, ps: seq<Publication>, k: nat,
                                    maxBytes: nat, retain: nat) returns (o: Origin)
    requires k <= |ps| && ListsRun(hash, start, first, ps[..0], maxBytes, retain)
    requires forall i :: 0 <= i < |ps| ==> Plain(hash, first + i, ps[i], maxBytes)
    ensures o == PublicationRuns.Before(hash, start, ps, k)
    ensures ListsRun(hash, o, first, ps[..k], maxBytes, retain)
  {
    o := start;
    if k > 0 {
      var before := RunLists(hash, start, first, ps, k - 1, maxBytes, retain);
      PublicationRuns.RunNext(hash, start, ps, k - 1);
      o := PublicationRuns.Before(hash, start, ps, k);
      ListsNext(hash, before, first, ps, k - 1, maxBytes, retain, o);
    }
  }

  lemma {:induction false} ListsNext(hash: Bytes -> Digest, o: Origin, first: nat, ps: seq<Publication>, k: nat,
                                     maxBytes: nat, retain: nat, after: Origin)
    requires k < |ps| && ListsRun(hash, o, first, ps[..k], maxBytes, retain) && Plain(hash, first + k, ps[k], maxBytes)
    requires after == Publish(hash, o, ps[k]).0
    ensures ListsRun(hash, after, first, ps[..k + 1], maxBytes, retain)
  {
    PrefixNext(ps, k);
    ListsStep(hash, o, first, ps[..k], ps[k], maxBytes, retain, after);
  }

  lemma {:induction false} PrefixNext(ps: seq<Publication>, k: nat)
    requires k < |ps|
    ensures ps[..k] + [ps[k]] == ps[..k + 1]
  {
  }

  /** Over any run of publications of bounded size whose manifests can be written, the
      distribution file lists exactly the last ones, as many as are retained, and the memory
      holds each of them. */
  lemma {:induction false} LastOnesStayPublished(hash: Bytes -> Digest, maxBytes: nat, retain: nat, folders: seq<Folder>,
                                                 ps: seq<Publication>, first: nat) returns (o: Origin)
    requires retain >= 1 && first == NextNumber(PublicationRuns.Start(retain * maxBytes, folders, retain))
    requires forall i :: 0 <= i < |ps| ==> Plain(hash, first + i, ps[i], maxBytes)
    ensures o == PublicationRuns.Run(hash, PublicationRuns.Start(retain * maxBytes, folders, retain), ps)
    ensures ListsRun(hash, o, first, ps, maxBytes, retain)
  {
    var start := PublicationRuns.Start(retain * maxBytes, folders, retain);
    ListsStart(hash, maxBytes, retain, folders);
    assert ps[..0] == [];
    o := RunLists(hash, start, first, ps, |ps|, maxBytes, retain);
    assert ps[..|ps|] == ps;
  }

  /** The memory holds the last of the publications, as many as are retained, each under the
      name of its number. */
  ghost predicate RetainsLast(versions: seq<Stored>, first: nat, ps: seq<Publication>, retain: nat) {
    && |versions| == Min(|ps|, retain) && HoldsLast(versions, ps)
    && (forall i :: 0 <= i < |versions| ==> versions[i].meta.name == Name(first + |ps| - |versions| + i))
  }

  lemma {:induction false} LastNamed(hash: Bytes -> Digest, versions: seq<Stored>, dist: seq<Entry>, first: nat, ps: seq<Publication>, retain: nat)
    requires SameNames(versions, dist) && ListsLast(hash, dist, first, ps) && HoldsLast(versions, ps) && |dist| == Min(|ps|, retain)
    ensures RetainsLast(versions, first, ps, retain)
  {
    forall i | 0 <= i < |versions| ensures versions[i].meta.name == Name(first + |ps| - |versions| + i) {
      assert versions[i].meta.name == dist[i].name;
    }
  }

  /** The memory after a whole run, from the buffers alone. */
  lemma {:induction false} MemoryAfter(hash: Bytes -> Digest, maxBytes: nat, retain: nat, folders: seq<Folder>,
                                       ps: seq<Publication>, first: nat) returns (versions: seq<Stored>)
    requires retain >= 1 && first == NextNumber(PublicationRuns.Start(retain * maxBytes, folders, retain))
    requires forall i :: 0 <= i < |ps| ==> Plain(hash, first + i, ps[i], maxBytes)
    ensures versions == PublicationRuns.Run(hash, PublicationRuns.Start(retain * maxBytes, folders, retain), ps).store.versions
    ensures RetainsLast(versions, first, ps, retain)
  {
    var o := LastOnesStayPublished(hash, maxBytes, retain, folders, ps, first);
    versions := o.store.versions;
    LastNamed(hash, versions, o.dist, first, ps, retain);
  }
}
