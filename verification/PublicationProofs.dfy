/** Properties of an origin over whole runs: version numbers only rise, the newest version
    stays advertised, and what is advertised can be served. */
module PublicationProofs {
  import opened Wrappers
  import opened Sharding
  import opened StableSort
  import opened StoreModel
  import opened Manifest
  import opened VersionNames
  import opened Distribution
  import opened Publication

  // ---------------------------------------------------------------- the store's part

  ghost predicate Unique(versions: seq<Stored>) {
    forall i, j :: 0 <= i < j < |versions| ==> versions[i].meta.name != versions[j].meta.name
  }

  lemma {:induction false} DropMembers(l: Ledger, name: string)
    requires Unique(l.versions)
    ensures Unique(Drop(l, name).versions)
    ensures forall v :: v in Drop(l, name).versions <==> v in l.versions && v.meta.name != name
  {
    var k, r := IndexOf(l.versions, name), Drop(l, name).versions;
    if k < |l.versions| {
      assert forall i :: 0 <= i < |r| ==> r[i] == l.versions[if i < k then i else i + 1];
      forall v | v in l.versions && v.meta.name != name ensures v in r {
        var i :| 0 <= i < |l.versions| && l.versions[i] == v;
        assert r[if i < k then i else i - 1] == v;
      }
    }
  }

  lemma {:induction false} RemoveAllMembers(l: Ledger, names: seq<string>)
    requires Unique(l.versions)
    ensures Unique(RemoveAll(l, names).versions)
    ensures RemoveAll(l, names).capacity == l.capacity
    ensures forall v :: v in RemoveAll(l, names).versions <==> v in l.versions && v.meta.name !in names
  {
    if names != [] {
      var n := |names| - 1;
      RemoveAllMembers(l, names[..n]);
      DropMembers(RemoveAll(l, names[..n]), names[n]);
      assert names == names[..n] + [names[n]];
    }
  }

  /** A version of a new name evicts the oldest ones and joins the rest. */
  lemma {:induction false} PutFresh(l: Ledger, v: Stored, need: nat)
    requires !Holds(l.versions, v.meta.name)
    ensures StoreComplete(l, v, need).versions
         == l.versions[EvictionCount(l.versions, l.size, need, l.capacity)..] + [v]
  {
  }

  lemma {:induction false} NotHeld(versions: seq<Stored>, name: string)
    ensures name !in StoreNames(versions) ==> !Holds(versions, name)
  {
    if Holds(versions, name) {
      assert StoreNames(versions)[IndexOf(versions, name)] == name;
    }
  }

  lemma {:induction false} StoreNamesMembers(versions: seq<Stored>)
    ensures forall n :: n in StoreNames(versions) <==> exists v :: v in versions && v.meta.name == n
  {
    forall n ensures n in StoreNames(versions) <==> exists v :: v in versions && v.meta.name == n {
      if v :| v in versions && v.meta.name == n {
        var i :| 0 <= i < |versions| && versions[i] == v;
        assert StoreNames(versions)[i] == n;
      }
      if n in StoreNames(versions) {
        var i :| 0 <= i < |versions| && StoreNames(versions)[i] == n;
        assert versions[i] in versions;
      }
    }
  }

  /** The versions a publication of that many bytes would push out of the memory store. */
  function Displaced(o: Origin, need: nat): set<string> {
    Elements(StoreNames(o.store.versions[..EvictionCount(o.store.versions, o.store.size, need, o.store.capacity)]))
  }

  lemma {:induction false} EvictedNames(versions: seq<Stored>, k: nat, v: Stored)
    requires Unique(versions) && k <= |versions| && v.meta.name !in StoreNames(versions)
    ensures Elements(StoreNames(versions)) - Elements(StoreNames(versions[k..] + [v])) == Elements(StoreNames(versions[..k]))
  {
    forall n ensures n in StoreNames(versions) && n !in StoreNames(versions[k..] + [v]) <==> n in StoreNames(versions[..k]) {
      StoreNamesMembers(versions);
      StoreNamesMembers(versions[k..] + [v]);
      StoreNamesMembers(versions[..k]);
    }
  }

  // ---------------------------------------------------------------- what one announcement changes

  /** The origin's tables have no duplicate names. */
  ghost predicate Tidy(o: Origin) {
    Unique(o.store.versions) && Table(o.dist)
  }

  ghost predicate Gone(o: Origin, e: Entry, evicted: set<string>, name: string) {
    name in Updated(o.dist, e, o.limit).1 || name in evicted
  }

  lemma {:induction false} AnnouncedDist(o: Origin, store: Ledger, e: Entry, files: seq<Bytes>, evicted: set<string>)
    requires Table(o.dist) && e.name !in Names(o.dist)
    ensures var after := Announce(o, store, e, files, evicted);
      && Table(after.dist) && after.limit == o.limit
      && (forall x :: x in after.dist <==> (x == e || x in o.dist) && !Gone(o, e, evicted, x.name))
  {
    var (kept, removed) := Updated(o.dist, e, o.limit);
    UpdatePartitions(o.dist, e, o.limit);
    NameMembers(o.dist);
    if evicted != {} {
      var left := Without(kept, evicted);
      FilterElements(kept, (x: Entry) => x.name !in evicted);
      SortElements(left, Recency);
      WithoutTable(kept, evicted);
      ListedTable(left);
    }
  }

  lemma {:induction false} WithoutTable(dist: seq<Entry>, names: set<string>)
    requires Table(dist)
    ensures Table(Without(dist, names))
  {
    if dist != [] {
      WithoutTable(dist[1..], names);
      FilterElements(dist[1..], (x: Entry) => x.name !in names);
      var rest := Without(dist[1..], names);
      forall i | 0 <= i < |rest| ensures rest[i].name != dist[0].name {
        assert rest[i] in rest;
      }
    }
  }

  lemma {:induction false} AnnouncedFolders(o: Origin, store: Ledger, e: Entry, files: seq<Bytes>, evicted: set<string>, f: Folder)
    ensures f in Announce(o, store, e, files, evicted).folders
       <==> (f in o.folders || f == Folder(e.name, files)) && !Gone(o, e, evicted, f.name)
  {
    var removed := Updated(o.dist, e, o.limit).1;
    var folders := o.folders + [Folder(e.name, files)];
    FilterElements(folders, (g: Folder) => g.name !in evicted);
    FilterElements(Outside(folders, evicted), (g: Folder) => g.name !in Elements(removed));
  }

  lemma {:induction false} AnnouncedStore(o: Origin, store: Ledger, e: Entry, files: seq<Bytes>, evicted: set<string>)
    requires Unique(store.versions)
    ensures var after := Announce(o, store, e, files, evicted);
      && Unique(after.store.versions) && after.store.capacity == store.capacity
      && (forall v :: v in after.store.versions <==> v in store.versions && v.meta.name !in Updated(o.dist, e, o.limit).1)
  {
    RemoveAllMembers(store, Updated(o.dist, e, o.limit).1);
  }

  /** An entry still advertised is served from what was there just before the clean-up. */
  lemma {:induction false} AnnouncedServing(hash: Bytes -> Digest, o: Origin, store: Ledger, e: Entry, files: seq<Bytes>,
                                            evicted: set<string>, x: Entry)
    requires Unique(store.versions) && !Gone(o, e, evicted, x.name)
    ensures var after := Announce(o, store, e, files, evicted);
      && (InStore(hash, after.store.versions, x) <==> InStore(hash, store.versions, x))
      && (OnDisk(hash, after.folders, x) <==> OnDisk(hash, o.folders, x) || Filed(hash, Folder(e.name, files), x))
  {
    AnnouncedStore(o, store, e, files, evicted);
    forall f ensures f in Announce(o, store, e, files, evicted).folders
              <==> (f in o.folders || f == Folder(e.name, files)) && !Gone(o, e, evicted, f.name) {
      AnnouncedFolders(o, store, e, files, evicted, f);
    }
  }

  // ---------------------------------------------------------------- servability

  lemma {:induction false} NextUnknown(o: Origin)
    ensures NextName(o) !in StoreNames(o.store.versions) && NextName(o) !in Names(o.dist) && NextName(o) !in FolderNames(o.folders)
    ensures Rank(NextName(o)) == NextNumber(o)
    ensures forall n :: n in Known(o) ==> Rank(n) < NextNumber(o)
  {
    NextIsFresh(Known(o));
    LargestBounds(Known(o));
  }

  /** The store once the new version is in it, and who had to make room. */
  lemma {:induction false} BufferStored(hash: Bytes -> Digest, o: Origin, data: Bytes, shardSize: nat)
    requires shardSize > 0 && Unique(o.store.versions) && Stores(hash, o, data, shardSize).1.Ok?
    ensures var store := Stores(hash, o, data, shardSize).0;
      var v := Complete(NextName(o), data, shardSize, hash(data), DigestsOf(hash, Shards(data, shardSize)));
      && Unique(store.versions) && store.capacity == o.store.capacity
      && Evicted(o.store, store) == Displaced(o, |data|)
      && (forall x :: x in store.versions <==> x == v || (x in o.store.versions && x.meta.name !in Displaced(o, |data|)))
  {
    var v := Complete(NextName(o), data, shardSize, hash(data), DigestsOf(hash, Shards(data, shardSize)));
    var all := o.store.versions;
    var k := EvictionCount(all, o.store.size, |data|, o.store.capacity);
    NextUnknown(o);
    NotHeld(all, v.meta.name);
    PutFresh(o.store, v, |data|);
    EvictedNames(all, k, v);
    KeptVersions(all, k, v);
  }

  lemma {:induction false} KeptVersions(all: seq<Stored>, k: nat, v: Stored)
    requires Unique(all) && k <= |all| && v.meta.name !in StoreNames(all)
    ensures Unique(all[k..] + [v])
    ensures forall x :: x in all[k..] + [v] <==> x == v || (x in all && x.meta.name !in StoreNames(all[..k]))
  {
    StoreNamesMembers(all);
    forall x ensures x in all[k..] <==> x in all && x.meta.name !in StoreNames(all[..k]) {
      KeptVersion(all, k, x);
    }
  }

  lemma {:induction false} KeptVersion(all: seq<Stored>, k: nat, x: Stored)
    requires Unique(all) && k <= |all|
    ensures x in all[k..] <==> x in all && x.meta.name !in StoreNames(all[..k])
  {
    if i :| 0 <= i < |all| && all[i] == x {
      if i < k {
        assert StoreNames(all[..k])[i] == x.meta.name;
      } else {
        assert all[k..][i - k] == x;
      }
    }
  }

  /** An advertised entry whose only copy is in memory and would be displaced. */
  ghost predicate AtRisk(hash: Bytes -> Digest, o: Origin, need: nat, x: Entry) {
    x in o.dist && x.name in Displaced(o, need) && !OnDisk(hash, o.folders, x)
  }

  /** The store would take the buffer in. */
  predicate Accepts(hash: Bytes -> Digest, o: Origin, data: Bytes, shardSize: int) {
    shardSize > 0 && Stores(hash, o, data, shardSize).1.Ok?
  }

  /** The announcement that a successful publication ends with. */
  function Announced(hash: Bytes -> Digest, o: Origin, data: Bytes, shardSize: nat, mirror: bool): Origin
    requires shardSize > 0
  {
    var store := Stores(hash, o, data, shardSize).0;
    Announce(o, store, NewEntry(hash, o, data, ShardCount(|data|, shardSize)),
             if mirror then Shards(data, shardSize) else [], if mirror then {} else Evicted(o.store, store))
  }

  lemma {:induction false} PublishedIs(hash: Bytes -> Digest, o: Origin, data: Bytes, shardSize: int, mirror: bool)
    requires PublishBuffer(hash, o, data, shardSize, mirror).1.Ok?
    ensures Accepts(hash, o, data, shardSize) && ManifestFits(NextName(o), |data|, shardSize)
    ensures PublishBuffer(hash, o, data, shardSize, mirror) == (Announced(hash, o, data, shardSize, mirror), Ok(NextName(o)))
  {
  }

  lemma {:induction false} RefusedIs(hash: Bytes -> Digest, o: Origin, data: Bytes, shardSize: int, mirror: bool)
    requires Accepts(hash, o, data, shardSize) && !ManifestFits(NextName(o), |data|, shardSize)
    ensures PublishBuffer(hash, o, data, shardSize, mirror)
         == (WithEmptyFolder(o).(store := Stores(hash, o, data, shardSize).0), Err(ManifestTooLong))
  {
  }

  lemma {:induction false} AcceptedIsPublished(hash: Bytes -> Digest, o: Origin, data: Bytes, shardSize: int, mirror: bool)
    requires Accepts(hash, o, data, shardSize) && ManifestFits(NextName(o), |data|, shardSize)
    ensures PublishBuffer(hash, o, data, shardSize, mirror).1.Ok?
  {
  }

  lemma {:induction false} AnnouncedServes(hash: Bytes -> Digest, o: Origin, data: Bytes, shardSize: nat, mirror: bool, x: Entry)
    requires Tidy(o) && Accepts(hash, o, data, shardSize) && x in Announced(hash, o, data, shardSize, mirror).dist
    requires x in o.dist ==> Servable(hash, o, x)
    ensures Servable(hash, Announced(hash, o, data, shardSize, mirror), x) <==> !(mirror && AtRisk(hash, o, |data|, x))
  {
    var e := NewEntry(hash, o, data, ShardCount(|data|, shardSize));
    var store := Stores(hash, o, data, shardSize).0;
    var files, evicted := if mirror then Shards(data, shardSize) else [], if mirror then {} else Evicted(o.store, store);
    NextUnknown(o);
    BufferStored(hash, o, data, shardSize);
    AnnouncedDist(o, store, e, files, evicted);
    AnnouncedServing(hash, o, store, e, files, evicted, x);
  }

  lemma {:induction false} BufferServes(hash: Bytes -> Digest, o: Origin, data: Bytes, shardSize: int, mirror: bool, x: Entry)
    requires Tidy(o) && PublishBuffer(hash, o, data, shardSize, mirror).1.Ok?
    requires x in PublishBuffer(hash, o, data, shardSize, mirror).0.dist
    requires x in o.dist ==> Servable(hash, o, x)
    ensures Servable(hash, PublishBuffer(hash, o, data, shardSize, mirror).0, x) <==> !(mirror && AtRisk(hash, o, |data|, x))
  {
    PublishedIs(hash, o, data, shardSize, mirror);
    AnnouncedServes(hash, o, data, shardSize, mirror, x);
  }

  lemma {:induction false} AnnouncedTidy(hash: Bytes -> Digest, o: Origin, data: Bytes, shardSize: nat, mirror: bool)
    requires Tidy(o) && Accepts(hash, o, data, shardSize)
    ensures var after := Announced(hash, o, data, shardSize, mirror);
      Tidy(after) && after.limit == o.limit && after.store.capacity == o.store.capacity
  {
    var e := NewEntry(hash, o, data, ShardCount(|data|, shardSize));
    var store := Stores(hash, o, data, shardSize).0;
    var files, evicted := if mirror then Shards(data, shardSize) else [], if mirror then {} else Evicted(o.store, store);
    NextUnknown(o);
    BufferStored(hash, o, data, shardSize);
    AnnouncedDist(o, store, e, files, evicted);
    AnnouncedStore(o, store, e, files, evicted);
  }

  lemma {:induction false} PublishedTidy(hash: Bytes -> Digest, o: Origin, data: Bytes, shardSize: int, mirror: bool)
    requires Tidy(o) && PublishBuffer(hash, o, data, shardSize, mirror).1.Ok?
    ensures var after := PublishBuffer(hash, o, data, shardSize, mirror).0;
      Tidy(after) && after.limit == o.limit && after.store.capacity == o.store.capacity
  {
    PublishedIs(hash, o, data, shardSize, mirror);
    AnnouncedTidy(hash, o, data, shardSize, mirror);
  }

  lemma {:induction false} BufferTidy(hash: Bytes -> Digest, o: Origin, data: Bytes, shardSize: int, mirror: bool)
    requires Tidy(o)
    ensures var after := PublishBuffer(hash, o, data, shardSize, mirror).0;
      Tidy(after) && after.limit == o.limit && after.store.capacity == o.store.capacity
  {
    if PublishBuffer(hash, o, data, shardSize, mirror).1.Ok? {
      PublishedTidy(hash, o, data, shardSize, mirror);
    } else if Accepts(hash, o, data, shardSize) {
      BufferStored(hash, o, data, shardSize);
    }
  }

  /** A refused manifest loses exactly the entries at risk. */
  lemma {:induction false} RefusalServes(hash: Bytes -> Digest, o: Origin, data: Bytes, shardSize: nat, x: Entry)
    requires Tidy(o) && Accepts(hash, o, data, shardSize) && x in o.dist && Servable(hash, o, x)
    ensures Servable(hash, WithEmptyFolder(o).(store := Stores(hash, o, data, shardSize).0), x) <==> !AtRisk(hash, o, |data|, x)
  {
    NextUnknown(o);
    NameMembers(o.dist);
    BufferStored(hash, o, data, shardSize);
    forall f ensures f in WithEmptyFolder(o).folders <==> f in o.folders || f == Folder(NextName(o), []) {
    }
  }

  /** The publication would take an advertised version out of memory that has no copy on disk
      and stays advertised: because the manifest is refused, or because a mirrored publication
      does not withdraw what it displaces and the limit does not remove it either. */
  ghost predicate Loses(hash: Bytes -> Digest, o: Origin, data: Bytes, shardSize: int, mirror: bool) {
    && Accepts(hash, o, data, shardSize)
    && exists x :: AtRisk(hash, o, |data|, x) && Lingers(hash, o, data, shardSize, mirror, x)
  }

  ghost predicate Lingers(hash: Bytes -> Digest, o: Origin, data: Bytes, shardSize: nat, mirror: bool, x: Entry)
    requires shardSize > 0
  {
    ManifestFits(NextName(o), |data|, shardSize) ==>
      mirror && x.name !in Updated(o.dist, NewEntry(hash, o, data, ShardCount(|data|, shardSize)), o.limit).1
  }

  lemma {:induction false} StaysExactly(hash: Bytes -> Digest, o: Origin, data: Bytes, shardSize: int, x: Entry)
    requires Tidy(o) && PublishBuffer(hash, o, data, shardSize, true).1.Ok? && x in o.dist
    ensures x in PublishBuffer(hash, o, data, shardSize, true).0.dist
       <==> x.name !in Updated(o.dist, NewEntry(hash, o, data, ShardCount(|data|, shardSize)), o.limit).1
  {
    NextUnknown(o);
    AnnouncedDist(o, Stores(hash, o, data, shardSize).0, NewEntry(hash, o, data, ShardCount(|data|, shardSize)),
                  Shards(data, shardSize), {});
  }

  lemma {:induction false} PublishedExact(hash: Bytes -> Digest, o: Origin, data: Bytes, shardSize: int, mirror: bool)
    requires Tidy(o) && AllServable(hash, o) && PublishBuffer(hash, o, data, shardSize, mirror).1.Ok?
    ensures AllServable(hash, PublishBuffer(hash, o, data, shardSize, mirror).0) <==> !Loses(hash, o, data, shardSize, mirror)
  {
    var after := PublishBuffer(hash, o, data, shardSize, mirror).0;
    forall x | x in after.dist ensures Servable(hash, after, x) <==> !(mirror && AtRisk(hash, o, |data|, x)) {
      BufferServes(hash, o, data, shardSize, mirror, x);
    }
    if mirror {
      forall x | x in o.dist ensures x in after.dist <==> Lingers(hash, o, data, shardSize, mirror, x) {
        StaysExactly(hash, o, data, shardSize, x);
      }
    }
  }

  /** Whatever its outcome, publishing a buffer keeps everything advertised servable exactly
      unless it loses an advertised version in one of the two ways, which depends on the state
      before the call alone. */
  lemma {:induction false} BufferStepExact(hash: Bytes -> Digest, o: Origin, data: Bytes, shardSize: int, mirror: bool)
    requires Tidy(o) && AllServable(hash, o)
    ensures AllServable(hash, PublishBuffer(hash, o, data, shardSize, mirror).0) <==> !Loses(hash, o, data, shardSize, mirror)
  {
    var (after, r) := PublishBuffer(hash, o, data, shardSize, mirror);
    if r.Ok? {
      PublishedExact(hash, o, data, shardSize, mirror);
    } else if Accepts(hash, o, data, shardSize) {
      forall x | x in o.dist ensures Servable(hash, after, x) <==> !AtRisk(hash, o, |data|, x) {
        RefusalServes(hash, o, data, shardSize, x);
      }
    }
  }

  /** The file is larger than the memory store. */
  predicate Oversized(o: Origin, p: Publication) {
    p.File? && p.content.Some? && |p.content.value| > o.store.capacity
  }

  function FileFolder(o: Origin, p: Publication): Folder
    requires Oversized(o, p)
  {
    Folder(NextName(o), FileParts(p.content.value, p.shardSize))
  }

  /** The entry and its folder are announced; memory gains nothing. */
  function DiskOnly(o: Origin, e: Entry, files: seq<Bytes>): Origin {
    Announce(o, o.store, e, files, {})
  }

  lemma {:induction false} OversizedIsDiskOnly(hash: Bytes -> Digest, o: Origin, p: Publication)
    requires Oversized(o, p) && p.shardSize != 0
    ensures Publish(hash, o, p) == (DiskOnly(o, FileEntry(hash, o, p.content.value, p.shardSize), FileFolder(o, p).files), Ok(NextName(o)))
  {
  }

  lemma {:induction false} DiskOnlyTidy(o: Origin, e: Entry, files: seq<Bytes>)
    requires Tidy(o) && e.name == NextName(o)
    ensures var after := DiskOnly(o, e, files);
      && Tidy(after) && after.limit == o.limit && after.store.capacity == o.store.capacity
      && (e in after.dist <==> o.limit >= 1)
      && (forall x :: x in after.dist ==> x == e || x in o.dist)
  {
    NextUnknown(o);
    AnnouncedDist(o, o.store, e, files, {});
    AnnouncedStore(o, o.store, e, files, {});
    NewestAnnounced(o, e);
  }

  lemma {:induction false} DiskOnlyServes(hash: Bytes -> Digest, o: Origin, e: Entry, files: seq<Bytes>, x: Entry)
    requires Tidy(o) && e.name == NextName(o) && x in DiskOnly(o, e, files).dist
    ensures var after := DiskOnly(o, e, files);
      && (InStore(hash, after.store.versions, x) <==> InStore(hash, o.store.versions, x))
      && (OnDisk(hash, after.folders, x) <==> OnDisk(hash, o.folders, x) || Filed(hash, Folder(e.name, files), x))
  {
    NextUnknown(o);
    AnnouncedDist(o, o.store, e, files, {});
    AnnouncedServing(hash, o, o.store, e, files, {}, x);
  }

  lemma {:induction false} UnknownNotServed(hash: Bytes -> Digest, o: Origin, e: Entry)
    requires e.name !in StoreNames(o.store.versions) && e.name !in FolderNames(o.folders)
    ensures !InStore(hash, o.store.versions, e) && !OnDisk(hash, o.folders, e)
  {
    StoreNamesMembers(o.store.versions);
    forall f | f in o.folders ensures f.name != e.name {
      var i :| 0 <= i < |o.folders| && o.folders[i] == f;
      assert FolderNames(o.folders)[i] == f.name;
    }
  }

  lemma {:induction false} NewestAnnounced(o: Origin, e: Entry)
    requires Table(o.dist) && e.name == NextName(o)
    ensures e.name in Updated(o.dist, e, o.limit).1 <==> o.limit < 1
  {
    NextUnknown(o);
    forall x | x in o.dist ensures Rank(x.name) < Rank(e.name) {
      NameMembers(o.dist);
    }
    NewestKept(o.dist, e, o.limit);
  }

  /** The shard files written for a whole number of bytes give the file back. */
  lemma {:induction false} PartsFiled(hash: Bytes -> Digest, e: Entry, data: Bytes, shardSize: nat)
    requires shardSize > 0 && e.checksum == hash(data) && e.count == ShardCount(|data|, shardSize)
    ensures Filed(hash, Folder(e.name, Shards(data, shardSize)), e)
  {
    JoinShards(data, shardSize);
  }

  /** With a negative divisor the count rounds to one for a single byte, else to none. */
  lemma {:induction false} NegativeCount(n: nat, shardSize: int)
    requires n > 0 && shardSize < 0
    ensures var count := FloorDiv(n + shardSize - 1, shardSize); if n == 1 then count == 1 else count <= 0
  {
    var d := 0 - shardSize;
    if n > 1 {
      BelowOne(d - (n - 1), d);
    }
  }

  lemma {:induction false} BelowOne(a: int, d: nat)
    requires 0 < d && a < d
    ensures a / d <= 0
  {
    var q := a / d;
    assert a == d * q + a % d;
    if q >= 1 {
      TimesMonotone(1, q, d);
    }
  }

  /** The cut is whole: every byte of the file is in one of its pieces. */
  predicate CutWhole(data: Bytes, shardSize: int) {
    shardSize > 0 || |data| == 1
  }

  lemma {:induction false} WholeCutFiled(hash: Bytes -> Digest, o: Origin, p: Publication)
    requires Oversized(o, p) && p.shardSize != 0 && CutWhole(p.content.value, p.shardSize)
    ensures Filed(hash, FileFolder(o, p), FileEntry(hash, o, p.content.value, p.shardSize))
  {
    var data, e := p.content.value, FileEntry(hash, o, p.content.value, p.shardSize);
    if p.shardSize > 0 {
      PartsFiled(hash, e, data, p.shardSize);
    } else {
      NegativeCount(|data|, p.shardSize);
      assert Join([data]) == data;
    }
  }

  /** The new folder serves the file exactly if the cut is whole. */
  lemma {:induction false} FileFiled(hash: Bytes -> Digest, o: Origin, p: Publication)
    requires Oversized(o, p) && p.shardSize != 0 && CollisionFree(hash, {[], p.content.value})
    ensures Filed(hash, FileFolder(o, p), FileEntry(hash, o, p.content.value, p.shardSize))
       <==> CutWhole(p.content.value, p.shardSize)
  {
    var data := p.content.value;
    if CutWhole(data, p.shardSize) {
      WholeCutFiled(hash, o, p);
    } else {
      var inputs: set<Bytes> := {[], data};
      assert [] in inputs && data in inputs;
      assert Join(FileParts(data, p.shardSize)) == [];
    }
  }

  /** Publishing an oversized file keeps everything advertised servable exactly if the file is
      cut whole, or the limit keeps it out of the distribution file altogether: with a negative
      shard size nothing is written of a file of two bytes or more, yet it is advertised. */
  lemma {:induction false} FileStepExact(hash: Bytes -> Digest, o: Origin, p: Publication)
    requires Tidy(o) && AllServable(hash, o) && Oversized(o, p) && p.shardSize != 0
    requires CollisionFree(hash, {[], p.content.value})
    ensures AllServable(hash, Publish(hash, o, p).0) <==> CutWhole(p.content.value, p.shardSize) || o.limit < 1
  {
    var e, f, after := FileEntry(hash, o, p.content.value, p.shardSize), FileFolder(o, p), Publish(hash, o, p).0;
    OversizedIsDiskOnly(hash, o, p);
    FileFiled(hash, o, p);
    DiskOnlyExact(hash, o, e, f.files);
  }

  lemma {:induction false} DiskOnlyExact(hash: Bytes -> Digest, o: Origin, e: Entry, files: seq<Bytes>)
    requires Tidy(o) && AllServable(hash, o) && e.name == NextName(o)
    ensures AllServable(hash, DiskOnly(o, e, files)) <==> Filed(hash, Folder(e.name, files), e) || o.limit < 1
  {
    var after := DiskOnly(o, e, files);
    NextUnknown(o);
    UnknownNotServed(hash, o, e);
    DiskOnlyTidy(o, e, files);
    forall x | x in after.dist
      ensures Servable(hash, after, x) <==> Servable(hash, o, x) || Filed(hash, Folder(e.name, files), x)
    {
      DiskOnlyServes(hash, o, e, files, x);
    }
  }

  // ---------------------------------------------------------------- folders and reads

  lemma {:induction false} OutsideNone(folders: seq<Folder>)
    ensures Outside(folders, {}) == folders
  {
    if folders != [] {
      OutsideNone(folders[1..]);
    }
  }

  lemma {:induction false} OutsideTwice(folders: seq<Folder>, a: set<string>, b: set<string>)
    ensures Outside(Outside(folders, a), b) == Outside(folders, a + b)
  {
    if folders != [] {
      OutsideTwice(folders[1..], a, b);
      if folders[0].name !in a {
        FilterCons(folders[0], Outside(folders[1..], a), (f: Folder) => f.name !in b);
      }
    }
  }

  lemma {:induction false} OutsideNext(folders: seq<Folder>, names: seq<string>, i: nat)
    requires i < |names|
    ensures Outside(Outside(folders, Elements(names[..i])), {names[i]}) == Outside(folders, Elements(names[..i + 1]))
  {
    OutsideTwice(folders, Elements(names[..i]), {names[i]});
    assert names[..i + 1] == names[..i] + [names[i]];
    assert Elements(names[..i + 1]) == Elements(names[..i]) + {names[i]};
  }

  lemma {:induction false} FoundStored(versions: seq<Stored>, v: Stored)
    requires Unique(versions) && v in versions
    ensures Holds(versions, v.meta.name) && versions[IndexOf(versions, v.meta.name)] == v
  {
    var i :| 0 <= i < |versions| && versions[i] == v;
    var k := IndexOf(versions, v.meta.name);
    assert k <= i;
  }

  /** A version stored whole reads back the shards of its buffer. */
  lemma {:induction false} WholeShard(hash: Bytes -> Digest, v: Stored, i: nat)
    requires v.data.Some? && v.meta.shardSize > 0 && v.meta.totalSize == |v.data.value|
    requires v.meta.shardCount == ShardCount(|v.data.value|, v.meta.shardSize) && i < v.meta.shardCount
    ensures ReadVersion(hash, v, i).Ok? && ReadVersion(hash, v, i).value.0 == Shards(v.data.value, v.meta.shardSize)[i]
  {
    ShardSpan(|v.data.value|, v.meta.shardSize, i);
    assert (i + 1) * v.meta.shardSize == i * v.meta.shardSize + v.meta.shardSize;
  }
}
