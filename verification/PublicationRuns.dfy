/** Whole runs of publications at one origin. */
module PublicationRuns {
  import opened Wrappers
  import opened Sharding
  import opened StableSort
  import opened StoreModel
  import opened Manifest
  import opened VersionNames
  import opened Distribution
  import opened Publication
  import opened PublicationProofs

  function Run(hash: Bytes -> Digest, o: Origin, ps: seq<Publication>): Origin {
    if ps == [] then o
    else Publish(hash, Run(hash, o, ps[..|ps| - 1]), ps[|ps| - 1]).0
  }

  /** A new origin over a data directory that may hold folders of its own. */
  function Start(capacity: nat, folders: seq<Folder>, limit: int): Origin {
    Origin(Ledger(capacity, 0, []), folders, [], limit)
  }

  lemma {:induction false} StepTidy(hash: Bytes -> Digest, o: Origin, p: Publication)
    requires Tidy(o)
    ensures var after := Publish(hash, o, p).0;
      Tidy(after) && after.limit == o.limit && after.store.capacity == o.store.capacity
  {
    match p
    case Buffer(data, shardSize, mirror) => BufferTidy(hash, o, data, shardSize, mirror);
    case File(content, shardSize) =>
      if content.Some? && |content.value| <= o.store.capacity {
        BufferTidy(hash, o, content.value, shardSize, true);
      } else if content.Some? && shardSize != 0 {
        OversizedIsDiskOnly(hash, o, p);
        DiskOnlyTidy(o, FileEntry(hash, o, content.value, shardSize), FileFolder(o, p).files);
      }
  }

  lemma {:induction false} RunTidy(hash: Bytes -> Digest, o: Origin, ps: seq<Publication>)
    requires Tidy(o)
    ensures var after := Run(hash, o, ps);
      Tidy(after) && after.limit == o.limit && after.store.capacity == o.store.capacity
  {
    if ps != [] {
      RunTidy(hash, o, ps[..|ps| - 1]);
      StepTidy(hash, Run(hash, o, ps[..|ps| - 1]), ps[|ps| - 1]);
    }
  }

  // ---------------------------------------------------------------- version numbers

  /** The names known after an announcement are old ones and the new one; and the new one is
      among them exactly if the limit leaves room for a version. */
  lemma {:induction false} AnnouncedNames(hash: Bytes -> Digest, o: Origin, store: Ledger, e: Entry, files: seq<Bytes>,
                                          evicted: set<string>, n: string)
    requires Tidy(o) && Unique(store.versions) && e.name == NextName(o) && e.name !in evicted
    requires forall v :: v in store.versions ==> v in o.store.versions || v.meta.name == e.name
    ensures var after := Announce(o, store, e, files, evicted);
      && (n in Known(after) ==> n in Known(o) || (n == e.name && o.limit >= 1))
      && (o.limit >= 1 ==> e.name in Known(after))
  {
    var after := Announce(o, store, e, files, evicted);
    NextUnknown(o);
    NewestAnnounced(o, e);
    AnnouncedDist(o, store, e, files, evicted);
    AnnouncedStore(o, store, e, files, evicted);
    StoreNamesMembers(o.store.versions);
    StoreNamesMembers(after.store.versions);
    NameMembers(o.dist);
    NameMembers(after.dist);
    if n in FolderNames(after.folders) {
      var i :| 0 <= i < |after.folders| && FolderNames(after.folders)[i] == n;
      AnnouncedFolders(o, store, e, files, evicted, after.folders[i]);
      if after.folders[i] in o.folders {
        var j :| 0 <= j < |o.folders| && o.folders[j] == after.folders[i];
        assert FolderNames(o.folders)[j] == n;
      }
    }
  }

  /** A successful publication takes the next number and uses it up, unless the limit admits no
      version at all: then the number is free again and will name other bytes. */
  lemma {:induction false} AnnouncedNumber(hash: Bytes -> Digest, o: Origin, store: Ledger, e: Entry, files: seq<Bytes>,
                                           evicted: set<string>)
    requires Tidy(o) && Unique(store.versions) && e.name == NextName(o) && e.name !in evicted
    requires forall v :: v in store.versions ==> v in o.store.versions || v.meta.name == e.name
    ensures var after := Announce(o, store, e, files, evicted);
      if o.limit >= 1 then NextNumber(after) == NextNumber(o) + 1 else NextNumber(after) <= NextNumber(o)
  {
    var after := Announce(o, store, e, files, evicted);
    NextUnknown(o);
    LargestBounds(Known(after));
    LargestBounds(Known(o));
    forall n | n in Known(after) ensures n in Known(o) || (n == e.name && o.limit >= 1) {
      AnnouncedNames(hash, o, store, e, files, evicted, n);
    }
    AnnouncedNames(hash, o, store, e, files, evicted, e.name);
  }

  lemma {:induction false} BufferNumber(hash: Bytes -> Digest, o: Origin, data: Bytes, shardSize: int, mirror: bool)
    requires Tidy(o) && PublishBuffer(hash, o, data, shardSize, mirror).1.Ok?
    ensures var after := PublishBuffer(hash, o, data, shardSize, mirror).0;
      if o.limit >= 1 then NextNumber(after) == NextNumber(o) + 1 else NextNumber(after) <= NextNumber(o)
  {
    var e := NewEntry(hash, o, data, ShardCount(|data|, shardSize));
    var (store, _) := Stores(hash, o, data, shardSize);
    PublishedIs(hash, o, data, shardSize, mirror);
    NextUnknown(o);
    BufferStored(hash, o, data, shardSize);
    AnnouncedNumber(hash, o, store, e, if mirror then Shards(data, shardSize) else [],
                    if mirror then {} else Evicted(o.store, store));
  }

  /** A successful publication takes the next number and, exactly if the limit admits any
      version, uses it up. */
  lemma {:induction false} PublicationNumber(hash: Bytes -> Digest, o: Origin, p: Publication)
    requires Tidy(o) && Publish(hash, o, p).1.Ok?
    ensures var (after, r) := Publish(hash, o, p);
      && r.value == NextName(o) && Rank(r.value) == NextNumber(o)
      && (NextNumber(after) > NextNumber(o) <==> o.limit >= 1)
  {
    NextUnknown(o);
    match p
    case Buffer(data, shardSize, mirror) => BufferNumber(hash, o, data, shardSize, mirror);
    case File(content, shardSize) =>
      if |content.value| <= o.store.capacity {
        BufferNumber(hash, o, content.value, shardSize, true);
      } else {
        var e, f := FileEntry(hash, o, content.value, shardSize), FileFolder(o, p);
        OversizedIsDiskOnly(hash, o, p);
        AnnouncedNumber(hash, o, o.store, e, f.files, {});
      }
  }

  /** The publication's buffer is stored, but its manifest is too long to be written. */
  predicate Refused(hash: Bytes -> Digest, o: Origin, p: Publication) {
    match p
    case Buffer(data, shardSize, _) => RefusedBuffer(hash, o, data, shardSize)
    case File(content, shardSize) =>
      content.Some? && |content.value| <= o.store.capacity && RefusedBuffer(hash, o, content.value, shardSize)
  }

  predicate RefusedBuffer(hash: Bytes -> Digest, o: Origin, data: Bytes, shardSize: int) {
    Accepts(hash, o, data, shardSize) && !ManifestFits(NextName(o), |data|, shardSize)
  }

  /** The bytes a publication puts into memory. */
  function Payload(p: Publication): Bytes {
    match p
    case Buffer(data, _, _) => data
    case File(content, _) => if content.Some? then content.value else []
  }

  /** A failed publication never touches the distribution file.  It leaves the memory alone too,
      unless its manifest was refused: then the new version is in memory, what had to make room
      for it is gone, and an empty folder of its name is left on disk. */
  lemma {:induction false} FailureKeeps(hash: Bytes -> Digest, o: Origin, p: Publication)
    requires Publish(hash, o, p).1.Err?
    ensures var (after, r) := Publish(hash, o, p);
      && after.dist == o.dist && after.limit == o.limit
      && (after.folders == o.folders || after.folders == WithEmptyFolder(o).folders)
      && (r == Err(ManifestTooLong) <==> Refused(hash, o, p))
      && (if Refused(hash, o, p)
          then after == WithEmptyFolder(o).(store := Stores(hash, o, Payload(p), p.shardSize).0)
          else after.store == o.store)
  {
  }

  lemma {:induction false} EmptyFolderKnown(o: Origin, after: Origin)
    requires after.folders == WithEmptyFolder(o).folders
    ensures NextNumber(after) > NextNumber(o)
  {
    NextUnknown(o);
    LargestBounds(Known(after));
    assert FolderNames(after.folders)[|o.folders|] == NextName(o);
    assert NextName(o) in FolderNames(after.folders);
  }

  lemma {:induction false} FailureNumber(hash: Bytes -> Digest, o: Origin, p: Publication)
    requires Publish(hash, o, p).1.Err?
    ensures NextNumber(Publish(hash, o, p).0) >= NextNumber(o)
  {
    FailureKeeps(hash, o, p);
    var after := Publish(hash, o, p).0;
    if after.folders == WithEmptyFolder(o).folders {
      EmptyFolderKnown(o, after);
    }
  }

  /** The outcome of the i-th publication of a run. */
  function Outcome(hash: Bytes -> Digest, o: Origin, ps: seq<Publication>, i: nat): Result<string, PublishError>
    requires i < |ps|
  {
    Publish(hash, Run(hash, o, ps[..i]), ps[i]).1
  }

  lemma {:induction false} RunNext(hash: Bytes -> Digest, o: Origin, ps: seq<Publication>, i: nat)
    requires i < |ps|
    ensures Run(hash, o, ps[..i + 1]) == Publish(hash, Run(hash, o, ps[..i]), ps[i]).0
  {
    assert ps[..i + 1][..i] == ps[..i];
  }

  lemma {:induction false} NumberAfter(hash: Bytes -> Digest, o: Origin, p: Publication)
    requires Tidy(o) && o.limit >= 1
    ensures NextNumber(Publish(hash, o, p).0) >= NextNumber(o)
  {
    if Publish(hash, o, p).1.Ok? {
      PublicationNumber(hash, o, p);
    } else {
      FailureNumber(hash, o, p);
    }
  }

  lemma {:induction false} NumberNext(hash: Bytes -> Digest, o: Origin, ps: seq<Publication>, k: nat)
    requires Tidy(o) && o.limit >= 1 && k < |ps|
    ensures NextNumber(Run(hash, o, ps[..k + 1])) >= NextNumber(Run(hash, o, ps[..k]))
  {
    RunTidy(hash, o, ps[..k]);
    NumberAfter(hash, Run(hash, o, ps[..k]), ps[k]);
    RunNext(hash, o, ps, k);
  }

  lemma {:induction false} StepsNeverFall(numbers: seq<nat>, i: nat, k: nat)
    requires i <= k < |numbers| && forall j: nat :: j < |numbers| - 1 ==> numbers[j] <= numbers[j + 1]
    ensures numbers[i] <= numbers[k]
    decreases k
  {
    if i < k {
      StepsNeverFall(numbers, i, k - 1);
      assert numbers[k - 1] <= numbers[k - 1 + 1];
    }
  }

  lemma {:induction false} NumbersNeverFall(hash: Bytes -> Digest, o: Origin, ps: seq<Publication>, i: nat, k: nat)
    requires Tidy(o) && o.limit >= 1 && i <= k <= |ps|
    ensures NextNumber(Run(hash, o, ps[..i])) <= NextNumber(Run(hash, o, ps[..k]))
  {
    var numbers := seq(|ps| + 1, j requires 0 <= j <= |ps| => NextNumber(Run(hash, o, ps[..j])));
    forall j: nat | j < |ps| ensures numbers[j] <= numbers[j + 1] {
      NumberNext(hash, o, ps, j);
    }
    StepsNeverFall(numbers, i, k);
  }

  /** Over any run with room for at least one version, numbers strictly increase. */
  lemma {:induction false} NumbersRise(hash: Bytes -> Digest, o: Origin, ps: seq<Publication>, i: nat, j: nat)
    requires Tidy(o) && o.limit >= 1 && i < j < |ps|
    requires Outcome(hash, o, ps, i).Ok? && Outcome(hash, o, ps, j).Ok?
    ensures Rank(Outcome(hash, o, ps, i).value) < Rank(Outcome(hash, o, ps, j).value)
  {
    RunTidy(hash, o, ps[..i]);
    RunTidy(hash, o, ps[..j]);
    RunNext(hash, o, ps, i);
    PublicationNumber(hash, Run(hash, o, ps[..i]), ps[i]);
    PublicationNumber(hash, Run(hash, o, ps[..j]), ps[j]);
    NumbersNeverFall(hash, o, ps, i + 1, j);
  }

  ghost predicate Newest(o: Origin, name: string) {
    name in Names(o.dist) && forall x :: x in o.dist ==> Rank(x.name) <= Rank(name)
  }

  lemma {:induction false} AnnouncedNewest(o: Origin, store: Ledger, e: Entry, files: seq<Bytes>, evicted: set<string>)
    requires Tidy(o) && e.name == NextName(o) && e.name !in evicted && o.limit >= 1
    ensures Newest(Announce(o, store, e, files, evicted), e.name)
  {
    var after := Announce(o, store, e, files, evicted);
    NextUnknown(o);
    NewestAnnounced(o, e);
    AnnouncedDist(o, store, e, files, evicted);
    assert e in after.dist;
    NameMembers(after.dist);
    NameMembers(o.dist);
  }

  lemma {:induction false} BufferNewest(hash: Bytes -> Digest, o: Origin, data: Bytes, shardSize: int, mirror: bool)
    requires Tidy(o) && o.limit >= 1 && PublishBuffer(hash, o, data, shardSize, mirror).1.Ok?
    ensures Newest(PublishBuffer(hash, o, data, shardSize, mirror).0, NextName(o))
  {
    var e := NewEntry(hash, o, data, ShardCount(|data|, shardSize));
    var (store, _) := Stores(hash, o, data, shardSize);
    PublishedIs(hash, o, data, shardSize, mirror);
    NextUnknown(o);
    AnnouncedNewest(o, store, e, if mirror then Shards(data, shardSize) else [],
                    if mirror then {} else Evicted(o.store, store));
  }

  lemma {:induction false} StepNewest(hash: Bytes -> Digest, o: Origin, p: Publication)
    requires Tidy(o) && o.limit >= 1 && Publish(hash, o, p).1.Ok?
    ensures Newest(Publish(hash, o, p).0, Publish(hash, o, p).1.value)
  {
    match p
    case Buffer(data, shardSize, mirror) => BufferNewest(hash, o, data, shardSize, mirror);
    case File(content, shardSize) =>
      if |content.value| <= o.store.capacity {
        BufferNewest(hash, o, content.value, shardSize, true);
      } else {
        OversizedIsDiskOnly(hash, o, p);
        AnnouncedNewest(o, o.store, FileEntry(hash, o, content.value, shardSize), FileFolder(o, p).files, {});
      }
  }

  lemma {:induction false} FailureStep(hash: Bytes -> Digest, o: Origin, ps: seq<Publication>, j: nat)
    requires j < |ps| && Outcome(hash, o, ps, j).Err?
    ensures Run(hash, o, ps[..j + 1]).dist == Run(hash, o, ps[..j]).dist
  {
    RunNext(hash, o, ps, j);
    FailureKeeps(hash, Run(hash, o, ps[..j]), ps[j]);
  }

  lemma {:induction false} DistStays(states: seq<Origin>, i: nat, k: nat)
    requires i < k < |states| && forall j: nat :: i < j < |states| - 1 ==> states[j + 1].dist == states[j].dist
    ensures states[k].dist == states[i + 1].dist
  {
    if i + 1 < k {
      DistStays(states, i, k - 1);
      assert states[k - 1 + 1].dist == states[k - 1].dist;
    }
  }

  lemma {:induction false} FailuresKeepDist(hash: Bytes -> Digest, o: Origin, ps: seq<Publication>, i: nat)
    requires i < |ps| && forall j: nat :: i < j < |ps| ==> Outcome(hash, o, ps, j).Err?
    ensures Run(hash, o, ps).dist == Run(hash, o, ps[..i + 1]).dist
  {
    var states := seq(|ps| + 1, k requires 0 <= k <= |ps| => Run(hash, o, ps[..k]));
    forall j: nat | i < j < |ps| ensures states[j + 1].dist == states[j].dist {
      FailureStep(hash, o, ps, j);
    }
    DistStays(states, i, |ps|);
    assert ps[..|ps|] == ps;
  }

  /** What was published last is advertised, as the newest version. */
  lemma {:induction false} NewestIsAdvertised(hash: Bytes -> Digest, o: Origin, ps: seq<Publication>, i: nat)
    requires Tidy(o) && o.limit >= 1 && i < |ps| && Outcome(hash, o, ps, i).Ok?
    requires forall j: nat :: i < j < |ps| ==> Outcome(hash, o, ps, j).Err?
    ensures Newest(Run(hash, o, ps), Outcome(hash, o, ps, i).value)
  {
    RunTidy(hash, o, ps[..i]);
    StepNewest(hash, Run(hash, o, ps[..i]), ps[i]);
    RunNext(hash, o, ps, i);
    FailuresKeepDist(hash, o, ps, i);
  }

  // ---------------------------------------------------------------- servability over runs

  /** The publication fits a run that either mirrors every buffer or none: small files count
      as mirrored, oversized ones as either, if they are cut whole or refused. */
  predicate FitsMode(capacity: nat, mirroring: bool, p: Publication) {
    match p
    case Buffer(_, _, mirror) => mirror == mirroring
    case File(content, shardSize) =>
      content.Some? ==> if |content.value| <= capacity then mirroring else shardSize == 0 || CutWhole(content.value, shardSize)
  }

  ghost predicate AllOnDisk(hash: Bytes -> Digest, o: Origin) {
    forall e :: e in o.dist ==> OnDisk(hash, o.folders, e)
  }

  lemma {:induction false} MirrorStep(hash: Bytes -> Digest, o: Origin, data: Bytes, shardSize: int)
    requires Tidy(o) && AllOnDisk(hash, o) && PublishBuffer(hash, o, data, shardSize, true).1.Ok?
    ensures AllOnDisk(hash, PublishBuffer(hash, o, data, shardSize, true).0)
  {
    var after := PublishBuffer(hash, o, data, shardSize, true).0;
    var e := NewEntry(hash, o, data, ShardCount(|data|, shardSize));
    var (store, _) := Stores(hash, o, data, shardSize);
    var files := Shards(data, shardSize);
    PublishedIs(hash, o, data, shardSize, true);
    NextUnknown(o);
    BufferStored(hash, o, data, shardSize);
    PartsFiled(hash, e, data, shardSize);
    AnnouncedDist(o, store, e, files, {});
    forall x | x in after.dist ensures OnDisk(hash, after.folders, x) {
      AnnouncedServing(hash, o, store, e, files, {}, x);
    }
  }

  /** Publishing an oversized file, cut whole, keeps either property. */
  lemma {:induction false} OversizedStep(hash: Bytes -> Digest, o: Origin, p: Publication)
    requires Tidy(o) && Oversized(o, p) && p.shardSize != 0 && CutWhole(p.content.value, p.shardSize)
    ensures AllOnDisk(hash, o) ==> AllOnDisk(hash, Publish(hash, o, p).0)
    ensures AllServable(hash, o) ==> AllServable(hash, Publish(hash, o, p).0)
  {
    var e, f := FileEntry(hash, o, p.content.value, p.shardSize), FileFolder(o, p);
    var after := DiskOnly(o, e, f.files);
    OversizedIsDiskOnly(hash, o, p);
    WholeCutFiled(hash, o, p);
    DiskOnlyTidy(o, e, f.files);
    forall x | x in after.dist
      ensures (InStore(hash, after.store.versions, x) <==> InStore(hash, o.store.versions, x))
           && (OnDisk(hash, after.folders, x) <==> OnDisk(hash, o.folders, x) || Filed(hash, f, x))
    {
      DiskOnlyServes(hash, o, e, f.files, x);
    }
  }

  lemma {:induction false} FailureOnDisk(hash: Bytes -> Digest, o: Origin, p: Publication)
    requires AllOnDisk(hash, o) && Publish(hash, o, p).1.Err?
    ensures AllOnDisk(hash, Publish(hash, o, p).0)
  {
    FailureKeeps(hash, o, p);
    var after := Publish(hash, o, p).0;
    forall x | x in after.dist ensures OnDisk(hash, after.folders, x) {
      var f :| f in o.folders && Filed(hash, f, x);
      assert f in after.folders;
    }
  }

  lemma {:induction false} MirroredStep(hash: Bytes -> Digest, o: Origin, p: Publication)
    requires Tidy(o) && AllOnDisk(hash, o) && FitsMode(o.store.capacity, true, p)
    ensures AllOnDisk(hash, Publish(hash, o, p).0)
  {
    if Publish(hash, o, p).1.Err? {
      FailureOnDisk(hash, o, p);
    } else if Oversized(o, p) {
      OversizedStep(hash, o, p);
    } else {
      MirrorStep(hash, o, Payload(p), p.shardSize);
    }
  }

  /** In every run that mirrors all buffers, whatever is advertised is fully on disk, also after
      publications that failed. */
  lemma {:induction false} MirroredStaysServable(hash: Bytes -> Digest, capacity: nat, folders: seq<Folder>, limit: int,
                                                 ps: seq<Publication>)
    requires forall i :: 0 <= i < |ps| ==> FitsMode(capacity, true, ps[i])
    ensures AllOnDisk(hash, Run(hash, Start(capacity, folders, limit), ps))
    ensures AllServable(hash, Run(hash, Start(capacity, folders, limit), ps))
  {
    if ps != [] {
      var n, start := |ps| - 1, Start(capacity, folders, limit);
      MirroredStaysServable(hash, capacity, folders, limit, ps[..n]);
      RunTidy(hash, start, ps[..n]);
      MirroredStep(hash, Run(hash, start, ps[..n]), ps[n]);
    }
  }

  /** The publication's manifest is refused, and the buffer stored for it displaces an advertised
      version that has no copy on disk. */
  ghost predicate RefusalLoses(hash: Bytes -> Digest, o: Origin, p: Publication) {
    Refused(hash, o, p) && exists x :: AtRisk(hash, o, |Payload(p)|, x)
  }

  lemma {:induction false} FailureServes(hash: Bytes -> Digest, o: Origin, p: Publication)
    requires AllServable(hash, o) && Publish(hash, o, p).1.Err? && !Refused(hash, o, p)
    ensures AllServable(hash, Publish(hash, o, p).0)
  {
    FailureKeeps(hash, o, p);
    var after := Publish(hash, o, p).0;
    forall x | x in after.dist && OnDisk(hash, o.folders, x) ensures OnDisk(hash, after.folders, x) {
      var f :| f in o.folders && Filed(hash, f, x);
      assert f in after.folders;
    }
  }

  lemma {:induction false} UnmirroredStep(hash: Bytes -> Digest, o: Origin, p: Publication)
    requires Tidy(o) && AllServable(hash, o) && FitsMode(o.store.capacity, false, p)
    ensures AllServable(hash, Publish(hash, o, p).0) <==> !RefusalLoses(hash, o, p)
  {
    if p.Buffer? {
      UnmirroredBufferStep(hash, o, p);
    } else {
      UnmirroredFile(hash, o, p);
    }
  }

  lemma {:induction false} UnmirroredBufferStep(hash: Bytes -> Digest, o: Origin, p: Publication)
    requires Tidy(o) && AllServable(hash, o) && p.Buffer? && !p.mirror
    ensures AllServable(hash, Publish(hash, o, p).0) <==> !RefusalLoses(hash, o, p)
  {
    UnmirroredBuffer(hash, o, p.data, p.shardSize);
    assert Publish(hash, o, p) == PublishBuffer(hash, o, p.data, p.shardSize, false);
    assert Payload(p) == p.data;
  }

  lemma {:induction false} UnmirroredFile(hash: Bytes -> Digest, o: Origin, p: Publication)
    requires Tidy(o) && AllServable(hash, o) && p.File? && FitsMode(o.store.capacity, false, p)
    ensures !Refused(hash, o, p) && AllServable(hash, Publish(hash, o, p).0)
  {
    if p.content.Some? && p.shardSize != 0 {
      OversizedStep(hash, o, p);
    } else {
      FailureServes(hash, o, p);
    }
  }

  lemma {:induction false} UnmirroredBuffer(hash: Bytes -> Digest, o: Origin, data: Bytes, shardSize: int)
    requires Tidy(o) && AllServable(hash, o)
    ensures AllServable(hash, PublishBuffer(hash, o, data, shardSize, false).0)
       <==> !(RefusedBuffer(hash, o, data, shardSize) && exists x :: AtRisk(hash, o, |data|, x))
  {
    BufferStepExact(hash, o, data, shardSize, false);
    if Accepts(hash, o, data, shardSize) {
      forall x ensures Lingers(hash, o, data, shardSize, false, x) <==> !ManifestFits(NextName(o), |data|, shardSize) {
      }
    }
  }

  /** The state before the k-th publication of a run. */
  function Before(hash: Bytes -> Digest, o: Origin, ps: seq<Publication>, k: nat): Origin
    requires k <= |ps|
  {
    Run(hash, o, ps[..k])
  }

  /** A run that mirrors no buffer stays servable at all times exactly while no refused manifest
      displaces an advertised version without a copy on disk. */
  lemma {:induction false} UnmirroredStaysServable(hash: Bytes -> Digest, capacity: nat, folders: seq<Folder>, limit: int,
                                                   ps: seq<Publication>)
    requires forall i :: 0 <= i < |ps| ==> FitsMode(capacity, false, ps[i])
    ensures var start := Start(capacity, folders, limit);
      (forall k :: 0 <= k <= |ps| ==> AllServable(hash, Before(hash, start, ps, k)))
      <==> (forall k :: 0 <= k < |ps| ==> !RefusalLoses(hash, Before(hash, start, ps, k), ps[k]))
  {
    var start := Start(capacity, folders, limit);
    if forall k :: 0 <= k <= |ps| ==> AllServable(hash, Before(hash, start, ps, k)) {
      forall k | 0 <= k < |ps| ensures !RefusalLoses(hash, Before(hash, start, ps, k), ps[k]) {
        UnmirroredNext(hash, start, ps, k);
        assert AllServable(hash, Before(hash, start, ps, k + 1));
      }
    }
    if forall k :: 0 <= k < |ps| ==> !RefusalLoses(hash, Before(hash, start, ps, k), ps[k]) {
      forall k | 0 <= k <= |ps| ensures AllServable(hash, Before(hash, start, ps, k)) {
        UnmirroredUpTo(hash, start, ps, k);
      }
    }
  }

  lemma {:induction false} UnmirroredNext(hash: Bytes -> Digest, start: Origin, ps: seq<Publication>, k: nat)
    requires Tidy(start) && k < |ps| && FitsMode(start.store.capacity, false, ps[k])
    requires AllServable(hash, Before(hash, start, ps, k))
    ensures AllServable(hash, Before(hash, start, ps, k + 1)) <==> !RefusalLoses(hash, Before(hash, start, ps, k), ps[k])
  {
    RunTidy(hash, start, ps[..k]);
    UnmirroredStep(hash, Before(hash, start, ps, k), ps[k]);
    RunNext(hash, start, ps, k);
  }

  lemma {:induction false} UnmirroredUpTo(hash: Bytes -> Digest, start: Origin, ps: seq<Publication>, k: nat)
    requires Tidy(start) && start.dist == [] && k <= |ps|
    requires forall i :: 0 <= i < |ps| ==> FitsMode(start.store.capacity, false, ps[i])
    requires forall j :: 0 <= j < |ps| ==> !RefusalLoses(hash, Before(hash, start, ps, j), ps[j])
    ensures AllServable(hash, Before(hash, start, ps, k))
  {
    if k > 0 {
      UnmirroredUpTo(hash, start, ps, k - 1);
      UnmirroredNext(hash, start, ps, k - 1);
    } else {
      assert ps[..0] == [];
    }
  }

  // ---------------------------------------------------------------- mixed modes

  /** A buffer that fits the memory is accepted. */
  lemma {:induction false} FittingIsStored(hash: Bytes -> Digest, o: Origin, data: Bytes, shardSize: nat)
    requires shardSize > 0 && |data| <= o.store.capacity && forall x :: |hash(x)| == 32
    ensures var v := Complete(NextName(o), data, shardSize, hash(data), DigestsOf(hash, Shards(data, shardSize)));
      Stores(hash, o, data, shardSize) == (StoreComplete(o.store, v, |data|), Ok(Version(v.meta)))
  {
    var parts := Shards(data, shardSize);
    forall c | c in DigestsOf(hash, parts) ensures |c| == 32 {
      var i :| 0 <= i < |parts| && DigestsOf(hash, parts)[i] == c;
    }
    assert ValidChecksums(DigestsOf(hash, parts), ShardCount(|data|, shardSize));
  }

  lemma {:induction false} FirstStored(hash: Bytes -> Digest, data: Bytes, shardSize: nat, limit: int)
    requires shardSize > 0 && forall x :: |hash(x)| == 32
    ensures var start := Start(|data|, [], limit);
      var v := Complete(NextName(start), data, shardSize, hash(data), DigestsOf(hash, Shards(data, shardSize)));
      Stores(hash, start, data, shardSize) == (Ledger(|data|, |data|, [v]), Ok(Version(v.meta)))
  {
    var start := Start(|data|, [], limit);
    FittingIsStored(hash, start, data, shardSize);
    var v := Complete(NextName(start), data, shardSize, hash(data), DigestsOf(hash, Shards(data, shardSize)));
    NotHeld([], v.meta.name);
    PutFresh(start.store, v, |data|);
    assert StoreComplete(start.store, v, |data|).versions == [v];
  }

  lemma {:induction false} FirstUpdate(e: Entry, limit: int)
    requires limit >= 1
    ensures Updated([], e, limit) == ([e], [])
  {
    assert With([], e) == [e];
    assert Listed([e]) == [e];
  }

  lemma {:induction false} FirstAnnounce(hash: Bytes -> Digest, o: Origin, store: Ledger, e: Entry)
    requires o.folders == [] && o.dist == [] && o.limit >= 1 && e.count != 0
    ensures var after := Announce(o, store, e, [], {});
      after.store == store && after.limit == o.limit && after.dist == [e] && !OnDisk(hash, after.folders, e)
  {
    FirstUpdate(e, o.limit);
    forall f | f in Announce(o, store, e, [], {}).folders ensures f.files == [] {
      AnnouncedFolders(o, store, e, [], {}, f);
    }
  }

  /** The first version of a fresh origin, published without a mirror: in memory only. */
  lemma {:induction false} FirstUnmirrored(hash: Bytes -> Digest, data: Bytes, shardSize: nat, limit: int)
    requires shardSize > 0 && |data| >= 1 && limit >= 1 && forall x :: |hash(x)| == 32
    requires ManifestFits(NextName(Start(|data|, [], limit)), |data|, shardSize)
    ensures var start := Start(|data|, [], limit);
      var e := NewEntry(hash, start, data, ShardCount(|data|, shardSize));
      var (o, r) := PublishBuffer(hash, start, data, shardSize, false);
      && r.Ok? && o.store == Stores(hash, start, data, shardSize).0 && o.limit == limit
      && o.dist == [e] && !OnDisk(hash, o.folders, e)
  {
    var start := Start(|data|, [], limit);
    var e := NewEntry(hash, start, data, ShardCount(|data|, shardSize));
    var store := Stores(hash, start, data, shardSize).0;
    FittingIsStored(hash, start, data, shardSize);
    AcceptedIsPublished(hash, start, data, shardSize, false);
    PublishedIs(hash, start, data, shardSize, false);
    CeilDivLeast(|data|, shardSize, 0);
    FirstEvictsNone(hash, start, data, shardSize);
    FirstAnnounce(hash, start, store, e);
  }

  lemma {:induction false} FirstEvictsNone(hash: Bytes -> Digest, o: Origin, data: Bytes, shardSize: nat)
    requires shardSize > 0 && o.store.versions == []
    ensures Announced(hash, o, data, shardSize, false)
         == Announce(o, Stores(hash, o, data, shardSize).0, NewEntry(hash, o, data, ShardCount(|data|, shardSize)), [], {})
  {
    assert StoreNames(o.store.versions) == [];
    assert Evicted(o.store, Stores(hash, o, data, shardSize).0) == {};
  }

  /** A first version that fills the memory, published without a mirror: servable, in memory
      only, and the next buffer displaces it. */
  lemma {:induction false} FullMemory(hash: Bytes -> Digest, data: Bytes, shardSize: nat, limit: int, need: nat)
    requires shardSize > 0 && |data| >= 1 && limit >= 1 && need >= 1 && forall x :: |hash(x)| == 32
    requires ManifestFits(NextName(Start(|data|, [], limit)), |data|, shardSize)
    ensures var start := Start(|data|, [], limit); var o := PublishBuffer(hash, start, data, shardSize, false).0;
      var e := NewEntry(hash, start, data, ShardCount(|data|, shardSize));
      && Tidy(o) && AllServable(hash, o) && o.limit == limit && o.store.capacity == |data|
      && o.dist == [e] && AtRisk(hash, o, need, e)
  {
    var start := Start(|data|, [], limit);
    FirstUnmirrored(hash, data, shardSize, limit);
    FirstStored(hash, data, shardSize, limit);
    BufferStepExact(hash, start, data, shardSize, false);
    BufferTidy(hash, start, data, shardSize, false);
    FullDisplaced(PublishBuffer(hash, start, data, shardSize, false).0, need, NextName(start));
  }

  lemma {:induction false} FullDisplaced(o: Origin, need: nat, name: string)
    requires |o.store.versions| == 1 && o.store.versions[0].meta.name == name
    requires o.store.size == o.store.capacity && need >= 1
    ensures name in Displaced(o, need)
  {
    var all := o.store.versions;
    assert EvictionCount(all, o.store.size, need, o.store.capacity) == 1;
    assert StoreNames(all[..1])[0] == name;
  }

  /** Mixing the modes breaks it: when two buffers each fill the memory and only the second is
      mirrored, the first stays advertised but can no longer be served. */
  lemma {:induction false} MixedModesBreak(hash: Bytes -> Digest, a: Bytes, b: Bytes, shardSize: nat, limit: int)
    requires shardSize > 0 && |a| == |b| >= 1 && limit >= 2 && forall x :: |hash(x)| == 32
    requires ManifestFits(NextName(Start(|a|, [], limit)), |a|, shardSize)
    ensures var o := PublishBuffer(hash, Start(|a|, [], limit), a, shardSize, false).0;
      AllServable(hash, o) && !AllServable(hash, PublishBuffer(hash, o, b, shardSize, true).0)
  {
    var start := Start(|a|, [], limit);
    var o := PublishBuffer(hash, start, a, shardSize, false).0;
    var e := NewEntry(hash, start, a, ShardCount(|a|, shardSize));
    FullMemory(hash, a, shardSize, limit, |b|);
    FittingIsStored(hash, o, b, shardSize);
    KeepsTwo(o, e, NewEntry(hash, o, b, ShardCount(|b|, shardSize)));
    assert Lingers(hash, o, b, shardSize, true, e);
    BufferStepExact(hash, o, b, shardSize, true);
  }

  lemma {:induction false} KeepsTwo(o: Origin, e: Entry, added: Entry)
    requires o.dist == [e] && o.limit >= 2 && added.name == NextName(o)
    ensures e.name !in Updated(o.dist, added, o.limit).1
  {
    NextUnknown(o);
    assert Names(o.dist)[0] == e.name;
    assert With(o.dist, added) == [e, added];
    SortElements([e, added], Recency);
  }

  // ---------------------------------------------------------------- refused manifests

  lemma {:induction false} DecimalShort(n: nat)
    ensures |Decimal(n)| <= n + 1
  {
    if n >= 10 {
      DecimalShort(n / 10);
    }
  }

  lemma {:induction false} QuotedShort(s: string)
    ensures Quoted(s) <= 2 + 12 * |s|
  {
    if s != [] {
      QuotedShort(s[..|s| - 1]);
    }
  }

  /** A buffer of up to eight million bytes in a single shard fits. */
  lemma {:induction false} OneShardFits(total: nat)
    requires 1 <= total <= 8_000_000
    ensures ManifestFits(Name(1), total, total)
  {
    CeilDivLeast(total, total, 1);
    CeilDivLeast(total, total, 0);
    QuotedShort(Name(1));
    DecimalShort(total);
    assert |Decimal(1)| == 1;
  }

  /** Without any mirror a run can lose a version: when a buffer of some hundred thousand bytes
      fills the memory and the next one is published in shards of one byte, its manifest is
      refused after it has displaced the first, which stays advertised with no copy anywhere. */
  lemma {:induction false} RefusedManifestLoses(hash: Bytes -> Digest, a: Bytes, b: Bytes, limit: int)
    requires |a| == |b| == 300_000 && limit >= 1 && forall x :: |hash(x)| == 32
    ensures var o := PublishBuffer(hash, Start(|a|, [], limit), a, |a|, false).0;
      var (after, r) := PublishBuffer(hash, o, b, 1, false);
      AllServable(hash, o) && r == Err(ManifestTooLong) && after.dist == o.dist && !AllServable(hash, after)
  {
    var start := Start(|a|, [], limit);
    assert Known(start) == [];
    OneShardFits(|a|);
    FullMemory(hash, a, |a|, limit, |b|);
    var o := PublishBuffer(hash, start, a, |a|, false).0;
    RefusalOf(hash, o, b, NewEntry(hash, start, a, ShardCount(|a|, |a|)));
  }

  lemma {:induction false} RefusalOf(hash: Bytes -> Digest, o: Origin, b: Bytes, e: Entry)
    requires Tidy(o) && AllServable(hash, o) && AtRisk(hash, o, |b|, e)
    requires 300_000 == |b| <= o.store.capacity && forall x :: |hash(x)| == 32
    ensures var (after, r) := PublishBuffer(hash, o, b, 1, false);
      r == Err(ManifestTooLong) && after.dist == o.dist && !AllServable(hash, after)
  {
    CeilDivLeast(|b|, 1, 300_000);
    CeilDivLeast(|b|, 1, 299_999);
    ManyShardsDoNotFit(NextName(o), |b|, 1);
    FittingIsStored(hash, o, b, 1);
    assert Lingers(hash, o, b, 1, false, e);
    BufferStepExact(hash, o, b, 1, false);
  }
}
