/** The origin server: an object that publishes by updating its memory store, its data
    directory and its distribution file one after the other, each proved to do what
    Publication says. */
module OriginServer {
  import opened Wrappers
  import opened Sharding
  import opened Placement
  import opened StoreModel
  import opened CheckpointStore
  import opened Manifest
  import opened VersionNames
  import opened Distribution
  import opened Publication
  import opened PublicationProofs
  import opened PublicationRuns

  /** An origin's manifests have no profiles. */
  function NoTables(): map<string, RawProfile> -> nat {
    (_: map<string, RawProfile>) => 0
  }

  class Server {
    const store: Store
    const limit: int
    const mirrorByDefault: bool
    var folders: seq<Folder>
    var dist: seq<Entry>

    /** The abstract state. */
    function State(): Origin
      reads this, store
    {
      Origin(store.State(), folders, dist, limit)
    }

    ghost predicate Valid()
      reads this, store
    {
      Tidy(State())
    }

    constructor (hash: Bytes -> Digest, capacity: nat, limit: int, mirrorByDefault: bool, found: seq<Folder>)
      ensures Valid() && fresh(store) && store.hash == hash && this.limit == limit
      ensures State() == Start(capacity, found, limit)
    {
      this.store := new Store(hash, capacity);
      this.limit, this.mirrorByDefault := limit, mirrorByDefault;
      folders, dist := found, [];
    }

    /** One more than the largest number in memory, in the distribution file or on disk. */
    method NextVersion() returns (name: string)
      ensures name == NextName(State())
    {
      var candidates := StoreNames(store.versions) + Names(dist) + FolderNames(folders);
      var maximum := 0;
      for i := 0 to |candidates|
        invariant maximum == Largest(candidates[..i])
      {
        assert candidates[..i + 1][..i] == candidates[..i];
        var number := Number(candidates[i]);
        if number.Some? && number.value > maximum {
          maximum := number.value;
        }
      }
      assert candidates[..|candidates|] == candidates;
      return Name(maximum + 1);
    }

    /** Reads the shards of a stored version back one by one, as they go to its folder. */
    method ShardFiles(name: string, v: Stored) returns (files: seq<Bytes>)
      requires v in store.versions && v.meta.name == name && Unique(store.versions)
      requires v.data.Some? && v.meta.shardSize > 0 && v.meta.totalSize == |v.data.value|
      requires v.meta.shardCount == ShardCount(|v.data.value|, v.meta.shardSize)
      ensures files == Shards(v.data.value, v.meta.shardSize)
    {
      files := [];
      var parts := Shards(v.data.value, v.meta.shardSize);
      for i := 0 to v.meta.shardCount
        invariant files == parts[..i]
      {
        var shard := store.GetShardWithChecksum(name, i);
        FoundStored(store.versions, v);
        WholeShard(store.hash, v, i);
        files := files + [shard.value.0];
      }
    }

    method BroadcastBuffer(data: Bytes, shardSize: int, mirror: Option<bool>) returns (r: Result<string, PublishError>)
      requires Valid()
      modifies this, store
      ensures Valid()
      ensures (State(), r) == PublishBuffer(store.hash, old(State()), data, shardSize,
                                            if mirror.Some? then mirror.value else mirrorByDefault)
    {
      var mirrored := if mirror.Some? then mirror.value else mirrorByDefault;
      BufferTidy(store.hash, State(), data, shardSize, mirrored);
      r := BroadcastUnlocked(data, shardSize, mirrored);
    }

    method BroadcastUnlocked(data: Bytes, shardSize: int, mirrored: bool) returns (r: Result<string, PublishError>)
      requires Valid()
      modifies this, store
      ensures (State(), r) == PublishBuffer(store.hash, old(State()), data, shardSize, mirrored)
    {
      ghost var before := State();
      var version := NextVersion();
      var built := BuildManifest(store.hash, version, data, shardSize);
      if built.Err? {
        return Err(BadShardSize);
      }
      var previous := Elements(StoreNames(store.versions));
      var stored := store.PutVerified(version, data, shardSize, built.value.checksum, built.value.shardChecksums);
      if stored.Err? {
        return Err(Rejected(stored.error));
      }
      var evictions := previous - Elements(StoreNames(store.versions));
      BufferStored(store.hash, before, data, shardSize);
      BuiltIsWritten(store.hash, NoTables(), version, data, shardSize);
      r := WriteOut(before, built.value, data, mirrored, evictions);
      if r.Ok? {
        AcceptedIsPublished(store.hash, before, data, shardSize, mirrored);
        PublishedIs(store.hash, before, data, shardSize, mirrored);
      } else {
        RefusedIs(store.hash, before, data, shardSize, mirrored);
      }
    }

    /** Writes the manifest of a buffer that is stored already and announces the version, or
        stops at a manifest that is too long. */
    method WriteOut(ghost before: Origin, manifest: ShardManifest, data: Bytes, mirrored: bool, evictions: set<string>)
      returns (r: Result<string, PublishError>)
      requires manifest.shardSize > 0 && manifest.shardCount == ShardCount(|data|, manifest.shardSize)
      requires Table(dist) && Unique(store.versions) && manifest.name == NextName(before)
      requires Complete(manifest.name, data, manifest.shardSize, manifest.checksum, manifest.shardChecksums) in store.versions
      requires State() == before.(store := store.State())
      modifies this, store
      ensures r == if Write(NoTables(), manifest).Ok? then Ok(manifest.name) else Err(ManifestTooLong)
      ensures r.Err? ==> State() == WithEmptyFolder(before).(store := old(store.State()))
      ensures r.Ok? ==>
        State() == Announce(before, old(store.State()), Entry(manifest.name, manifest.checksum, manifest.shardCount),
                            if mirrored then Shards(data, manifest.shardSize) else [], if mirrored then {} else evictions)
    {
      if Write(NoTables(), manifest).Err? {
        folders := folders + [Folder(manifest.name, [])];
        return Err(ManifestTooLong);
      }
      Release(manifest, data, mirrored, evictions);
      return Ok(manifest.name);
    }

    /** Mirrors the shards if asked to and announces the version. */
    method Release(manifest: ShardManifest, data: Bytes, mirrored: bool, evictions: set<string>)
      requires manifest.shardSize > 0 && manifest.shardCount == ShardCount(|data|, manifest.shardSize)
      requires Table(dist) && Unique(store.versions)
      requires Complete(manifest.name, data, manifest.shardSize, manifest.checksum, manifest.shardChecksums) in store.versions
      modifies this, store
      ensures State() == Announce(old(State()), old(store.State()), Entry(manifest.name, manifest.checksum, manifest.shardCount),
                                  if mirrored then Shards(data, manifest.shardSize) else [], if mirrored then {} else evictions)
    {
      var files, withdrawn := [], evictions;
      if mirrored {
        files := ShardFiles(manifest.name, Complete(manifest.name, data, manifest.shardSize, manifest.checksum, manifest.shardChecksums));
        withdrawn := {};
      }
      Advertise(Entry(manifest.name, manifest.checksum, manifest.shardCount), files, withdrawn);
    }

    /** Writes the folder and the distribution file, then withdraws what was evicted or is
        beyond the limit. */
    method Advertise(e: Entry, files: seq<Bytes>, evictions: set<string>)
      requires Table(dist)
      modifies this, store
      ensures State() == Announce(old(State()), old(store.State()), e, files, evictions)
    {
      folders := folders + [Folder(e.name, files)];
      var removed;
      dist, removed := UpdateDistribution(dist, e, limit);
      dist := RemoveVersions(dist, evictions);
      DeleteFolders(evictions);
      Discard(removed);
    }

    method DeleteFolders(names: set<string>)
      modifies this`folders
      ensures folders == Outside(old(folders), names)
    {
      var left := names;
      OutsideNone(folders);
      assert names - names == {};
      while left != {}
        invariant left <= names && folders == Outside(old(folders), names - left)
        decreases left
      {
        var name :| name in left;
        OutsideTwice(old(folders), names - left, {name});
        assert names - left + {name} == names - (left - {name});
        folders := Outside(folders, {name});
        left := left - {name};
      }
      assert names - {} == names;
    }

    /** Drops versions from memory and from disk. */
    method Discard(names: seq<string>)
      modifies this`folders, store
      ensures store.State() == RemoveAll(old(store.State()), names)
      ensures folders == Outside(old(folders), Elements(names))
    {
      assert names[..0] == [] && Elements(names[..0]) == {};
      OutsideNone(folders);
      for i := 0 to |names|
        invariant store.State() == RemoveAll(old(store.State()), names[..i])
        invariant folders == Outside(old(folders), Elements(names[..i]))
      {
        assert names[..i + 1][..i] == names[..i];
        OutsideNext(old(folders), names, i);
        var _ := store.Remove(names[i]);
        folders := Outside(folders, {names[i]});
      }
      assert names[..|names|] == names;
    }

    method Broadcast(content: Option<Bytes>, shardSize: int) returns (r: Result<string, PublishError>)
      requires Valid()
      modifies this, store
      ensures Valid()
      ensures (State(), r) == PublishFile(store.hash, old(State()), content, shardSize)
    {
      ghost var before := State();
      StepTidy(store.hash, before, File(content, shardSize));
      if content.None? {
        return Err(NoSuchFile);
      }
      var data := content.value;
      if |data| <= store.capacity {
        r := BroadcastBuffer(data, shardSize, Some(true));
        return;
      }
      r := BroadcastLarge(data, shardSize);
    }

    /** Cuts a file too large for the memory straight onto the disk. */
    method BroadcastLarge(data: Bytes, shardSize: int) returns (r: Result<string, PublishError>)
      requires Valid() && |data| > store.capacity
      modifies this, store
      ensures (State(), r) == PublishFile(store.hash, old(State()), Some(data), shardSize)
    {
      var version := NextVersion();
      if shardSize == 0 {
        folders := folders + [Folder(version, [])];
        return Err(BadShardSize);
      }
      var count := FloorDiv(|data| + shardSize - 1, shardSize);
      var files := CutFile(data, shardSize, count);
      Advertise(Entry(version, store.hash(data), count), files, {});
      return Ok(version);
    }
  }

  /** Reads a file in pieces of the shard size, as many as the count says. */
  method CutFile(data: Bytes, shardSize: int, count: int) returns (files: seq<Bytes>)
    requires shardSize != 0 && |data| > 0 && count == FloorDiv(|data| + shardSize - 1, shardSize)
    ensures files == FileParts(data, shardSize)
  {
    files := [];
    var read := 0;
    var i := 0;
    ghost var parts := FileParts(data, shardSize);
    if shardSize < 0 {
      NegativeCount(|data|, shardSize);
    }
    while i < count
      invariant i <= |parts| == Max(count, 0) && files == parts[..i]
      invariant read == if shardSize > 0 then SpanEnd(|data|, shardSize, i) else if i == 0 then 0 else |data|
    {
      if shardSize > 0 {
        ShardSpan(|data|, shardSize, i);
        assert (i + 1) * shardSize == i * shardSize + shardSize;
      }
      var end := if shardSize < 0 then |data| else Min(read + shardSize, |data|);
      assert data[read..end] == parts[i];
      files := files + [data[read..end]];
      read := end;
      i := i + 1;
    }
  }
}
