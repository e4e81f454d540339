/** What a publisher gets and what the origin then has of it: the outcome of every publication,
    and the published bytes in the file, in memory and on disk. */
module PublicationOutcomes {
  import opened Wrappers
  import opened Sharding
  import opened StoreModel
  import opened Manifest
  import opened VersionNames
  import opened Distribution
  import opened Publication
  import opened PublicationProofs
  import opened PublicationRuns

  /** The number after the largest one in use in memory, in the file or on disk. */
  ghost predicate IsNextName(o: Origin, name: string) {
    && Number(name).Some?
    && (forall n :: n in StoreNames(o.store.versions) + Names(o.dist) + FolderNames(o.folders) ==> Rank(n) < Number(name).value)
    && (Number(name).value == 1
        || exists n :: n in StoreNames(o.store.versions) + Names(o.dist) + FolderNames(o.folders) && Rank(n) + 1 == Number(name).value)
  }

  lemma {:induction false} NextNameExactly(o: Origin)
    ensures IsNextName(o, NextName(o))
  {
    LargestBounds(Known(o));
    NameRoundTrip(NextNumber(o));
  }

  /** The whole buffer under that name, cut and digested as published. */
  ghost predicate InMemory(hash: Bytes -> Digest, o: Origin, name: string, data: Bytes, shardSize: nat) {
    exists v :: v in o.store.versions && v.meta.name == name && v.data == Some(data)
      && v.meta.totalSize == |data| && v.meta.shardSize == shardSize && v.meta.checksum == hash(data)
  }

  /** The file lists the name with the buffer's checksum and its number of shards. */
  predicate Listing(hash: Bytes -> Digest, o: Origin, name: string, data: Bytes, count: int) {
    Entry(name, hash(data), count) in o.dist
  }

  /** Nothing of that name is left. */
  predicate NoTrace(o: Origin, name: string) {
    name !in Names(o.dist) && name !in StoreNames(o.store.versions) && name !in FolderNames(o.folders)
  }

  /** A buffer is refused for its shard size, for not fitting in memory, or for a manifest that
      is too long, in this order, and is published under the next name otherwise; the first two
      refusals change nothing. */
  lemma {:induction false} BufferOutcome(hash: Bytes -> Digest, o: Origin, data: Bytes, shardSize: int, mirror: bool)
    requires forall x :: |hash(x)| == 32
    ensures var (after, r) := Publish(hash, o, Buffer(data, shardSize, mirror));
      && (shardSize <= 0 ==> after == o && r == Err(BadShardSize))
      && (shardSize > 0 && |data| > o.store.capacity ==> after == o && r == Err(Rejected(TooLarge)))
      && (shardSize > 0 && |data| <= o.store.capacity ==>
            r == if ManifestFits(NextName(o), |data|, shardSize) then Ok(NextName(o)) else Err(ManifestTooLong))
  {
    if shardSize > 0 && |data| <= o.store.capacity {
      FittingIsStored(hash, o, data, shardSize);
    }
  }

  /** A published buffer is listed, whole in memory, and, if mirrored, on disk shard by shard;
      with a limit below one nothing of it is left. */
  lemma {:induction false} BufferPublished(hash: Bytes -> Digest, o: Origin, data: Bytes, shardSize: int, mirror: bool)
    requires Tidy(o) && Publish(hash, o, Buffer(data, shardSize, mirror)).1.Ok?
    ensures shardSize > 0
    ensures var (after, r) := Publish(hash, o, Buffer(data, shardSize, mirror)); var name := NextName(o);
      && r == Ok(name)
      && (o.limit >= 1 ==>
            && Listing(hash, after, name, data, ShardCount(|data|, shardSize)) && InMemory(hash, after, name, data, shardSize)
            && Folder(name, if mirror then Shards(data, shardSize) else []) in after.folders)
      && (o.limit < 1 ==> NoTrace(after, name))
  {
    PublishedIs(hash, o, data, shardSize, mirror);
    var e := NewEntry(hash, o, data, ShardCount(|data|, shardSize));
    var store := Stores(hash, o, data, shardSize).0;
    var files, evicted := if mirror then Shards(data, shardSize) else [], if mirror then {} else Evicted(o.store, store);
    BufferStored(hash, o, data, shardSize);
    NextUnknown(o);
    NewNotEvicted(hash, o, data, shardSize);
    AnnouncedTrace(o, store, e, files, evicted);
    var v := Complete(e.name, data, shardSize, hash(data), DigestsOf(hash, Shards(data, shardSize)));
    assert v in store.versions;
  }

  lemma {:induction false} NewNotEvicted(hash: Bytes -> Digest, o: Origin, data: Bytes, shardSize: nat)
    requires shardSize > 0 && Unique(o.store.versions) && Stores(hash, o, data, shardSize).1.Ok?
    ensures NextName(o) !in Evicted(o.store, Stores(hash, o, data, shardSize).0)
  {
    NextUnknown(o);
  }

  /** What an announcement leaves of its own entry. */
  lemma {:induction false} AnnouncedTrace(o: Origin, store: Ledger, e: Entry, files: seq<Bytes>, evicted: set<string>)
    requires Unique(store.versions) && Table(o.dist) && e.name == NextName(o) && e.name !in evicted
    ensures var after := Announce(o, store, e, files, evicted);
      && (o.limit >= 1 ==>
            && e in after.dist && Folder(e.name, files) in after.folders
            && (forall v :: v in store.versions && v.meta.name == e.name ==> v in after.store.versions))
      && (o.limit < 1 ==> NoTrace(after, e.name))
  {
    var after := Announce(o, store, e, files, evicted);
    NextUnknown(o);
    NewestAnnounced(o, e);
    AnnouncedDist(o, store, e, files, evicted);
    AnnouncedStore(o, store, e, files, evicted);
    AnnouncedFolders(o, store, e, files, evicted, Folder(e.name, files));
    if o.limit < 1 {
      forall f: Folder | f in after.folders ensures f.name != e.name {
        AnnouncedFolders(o, store, e, files, evicted, f);
      }
      NameMembers(after.dist);
      StoreNamesMembers(after.store.versions);
      NoFolderOf(after.folders, e.name);
    }
  }

  lemma {:induction false} NoFolderOf(folders: seq<Folder>, name: string)
    requires forall f :: f in folders ==> f.name != name
    ensures name !in FolderNames(folders)
  {
  }

  /** A file that is not there is refused; one that fits in memory is published like a mirrored
      buffer; a larger one is published on disk only, unless its shard size is zero, which
      leaves an empty folder behind. */
  lemma {:induction false} FileOutcome(hash: Bytes -> Digest, o: Origin, content: Option<Bytes>, shardSize: int)
    ensures var (after, r) := Publish(hash, o, File(content, shardSize));
      && (content.None? ==> after == o && r == Err(NoSuchFile))
      && (content.Some? && |content.value| <= o.store.capacity ==>
            (after, r) == Publish(hash, o, Buffer(content.value, shardSize, true)))
      && (content.Some? && |content.value| > o.store.capacity ==>
            if shardSize == 0 then r == Err(BadShardSize) && after == o.(folders := o.folders + [Folder(NextName(o), [])])
            else r == Ok(NextName(o)))
  {
  }

  /** A file beyond the memory is listed with its checksum and the number of its shards, and is
      on disk shard by shard; nothing new is in memory. */
  lemma {:induction false} LargeFilePublished(hash: Bytes -> Digest, o: Origin, data: Bytes, shardSize: nat)
    requires Tidy(o) && |data| > o.store.capacity && shardSize > 0
    ensures var after := Publish(hash, o, File(Some(data), shardSize)).0; var name := NextName(o);
      && (o.limit >= 1 ==>
            && Listing(hash, after, name, data, ShardCount(|data|, shardSize))
            && Folder(name, Shards(data, shardSize)) in after.folders && Join(Shards(data, shardSize)) == data)
      && (o.limit < 1 ==> NoTrace(after, name))
      && (forall v :: v in after.store.versions ==> v in o.store.versions)
  {
    var e := FileEntry(hash, o, data, shardSize);
    NextUnknown(o);
    AnnouncedTrace(o, o.store, e, FileParts(data, shardSize), {});
    AnnouncedStore(o, o.store, e, FileParts(data, shardSize), {});
    JoinShards(data, shardSize);
  }
}
