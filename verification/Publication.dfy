/** What an origin's publications do to its three records of a version: the memory store, the
    folders on disk and the distribution file that advertises versions to everyone else. */
module Publication {
  import opened Wrappers
  import opened Sharding
  import opened StableSort
  import opened StoreModel
  import opened Manifest
  import opened VersionNames
  import opened Distribution

  /** A version's folder and the shard files written to it; manifests are not listed. */
  datatype Folder = Folder(name: string, files: seq<Bytes>)

  datatype Origin = Origin(store: Ledger, folders: seq<Folder>, dist: seq<Entry>, limit: int)

  datatype Publication =
    | Buffer(data: Bytes, shardSize: int, mirror: bool)
    | File(content: Option<Bytes>, shardSize: int)

  datatype PublishError = BadShardSize | NoSuchFile | Rejected(error: StoreError) | ManifestTooLong

  // ---------------------------------------------------------------- names

  function StoreNames(versions: seq<Stored>): (r: seq<string>)
    ensures |r| == |versions| && forall i :: 0 <= i < |r| ==> r[i] == versions[i].meta.name
  {
    seq(|versions|, i requires 0 <= i < |versions| => versions[i].meta.name)
  }

  function FolderNames(folders: seq<Folder>): (r: seq<string>)
    ensures |r| == |folders| && forall i :: 0 <= i < |r| ==> r[i] == folders[i].name
  {
    seq(|folders|, i requires 0 <= i < |folders| => folders[i].name)
  }

  /** Every name under which the origin knows a version, in memory, advertised or on disk. */
  function Known(o: Origin): seq<string> {
    StoreNames(o.store.versions) + Names(o.dist) + FolderNames(o.folders)
  }

  function NextNumber(o: Origin): nat {
    Largest(Known(o)) + 1
  }

  function NextName(o: Origin): string {
    Name(NextNumber(o))
  }

  // ---------------------------------------------------------------- publications

  function RemoveAll(l: Ledger, names: seq<string>): Ledger {
    if names == [] then l
    else Drop(RemoveAll(l, names[..|names| - 1]), names[|names| - 1])
  }

  function Outside(folders: seq<Folder>, names: set<string>): seq<Folder> {
    Filter(folders, (f: Folder) => f.name !in names)
  }

  /** Withdraws evicted versions from the file and the disk, and removed ones from memory and
      the disk. */
  function Settle(o: Origin, evicted: set<string>, removed: seq<string>): Origin {
    o.(store := RemoveAll(o.store, removed),
       folders := Outside(Outside(o.folders, evicted), Elements(removed)),
       dist := if evicted == {} then o.dist else Listed(Without(o.dist, evicted)))
  }

  function Evicted(before: Ledger, after: Ledger): set<string> {
    Elements(StoreNames(before.versions)) - Elements(StoreNames(after.versions))
  }

  function Announce(o: Origin, store: Ledger, e: Entry, files: seq<Bytes>, evicted: set<string>): Origin {
    var (dist, removed) := Updated(o.dist, e, o.limit);
    Settle(Origin(store, o.folders + [Folder(e.name, files)], dist, o.limit), evicted, removed)
  }

  function Stores(hash: Bytes -> Digest, o: Origin, data: Bytes, shardSize: nat): (Ledger, Result<Reply, StoreError>)
    requires shardSize > 0
  {
    Apply(hash, o.store, Op.PutVerified(NextName(o), data, shardSize, hash(data), DigestsOf(hash, Shards(data, shardSize))))
  }

  function NewEntry(hash: Bytes -> Digest, o: Origin, data: Bytes, count: int): Entry {
    Entry(NextName(o), hash(data), count)
  }

  /** An empty folder of the next name. */
  function WithEmptyFolder(o: Origin): Origin {
    o.(folders := o.folders + [Folder(NextName(o), [])])
  }

  /** The manifest is written after the buffer is stored and its folder made: one that is too
      long leaves both, and the versions that had to make room are gone. */
  function PublishBuffer(hash: Bytes -> Digest, o: Origin, data: Bytes, shardSize: int, mirror: bool)
    : (Origin, Result<string, PublishError>)
  {
    if shardSize <= 0 then (o, Err(BadShardSize))
    else
      var (store, reply) := Stores(hash, o, data, shardSize);
      if reply.Err? then (o, Err(Rejected(reply.error)))
      else if !ManifestFits(NextName(o), |data|, shardSize) then
        (WithEmptyFolder(o).(store := store), Err(ManifestTooLong))
      else
        (Announce(o, store, NewEntry(hash, o, data, ShardCount(|data|, shardSize)),
                  if mirror then Shards(data, shardSize) else [],
                  if mirror then {} else Evicted(o.store, store)),
         Ok(NextName(o)))
  }

  /** Division rounding down, also by a negative number. */
  function FloorDiv(a: int, d: int): int
    requires d != 0
  {
    if d > 0 then a / d else (0 - a) / (0 - d)
  }

  /** The pieces an oversized file is cut into.  A negative shard size makes the count of
      pieces one for a single byte, which a read of negative size takes whole, and none for
      anything longer. */
  function FileParts(data: Bytes, shardSize: int): seq<Bytes> {
    if shardSize > 0 then Shards(data, shardSize)
    else if |data| == 1 then [data]
    else []
  }

  function FileEntry(hash: Bytes -> Digest, o: Origin, data: Bytes, shardSize: int): Entry
    requires shardSize != 0
  {
    NewEntry(hash, o, data, FloorDiv(|data| + shardSize - 1, shardSize))
  }

  /** A file that fits in memory is published like a mirrored buffer, a larger one is cut up on
      disk only. */
  function PublishFile(hash: Bytes -> Digest, o: Origin, content: Option<Bytes>, shardSize: int)
    : (Origin, Result<string, PublishError>)
  {
    if content.None? then (o, Err(NoSuchFile))
    else if |content.value| <= o.store.capacity then PublishBuffer(hash, o, content.value, shardSize, true)
    else if shardSize == 0 then (WithEmptyFolder(o), Err(BadShardSize))
    else
      (Announce(o, o.store, FileEntry(hash, o, content.value, shardSize), FileParts(content.value, shardSize), {}),
       Ok(NextName(o)))
  }

  function Publish(hash: Bytes -> Digest, o: Origin, p: Publication): (Origin, Result<string, PublishError>) {
    match p
    case Buffer(data, shardSize, mirror) => PublishBuffer(hash, o, data, shardSize, mirror)
    case File(content, shardSize) => PublishFile(hash, o, content, shardSize)
  }

  // ---------------------------------------------------------------- serving

  /** The stored version answers as the entry advertises. */
  predicate Matches(hash: Bytes -> Digest, v: Stored, e: Entry) {
    v.meta.name == e.name && v.data.Some? && hash(v.data.value) == e.checksum && v.meta.shardCount == e.count
  }

  ghost predicate InStore(hash: Bytes -> Digest, versions: seq<Stored>, e: Entry) {
    exists v :: v in versions && Matches(hash, v, e)
  }

  /** The folder's files are all the advertised shards. */
  predicate Filed(hash: Bytes -> Digest, f: Folder, e: Entry) {
    f.name == e.name && |f.files| == e.count && hash(Join(f.files)) == e.checksum
  }

  ghost predicate OnDisk(hash: Bytes -> Digest, folders: seq<Folder>, e: Entry) {
    exists f :: f in folders && Filed(hash, f, e)
  }

  ghost predicate Servable(hash: Bytes -> Digest, o: Origin, e: Entry) {
    InStore(hash, o.store.versions, e) || OnDisk(hash, o.folders, e)
  }

  /** Whatever is advertised can be served in full. */
  ghost predicate AllServable(hash: Bytes -> Digest, o: Origin) {
    forall e :: e in o.dist ==> Servable(hash, o, e)
  }
}
