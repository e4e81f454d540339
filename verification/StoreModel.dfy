/** What the checkpoint store does to its state, operation by operation, as functions of an
    insertion-ordered list of versions and a running byte ledger. */
module StoreModel {
  import opened Wrappers
  import opened Sharding

  datatype Metadata = Metadata(name: string, totalSize: int, shardSize: int, shardCount: int, checksum: Digest)

  /** A version, held as one buffer or as a table of verified shards. */
  datatype Stored = Stored(meta: Metadata, data: Option<Bytes>, shards: map<int, Bytes>, checksums: seq<Digest>)

  /** Versions in insertion order; size is the running total the store keeps. */
  datatype Ledger = Ledger(capacity: nat, size: int, versions: seq<Stored>)

  datatype StoreError = BadArgument | TooLarge | NotFound | BadIndex | Mismatch

  datatype Op =
    | Put(name: string, data: Bytes, shardSize: int, checksum: Option<Digest>, checksums: seq<Digest>)
    | PutVerified(name: string, data: Bytes, shardSize: int, digest: Digest, checksums: seq<Digest>)
    | Begin(meta: Metadata, checksums: seq<Digest>)
    | PutShard(name: string, index: int, data: Bytes, verified: Option<Digest>)
    | Remove(name: string)
    | Clear

  datatype Reply = Version(meta: Metadata) | Shard(data: Bytes) | Removed(found: bool) | Done

  // ---------------------------------------------------------------- byte counts

  function ShardBytes(shards: map<int, Bytes>, n: nat): nat {
    if n == 0 then 0
    else ShardBytes(shards, n - 1) + (if n - 1 in shards then |shards[n - 1]| else 0)
  }

  /** Counted is what the ledger adds and subtracts for a version; Retained is everything it
      holds in memory.  They differ when a version has both a buffer and shards. */
  datatype Measure = Counted | Retained

  function Size(v: Stored, m: Measure): nat {
    var parts := ShardBytes(v.shards, Max(v.meta.shardCount, 0));
    if v.data.None? then parts
    else if m == Counted then |v.data.value|
    else |v.data.value| + parts
  }

  function Total(versions: seq<Stored>, m: Measure): nat {
    if versions == [] then 0 else Size(versions[0], m) + Total(versions[1..], m)
  }

  // ---------------------------------------------------------------- operations

  function IndexOf(versions: seq<Stored>, name: string): (k: nat)
    ensures k <= |versions|
    ensures k < |versions| ==> versions[k].meta.name == name
    ensures forall i :: 0 <= i < k ==> versions[i].meta.name != name
  {
    if versions == [] || versions[0].meta.name == name then 0 else 1 + IndexOf(versions[1..], name)
  }

  predicate Holds(versions: seq<Stored>, name: string) {
    IndexOf(versions, name) < |versions|
  }

  /** How many of the oldest versions go before `need` more bytes fit. */
  function EvictionCount(versions: seq<Stored>, size: int, need: int, capacity: nat): (k: nat)
    ensures k <= |versions|
  {
    if versions == [] || size + need <= capacity then 0
    else 1 + EvictionCount(versions[1..], size - Size(versions[0], Counted), need, capacity)
  }

  /** The state after the named version, if present, is taken out and paid back. */
  function Drop(l: Ledger, name: string): (r: Ledger)
    ensures r.capacity == l.capacity && |r.versions| <= |l.versions|
  {
    var k := IndexOf(l.versions, name);
    if k == |l.versions| then l
    else l.(size := l.size - Size(l.versions[k], Counted), versions := l.versions[..k] + l.versions[k + 1..])
  }

  /** The state after the k oldest versions are evicted. */
  function EvictOldest(l: Ledger, k: nat): Ledger
    requires k <= |l.versions|
  {
    l.(size := l.size - Total(l.versions[..k], Counted), versions := l.versions[k..])
  }

  function StoreComplete(l: Ledger, v: Stored, need: nat): Ledger {
    var dropped := Drop(l, v.meta.name);
    var k := EvictionCount(dropped.versions, dropped.size, need, l.capacity);
    var room := EvictOldest(dropped, k);
    room.(size := room.size + need, versions := room.versions + [v])
  }

  function Complete(name: string, data: Bytes, shardSize: nat, digest: Digest, checksums: seq<Digest>): Stored
    requires shardSize > 0
  {
    Stored(Metadata(name, |data|, shardSize, ShardCount(|data|, shardSize), digest), Some(data), map[], checksums)
  }

  predicate ValidChecksums(checksums: seq<Digest>, count: int) {
    && (checksums != [] ==> |checksums| == count)
    && (forall c :: c in checksums ==> |c| == 32)
  }

  function ApplyPut(hash: Bytes -> Digest, l: Ledger, op: Op): (Ledger, Result<Reply, StoreError>)
    requires op.Put?
  {
    if op.name == "" || op.shardSize <= 0 then (l, Err(BadArgument))
    else if |op.data| > l.capacity then (l, Err(TooLarge))
    else if op.checksum.Some? && op.checksum.value != hash(op.data) then (l, Err(BadArgument))
    else if !ValidChecksums(op.checksums, ShardCount(|op.data|, op.shardSize)) then (l, Err(BadArgument))
    else
      var v := Complete(op.name, op.data, op.shardSize, hash(op.data), op.checksums);
      (StoreComplete(l, v, |op.data|), Ok(Version(v.meta)))
  }

  function ApplyPutVerified(l: Ledger, op: Op): (Ledger, Result<Reply, StoreError>)
    requires op.PutVerified?
  {
    if op.name == "" || op.shardSize <= 0 || |op.digest| != 32 then (l, Err(BadArgument))
    else if |op.data| > l.capacity then (l, Err(TooLarge))
    else if !ValidChecksums(op.checksums, ShardCount(|op.data|, op.shardSize)) then (l, Err(BadArgument))
    else
      var v := Complete(op.name, op.data, op.shardSize, op.digest, op.checksums);
      (StoreComplete(l, v, |op.data|), Ok(Version(v.meta)))
  }

  function ApplyBegin(l: Ledger, op: Op): (Ledger, Result<Reply, StoreError>)
    requires op.Begin?
  {
    var k := IndexOf(l.versions, op.meta.name);
    if op.meta.name == "" || op.meta.shardSize <= 0 || |op.checksums| != op.meta.shardCount then (l, Err(BadArgument))
    else if k == |l.versions| then
      (l.(versions := l.versions + [Stored(op.meta, None, map[], op.checksums)]), Ok(Version(op.meta)))
    else
      var v := l.versions[k];
      if v.meta != op.meta || (v.checksums != [] && v.checksums != op.checksums) then (l, Err(Mismatch))
      else if v.checksums == [] then
        (l.(versions := l.versions[k := v.(checksums := op.checksums)]), Ok(Version(v.meta)))
      else (l, Ok(Version(v.meta)))
  }

  /** Whether the shard passes the checks against the version's metadata and digests. */
  function CheckShard(hash: Bytes -> Digest, v: Stored, op: Op): Option<StoreError>
    requires op.PutShard?
  {
    if op.index < 0 || op.index >= v.meta.shardCount then Some(BadIndex)
    else if |op.data| != ShardLength(v.meta.totalSize, v.meta.shardSize, op.index) then Some(Mismatch)
    else if v.checksums != [] && (op.index >= |v.checksums|
            || (if op.verified.Some? then op.verified.value else hash(op.data)) != v.checksums[op.index])
    then Some(Mismatch)
    else None
  }

  /** The bytes a shard adds to the ledger: nothing beyond what it replaces. */
  function Additional(v: Stored, op: Op): int
    requires op.PutShard?
  {
    |op.data| - (if op.index in v.shards then |v.shards[op.index]| else 0)
  }

  function ApplyPutShard(hash: Bytes -> Digest, l: Ledger, op: Op): (Ledger, Result<Reply, StoreError>)
    requires op.PutShard?
  {
    var t := IndexOf(l.versions, op.name);
    if t == |l.versions| then (l, Err(NotFound))
    else
      var v := l.versions[t];
      var problem := CheckShard(hash, v, op);
      if problem.Some? then (l, Err(problem.value))
      else
        var more := Additional(v, op);
        var k := EvictionCount(l.versions[..t], l.size, more, l.capacity);
        var room := EvictOldest(l, k);
        if room.size + more > l.capacity then (room, Err(TooLarge))
        else
          (room.(size := room.size + more,
                 versions := room.versions[t - k := v.(shards := v.shards[op.index := op.data])]),
           Ok(Shard(op.data)))
  }

  function Apply(hash: Bytes -> Digest, l: Ledger, op: Op): (Ledger, Result<Reply, StoreError>) {
    match op
    case Put(_, _, _, _, _) => ApplyPut(hash, l, op)
    case PutVerified(_, _, _, _, _) => ApplyPutVerified(l, op)
    case Begin(_, _) => ApplyBegin(l, op)
    case PutShard(_, _, _, _) => ApplyPutShard(hash, l, op)
    case Remove(name) => (Drop(l, name), Ok(Removed(Holds(l.versions, name))))
    case Clear => (Ledger(l.capacity, 0, []), Ok(Done))
  }

  // ---------------------------------------------------------------- reads

  predicate HasAll(v: Stored) {
    v.data.Some? || |v.shards| == v.meta.shardCount
  }

  predicate IsComplete(l: Ledger, name: string) {
    var k := IndexOf(l.versions, name);
    k < |l.versions| && HasAll(l.versions[k])
  }

  /** A slice whose bounds are brought into range first. */
  function Slice(data: Bytes, from: int, to: int): Bytes {
    var a := Min(Max(from, 0), |data|);
    var b := Max(a, Min(to, |data|));
    data[a..b]
  }

  /** The bytes of one shard together with the digest reported for it. */
  function ReadVersion(hash: Bytes -> Digest, v: Stored, index: int): Result<(Bytes, Digest), StoreError> {
    if index < 0 || index >= v.meta.shardCount then Err(BadIndex)
    else if v.data.None? && index !in v.shards then Err(NotFound)
    else
      var start := index * v.meta.shardSize;
      var bytes := if v.data.None? then v.shards[index]
                   else Slice(v.data.value, start, Min(start + v.meta.shardSize, v.meta.totalSize));
      Ok((bytes, if index < |v.checksums| then v.checksums[index] else hash(bytes)))
  }

  function ReadShard(hash: Bytes -> Digest, l: Ledger, name: string, index: int): Result<(Bytes, Digest), StoreError> {
    var k := IndexOf(l.versions, name);
    if k == |l.versions| then Err(NotFound) else ReadVersion(hash, l.versions[k], index)
  }
}
