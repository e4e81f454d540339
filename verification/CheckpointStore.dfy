/** The store itself: an object whose operations update its version list and byte count in
    place, each proved to do what StoreModel says. */
module CheckpointStore {
  import opened Wrappers
  import opened Sharding
  import opened StoreModel

  class Store {
    const hash: Bytes -> Digest
    const capacity: nat
    var size: int
    var versions: seq<Stored>

    /** The abstract state. */
    function State(): Ledger
      reads this
    {
      Ledger(capacity, size, versions)
    }

    constructor (hash: Bytes -> Digest, capacity: nat)
      ensures this.hash == hash && State() == Ledger(capacity, 0, [])
    {
      this.hash, this.capacity := hash, capacity;
      size, versions := 0, [];
    }

    method Put(name: string, data: Bytes, shardSize: int, checksum: Option<Digest>, checksums: seq<Digest>)
      returns (r: Result<Reply, StoreError>)
      modifies this
      ensures (State(), r) == Apply(hash, old(State()), Op.Put(name, data, shardSize, checksum, checksums))
    {
      if name == "" || shardSize <= 0 {
        return Err(BadArgument);
      }
      if |data| > capacity {
        return Err(TooLarge);
      }
      var actual := hash(data);
      if checksum.Some? && checksum.value != actual {
        return Err(BadArgument);
      }
      if !ValidChecksums(checksums, ShardCount(|data|, shardSize)) {
        return Err(BadArgument);
      }
      var v := Complete(name, data, shardSize, actual, checksums);
      Insert(v, |data|);
      return Ok(Version(v.meta));
    }

    method PutVerified(name: string, data: Bytes, shardSize: int, digest: Digest, checksums: seq<Digest>)
      returns (r: Result<Reply, StoreError>)
      modifies this
      ensures (State(), r) == Apply(hash, old(State()), Op.PutVerified(name, data, shardSize, digest, checksums))
    {
      if name == "" || shardSize <= 0 || |digest| != 32 {
        return Err(BadArgument);
      }
      if |data| > capacity {
        return Err(TooLarge);
      }
      if !ValidChecksums(checksums, ShardCount(|data|, shardSize)) {
        return Err(BadArgument);
      }
      var v := Complete(name, data, shardSize, digest, checksums);
      Insert(v, |data|);
      return Ok(Version(v.meta));
    }

    /** Replaces any version of that name, evicting the oldest until the new one fits. */
    method Insert(v: Stored, dataSize: nat)
      modifies this
      ensures State() == StoreComplete(old(State()), v, dataSize)
    {
      ghost var dropped := Drop(State(), v.meta.name);
      var k := IndexOf(versions, v.meta.name);
      if k < |versions| {
        size := size - Size(versions[k], Counted);
        versions := versions[..k] + versions[k + 1..];
      }
      assert versions[..|versions|] == dropped.versions;
      EvictFromFront(dataSize, |versions|);
      versions := versions + [v];
      size := size + dataSize;
    }

    /** Evicts from the front while the new bytes do not fit, but never more than `limit`. */
    method EvictFromFront(need: int, limit: nat)
      requires limit <= |versions|
      modifies this
      ensures State() == EvictOldest(old(State()), EvictionCount(old(versions)[..limit], old(size), need, capacity))
    {
      ghost var before, paid, start := versions, size, State();
      var gone := 0;
      while gone < limit && size + need > capacity
        invariant gone <= limit && versions == before[gone..]
        invariant State() == EvictOldest(start, gone)
        invariant EvictionCount(before[..limit], paid, need, capacity)
               == gone + EvictionCount(before[gone..limit], size, need, capacity)
        decreases limit - gone
      {
        assert before[gone..limit][1..] == before[gone + 1..limit];
        TotalLast(before[..gone + 1], Counted);
        assert before[..gone + 1][..gone] == before[..gone];
        size := size - Size(versions[0], Counted);
        versions := versions[1..];
        gone := gone + 1;
      }
    }

    method BeginVersion(meta: Metadata, checksums: seq<Digest>) returns (r: Result<Reply, StoreError>)
      modifies this
      ensures (State(), r) == Apply(hash, old(State()), Op.Begin(meta, checksums))
    {
      if meta.name == "" || meta.shardSize <= 0 || |checksums| != meta.shardCount {
        return Err(BadArgument);
      }
      var k := IndexOf(versions, meta.name);
      if k < |versions| {
        var existing := versions[k];
        if existing.meta != meta || (existing.checksums != [] && existing.checksums != checksums) {
          return Err(Mismatch);
        }
        if existing.checksums == [] {
          versions := versions[k := existing.(checksums := checksums)];
        }
        return Ok(Version(existing.meta));
      }
      versions := versions + [Stored(meta, None, map[], checksums)];
      return Ok(Version(meta));
    }

    method PutShard(name: string, index: int, data: Bytes, verified: Option<Digest>)
      returns (r: Result<Reply, StoreError>)
      modifies this
      ensures (State(), r) == Apply(hash, old(State()), Op.PutShard(name, index, data, verified))
    {
      var op := Op.PutShard(name, index, data, verified);
      var t := IndexOf(versions, name);
      if t == |versions| {
        return Err(NotFound);
      }
      var stored := versions[t];
      var problem := CheckShard(hash, stored, op);
      if problem.Some? {
        return Err(problem.value);
      }
      var more := Additional(stored, op);
      ghost var k := EvictionCount(versions[..t], size, more, capacity);
      var count := |versions|;
      EvictFromFront(more, t);
      if size + more > capacity {
        return Err(TooLarge);
      }
      var at := t - (count - |versions|);
      versions := versions[at := stored.(shards := stored.shards[index := data])];
      size := size + more;
      return Ok(Shard(data));
    }

    method IsComplete(name: string) returns (complete: bool)
      ensures complete == StoreModel.IsComplete(State(), name)
    {
      var k := IndexOf(versions, name);
      if k == |versions| {
        return false;
      }
      return versions[k].data.Some? || |versions[k].shards| == versions[k].meta.shardCount;
    }

    method GetShardWithChecksum(name: string, index: int) returns (r: Result<(Bytes, Digest), StoreError>)
      ensures r == ReadShard(hash, State(), name, index)
    {
      var k := IndexOf(versions, name);
      if k == |versions| {
        return Err(NotFound);
      }
      var stored := versions[k];
      if index < 0 || index >= stored.meta.shardCount {
        return Err(BadIndex);
      }
      var shard: Bytes;
      if stored.data.None? {
        if index !in stored.shards {
          return Err(NotFound);
        }
        shard := stored.shards[index];
      } else {
        var start := index * stored.meta.shardSize;
        var end := Min(start + stored.meta.shardSize, stored.meta.totalSize);
        shard := Slice(stored.data.value, start, end);
      }
      return Ok((shard, if index < |stored.checksums| then stored.checksums[index] else hash(shard)));
    }

    method Remove(name: string) returns (found: bool)
      modifies this
      ensures (State(), Ok(Removed(found))) == Apply(hash, old(State()), Op.Remove(name))
    {
      var k := IndexOf(versions, name);
      if k == |versions| {
        return false;
      }
      size := size - Size(versions[k], Counted);
      versions := versions[..k] + versions[k + 1..];
      return true;
    }

    method Clear()
      modifies this
      ensures State() == Apply(hash, old(State()), Op.Clear).0
    {
      versions := [];
      size := 0;
    }
  }

  lemma {:induction false} TotalLast(s: seq<Stored>, m: Measure)
    requires s != []
    ensures Total(s, m) == Total(s[..|s| - 1], m) + Size(s[|s| - 1], m)
  {
    if |s| > 1 {
      TotalLast(s[1..], m);
      assert s[1..][..|s| - 2] == s[..|s| - 1][1..];
    }
  }
}
