/** What the store's operations mean to a reader: which calls are refused, and what every shard
    reads as after the others. */
module StoreContents {
  import opened Wrappers
  import opened Sharding
  import opened StoreModel
  import opened StoreProofs

  lemma {:induction false} LookedUp(versions: seq<Stored>, i: nat)
    requires DistinctNames(versions) && i < |versions|
    ensures IndexOf(versions, versions[i].meta.name) == i
  {
    var k := IndexOf(versions, versions[i].meta.name);
    Found(versions, i);
    assert k <= i;
  }

  /** The version of that name. */
  function Named(l: Ledger, name: string): Stored
    requires Holds(l.versions, name)
  {
    l.versions[IndexOf(l.versions, name)]
  }

  // ---------------------------------------------------------------- whole versions

  /** One digest of the right length for each shard, or none at all. */
  ghost predicate GoodDigests(checksums: seq<Digest>, count: int) {
    (checksums == [] || |checksums| == count) && forall i :: 0 <= i < |checksums| ==> |checksums[i]| == 32
  }

  /** A whole version is refused for an empty name or a shard size that is not positive; for
      more bytes than the capacity; for a checksum that is not that of its bytes, or one that is
      not a digest at all; and for shard digests of the wrong number or length.  A refusal
      changes nothing. */
  lemma {:induction false} WholeOutcome(hash: Bytes -> Digest, l: Ledger, op: Op)
    requires op.Put? || op.PutVerified?
    ensures var (after, reply) := Apply(hash, l, op); var digest := if op.Put? then hash(op.data) else op.digest;
      && (reply.Err? ==> after == l)
      && reply == (if op.name == "" || op.shardSize <= 0 || (op.PutVerified? && |op.digest| != 32) then Err(BadArgument)
                   else if |op.data| > l.capacity then Err(TooLarge)
                   else if (op.Put? && op.checksum.Some? && op.checksum.value != hash(op.data))
                           || !GoodDigests(op.checksums, ShardCount(|op.data|, op.shardSize)) then Err(BadArgument)
                   else Ok(Version(Metadata(op.name, |op.data|, op.shardSize, ShardCount(|op.data|, op.shardSize), digest))))
  {
    forall i | 0 <= i < |op.checksums| ensures op.checksums[i] in op.checksums {
    }
  }

  lemma {:induction false} CompleteReads(hash: Bytes -> Digest, name: string, data: Bytes, shardSize: nat, digest: Digest,
                                         checksums: seq<Digest>, i: int)
    requires shardSize > 0 && (checksums == [] || |checksums| == ShardCount(|data|, shardSize))
    ensures ReadVersion(hash, Complete(name, data, shardSize, digest, checksums), i)
         == if 0 <= i < ShardCount(|data|, shardSize)
            then var shard := Sharding.Shard(data, shardSize, i); Ok((shard, if checksums == [] then hash(shard) else checksums[i]))
            else Err(BadIndex)
  {
    if 0 <= i < ShardCount(|data|, shardSize) {
      ShardSpan(|data|, shardSize, i);
      assert (i + 1) * shardSize == i * shardSize + shardSize;
    }
  }

  lemma {:induction false} AppendedIsNamed(versions: seq<Stored>, v: Stored)
    requires !Holds(versions, v.meta.name)
    ensures IndexOf(versions + [v], v.meta.name) == |versions|
  {
    assert (versions + [v])[|versions|].meta.name == v.meta.name;
    forall i | 0 <= i < |versions| ensures versions[i].meta.name != v.meta.name {
      Found(versions, i);
    }
  }

  lemma {:induction false} StoredIsNamed(l: Ledger, v: Stored, need: nat)
    requires Sound(l)
    ensures var after := StoreComplete(l, v, need); Holds(after.versions, v.meta.name) && Named(after, v.meta.name) == v
  {
    var dropped := Drop(l, v.meta.name);
    DropSound(l, v.meta.name);
    var k := EvictionCount(dropped.versions, dropped.size, need, l.capacity);
    EvictedNotHeld(dropped.versions, k, v.meta.name);
    AppendedIsNamed(dropped.versions[k..], v);
  }

  /** A whole version that was taken is complete, and each of its shards reads as the bytes of
      its span, with the digest given for it or its own. */
  lemma {:induction false} WholeThenRead(hash: Bytes -> Digest, l: Ledger, op: Op, i: int)
    requires Sound(l) && (op.Put? || op.PutVerified?) && Apply(hash, l, op).1.Ok?
    ensures var after := Apply(hash, l, op).0; var count := ShardCount(|op.data|, op.shardSize);
      && IsComplete(after, op.name)
      && ReadShard(hash, after, op.name, i)
         == if 0 <= i < count
            then var shard := Sharding.Shard(op.data, op.shardSize, i); Ok((shard, if op.checksums == [] then hash(shard) else op.checksums[i]))
            else Err(BadIndex)
  {
    var digest := if op.Put? then hash(op.data) else op.digest;
    CompleteReads(hash, op.name, op.data, op.shardSize, digest, op.checksums, i);
    StoredIsNamed(l, Complete(op.name, op.data, op.shardSize, digest, op.checksums), |op.data|);
  }

  // ---------------------------------------------------------------- versions in progress

  /** A version is begun unless its name is empty, its shard size not positive or its digests
      not as many as its shards; or the name is held with other metadata or other digests.  A
      refusal changes nothing. */
  lemma {:induction false} BeginOutcome(hash: Bytes -> Digest, l: Ledger, op: Op)
    requires op.Begin?
    ensures var (after, reply) := Apply(hash, l, op); var name := op.meta.name;
      && (reply.Err? ==> after == l)
      && reply == (if name == "" || op.meta.shardSize <= 0 || |op.checksums| != op.meta.shardCount then Err(BadArgument)
                   else if Holds(l.versions, name)
                           && (Named(l, name).meta != op.meta || (Named(l, name).checksums != [] && Named(l, name).checksums != op.checksums))
                   then Err(Mismatch)
                   else Ok(Version(op.meta)))
  {
  }

  /** A version begun anew has no shard to read.  One that was held reads as before, with the
      digests now recorded. */
  lemma {:induction false} BeginThenRead(hash: Bytes -> Digest, l: Ledger, op: Op, i: int)
    requires Sound(l) && op.Begin? && Apply(hash, l, op).1.Ok?
    ensures var after := Apply(hash, l, op).0; var name := op.meta.name;
      && Holds(after.versions, name)
      && (!Holds(l.versions, name) ==> ReadShard(hash, after, name, i) == Err(if 0 <= i < op.meta.shardCount then NotFound else BadIndex))
      && (Holds(l.versions, name) ==>
            match ReadShard(hash, l, name, i)
            case Err(e) => ReadShard(hash, after, name, i) == Err(e)
            case Ok(read) => 0 <= i < |op.checksums| && ReadShard(hash, after, name, i) == Ok((read.0, op.checksums[i])))
  {
    var k := IndexOf(l.versions, op.meta.name);
    if k == |l.versions| {
      AppendedIsNamed(l.versions, Stored(op.meta, None, map[], op.checksums));
    } else {
      BegunAgain(hash, l, op, k, i);
    }
  }

  lemma {:induction false} BegunAgain(hash: Bytes -> Digest, l: Ledger, op: Op, k: nat, i: int)
    requires Sound(l) && op.Begin? && Apply(hash, l, op).1.Ok?
    requires k == IndexOf(l.versions, op.meta.name) < |l.versions|
    ensures var after := Apply(hash, l, op).0;
      && IndexOf(after.versions, op.meta.name) == k < |after.versions|
      && match ReadVersion(hash, l.versions[k], i)
         case Err(e) => ReadVersion(hash, after.versions[k], i) == Err(e)
         case Ok(read) => 0 <= i < |op.checksums| && ReadVersion(hash, after.versions[k], i) == Ok((read.0, op.checksums[i]))
  {
    SameNameStays(l.versions, k, l.versions[k].(checksums := op.checksums));
  }

  lemma {:induction false} SameNameStays(versions: seq<Stored>, k: nat, v: Stored)
    requires k < |versions| && k == IndexOf(versions, v.meta.name)
    ensures IndexOf(versions[k := v], v.meta.name) == k
  {
    var after := versions[k := v];
    assert after[k].meta.name == v.meta.name;
  }

  /** A shard is refused if its version is unknown, its index is none of the version's, its
      length is not the one the version's numbers give it, or its digest, the one claimed for it
      or else its own, is not the one recorded.  None of these refusals changes anything. */
  lemma {:induction false} ShardRefused(hash: Bytes -> Digest, l: Ledger, op: Op)
    requires Sound(l) && op.PutShard?
    ensures Holds(l.versions, op.name) ==>
      var v := Named(l, op.name); v.checksums == [] || |v.checksums| == v.meta.shardCount
    ensures var (after, reply) := Apply(hash, l, op);
      && (reply.Err? && reply.error != TooLarge ==> after == l)
      && (!Holds(l.versions, op.name) ==> reply == Err(NotFound))
      && (Holds(l.versions, op.name) ==>
            var v := Named(l, op.name); var digest := if op.verified.Some? then op.verified.value else hash(op.data);
            && (!(0 <= op.index < v.meta.shardCount) <==> reply == Err(BadIndex))
            && (0 <= op.index < v.meta.shardCount ==>
                  (reply == Err(Mismatch) <==>
                    || |op.data| != ShardLength(v.meta.totalSize, v.meta.shardSize, op.index)
                    || (v.checksums != [] && digest != v.checksums[op.index])))
            && reply != Err(NotFound) && reply != Err(BadArgument))
  {
    if Holds(l.versions, op.name) {
      assert Named(l, op.name) in l.versions;
    }
  }

  lemma {:induction false} ShiftedName(versions: seq<Stored>, name: string, k: nat)
    requires DistinctNames(versions) && Holds(versions, name) && k <= IndexOf(versions, name)
    ensures IndexOf(versions[k..], name) == IndexOf(versions, name) - k
  {
    var t := IndexOf(versions, name);
    forall i, j | 0 <= i < j < |versions[k..]| ensures versions[k..][i].meta.name != versions[k..][j].meta.name {
      assert versions[k..][i] == versions[k + i] && versions[k..][j] == versions[k + j];
    }
    LookedUp(versions[k..], t - k);
  }

  lemma {:induction false} ShardTaken(hash: Bytes -> Digest, l: Ledger, op: Op)
    requires Sound(l) && op.PutShard? && Apply(hash, l, op).1.Ok?
    ensures Holds(l.versions, op.name) && 0 <= op.index < Named(l, op.name).meta.shardCount
    ensures var after := Apply(hash, l, op).0; var v := Named(l, op.name);
      Holds(after.versions, op.name) && Named(after, op.name) == v.(shards := v.shards[op.index := op.data])
  {
    var t := IndexOf(l.versions, op.name);
    var v := l.versions[t];
    var k := EvictionCount(l.versions[..t], l.size, Additional(v, op), l.capacity);
    ShiftedName(l.versions, op.name, k);
    SameNameStays(l.versions[k..], t - k, v.(shards := v.shards[op.index := op.data]));
  }

  /** A shard that was taken for a version in progress reads as its bytes, with the recorded
      digest or its own, and every other shard of it as before; a version held as one buffer
      reads as before throughout. */
  lemma {:induction false} ShardThenRead(hash: Bytes -> Digest, l: Ledger, op: Op, i: int)
    requires Sound(l) && op.PutShard? && Apply(hash, l, op).1.Ok?
    ensures var after := Apply(hash, l, op).0; var v := Named(l, op.name);
      && Apply(hash, l, op).1 == Ok(Shard(op.data))
      && ReadShard(hash, after, op.name, i)
         == if i == op.index && v.data.None?
            then Ok((op.data, if v.checksums == [] then hash(op.data) else v.checksums[i]))
            else ReadShard(hash, l, op.name, i)
  {
    ShardTaken(hash, l, op);
    assert Named(l, op.name) in l.versions;
  }

  // ---------------------------------------------------------------- removal, and everything else

  /** A removed version cannot be read, and the call says whether there was one; after a clear
      nothing can. */
  lemma {:induction false} GoneAfterwards(hash: Bytes -> Digest, l: Ledger, op: Op, name: string, i: int)
    requires Sound(l) && (op == Op.Remove(name) || op.Clear?)
    ensures ReadShard(hash, Apply(hash, l, op).0, name, i) == Err(NotFound)
    ensures op.Remove? ==> Apply(hash, l, op).1 == Ok(Removed(exists v :: v in l.versions && v.meta.name == name))
  {
    DropSound(l, name);
    if Holds(l.versions, name) {
      assert Named(l, name) in l.versions;
    }
    if v :| v in l.versions && v.meta.name == name {
      var j :| 0 <= j < |l.versions| && l.versions[j] == v;
      Found(l.versions, j);
    }
  }

  /** The version an operation is about. */
  predicate About(op: Op, name: string) {
    match op
    case Put(n, _, _, _, _) => n == name
    case PutVerified(n, _, _, _, _) => n == name
    case Begin(meta, _) => meta.name == name
    case PutShard(n, _, _, _) => n == name
    case Remove(n) => n == name
    case Clear => false
  }

  /** What an operation leaves of the versions it is not about was there before. */
  lemma {:induction false} OthersWereThere(hash: Bytes -> Digest, l: Ledger, op: Op, v: Stored)
    requires Sound(l) && v in Apply(hash, l, op).0.versions && !About(op, v.meta.name)
    ensures v in l.versions
  {
    match op
    case Put(name, data, shardSize, _, checksums) =>
      if ApplyPut(hash, l, op).1.Ok? {
        StoredOrOld(l, Complete(name, data, shardSize, hash(data), checksums), |data|);
      }
    case PutVerified(name, data, shardSize, digest, checksums) =>
      if ApplyPutVerified(l, op).1.Ok? {
        StoredOrOld(l, Complete(name, data, shardSize, digest, checksums), |data|);
      }
    case Begin(_, _) =>
    case PutShard(_, _, _, _) =>
      OtherInShardPut(hash, l, op, v);
    case Remove(name) =>
      WithoutOneIfHeld(l, name, v);
    case Clear =>
  }

  lemma {:induction false} OtherInShardPut(hash: Bytes -> Digest, l: Ledger, op: Op, v: Stored)
    requires op.PutShard? && v in Apply(hash, l, op).0.versions && v.meta.name != op.name
    ensures v in l.versions
  {
    var after := Apply(hash, l, op).0.versions;
    var i :| 0 <= i < |after| && after[i] == v;
  }

  lemma {:induction false} WithoutOneIfHeld(l: Ledger, name: string, v: Stored)
    requires Sound(l) && v in Drop(l, name).versions
    ensures v in l.versions
  {
    var k := IndexOf(l.versions, name);
    if k < |l.versions| {
      WithoutOneSound(l.versions, k);
    }
  }

  /** Whatever an operation leaves of the other versions reads as before. */
  lemma {:induction false} OthersReadAsBefore(hash: Bytes -> Digest, l: Ledger, op: Op, name: string, i: int)
    requires Sound(l) && !About(op, name) && Holds(Apply(hash, l, op).0.versions, name)
    ensures Holds(l.versions, name) && ReadShard(hash, Apply(hash, l, op).0, name, i) == ReadShard(hash, l, name, i)
  {
    var after := Apply(hash, l, op).0;
    var v := Named(after, name);
    assert v in after.versions;
    OthersWereThere(hash, l, op, v);
    var j :| 0 <= j < |l.versions| && l.versions[j] == v;
    Found(l.versions, j);
    LookedUp(l.versions, j);
  }
}
