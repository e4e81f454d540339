/** Properties of the store over whole runs: what it retains, what its ledger means, whom it
    evicts, and that a version assembled from shards answers like one stored whole. */
module StoreProofs {
  import opened Wrappers
  import opened Sharding
  import opened StoreModel
  import opened Manifest

  function Run(hash: Bytes -> Digest, l: Ledger, ops: seq<Op>): Ledger {
    if ops == [] then l
    else Apply(hash, Run(hash, l, ops[..|ops| - 1]), ops[|ops| - 1]).0
  }

  function Empty(capacity: nat): Ledger {
    Ledger(capacity, 0, [])
  }

  // ---------------------------------------------------------------- sums

  lemma {:induction false} TotalAppended(a: seq<Stored>, b: seq<Stored>, m: Measure)
    ensures Total(a + b, m) == Total(a, m) + Total(b, m)
  {
    if a == [] {
      assert a + b == b;
    } else {
      assert (a + b)[1..] == a[1..] + b;
      TotalAppended(a[1..], b, m);
    }
  }

  lemma {:induction false} TotalSplit(s: seq<Stored>, k: nat, m: Measure)
    requires k <= |s|
    ensures Total(s, m) == Total(s[..k], m) + Total(s[k..], m)
  {
    assert s == s[..k] + s[k..];
    TotalAppended(s[..k], s[k..], m);
  }

  lemma {:induction false} TotalAt(s: seq<Stored>, k: nat, m: Measure)
    requires k < |s|
    ensures Total(s, m) == Total(s[..k], m) + Size(s[k], m) + Total(s[k + 1..], m)
    ensures Total(s[..k] + s[k + 1..], m) == Total(s, m) - Size(s[k], m)
  {
    TotalSplit(s, k, m);
    assert s[k..][1..] == s[k + 1..];
    TotalAppended(s[..k], s[k + 1..], m);
  }

  lemma {:induction false} TotalUpdate(s: seq<Stored>, k: nat, v: Stored, m: Measure)
    requires k < |s|
    ensures Total(s[k := v], m) == Total(s, m) - Size(s[k], m) + Size(v, m)
  {
    TotalAt(s, k, m);
    TotalAt(s[k := v], k, m);
    assert s[k := v][..k] == s[..k] && s[k := v][k + 1..] == s[k + 1..];
  }

  lemma {:induction false} CountedAtMostRetained(s: seq<Stored>)
    ensures Total(s, Counted) <= Total(s, Retained)
  {
    if s != [] {
      CountedAtMostRetained(s[1..]);
    }
  }

  lemma {:induction false} ShardBytesUpdate(shards: map<int, Bytes>, n: nat, index: int, data: Bytes)
    ensures ShardBytes(shards[index := data], n)
         == ShardBytes(shards, n)
            + (if 0 <= index < n then |data| - (if index in shards then |shards[index]| else 0) else 0)
  {
    if n > 0 {
      ShardBytesUpdate(shards, n - 1, index, data);
    }
  }

  // ---------------------------------------------------------------- what every run keeps

  ghost predicate SoundVersion(v: Stored, capacity: nat) {
    && v.meta.shardSize >= 1 && v.meta.shardCount >= 0
    && (v.checksums != [] ==> |v.checksums| == v.meta.shardCount)
    && (v.data.Some? ==>
          && |v.data.value| == v.meta.totalSize <= capacity
          && v.meta.shardCount == ShardCount(v.meta.totalSize, v.meta.shardSize))
    && (forall i :: i in v.shards ==>
          && 0 <= i < v.meta.shardCount
          && |v.shards[i]| == ShardLength(v.meta.totalSize, v.meta.shardSize, i))
  }

  ghost predicate DistinctNames(versions: seq<Stored>) {
    forall i, j :: 0 <= i < j < |versions| ==> versions[i].meta.name != versions[j].meta.name
  }

  /** Names are unique, entries are well formed, and the bytes really retained exceed neither
      the capacity nor the ledger. */
  ghost predicate Sound(l: Ledger) {
    && DistinctNames(l.versions)
    && (forall v :: v in l.versions ==> SoundVersion(v, l.capacity))
    && Total(l.versions, Retained) <= l.size
    && Total(l.versions, Retained) <= l.capacity
  }

  lemma {:induction false} WithoutOneSound(versions: seq<Stored>, k: nat)
    requires k < |versions| && DistinctNames(versions)
    ensures var rest := versions[..k] + versions[k + 1..];
      && DistinctNames(rest)
      && (forall v :: v in rest ==> v in versions && v.meta.name != versions[k].meta.name)
  {
    var rest := versions[..k] + versions[k + 1..];
    assert forall i :: 0 <= i < |rest| ==> rest[i] == versions[if i < k then i else i + 1];
  }

  lemma {:induction false} AbsentHolds(versions: seq<Stored>, name: string)
    requires forall v :: v in versions ==> v.meta.name != name
    ensures !Holds(versions, name)
  {
  }

  lemma {:induction false} DropSound(l: Ledger, name: string)
    requires Sound(l)
    ensures Sound(Drop(l, name)) && !Holds(Drop(l, name).versions, name)
    ensures Drop(l, name).size - Total(Drop(l, name).versions, Counted) == l.size - Total(l.versions, Counted)
  {
    var k := IndexOf(l.versions, name);
    if k < |l.versions| {
      TotalAt(l.versions, k, Retained);
      TotalAt(l.versions, k, Counted);
      WithoutOneSound(l.versions, k);
      AbsentHolds(Drop(l, name).versions, name);
    }
  }

  lemma {:induction false} EvictSound(l: Ledger, k: nat)
    requires Sound(l) && k <= |l.versions|
    ensures Sound(EvictOldest(l, k))
    ensures EvictOldest(l, k).size - Total(EvictOldest(l, k).versions, Counted) == l.size - Total(l.versions, Counted)
  {
    TotalSplit(l.versions, k, Retained);
    TotalSplit(l.versions, k, Counted);
    CountedAtMostRetained(l.versions[..k]);
  }

  /** Eviction stops as soon as the new bytes fit, or when nothing is left to evict. */
  lemma {:induction false} EvictionCountLeast(versions: seq<Stored>, size: int, need: int, capacity: nat)
    ensures var k := EvictionCount(versions, size, need, capacity);
      && (size - Total(versions[..k], Counted) + need <= capacity || k == |versions|)
      && (forall j :: 0 <= j < k ==> size - Total(versions[..j], Counted) + need > capacity)
  {
    if versions != [] && size + need > capacity {
      var rest, left := versions[1..], size - Size(versions[0], Counted);
      EvictionCountLeast(rest, left, need, capacity);
      var k := EvictionCount(rest, left, need, capacity);
      assert versions[..k + 1][1..] == rest[..k];
      forall j | 0 <= j < k + 1 ensures size - Total(versions[..j], Counted) + need > capacity {
        if j > 0 {
          assert versions[..j][1..] == rest[..j - 1];
        }
      }
    }
  }

  lemma {:induction false} AppendSound(room: Ledger, v: Stored, need: nat)
    requires Sound(room) && SoundVersion(v, room.capacity) && v.data.Some? && |v.data.value| == need && v.shards == map[]
    requires !Holds(room.versions, v.meta.name) && Total(room.versions, Retained) + need <= room.capacity
    ensures var r := room.(size := room.size + need, versions := room.versions + [v]);
      && Sound(r) && r.size - Total(r.versions, Counted) == room.size - Total(room.versions, Counted)
  {
    ShardBytesEmpty(Max(v.meta.shardCount, 0));
    TotalAppended(room.versions, [v], Retained);
    TotalAppended(room.versions, [v], Counted);
    assert Total([v], Retained) == Total([v], Counted) == need;
    forall i | 0 <= i < |room.versions| ensures room.versions[i].meta.name != v.meta.name {
      Found(room.versions, i);
    }
  }

  lemma {:induction false} Found(versions: seq<Stored>, i: nat)
    requires i < |versions|
    ensures Holds(versions, versions[i].meta.name)
  {
  }

  lemma {:induction false} EvictedNotHeld(versions: seq<Stored>, k: nat, name: string)
    requires k <= |versions|
    ensures Holds(versions[k..], name) ==> Holds(versions, name)
  {
    if Holds(versions[k..], name) {
      Found(versions, k + IndexOf(versions[k..], name));
    }
  }

  lemma {:induction false} StoreCompleteSound(l: Ledger, v: Stored, need: nat)
    requires Sound(l) && SoundVersion(v, l.capacity) && v.data.Some? && |v.data.value| == need && v.shards == map[]
    ensures Sound(StoreComplete(l, v, need))
    ensures var r := StoreComplete(l, v, need);
      r.size - Total(r.versions, Counted) == l.size - Total(l.versions, Counted)
  {
    var dropped := Drop(l, v.meta.name);
    DropSound(l, v.meta.name);
    var k := EvictionCount(dropped.versions, dropped.size, need, l.capacity);
    EvictionCountLeast(dropped.versions, dropped.size, need, l.capacity);
    EvictSound(dropped, k);
    EvictedNotHeld(dropped.versions, k, v.meta.name);
    if k == |dropped.versions| {
      assert dropped.versions[k..] == [];
    }
    AppendSound(EvictOldest(dropped, k), v, need);
  }

  lemma {:induction false} ShardBytesEmpty(n: nat)
    ensures ShardBytes(map[], n) == 0
  {
    if n > 0 {
      ShardBytesEmpty(n - 1);
    }
  }

  lemma {:induction false} ShardSizes(v: Stored, op: Op, m: Measure, capacity: nat)
    requires op.PutShard? && SoundVersion(v, capacity) && 0 <= op.index < v.meta.shardCount
    ensures Size(v.(shards := v.shards[op.index := op.data]), m)
         == Size(v, m) + (if m == Counted && v.data.Some? then 0 else Additional(v, op))
  {
    ShardBytesUpdate(v.shards, v.meta.shardCount, op.index, op.data);
  }

  /** The bytes an operation adds to the ledger that no version will ever pay back: those of a
      new shard accepted for a version that is already held as a complete buffer. */
  function Leak(hash: Bytes -> Digest, l: Ledger, op: Op): nat {
    if op.PutShard? && Apply(hash, l, op).1.Ok? then
      var v := l.versions[IndexOf(l.versions, op.name)];
      if v.data.Some? && op.index !in v.shards then |op.data| else 0
    else 0
  }

  /** Changing one version in place, for bytes that fit. */
  lemma {:induction false} UpdateSound(l: Ledger, i: nat, updated: Stored, more: int)
    requires Sound(l) && i < |l.versions|
    requires updated.meta == l.versions[i].meta && SoundVersion(updated, l.capacity)
    requires Size(updated, Retained) == Size(l.versions[i], Retained) + more
    requires more > 0 ==> l.size + more <= l.capacity
    ensures Sound(l.(size := l.size + more, versions := l.versions[i := updated]))
    ensures Total(l.versions[i := updated], Counted)
         == Total(l.versions, Counted) - Size(l.versions[i], Counted) + Size(updated, Counted)
  {
    TotalUpdate(l.versions, i, updated, Retained);
    TotalUpdate(l.versions, i, updated, Counted);
    var after := l.versions[i := updated];
    assert forall j :: 0 <= j < |after| ==> after[j].meta == l.versions[j].meta;
    forall x | x in after ensures SoundVersion(x, l.capacity) {
      assert x == updated || x in l.versions;
    }
  }

  lemma {:induction false} PutShardSound(hash: Bytes -> Digest, l: Ledger, op: Op)
    requires Sound(l) && op.PutShard?
    ensures Sound(Apply(hash, l, op).0)
    ensures var r := Apply(hash, l, op).0;
      r.size - Total(r.versions, Counted) == l.size - Total(l.versions, Counted) + Leak(hash, l, op)
  {
    var t := IndexOf(l.versions, op.name);
    if t < |l.versions| && CheckShard(hash, l.versions[t], op).None? {
      var k := EvictionCount(l.versions[..t], l.size, Additional(l.versions[t], op), l.capacity);
      EvictSound(l, k);
      RoomSound(hash, EvictOldest(l, k), t - k, op);
    }
  }

  /** What is left after the evictions takes the shard in, if it fits. */
  lemma {:induction false} RoomSound(hash: Bytes -> Digest, room: Ledger, i: nat, op: Op)
    requires Sound(room) && op.PutShard? && i < |room.versions| && CheckShard(hash, room.versions[i], op).None?
    ensures var v := room.versions[i]; var more := Additional(v, op);
      room.size + more <= room.capacity ==>
        var after := room.(size := room.size + more, versions := room.versions[i := v.(shards := v.shards[op.index := op.data])]);
        && Sound(after)
        && after.size - Total(after.versions, Counted)
           == room.size - Total(room.versions, Counted) + (if v.data.Some? then more else 0)
        && (op.index in v.shards ==> more == 0)
  {
    if room.size + Additional(room.versions[i], op) <= room.capacity {
      AcceptSound(hash, room, i, op);
    }
  }

  lemma {:induction false} AcceptSound(hash: Bytes -> Digest, room: Ledger, i: nat, op: Op)
    requires Sound(room) && op.PutShard? && i < |room.versions| && CheckShard(hash, room.versions[i], op).None?
    requires room.size + Additional(room.versions[i], op) <= room.capacity
    ensures var v := room.versions[i];
      var updated := v.(shards := v.shards[op.index := op.data]);
      && Sound(room.(size := room.size + Additional(v, op), versions := room.versions[i := updated]))
      && Total(room.versions[i := updated], Counted)
         == Total(room.versions, Counted) + (if v.data.Some? then 0 else Additional(v, op))
      && (op.index in v.shards ==> Additional(v, op) == 0)
  {
    var v := room.versions[i];
    assert v in room.versions;
    ShardSizes(v, op, Retained, room.capacity);
    ShardSizes(v, op, Counted, room.capacity);
    UpdateSound(room, i, v.(shards := v.shards[op.index := op.data]), Additional(v, op));
  }

  lemma {:induction false} BeginSound(hash: Bytes -> Digest, l: Ledger, op: Op)
    requires Sound(l) && op.Begin?
    ensures Sound(Apply(hash, l, op).0)
    ensures var r := Apply(hash, l, op).0;
      r.size - Total(r.versions, Counted) == l.size - Total(l.versions, Counted)
  {
    var k := IndexOf(l.versions, op.meta.name);
    if op.meta.name == "" || op.meta.shardSize <= 0 || |op.checksums| != op.meta.shardCount {
    } else if k == |l.versions| {
      var v := Stored(op.meta, None, map[], op.checksums);
      ShardBytesEmpty(Max(op.meta.shardCount, 0));
      TotalAppended(l.versions, [v], Retained);
      TotalAppended(l.versions, [v], Counted);
      assert Total([v], Retained) == Total([v], Counted) == 0;
    } else if Apply(hash, l, op).0 != l {
      assert l.versions[k] in l.versions;
      UpdateSound(l, k, l.versions[k].(checksums := op.checksums), 0);
    }
  }

  /** One operation keeps the store sound and moves the ledger's surplus by its leak alone. */
  lemma {:induction false} StepSound(hash: Bytes -> Digest, l: Ledger, op: Op)
    requires Sound(l)
    ensures Sound(Apply(hash, l, op).0) && Apply(hash, l, op).0.capacity == l.capacity
    ensures var r := Apply(hash, l, op).0;
      r.size - Total(r.versions, Counted)
      == if op.Clear? then 0 else l.size - Total(l.versions, Counted) + Leak(hash, l, op)
  {
    match op
    case Put(name, data, shardSize, _, checksums) =>
      if ApplyPut(hash, l, op).1.Ok? {
        StoreCompleteSound(l, Complete(name, data, shardSize, hash(data), checksums), |data|);
      }
    case PutVerified(name, data, shardSize, digest, checksums) =>
      if ApplyPutVerified(l, op).1.Ok? {
        StoreCompleteSound(l, Complete(name, data, shardSize, digest, checksums), |data|);
      }
    case Begin(_, _) => BeginSound(hash, l, op);
    case PutShard(_, _, _, _) => PutShardSound(hash, l, op);
    case Remove(name) => DropSound(l, name);
    case Clear =>
  }

  /** Whatever is asked of the store, the bytes it retains fit its capacity and its ledger. */
  lemma {:induction false} EveryRunIsSound(hash: Bytes -> Digest, capacity: nat, ops: seq<Op>)
    ensures var l := Run(hash, Empty(capacity), ops); Sound(l) && l.capacity == capacity
  {
    if ops != [] {
      EveryRunIsSound(hash, capacity, ops[..|ops| - 1]);
      StepSound(hash, Run(hash, Empty(capacity), ops[..|ops| - 1]), ops[|ops| - 1]);
    }
  }

  /** The bytes leaked since the store was last cleared. */
  function Leaked(hash: Bytes -> Digest, capacity: nat, ops: seq<Op>): nat {
    if ops == [] || ops[|ops| - 1].Clear? then 0
    else
      var before := ops[..|ops| - 1];
      Leaked(hash, capacity, before) + Leak(hash, Run(hash, Empty(capacity), before), ops[|ops| - 1])
  }

  /** The ledger is the exact sum of the stored bytes plus what has leaked; so it is exact on
      precisely the runs that leaked nothing since the last clear. */
  lemma {:induction false} LedgerIsStoredPlusLeaked(hash: Bytes -> Digest, capacity: nat, ops: seq<Op>)
    ensures var l := Run(hash, Empty(capacity), ops);
      && l.size == Total(l.versions, Counted) + Leaked(hash, capacity, ops)
      && (l.size == Total(l.versions, Counted) <==> Leaked(hash, capacity, ops) == 0)
  {
    if ops != [] {
      var before := ops[..|ops| - 1];
      LedgerIsStoredPlusLeaked(hash, capacity, before);
      EveryRunIsSound(hash, capacity, before);
      StepSound(hash, Run(hash, Empty(capacity), before), ops[|ops| - 1]);
    }
  }

  /** A run in which no shard is put onto a complete version leaks nothing. */
  lemma {:induction false} InProgressRunsAreExact(hash: Bytes -> Digest, capacity: nat, ops: seq<Op>)
    requires forall i :: 0 <= i < |ops| && ops[i].PutShard? ==>
      forall v :: v in Run(hash, Empty(capacity), ops[..i]).versions && v.meta.name == ops[i].name ==> v.data.None?
    ensures Leaked(hash, capacity, ops) == 0
  {
    if ops != [] {
      var n := |ops| - 1;
      forall i | 0 <= i < n ensures ops[..n][..i] == ops[..i] {}
      InProgressRunsAreExact(hash, capacity, ops[..n]);
      var l := Run(hash, Empty(capacity), ops[..n]);
      if ops[n].PutShard? && Holds(l.versions, ops[n].name) {
        assert l.versions[IndexOf(l.versions, ops[n].name)] in l.versions;
      }
    }
  }

  /** Put a version whole, put its only shard again, remove it, put another version. */
  function LeakingOps(name: string, data: Bytes, other: string, filler: Bytes): seq<Op> {
    [Op.Put(name, data, |data|, None, []), Op.PutShard(name, 0, data, None), Op.Remove(name),
     Op.Put(other, filler, 1, None, [])]
  }

  lemma {:induction false} RunNext(hash: Bytes -> Digest, l: Ledger, ops: seq<Op>, k: nat)
    requires k < |ops|
    ensures Run(hash, l, ops[..k + 1]) == Apply(hash, Run(hash, l, ops[..k]), ops[k]).0
  {
    assert ops[..k + 1][..k] == ops[..k];
  }

  /** Three operations with known results, and one more. */
  lemma {:induction false} FourSteps(hash: Bytes -> Digest, l0: Ledger, ops: seq<Op>, l1: Ledger, l2: Ledger, l3: Ledger)
    requires |ops| == 4 && Apply(hash, l0, ops[0]).0 == l1 && Apply(hash, l1, ops[1]).0 == l2 && Apply(hash, l2, ops[2]).0 == l3
    ensures Run(hash, l0, ops) == Apply(hash, l3, ops[3]).0
  {
    RunNext(hash, l0, ops, 0);
    RunNext(hash, l0, ops, 1);
    RunNext(hash, l0, ops, 2);
    RunNext(hash, l0, ops, 3);
    assert ops[..4] == ops;
  }

  lemma {:induction false} LeakingPut(hash: Bytes -> Digest, name: string, data: Bytes)
    requires name != "" && |data| >= 1
    ensures var v := Complete(name, data, |data|, hash(data), []);
      && Apply(hash, Empty(2 * |data|), Op.Put(name, data, |data|, None, [])).0 == Ledger(2 * |data|, |data|, [v])
      && v.meta.shardCount == 1
  {
    CeilDivLeast(|data|, |data|, 1);
    CeilDivLeast(|data|, |data|, 0);
  }

  lemma {:induction false} LeakingShard(hash: Bytes -> Digest, v: Stored, op: Op, n: nat)
    requires op.PutShard? && op.name == v.meta.name && CheckShard(hash, v, op).None?
    requires v.data.Some? && v.shards == map[] && |op.data| == n
    ensures Apply(hash, Ledger(2 * n, n, [v]), op).0 == Ledger(2 * n, 2 * n, [v.(shards := map[op.index := op.data])])
  {
    assert Additional(v, op) == n && EvictionCount([], n, n, 2 * n) == 0;
  }

  lemma {:induction false} LeakingRemove(hash: Bytes -> Digest, w: Stored, n: nat)
    requires w.data.Some? && |w.data.value| == n
    ensures Apply(hash, Ledger(2 * n, 2 * n, [w]), Op.Remove(w.meta.name)).0 == Ledger(2 * n, n, [])
  {
  }

  lemma {:induction false} LeakingPrefix(hash: Bytes -> Digest, name: string, data: Bytes) returns (l1: Ledger, l2: Ledger)
    requires name != "" && |data| >= 1
    ensures Apply(hash, Empty(2 * |data|), Op.Put(name, data, |data|, None, [])).0 == l1
    ensures Apply(hash, l1, Op.PutShard(name, 0, data, None)).0 == l2
    ensures Apply(hash, l2, Op.Remove(name)).0 == Ledger(2 * |data|, |data|, [])
  {
    var n := |data|;
    var v := Complete(name, data, n, hash(data), []);
    var w := v.(shards := map[0 := data]);
    l1, l2 := Ledger(2 * n, n, [v]), Ledger(2 * n, 2 * n, [w]);
    LeakingPut(hash, name, data);
    LeakingShard(hash, v, Op.PutShard(name, 0, data, None), n);
    LeakingRemove(hash, w, n);
  }

  /** What leaked is never paid back: the bytes of a shard put onto a complete version outlive
      the version on the ledger, which can then count more than the capacity. */
  lemma {:induction false} LedgerCanExceedCapacity(hash: Bytes -> Digest, name: string, data: Bytes, other: string, filler: Bytes)
    requires name != "" && other != "" && |data| >= 1 && |filler| == 2 * |data|
    ensures var l := Run(hash, Empty(2 * |data|), LeakingOps(name, data, other, filler));
      l.capacity == 2 * |data| && l.size == 3 * |data| && Total(l.versions, Retained) == 2 * |data|
  {
    var l1, l2 := LeakingPrefix(hash, name, data);
    FourSteps(hash, Empty(2 * |data|), LeakingOps(name, data, other, filler), l1, l2, Ledger(2 * |data|, |data|, []));
    LeakedFill(hash, other, filler, |data|);
  }

  lemma {:induction false} LeakedFill(hash: Bytes -> Digest, other: string, filler: Bytes, leaked: nat)
    requires other != ""
    ensures var l := Apply(hash, Ledger(|filler|, leaked, []), Op.Put(other, filler, 1, None, [])).0;
      l.capacity == |filler| && l.size == leaked + |filler| && Total(l.versions, Retained) == |filler|
  {
    var v := Complete(other, filler, 1, hash(filler), []);
    ShardBytesEmpty(Max(v.meta.shardCount, 0));
    assert Apply(hash, Ledger(|filler|, leaked, []), Op.Put(other, filler, 1, None, [])).0.versions == [v];
    assert Total([v], Retained) == Size(v, Retained);
  }

  // ---------------------------------------------------------------- whom the store evicts

  /** While the ledger is exact, a stored version joins the longest run of newest versions that
      fits beside it; its own former entry is gone and nothing is reordered. */
  lemma {:induction false} PutKeepsNewestThatFit(l: Ledger, v: Stored, need: nat)
    requires Sound(l) && l.size == Total(l.versions, Counted)
    requires need <= l.capacity
    ensures var rest := Drop(l, v.meta.name).versions;
      exists k :: 0 <= k <= |rest|
        && StoreComplete(l, v, need).versions == rest[k..] + [v]
        && Total(rest[k..], Counted) + need <= l.capacity
        && (forall j :: 0 <= j < k ==> Total(rest[j..], Counted) + need > l.capacity)
  {
    var dropped := Drop(l, v.meta.name);
    DropSound(l, v.meta.name);
    var rest := dropped.versions;
    var k := EvictionCount(rest, dropped.size, need, l.capacity);
    EvictionCountLeast(rest, dropped.size, need, l.capacity);
    forall j | 0 <= j <= |rest| ensures Total(rest[j..], Counted) == dropped.size - Total(rest[..j], Counted) {
      TotalSplit(rest, j, Counted);
    }
    assert Total(rest[|rest|..], Counted) == 0;
  }

  lemma {:induction false} TailTotal(versions: seq<Stored>, t: nat, j: nat)
    requires j <= t <= |versions|
    ensures Total(versions[j..], Counted) == Total(versions, Counted) - Total(versions[..t][..j], Counted)
    ensures Total(versions[t..], Counted) <= Total(versions[j..], Counted)
  {
    TotalSplit(versions, j, Counted);
    assert versions[..t][..j] == versions[..j];
    TotalSplit(versions[j..], t - j, Counted);
    assert versions[j..][t - j..] == versions[t..];
  }

  /** Evicting from the versions before t stops as soon as there is room, or at t. */
  lemma {:induction false} RoomBefore(versions: seq<Stored>, t: nat, more: int, capacity: nat) returns (k: nat)
    requires t <= |versions|
    ensures k == EvictionCount(versions[..t], Total(versions, Counted), more, capacity) <= t
    ensures forall j :: 0 <= j < k ==> Total(versions[j..], Counted) + more > capacity
    ensures Total(versions[k..], Counted) + more <= capacity || k == t
    ensures Total(versions[k..], Counted) == Total(versions, Counted) - Total(versions[..k], Counted)
    ensures Total(versions[t..], Counted) <= Total(versions[k..], Counted)
  {
    var older, size := versions[..t], Total(versions, Counted);
    k := EvictionCount(older, size, more, capacity);
    EvictionCountLeast(older, size, more, capacity);
    forall j | 0 <= j < k ensures Total(versions[j..], Counted) + more > capacity {
      TailTotal(versions, t, j);
    }
    TailTotal(versions, t, k);
    assert older[..k] == versions[..k];
  }

  /** What an accepted shard leaves when k versions had to go. */
  function WithShard(l: Ledger, k: nat, op: Op): seq<Stored>
    requires op.PutShard? && k <= IndexOf(l.versions, op.name) < |l.versions|
  {
    var t := IndexOf(l.versions, op.name);
    l.versions[k..][t - k := l.versions[t].(shards := l.versions[t].shards[op.index := op.data])]
  }

  lemma {:induction false} PutShardOutcome(hash: Bytes -> Digest, l: Ledger, op: Op) returns (k: nat)
    requires l.size == Total(l.versions, Counted)
    requires op.PutShard? && Holds(l.versions, op.name)
    requires CheckShard(hash, l.versions[IndexOf(l.versions, op.name)], op).None?
    ensures var t := IndexOf(l.versions, op.name); var more := Additional(l.versions[t], op);
      && k <= t && Apply(hash, l, op).1.Ok? == (Total(l.versions[k..], Counted) + more <= l.capacity)
      && (Apply(hash, l, op).1.Ok? ==> Apply(hash, l, op).0.versions == WithShard(l, k, op))
      && (!Apply(hash, l, op).1.Ok? ==> Apply(hash, l, op).0.versions == l.versions[t..])
      && (forall j :: 0 <= j < k ==> Total(l.versions[j..], Counted) + more > l.capacity)
      && (Total(l.versions[k..], Counted) + more <= l.capacity <==> Total(l.versions[t..], Counted) + more <= l.capacity)
  {
    var t := IndexOf(l.versions, op.name);
    k := RoomBefore(l.versions, t, Additional(l.versions[t], op), l.capacity);
  }

  /** While the ledger is exact, an accepted shard evicts the shortest run of oldest versions
      that makes room, all of them older than its own version; a shard is refused for want of
      room exactly when it would not fit with every older version gone. */
  lemma {:induction false} ShardEvictsOldestOnly(hash: Bytes -> Digest, l: Ledger, op: Op)
    requires Sound(l) && l.size == Total(l.versions, Counted)
    requires op.PutShard? && Holds(l.versions, op.name)
    requires CheckShard(hash, l.versions[IndexOf(l.versions, op.name)], op).None?
    ensures var t := IndexOf(l.versions, op.name); var more := Additional(l.versions[t], op);
      var (after, reply) := Apply(hash, l, op);
      && (reply.Ok? ==>
            exists k :: 0 <= k <= t
              && after.versions == WithShard(l, k, op)
              && Total(l.versions[k..], Counted) + more <= l.capacity
              && (forall j :: 0 <= j < k ==> Total(l.versions[j..], Counted) + more > l.capacity))
      && (reply.Ok? <==> Total(l.versions[t..], Counted) + more <= l.capacity)
      && (!reply.Ok? ==> after.versions == l.versions[t..])
  {
    var k := PutShardOutcome(hash, l, op);
  }

  // ---------------------------------------------------------------- two representations, one answer

  /** The entry is being filled with the shards of the given buffer and holds only those. */
  ghost predicate FilledFrom(hash: Bytes -> Digest, v: Stored, data: Bytes) {
    && v.meta.shardSize >= 1 && v.meta.totalSize == |data|
    && v.meta.shardCount == ShardCount(|data|, v.meta.shardSize)
    && v.data.None?
    && v.checksums == DigestsOf(hash, Shards(data, v.meta.shardSize))
    && (forall i :: i in v.shards ==>
          0 <= i < v.meta.shardCount && v.shards[i] == Sharding.Shard(data, v.meta.shardSize, i))
  }

  ghost predicate Describes(meta: Metadata, data: Bytes) {
    && meta.shardSize >= 1 && meta.totalSize == |data|
    && meta.shardCount == ShardCount(|data|, meta.shardSize)
  }

  /** The operation is part of an honest transfer of the buffer under that name: it may begin
      the version as published, bring shards whose claimed digest is their own and collides with
      no shard of the buffer, remove it or concern other versions. */
  ghost predicate HonestFor(hash: Bytes -> Digest, op: Op, meta: Metadata, data: Bytes)
    requires Describes(meta, data)
  {
    match op
    case Put(name, _, _, _, _) => name != meta.name
    case PutVerified(name, _, _, _, _) => name != meta.name
    case Begin(m, checksums) =>
      m.name == meta.name ==> m == meta && checksums == DigestsOf(hash, Shards(data, meta.shardSize))
    case PutShard(name, i, bytes, verified) =>
      name == meta.name ==>
        && (verified.Some? ==> verified.value == hash(bytes))
        && (0 <= i < ShardCount(|data|, meta.shardSize) ==>
              CollisionFree(hash, {bytes, Sharding.Shard(data, meta.shardSize, i)}))
    case Remove(_) => true
    case Clear => true
  }

  /** Any version of that name in the store is the published one, being filled faithfully. */
  ghost predicate Faithful(hash: Bytes -> Digest, l: Ledger, meta: Metadata, data: Bytes) {
    forall v :: v in l.versions && v.meta.name == meta.name ==> v.meta == meta && FilledFrom(hash, v, data)
  }

  lemma {:induction false} PutShardFaithful(hash: Bytes -> Digest, l: Ledger, op: Op, meta: Metadata, data: Bytes)
    requires Sound(l) && Describes(meta, data) && Faithful(hash, l, meta, data)
    requires op.PutShard? && HonestFor(hash, op, meta, data)
    ensures Faithful(hash, Apply(hash, l, op).0, meta, data)
  {
    var t := IndexOf(l.versions, op.name);
    var (after, reply) := Apply(hash, l, op);
    if reply.Ok? {
      var v := l.versions[t];
      assert v in l.versions;
      var updated := v.(shards := v.shards[op.index := op.data]);
      if op.name == meta.name {
        var shard := Sharding.Shard(data, meta.shardSize, op.index);
        assert v.checksums[op.index] == hash(Shards(data, meta.shardSize)[op.index]) == hash(shard);
        assert op.data in {op.data, shard} && shard in {op.data, shard};
        assert op.data == shard;
      }
      forall x | x in after.versions && x.meta.name == meta.name ensures x.meta == meta && FilledFrom(hash, x, data) {
        assert x == updated || x in l.versions;
      }
    }
  }

  lemma {:induction false} BeginFaithful(hash: Bytes -> Digest, l: Ledger, op: Op, meta: Metadata, data: Bytes)
    requires Sound(l) && Describes(meta, data) && Faithful(hash, l, meta, data)
    requires op.Begin? && HonestFor(hash, op, meta, data)
    ensures Faithful(hash, Apply(hash, l, op).0, meta, data)
  {
    var k := IndexOf(l.versions, op.meta.name);
    var after := Apply(hash, l, op).0;
    if k < |l.versions| {
      var v := l.versions[k];
      assert v in l.versions;
      forall x | x in after.versions ensures x in l.versions || x == v.(checksums := op.checksums) {}
    } else {
      forall x | x in after.versions
        ensures x in l.versions || x == Stored(op.meta, None, map[], op.checksums) {}
    }
  }

  lemma {:induction false} StoredOrOld(l: Ledger, v: Stored, need: nat)
    ensures forall x :: x in StoreComplete(l, v, need).versions ==> x == v || x in l.versions
  {
    var dropped := Drop(l, v.meta.name);
    assert forall x :: x in dropped.versions ==> x in l.versions;
  }

  /** Storing, dropping and clearing bring in no version but the one stored. */
  lemma {:induction false} OthersFaithful(hash: Bytes -> Digest, l: Ledger, op: Op, meta: Metadata, data: Bytes)
    requires Describes(meta, data) && Faithful(hash, l, meta, data)
    requires !op.PutShard? && !op.Begin? && HonestFor(hash, op, meta, data)
    ensures Faithful(hash, Apply(hash, l, op).0, meta, data)
  {
    match op
    case Put(name, bytes, size, _, checksums) =>
      if ApplyPut(hash, l, op).1.Ok? {
        StoredOrOld(l, Complete(name, bytes, size, hash(bytes), checksums), |bytes|);
      }
    case PutVerified(name, bytes, size, digest, checksums) =>
      if ApplyPutVerified(l, op).1.Ok? {
        StoredOrOld(l, Complete(name, bytes, size, digest, checksums), |bytes|);
      }
    case Remove(name) => assert forall x :: x in Drop(l, name).versions ==> x in l.versions;
    case Clear =>
  }

  lemma {:induction false} StepFaithful(hash: Bytes -> Digest, l: Ledger, op: Op, meta: Metadata, data: Bytes)
    requires Sound(l) && Describes(meta, data) && Faithful(hash, l, meta, data) && HonestFor(hash, op, meta, data)
    ensures Faithful(hash, Apply(hash, l, op).0, meta, data)
  {
    if op.PutShard? {
      PutShardFaithful(hash, l, op, meta, data);
    } else if op.Begin? {
      BeginFaithful(hash, l, op, meta, data);
    } else {
      OthersFaithful(hash, l, op, meta, data);
    }
  }

  /** Over any run of honest operations, in any order and with repeats, the version holds
      nothing but shards of the published buffer. */
  lemma {:induction false} RunsFillFaithfully(hash: Bytes -> Digest, capacity: nat, ops: seq<Op>, meta: Metadata, data: Bytes)
    requires Describes(meta, data)
    requires forall i :: 0 <= i < |ops| ==> HonestFor(hash, ops[i], meta, data)
    ensures Faithful(hash, Run(hash, Empty(capacity), ops), meta, data)
  {
    if ops != [] {
      var before := ops[..|ops| - 1];
      RunsFillFaithfully(hash, capacity, before, meta, data);
      EveryRunIsSound(hash, capacity, before);
      StepFaithful(hash, Run(hash, Empty(capacity), before), ops[|ops| - 1], meta, data);
    }
  }

  /** Counting the shards is enough to tell that none is missing. */
  lemma {:induction false} CompleteMeansEveryShard(hash: Bytes -> Digest, v: Stored, data: Bytes)
    requires FilledFrom(hash, v, data)
    ensures HasAll(v) <==> forall i :: 0 <= i < v.meta.shardCount ==> i in v.shards
  {
    var all := Below(v.meta.shardCount);
    assert v.shards.Keys <= all;
    SubsetCount(v.shards.Keys, all);
    assert |v.shards| == |v.shards.Keys|;
    if forall i :: 0 <= i < v.meta.shardCount ==> i in v.shards {
      assert v.shards.Keys == all;
    }
  }

  lemma {:induction false} ReadsAlike(hash: Bytes -> Digest, v: Stored, data: Bytes, checksums: seq<Digest>, index: int)
    requires FilledFrom(hash, v, data) && (0 <= index < v.meta.shardCount ==> index in v.shards)
    requires checksums == [] || checksums == v.checksums
    ensures ReadVersion(hash, v, index) == ReadVersion(hash, Stored(v.meta, Some(data), map[], checksums), index)
  {
    var size := v.meta.shardSize;
    if 0 <= index < v.meta.shardCount {
      ShardSpan(|data|, size, index);
      assert (index + 1) * size == index * size + size;
      assert v.checksums[index] == hash(Shards(data, size)[index]);
    }
  }

  /** The shards of a version in order, empty where one is missing. */
  function ShardList(v: Stored): seq<Bytes>
    requires v.meta.shardCount >= 0
  {
    seq(v.meta.shardCount, i requires 0 <= i < v.meta.shardCount => if i in v.shards then v.shards[i] else [])
  }

  /** Once complete, the assembled version answers every read like the same version stored as
      one buffer, with or without recorded digests, and its shards joined are that buffer. */
  lemma {:induction false} AssembledReadsLikeWhole(hash: Bytes -> Digest, v: Stored, data: Bytes, checksums: seq<Digest>)
    requires FilledFrom(hash, v, data) && HasAll(v)
    requires checksums == [] || checksums == v.checksums
    ensures forall index: int ::
      ReadVersion(hash, v, index) == ReadVersion(hash, Stored(v.meta, Some(data), map[], checksums), index)
    ensures Join(ShardList(v)) == data
  {
    CompleteMeansEveryShard(hash, v, data);
    forall index: int
      ensures ReadVersion(hash, v, index) == ReadVersion(hash, Stored(v.meta, Some(data), map[], checksums), index)
    {
      ReadsAlike(hash, v, data, checksums, index);
    }
    JoinShards(data, v.meta.shardSize);
    assert ShardList(v) == Shards(data, v.meta.shardSize);
  }

  /** The version stored whole into a store of its own. */
  function PutWhole(hash: Bytes -> Digest, meta: Metadata, data: Bytes): Ledger
    requires Describes(meta, data)
  {
    Apply(hash, Empty(|data|), Op.Put(meta.name, data, meta.shardSize, None, DigestsOf(hash, Shards(data, meta.shardSize)))).0
  }

  lemma {:induction false} WholeIsStored(hash: Bytes -> Digest, meta: Metadata, data: Bytes)
    requires Describes(meta, data) && meta.name != "" && meta.checksum == hash(data) && forall x :: |hash(x)| == 32
    ensures PutWhole(hash, meta, data).versions
         == [Stored(meta, Some(data), map[], DigestsOf(hash, Shards(data, meta.shardSize)))]
  {
    var checksums := DigestsOf(hash, Shards(data, meta.shardSize));
    assert ValidChecksums(checksums, meta.shardCount) by {
      forall c | c in checksums ensures |c| == 32 {
        var i :| 0 <= i < |checksums| && checksums[i] == c;
      }
    }
    var v := Complete(meta.name, data, meta.shardSize, hash(data), checksums);
    assert v == Stored(meta, Some(data), map[], checksums);
    assert StoreComplete(Empty(|data|), v, |data|).versions == [v];
  }

  /** Over runs: once honest operations have made the version complete, in any order and with
      repeats, every read is answered as by a store that was given the whole buffer. */
  lemma {:induction false} RunsReadLikeWhole(hash: Bytes -> Digest, capacity: nat, ops: seq<Op>, meta: Metadata, data: Bytes, index: int)
    requires Describes(meta, data) && meta.name != "" && meta.checksum == hash(data) && forall x :: |hash(x)| == 32
    requires forall i :: 0 <= i < |ops| ==> HonestFor(hash, ops[i], meta, data)
    requires IsComplete(Run(hash, Empty(capacity), ops), meta.name)
    ensures ReadShard(hash, Run(hash, Empty(capacity), ops), meta.name, index)
         == ReadShard(hash, PutWhole(hash, meta, data), meta.name, index)
  {
    var l := Run(hash, Empty(capacity), ops);
    RunsFillFaithfully(hash, capacity, ops, meta, data);
    var v := l.versions[IndexOf(l.versions, meta.name)];
    assert v in l.versions;
    WholeIsStored(hash, meta, data);
    AssembledReadsLikeWhole(hash, v, data, v.checksums);
  }
}
