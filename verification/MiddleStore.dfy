/** The store behind a middle.  A middle keeps the shards it is assigned in a store of bounded
    size, next to older and newer versions, and tries a refused shard again.  When is there room
    for all of them, and what becomes of a cluster whose middles have that room? */
module MiddleStore {
  import opened Wrappers
  import opened Sharding
  import opened StoreModel
  import opened StoreProofs
  import opened Manifest
  import opened Placement
  import Cluster

  // ---------------------------------------------------------------- one shard

  function VersionOf(l: Ledger, name: string): Stored
    requires Holds(l.versions, name)
  {
    l.versions[IndexOf(l.versions, name)]
  }

  /** The bytes that putting shards of a version can never evict: what the ledger counts besides
      the version itself and the versions older than it. */
  function Fixed(l: Ledger, name: string): int
    requires Holds(l.versions, name)
  {
    var t := IndexOf(l.versions, name);
    l.size - Total(l.versions[..t], Counted) - Size(l.versions[t], Counted)
  }

  /** In a store whose ledger is exact these are the versions newer than it. */
  lemma {:induction false} FixedIsNewer(l: Ledger, name: string)
    requires Holds(l.versions, name) && l.size == Total(l.versions, Counted)
    ensures Fixed(l, name) == Total(l.versions[IndexOf(l.versions, name) + 1..], Counted)
  {
    var t := IndexOf(l.versions, name);
    TotalSplit(l.versions, t, Counted);
    assert l.versions[t..] == [l.versions[t]] + l.versions[t + 1..];
  }

  lemma {:induction false} FirstInSuffix(versions: seq<Stored>, name: string, k: nat)
    requires Holds(versions, name) && k <= IndexOf(versions, name)
    ensures IndexOf(versions[k..], name) == IndexOf(versions, name) - k
  {
    if k > 0 {
      FirstInSuffix(versions[1..], name, k - 1);
      assert versions[1..][k - 1..] == versions[k..];
    }
  }

  lemma {:induction false} FirstUpdated(versions: seq<Stored>, name: string, v: Stored)
    requires Holds(versions, name) && v.meta.name == name
    ensures IndexOf(versions[IndexOf(versions, name) := v], name) == IndexOf(versions, name)
  {
    var t := IndexOf(versions, name);
    var after := versions[t := v];
    assert after[t].meta.name == name;
  }

  lemma {:induction false} OlderAfter(versions: seq<Stored>, t: nat, k: nat)
    requires k <= t <= |versions|
    ensures Total(versions[k..][..t - k], Counted) == Total(versions[..t], Counted) - Total(versions[..k], Counted)
    ensures Total(versions[k..][..t - k], Counted) >= 0
  {
    TotalSplit(versions[..t], k, Counted);
    assert versions[..t][..k] == versions[..k];
    assert versions[..t][k..] == versions[k..][..t - k];
  }

  /** A shard that passes its checks is refused exactly if the version with it, and what cannot
      be evicted, exceed the capacity. */
  predicate HasRoom(l: Ledger, op: Op)
    requires op.PutShard? && Holds(l.versions, op.name)
  {
    Fixed(l, op.name) + Size(VersionOf(l, op.name), Counted) + Additional(VersionOf(l, op.name), op) <= l.capacity
  }

  function Taken(v: Stored, op: Op): Stored
    requires op.PutShard?
  {
    v.(shards := v.shards[op.index := op.data])
  }

  /** Evicting stops as soon as there is room, or at the version itself. */
  lemma {:induction false} OldestGone(l: Ledger, name: string, more: int) returns (k: nat, room: Ledger)
    requires Holds(l.versions, name)
    ensures k == EvictionCount(l.versions[..IndexOf(l.versions, name)], l.size, more, l.capacity) <= IndexOf(l.versions, name)
    ensures room == EvictOldest(l, k)
    ensures room.size + more <= l.capacity || k == IndexOf(l.versions, name)
  {
    var older := l.versions[..IndexOf(l.versions, name)];
    k := EvictionCount(older, l.size, more, l.capacity);
    EvictionCountLeast(older, l.size, more, l.capacity);
    assert older[..k] == l.versions[..k];
    room := EvictOldest(l, k);
  }

  lemma {:induction false} RoomMade(l: Ledger, name: string, k: nat, room: Ledger)
    requires Holds(l.versions, name) && k <= IndexOf(l.versions, name) && room == EvictOldest(l, k)
    ensures IndexOf(room.versions, name) == IndexOf(l.versions, name) - k && Holds(room.versions, name)
    ensures VersionOf(room, name) == VersionOf(l, name) && Fixed(room, name) == Fixed(l, name)
    ensures room.size >= Fixed(l, name) + Size(VersionOf(l, name), Counted)
    ensures k == IndexOf(l.versions, name) ==> room.size == Fixed(l, name) + Size(VersionOf(l, name), Counted)
  {
    var t := IndexOf(l.versions, name);
    FirstInSuffix(l.versions, name, k);
    OlderAfter(l.versions, t, k);
    assert l.versions[..t][..k] == l.versions[..k];
  }

  function Put(room: Ledger, op: Op, i: nat): Ledger
    requires op.PutShard? && i < |room.versions|
  {
    var v := room.versions[i];
    room.(size := room.size + Additional(v, op), versions := room.versions[i := Taken(v, op)])
  }

  lemma {:induction false} TakenIn(room: Ledger, op: Op, i: nat, after: Ledger)
    requires op.PutShard? && Holds(room.versions, op.name) && VersionOf(room, op.name).data.None?
    requires 0 <= op.index < VersionOf(room, op.name).meta.shardCount
    requires i == IndexOf(room.versions, op.name) && after == Put(room, op, i)
    ensures Holds(after.versions, op.name) && VersionOf(after, op.name) == Taken(VersionOf(room, op.name), op)
    ensures Fixed(after, op.name) == Fixed(room, op.name)
  {
    var v := VersionOf(room, op.name);
    FirstUpdated(room.versions, op.name, Taken(v, op));
    ShardBytesUpdate(v.shards, v.meta.shardCount, op.index, op.data);
    assert after.versions[..i] == room.versions[..i];
  }

  lemma {:induction false} PutOutcome(hash: Bytes -> Digest, l: Ledger, op: Op) returns (after: Ledger)
    requires op.PutShard? && Holds(l.versions, op.name) && VersionOf(l, op.name).data.None?
    requires CheckShard(hash, VersionOf(l, op.name), op).None?
    ensures after == Apply(hash, l, op).0
    ensures var reply := Apply(hash, l, op).1; reply.Ok? == HasRoom(l, op) && (reply.Err? ==> reply.error == TooLarge)
    ensures after.capacity == l.capacity && Holds(after.versions, op.name) && Fixed(after, op.name) == Fixed(l, op.name)
    ensures VersionOf(after, op.name) == if HasRoom(l, op) then Taken(VersionOf(l, op.name), op) else VersionOf(l, op.name)
  {
    var t, more := IndexOf(l.versions, op.name), Additional(VersionOf(l, op.name), op);
    var k, room := PutEvicts(hash, l, op);
    RoomMade(l, op.name, k, room);
    after := room;
    if room.size + more <= l.capacity {
      after := Put(room, op, t - k);
      TakenIn(room, op, t - k, after);
    }
  }

  lemma {:induction false} PutEvicts(hash: Bytes -> Digest, l: Ledger, op: Op) returns (k: nat, room: Ledger)
    requires op.PutShard? && Holds(l.versions, op.name)
    requires CheckShard(hash, VersionOf(l, op.name), op).None?
    ensures k <= IndexOf(l.versions, op.name) && room == EvictOldest(l, k)
    ensures var more := Additional(VersionOf(l, op.name), op);
      && (room.size + more <= l.capacity || k == IndexOf(l.versions, op.name))
      && Apply(hash, l, op) == if room.size + more > l.capacity then (room, Err(TooLarge))
                               else (Put(room, op, IndexOf(l.versions, op.name) - k), Ok(Reply.Shard(op.data)))
  {
    k, room := OldestGone(l, op.name, Additional(VersionOf(l, op.name), op));
  }

  // ---------------------------------------------------------------- all shards of an assignment

  /** The bytes of the assigned shards below n. */
  function AssignedBytes(meta: Metadata, wanted: set<int>, n: nat): int {
    if n == 0 then 0
    else AssignedBytes(meta, wanted, n - 1)
         + (if n - 1 in wanted then ShardLength(meta.totalSize, meta.shardSize, n - 1) else 0)
  }

  /** The assigned shards are shards of the version, and none of those is empty. */
  ghost predicate Assignable(meta: Metadata, wanted: set<int>) {
    && meta.shardCount >= 0 && (forall i :: i in wanted ==> 0 <= i < meta.shardCount)
    && (forall i :: 0 <= i < meta.shardCount ==> ShardLength(meta.totalSize, meta.shardSize, i) >= 1)
  }

  /** Held shards are assigned ones of the right length. */
  ghost predicate Within(v: Stored, wanted: set<int>) {
    && v.data.None?
    && (forall i :: i in v.shards ==>
          i in wanted && |v.shards[i]| == ShardLength(v.meta.totalSize, v.meta.shardSize, i))
  }

  lemma {:induction false} WithinBytes(v: Stored, wanted: set<int>, n: nat)
    requires Assignable(v.meta, wanted) && Within(v, wanted) && n <= v.meta.shardCount
    ensures ShardBytes(v.shards, n) <= AssignedBytes(v.meta, wanted, n)
    ensures wanted <= v.shards.Keys ==> ShardBytes(v.shards, n) == AssignedBytes(v.meta, wanted, n)
  {
    if n > 0 {
      WithinBytes(v, wanted, n - 1);
    }
  }

  /** There is room for all assigned shards next to what cannot be evicted. */
  predicate RoomForAll(l: Ledger, name: string, wanted: set<int>)
    requires Holds(l.versions, name)
  {
    var meta := VersionOf(l, name).meta;
    Fixed(l, name) + AssignedBytes(meta, wanted, Max(meta.shardCount, 0)) <= l.capacity
  }

  /** Bytes for an assigned shard, good or bad. */
  predicate Delivers(op: Op, name: string, wanted: set<int>) {
    op.PutShard? && op.name == name && op.index in wanted
  }

  /** The store while the version is being filled: what was put in fits, and nothing else has
      changed. */
  ghost predicate Filling(l: Ledger, start: Ledger, name: string, wanted: set<int>)
    requires Holds(start.versions, name)
  {
    && Holds(l.versions, name) && l.capacity == start.capacity && Fixed(l, name) == Fixed(start, name)
    && VersionOf(l, name).meta == VersionOf(start, name).meta
    && VersionOf(l, name).checksums == VersionOf(start, name).checksums
    && Within(VersionOf(l, name), wanted)
    && (VersionOf(l, name).shards == map[] || Fixed(l, name) + Size(VersionOf(l, name), Counted) <= l.capacity)
  }

  /** One delivery: bad bytes change nothing; good ones are taken in if there is room, and there
      is if there is room for all. */
  lemma {:induction false} DeliveryKeeps(hash: Bytes -> Digest, l: Ledger, start: Ledger, name: string, wanted: set<int>, op: Op)
    requires Holds(start.versions, name) && Assignable(VersionOf(start, name).meta, wanted)
    requires Filling(l, start, name, wanted) && Delivers(op, name, wanted)
    ensures var (after, reply) := Apply(hash, l, op); var v := VersionOf(l, name);
      && Filling(after, start, name, wanted)
      && (if CheckShard(hash, v, op).Some? then after == l && reply.Err?
          else
            && (reply.Ok? <==> HasRoom(l, op)) && (reply.Err? ==> reply.error == TooLarge)
            && VersionOf(after, name) == (if HasRoom(l, op) then Taken(v, op) else v)
            && (RoomForAll(start, name, wanted) ==> reply.Ok?))
  {
    var v := VersionOf(l, name);
    if CheckShard(hash, v, op).None? {
      var after := PutOutcome(hash, l, op);
      ShardBytesUpdate(v.shards, v.meta.shardCount, op.index, op.data);
      assert Within(Taken(v, op), wanted);
      WithinBytes(Taken(v, op), wanted, v.meta.shardCount);
    }
  }

  lemma {:induction false} RunFilling(hash: Bytes -> Digest, start: Ledger, name: string, wanted: set<int>, ops: seq<Op>) returns (l: Ledger)
    requires Holds(start.versions, name) && Assignable(VersionOf(start, name).meta, wanted)
    requires Filling(start, start, name, wanted)
    requires forall k :: 0 <= k < |ops| ==> Delivers(ops[k], name, wanted)
    ensures l == Run(hash, start, ops) && Filling(l, start, name, wanted)
  {
    l := start;
    if ops != [] {
      var n := |ops| - 1;
      var before := RunFilling(hash, start, name, wanted, ops[..n]);
      DeliveryKeeps(hash, before, start, name, wanted, ops[n]);
      l := Apply(hash, before, ops[n]).0;
    }
  }

  /** Good bytes for the shard. */
  predicate Good(hash: Bytes -> Digest, v: Stored, op: Op, i: int) {
    op.PutShard? && op.index == i && CheckShard(hash, v, op).None?
  }

  predicate Has(l: Ledger, name: string, i: int) {
    Holds(l.versions, name) && i in VersionOf(l, name).shards
  }

  /** With room for all, good bytes are held from then on. */
  lemma {:induction false} DeliveryHolds(hash: Bytes -> Digest, l: Ledger, start: Ledger, name: string, wanted: set<int>, op: Op, i: int,
                                         after: Ledger)
    requires Holds(start.versions, name) && Assignable(VersionOf(start, name).meta, wanted)
    requires Filling(l, start, name, wanted) && RoomForAll(start, name, wanted) && Delivers(op, name, wanted)
    requires after == Apply(hash, l, op).0
    ensures Has(l, name, i) || Good(hash, VersionOf(start, name), op, i) ==> Has(after, name, i)
  {
    DeliveryKeeps(hash, l, start, name, wanted, op);
  }

  lemma {:induction false} LastDelivery(hash: Bytes -> Digest, start: Ledger, name: string, wanted: set<int>, ops: seq<Op>, i: int)
      returns (before: Ledger, l: Ledger)
    requires Holds(start.versions, name) && Assignable(VersionOf(start, name).meta, wanted)
    requires Filling(start, start, name, wanted) && RoomForAll(start, name, wanted)
    requires ops != [] && forall j :: 0 <= j < |ops| ==> Delivers(ops[j], name, wanted)
    ensures before == Run(hash, start, ops[..|ops| - 1]) && l == Run(hash, start, ops)
    ensures Has(before, name, i) || Good(hash, VersionOf(start, name), ops[|ops| - 1], i) ==> Has(l, name, i)
  {
    var n := |ops| - 1;
    before := RunFilling(hash, start, name, wanted, ops[..n]);
    l := Apply(hash, before, ops[n]).0;
    DeliveryHolds(hash, before, start, name, wanted, ops[n], i, l);
  }

  lemma {:induction false} DeliveredIsHeld(hash: Bytes -> Digest, start: Ledger, name: string, wanted: set<int>, ops: seq<Op>, k: nat, i: int)
      returns (l: Ledger)
    requires Holds(start.versions, name) && Assignable(VersionOf(start, name).meta, wanted)
    requires Filling(start, start, name, wanted) && RoomForAll(start, name, wanted)
    requires forall j :: 0 <= j < |ops| ==> Delivers(ops[j], name, wanted)
    requires k < |ops| && Good(hash, VersionOf(start, name), ops[k], i)
    ensures l == Run(hash, start, ops) && Has(l, name, i)
  {
    var before;
    before, l := LastDelivery(hash, start, name, wanted, ops, i);
    if k < |ops| - 1 {
      var held := DeliveredIsHeld(hash, start, name, wanted, ops[..|ops| - 1], k, i);
    }
  }

  /** Whatever else is delivered besides, and in whatever order and number: once good bytes have
      come for every assigned shard, the store holds all of them exactly if there was room for
      them next to the newer versions. */
  lemma {:induction false} AllAssignedHeldExactly(hash: Bytes -> Digest, start: Ledger, name: string, wanted: set<int>, ops: seq<Op>)
    requires Holds(start.versions, name) && Assignable(VersionOf(start, name).meta, wanted) && wanted != {}
    requires VersionOf(start, name).data.None? && VersionOf(start, name).shards == map[]
    requires forall k :: 0 <= k < |ops| ==> Delivers(ops[k], name, wanted)
    requires forall i :: i in wanted ==> exists k :: 0 <= k < |ops| && Good(hash, VersionOf(start, name), ops[k], i)
    ensures var after := Run(hash, start, ops);
      && Holds(after.versions, name)
      && (wanted <= VersionOf(after, name).shards.Keys <==> RoomForAll(start, name, wanted))
  {
    var l := RunFilling(hash, start, name, wanted, ops);
    var v := VersionOf(l, name);
    if RoomForAll(start, name, wanted) {
      forall i | i in wanted ensures i in v.shards {
        var k :| 0 <= k < |ops| && Good(hash, VersionOf(start, name), ops[k], i);
        var held := DeliveredIsHeld(hash, start, name, wanted, ops, k, i);
      }
    } else if wanted <= v.shards.Keys {
      var i :| i in wanted;
      assert i in v.shards;
      WithinBytes(v, wanted, v.meta.shardCount);
    }
  }

  // ---------------------------------------------------------------- trying again

  /** A missing shard for which there is no room. */
  ghost predicate ShutOut(l: Ledger, name: string, i: int)
    requires Holds(l.versions, name)
  {
    var v := VersionOf(l, name);
    && i !in v.shards
    && Fixed(l, name) + Size(v, Counted) + ShardLength(v.meta.totalSize, v.meta.shardSize, i) > l.capacity
  }

  /** A shard refused for want of room stays refused and missing, however often it is tried
      again and whatever other assigned shards come in between. */
  lemma {:induction false} RefusedForGood(hash: Bytes -> Digest, start: Ledger, name: string, wanted: set<int>, first: Op, ops: seq<Op>,
                                          again: Op)
    requires Holds(start.versions, name) && Assignable(VersionOf(start, name).meta, wanted)
    requires Filling(start, start, name, wanted)
    requires Delivers(first, name, wanted) && Apply(hash, start, first).1 == Err(TooLarge)
    requires forall k :: 0 <= k < |ops| ==> Delivers(ops[k], name, wanted)
    requires Delivers(again, name, wanted) && Good(hash, VersionOf(start, name), again, first.index)
    ensures var l := Run(hash, start, [first] + ops);
      && Holds(l.versions, name) && first.index !in VersionOf(l, name).shards
      && Apply(hash, l, again).1 == Err(TooLarge)
  {
    DeliveryKeeps(hash, start, start, name, wanted, first);
    var v := VersionOf(start, name);
    assert ShutOut(start, name, first.index);
    assert Delivers(([first] + ops)[0], name, wanted);
    RunShutOut(hash, start, name, wanted, [first] + ops, first.index);
    var l := RunFilling(hash, start, name, wanted, [first] + ops);
    DeliveryKeeps(hash, l, start, name, wanted, again);
  }

  lemma {:induction false} RunShutOut(hash: Bytes -> Digest, start: Ledger, name: string, wanted: set<int>, ops: seq<Op>, i: int)
    requires Holds(start.versions, name) && Assignable(VersionOf(start, name).meta, wanted)
    requires Filling(start, start, name, wanted) && ShutOut(start, name, i)
    requires forall k :: 0 <= k < |ops| ==> Delivers(ops[k], name, wanted)
    ensures var l := Run(hash, start, ops); Holds(l.versions, name) && ShutOut(l, name, i)
  {
    if ops != [] {
      var n := |ops| - 1;
      RunShutOut(hash, start, name, wanted, ops[..n], i);
      var l := RunFilling(hash, start, name, wanted, ops[..n]);
      DeliveryKeeps(hash, l, start, name, wanted, ops[n]);
      var v := VersionOf(l, name);
      if CheckShard(hash, v, ops[n]).None? {
        ShardBytesUpdate(v.shards, v.meta.shardCount, ops[n].index, ops[n].data);
      }
    }
  }

  // ---------------------------------------------------------------- a cluster on stores

  /** What one step does to the middles' stores: whatever bytes arrive are put. */
  function StepStores(c: Cluster.Config, name: string, stores: map<Member, Ledger>, step: Cluster.Step): map<Member, Ledger> {
    if step.Answer? && step.payload.Some? && step.m in stores
    then stores[step.m := Apply(c.hash, stores[step.m], Delivery(name, step)).0]
    else stores
  }

  function Delivery(name: string, step: Cluster.Step): (op: Op)
    requires step.Answer? && step.payload.Some?
    ensures op.PutShard? && op.name == name && op.index == step.i && op.data == step.payload.value
  {
    PutShard(name, step.i, step.payload.value, None)
  }

  /** The shards placed on a middle. */
  function PlacedOn(c: Cluster.Config, m: Member): set<int> {
    set i: nat | i < |c.owners| && m in c.owners[i]
  }

  /** The entry is the published version, its shards cut and digested as in the cluster. */
  ghost predicate Describing(c: Cluster.Config, v: Stored, data: Bytes) {
    && v.meta.shardSize >= 1 && v.meta.totalSize == |data| && v.data.None?
    && v.meta.shardCount == ShardCount(|data|, v.meta.shardSize)
    && c.shards == Shards(data, v.meta.shardSize) && v.checksums == DigestsOf(c.hash, c.shards)
  }

  /** The middle's store has begun the version and has room for the shards placed there. */
  ghost predicate Prepared(c: Cluster.Config, name: string, data: Bytes, start: Ledger, m: Member) {
    && Holds(start.versions, name) && Describing(c, VersionOf(start, name), data)
    && VersionOf(start, name).shards == map[] && RoomForAll(start, name, PlacedOn(c, m))
  }

  /** The store holds for the version what the middle is modelled to hold. */
  ghost predicate Mirrors(c: Cluster.Config, name: string, start: Ledger, l: Ledger, m: Member, held: map<nat, Bytes>)
    requires Holds(start.versions, name)
  {
    Filling(l, start, name, PlacedOn(c, m)) && VersionOf(l, name).shards == held
  }

  lemma {:induction false} ShardsAssignable(c: Cluster.Config, v: Stored, data: Bytes, m: Member)
    requires Cluster.WellFormed(c) && Describing(c, v, data)
    ensures Assignable(v.meta, PlacedOn(c, m))
  {
    forall i | 0 <= i < v.meta.shardCount ensures ShardLength(v.meta.totalSize, v.meta.shardSize, i) >= 1 {
      ShardSpan(|data|, v.meta.shardSize, i);
    }
  }

  /** The store's checks are those the cluster's middles are modelled with. */
  lemma {:induction false} ChecksAgree(c: Cluster.Config, name: string, v: Stored, data: Bytes, step: Cluster.Step)
    requires Describing(c, v, data) && step.Answer? && step.payload.Some?
    ensures CheckShard(c.hash, v, Delivery(name, step)).None? <==> Cluster.Verified(c, step.i, step.payload)
  {
    if step.i < |c.shards| {
      ShardSpan(|data|, v.meta.shardSize, step.i);
      assert c.shards[step.i] == Sharding.Shard(data, v.meta.shardSize, step.i);
      assert v.checksums[step.i] == c.hash(c.shards[step.i]);
    }
  }

  /** An answer to a running task is put into the store; it is taken in exactly if it verifies. */
  lemma {:induction false} AnswerMirrors(c: Cluster.Config, name: string, data: Bytes, start: Ledger, l: Ledger, n: Cluster.Node,
                                         step: Cluster.Step, after: Ledger)
    requires Cluster.WellFormed(c) && Holds(start.versions, name) && Describing(c, VersionOf(start, name), data)
    requires RoomForAll(start, name, PlacedOn(c, step.m))
    requires Mirrors(c, name, start, l, step.m, n.held) && Cluster.NodeInv(c, step.m, n)
    requires step.Answer? && step.payload.Some? && step.i in Cluster.PoolOf(n, step.role).running
    requires after == Apply(c.hash, l, Delivery(name, step)).0
    ensures Apply(c.hash, l, Delivery(name, step)).1.Ok? <==> Cluster.Verified(c, step.i, step.payload)
    ensures Mirrors(c, name, start, after, step.m,
                    if Cluster.Verified(c, step.i, step.payload) then n.held[step.i := step.payload.value] else n.held)
  {
    var wanted := PlacedOn(c, step.m);
    Cluster.RunningIsTask(c, step.m, step.role, n, step.i);
    assert step.i in wanted;
    ShardsAssignable(c, VersionOf(start, name), data, step.m);
    ChecksAgree(c, name, VersionOf(l, name), data, step);
    DeliveryKeeps(c.hash, l, start, name, wanted, Delivery(name, step));
  }

  ghost predicate StoresRun(c: Cluster.Config, name: string, steps: seq<Cluster.Step>, stores: seq<map<Member, Ledger>>) {
    && |stores| == |steps| + 1
    && (forall k :: 0 <= k < |steps| ==> stores[k + 1] == StepStores(c, name, stores[k], steps[k]))
  }

  /** One step, seen from one middle. */
  lemma {:induction false} StepMirrors(c: Cluster.Config, name: string, data: Bytes, start: Ledger, stores: map<Member, Ledger>,
                                       s: Cluster.State, step: Cluster.Step, m: Member, held: map<nat, Bytes>,
                                       nextStores: map<Member, Ledger>, next: Cluster.State)
      returns (after: Ledger, heldAfter: map<nat, Bytes>)
    requires Cluster.WellFormed(c) && Holds(start.versions, name) && Describing(c, VersionOf(start, name), data)
    requires RoomForAll(start, name, PlacedOn(c, m)) && m in stores && m in s.nodes && held == s.nodes[m].held
    requires Mirrors(c, name, start, stores[m], m, held) && Cluster.NodeInv(c, m, s.nodes[m])
    requires Cluster.Enabled(c, s, step) && next == Cluster.Apply(c, s, step) && nextStores == StepStores(c, name, stores, step)
    ensures m in nextStores && after == nextStores[m] && m in next.nodes && heldAfter == next.nodes[m].held
    ensures Mirrors(c, name, start, after, m, heldAfter)
    ensures step.Answer? && step.payload.Some? && step.m == m ==>
      (Apply(c.hash, stores[m], Delivery(name, step)).1.Ok? <==> Cluster.Verified(c, step.i, step.payload))
  {
    after, heldAfter := stores[m], held;
    if step.Answer? && step.payload.Some? && step.m == m {
      after := Apply(c.hash, stores[m], Delivery(name, step)).0;
      heldAfter := if Cluster.Verified(c, step.i, step.payload) then held[step.i := step.payload.value] else held;
      AnswerMirrors(c, name, data, start, stores[m], s.nodes[m], step, after);
    }
  }

  lemma {:induction false} RunMirrors(c: Cluster.Config, name: string, data: Bytes, steps: seq<Cluster.Step>,
                                      states: seq<Cluster.State>, stores: seq<map<Member, Ledger>>, k: nat, m: Member, start: Ledger)
      returns (l: Ledger, held: map<nat, Bytes>)
    requires Cluster.WellFormed(c) && Cluster.IsRun(c, steps, states) && StoresRun(c, name, steps, stores)
    requires k <= |steps| && m in c.members && m in stores[0] && start == stores[0][m]
    requires Prepared(c, name, data, start, m)
    ensures m in stores[k] && l == stores[k][m] && m in states[k].nodes && held == states[k].nodes[m].held
    ensures Mirrors(c, name, start, l, m, held)
  {
    if k == 0 {
      assert m in Elements(c.members);
      l, held := start, map[];
    } else {
      l, held := RunMirrors(c, name, data, steps, states, stores, k - 1, m, start);
      RunNodes(c, steps, states, k - 1, m);
      l, held := StepMirrors(c, name, data, start, stores[k - 1], states[k - 1], steps[k - 1], m, held, stores[k], states[k]);
    }
  }

  lemma {:induction false} RunNodes(c: Cluster.Config, steps: seq<Cluster.Step>, states: seq<Cluster.State>, k: nat, m: Member)
    requires Cluster.WellFormed(c) && Cluster.IsRun(c, steps, states) && k <= |steps| && m in c.members
    ensures m in states[k].nodes && Cluster.NodeInv(c, m, states[k].nodes[m])
  {
    assert Cluster.IsRun(c, steps[..k], states[..k + 1]);
    Cluster.RunKeepsInv(c, steps[..k], states[..k + 1]);
    assert m in Elements(c.members);
  }

  /** In every run of a cluster, a middle whose store has room for what is placed on it behaves
      as modelled, whatever the others' stores do: the store holds at every moment exactly the
      shards the middle is modelled to hold, and refuses an answer exactly if it does not verify. */
  lemma {:induction false} StoresFollow(c: Cluster.Config, name: string, data: Bytes, steps: seq<Cluster.Step>,
                                        states: seq<Cluster.State>, stores: seq<map<Member, Ledger>>, k: nat, m: Member)
      returns (l: Ledger, held: map<nat, Bytes>)
    requires Cluster.WellFormed(c) && Cluster.IsRun(c, steps, states) && StoresRun(c, name, steps, stores)
    requires k <= |steps| && m in c.members && m in stores[0] && Prepared(c, name, data, stores[0][m], m)
    ensures m in stores[k] && l == stores[k][m] && m in states[k].nodes && held == states[k].nodes[m].held
    ensures Holds(l.versions, name) && VersionOf(l, name).shards == held
    ensures k < |steps| && steps[k].Answer? && steps[k].m == m && steps[k].payload.Some? ==>
      (Apply(c.hash, l, Delivery(name, steps[k])).1.Ok? <==> Cluster.Verified(c, steps[k].i, steps[k].payload))
  {
    l, held := RunMirrors(c, name, data, steps, states, stores, k, m, stores[0][m]);
    if k < |steps| {
      RunNodes(c, steps, states, k, m);
      var after, heldAfter := StepMirrors(c, name, data, stores[0][m], stores[k], states[k], steps[k], m, held, stores[k + 1], states[k + 1]);
    }
  }

  /** And once the cluster can make no more progress, that store holds every shard placed on its
      middle, as published. */
  lemma {:induction false} StoresFill(c: Cluster.Config, name: string, data: Bytes, steps: seq<Cluster.Step>,
                                      states: seq<Cluster.State>, stores: seq<map<Member, Ledger>>, m: Member)
      returns (l: Ledger)
    requires Cluster.WellFormed(c) && Cluster.IsRun(c, steps, states) && StoresRun(c, name, steps, stores)
    requires m in c.members && m in stores[0] && Prepared(c, name, data, stores[0][m], m)
    requires forall step :: !Cluster.Moves(c, states[|steps|], step)
    ensures m in stores[|steps|] && l == stores[|steps|][m] && Holds(l.versions, name)
    ensures VersionOf(l, name).shards.Keys == PlacedOn(c, m)
    ensures forall i: nat :: i in PlacedOn(c, m) ==> i < |c.shards| && VersionOf(l, name).shards[i] == c.shards[i]
  {
    var held, heldAfter;
    l, held := StoresFollow(c, name, data, steps, states, stores, |steps|, m);
    heldAfter := NodeFilled(c, steps, states, m);
  }

  lemma {:induction false} NodeFilled(c: Cluster.Config, steps: seq<Cluster.Step>, states: seq<Cluster.State>, m: Member)
      returns (held: map<nat, Bytes>)
    requires Cluster.WellFormed(c) && Cluster.IsRun(c, steps, states) && m in c.members
    requires forall step :: !Cluster.Moves(c, states[|steps|], step)
    ensures m in states[|steps|].nodes && held == states[|steps|].nodes[m].held
    ensures forall i: nat :: i in held <==> i in PlacedOn(c, m)
    ensures forall i: nat :: i in held ==> i < |c.shards| && held[i] == c.shards[i]
  {
    RunNodes(c, steps, states, |steps|, m);
    Cluster.EveryRunFills(c, steps, states);
    held := states[|steps|].nodes[m].held;
  }
}
