/** The client's side of a streaming download: shards are requested in batches from their
    preferred owners, arrive in any order, and are checked and digested in shard order. */
module Reassembly {
  import opened Wrappers
  import opened StableSort
  import opened Sharding
  import opened Placement
  import opened Merkle
  import opened Manifest

  // ---------------------------------------------------------------- grouping and batching

  datatype Batch = Batch(owner: Member, indices: seq<nat>)

  function Flatten(batches: seq<Batch>): seq<nat> {
    if batches == [] then [] else Flatten(batches[..|batches| - 1]) + batches[|batches| - 1].indices
  }

  lemma {:induction false} FlattenUpdate(batches: seq<Batch>, k: nat, index: nat)
    requires k < |batches|
    ensures multiset(Flatten(batches[k := batches[k].(indices := batches[k].indices + [index])]))
         == multiset(Flatten(batches)) + multiset{index}
  {
    var n := |batches| - 1;
    var changed := batches[k := batches[k].(indices := batches[k].indices + [index])];
    if k < n {
      FlattenUpdate(batches[..n], k, index);
      assert changed[..n] == batches[..n][k := batches[..n][k].(indices := batches[..n][k].indices + [index])];
    } else {
      assert changed[..n] == batches[..n];
    }
  }

  lemma {:induction false} FlattenElements(batches: seq<Batch>)
    ensures forall i :: i in Flatten(batches) <==> exists k :: 0 <= k < |batches| && i in batches[k].indices
  {
    if batches != [] {
      var n := |batches| - 1;
      FlattenElements(batches[..n]);
      forall i ensures i in Flatten(batches) <==> exists k :: 0 <= k < |batches| && i in batches[k].indices {
        if k :| 0 <= k < |batches| && i in batches[k].indices {
          assert k < n ==> batches[..n][k] == batches[k];
        }
        if i in Flatten(batches[..n]) {
          var k :| 0 <= k < n && i in batches[..n][k].indices;
          assert i in batches[k].indices;
        }
      }
    }
  }

  lemma {:induction false} FlattenPush(batches: seq<Batch>, b: Batch)
    ensures Flatten(batches + [b]) == Flatten(batches) + b.indices
  {
    assert (batches + [b])[..|batches|] == batches;
  }

  /** A batch is not empty, of limited size, and asks an owner for shards it is preferred for. */
  ghost predicate GoodBatch(b: Batch, first: nat -> Member, size: nat) {
    1 <= |b.indices| <= size && forall i :: i in b.indices ==> first(i) == b.owner
  }

  ghost predicate Preferred(batches: seq<Batch>, first: nat -> Member, size: nat) {
    forall k :: 0 <= k < |batches| ==> GoodBatch(batches[k], first, size)
  }

  /** No owner has two groups. */
  ghost predicate OnePerOwner(groups: seq<Batch>) {
    forall a, b :: 0 <= a < b < |groups| ==> groups[a].owner != groups[b].owner
  }

  method FindOwner(groups: seq<Batch>, owner: Member) returns (g: nat)
    ensures g <= |groups|
    ensures g < |groups| ==> groups[g].owner == owner
    ensures g == |groups| ==> forall a :: 0 <= a < |groups| ==> groups[a].owner != owner
  {
    g := 0;
    while g < |groups| && groups[g].owner != owner
      invariant g <= |groups| && forall a :: 0 <= a < g ==> groups[a].owner != owner
    {
      g := g + 1;
    }
  }

  /** Puts one shard into its owner's group, opening the group if there is none. */
  method AddToGroup(groups: seq<Batch>, index: nat, owner: Member, ghost first: nat -> Member, ghost size: nat)
    returns (r: seq<Batch>)
    requires OnePerOwner(groups) && Preferred(groups, first, size) && owner == first(index)
    ensures OnePerOwner(r) && Preferred(r, first, size + 1)
    ensures multiset(Flatten(r)) == multiset(Flatten(groups)) + multiset{index}
  {
    var g := FindOwner(groups, owner);
    if g == |groups| {
      OpenedGroup(groups, index, owner, first, size);
      r := groups + [Batch(owner, [index])];
    } else {
      ExtendedGroup(groups, g, index, first, size);
      r := groups[g := groups[g].(indices := groups[g].indices + [index])];
    }
  }

  lemma {:induction false} LooserLimit(batches: seq<Batch>, first: nat -> Member, size: nat)
    requires Preferred(batches, first, size)
    ensures Preferred(batches, first, size + 1)
  {
    forall k | 0 <= k < |batches| ensures GoodBatch(batches[k], first, size + 1) {
      assert GoodBatch(batches[k], first, size);
    }
  }

  lemma {:induction false} OpenedGroup(groups: seq<Batch>, index: nat, owner: Member, first: nat -> Member, size: nat)
    requires OnePerOwner(groups) && Preferred(groups, first, size) && owner == first(index)
    requires forall a :: 0 <= a < |groups| ==> groups[a].owner != owner
    ensures var r := groups + [Batch(owner, [index])];
      && OnePerOwner(r) && Preferred(r, first, size + 1)
      && multiset(Flatten(r)) == multiset(Flatten(groups)) + multiset{index}
  {
    FlattenPush(groups, Batch(owner, [index]));
    LooserLimit(groups, first, size);
    assert GoodBatch(Batch(owner, [index]), first, size + 1);
  }

  lemma {:induction false} ExtendedGroup(groups: seq<Batch>, g: nat, index: nat, first: nat -> Member, size: nat)
    requires OnePerOwner(groups) && Preferred(groups, first, size)
    requires g < |groups| && groups[g].owner == first(index)
    ensures var r := groups[g := groups[g].(indices := groups[g].indices + [index])];
      && OnePerOwner(r) && Preferred(r, first, size + 1)
      && multiset(Flatten(r)) == multiset(Flatten(groups)) + multiset{index}
  {
    FlattenUpdate(groups, g, index);
    LooserLimit(groups, first, size);
    var b := groups[g].(indices := groups[g].indices + [index]);
    assert GoodBatch(groups[g], first, size);
    assert GoodBatch(b, first, size + 1);
    assert forall k :: 0 <= k < |groups| ==> groups[g := b][k].owner == groups[k].owner;
  }

  /** Groups the selected shards by the owner each is asked from first. */
  method GroupByFirstOwner(selected: seq<nat>, first: nat -> Member) returns (groups: seq<Batch>)
    ensures OnePerOwner(groups) && Preferred(groups, first, |selected|)
    ensures multiset(Flatten(groups)) == multiset(selected)
  {
    groups := [];
    for k := 0 to |selected|
      invariant OnePerOwner(groups) && Preferred(groups, first, k)
      invariant multiset(Flatten(groups)) == multiset(selected[..k])
    {
      assert selected[..k + 1] == selected[..k] + [selected[k]];
      groups := AddToGroup(groups, selected[k], first(selected[k]), first, k);
    }
    assert selected[..|selected|] == selected;
  }

  method SliceGroup(group: Batch, size: nat, first: nat -> Member, ghost bound: nat) returns (batches: seq<Batch>)
    requires size >= 1 && GoodBatch(group, first, bound)
    ensures Preferred(batches, first, size) && Flatten(batches) == group.indices
  {
    batches := [];
    var offset := 0;
    while offset < |group.indices|
      invariant offset <= |group.indices|
      invariant Preferred(batches, first, size) && Flatten(batches) == group.indices[..offset]
      decreases |group.indices| - offset
    {
      var end := Min(offset + size, |group.indices|);
      var batch := Batch(group.owner, group.indices[offset..end]);
      FlattenPush(batches, batch);
      assert GoodBatch(batch, first, size);
      assert group.indices[..end] == group.indices[..offset] + group.indices[offset..end];
      batches := batches + [batch];
      offset := end;
    }
    assert group.indices[..offset] == group.indices;
  }

  lemma {:induction false} FlattenAppended(a: seq<Batch>, b: seq<Batch>)
    ensures Flatten(a + b) == Flatten(a) + Flatten(b)
  {
    if b == [] {
      assert a + b == a;
    } else {
      var n := |b| - 1;
      assert a + b == (a + b[..n]) + [b[n]];
      FlattenPush(a + b[..n], b[n]);
      FlattenAppended(a, b[..n]);
    }
  }

  lemma {:induction false} PreferredAppended(a: seq<Batch>, b: seq<Batch>, first: nat -> Member, size: nat)
    requires Preferred(a, first, size) && Preferred(b, first, size)
    ensures Preferred(a + b, first, size)
  {
  }

  /** Slices every group into batches; together they are the grouped shards in order. */
  method MakeBatches(groups: seq<Batch>, size: nat, first: nat -> Member, ghost bound: nat) returns (batches: seq<Batch>)
    requires size >= 1 && Preferred(groups, first, bound)
    ensures Preferred(batches, first, size) && Flatten(batches) == Flatten(groups)
  {
    batches := [];
    for g := 0 to |groups|
      invariant Preferred(batches, first, size) && Flatten(batches) == Flatten(groups[..g])
    {
      assert groups[..g + 1][..g] == groups[..g];
      var slices := SliceGroup(groups[g], size, first, bound);
      FlattenAppended(batches, slices);
      PreferredAppended(batches, slices, first, size);
      batches := batches + slices;
    }
    assert groups[..|groups|] == groups;
  }

  lemma {:induction false} OnceEach(s: seq<nat>, x: nat)
    requires Distinct(s)
    ensures multiset(s)[x] == if x in s then 1 else 0
  {
    if s != [] {
      var n := |s| - 1;
      assert s == s[..n] + [s[n]];
      OnceEach(s[..n], x);
    }
  }

  // ---------------------------------------------------------------- arrival and the frontier

  /** What happens to the download between the calls that started it and its end: a transport
      fills the target of one shard, or the work on a whole batch returns. */
  datatype Event = Offer(index: nat, bytes: Bytes) | Complete(batch: nat)

  /** An offer with the shard's digest. */
  predicate Accepted(hash: Bytes -> Digest, m: ShardManifest, e: Event) {
    e.Offer? && e.index < |m.shardChecksums| && hash(e.bytes) == m.shardChecksums[e.index]
  }

  /** The shards whose targets hold a verified shard: a target holds what was offered last. */
  function Held(hash: Bytes -> Digest, m: ShardManifest, events: seq<Event>): set<nat> {
    if events == [] then {}
    else HeldAfter(hash, m, Held(hash, m, events[..|events| - 1]), events[|events| - 1])
  }

  function HeldAfter(hash: Bytes -> Digest, m: ShardManifest, held: set<nat>, e: Event): set<nat> {
    if e.Complete? then held
    else if Accepted(hash, m, e) then held + {e.index}
    else held - {e.index}
  }

  function Returned(batches: seq<Batch>, events: seq<Event>): set<nat> {
    if events == [] then {}
    else
      var e := events[|events| - 1];
      Returned(batches, events[..|events| - 1])
      + (if e.Complete? && e.batch < |batches| then Elements(batches[e.batch].indices) else {})
  }

  /** The next event can follow what has happened: targets are written at their own length, also
      after they held a verified shard, but not once the batch they belong to has returned; a
      batch returns once, when its targets hold verified shards. */
  ghost predicate CanFollow(hash: Bytes -> Digest, m: ShardManifest, batches: seq<Batch>, before: seq<Event>, e: Event) {
    match e
    case Offer(i, bytes) =>
      && i < m.shardCount && |bytes| == ShardLength(m.totalSize, m.shardSize, i)
      && i !in Returned(batches, before)
    case Complete(b) =>
      && b < |batches| && Complete(b) !in before
      && (forall i :: i in batches[b].indices ==> i in Held(hash, m, before))
  }

  ghost predicate Scheduled(hash: Bytes -> Digest, m: ShardManifest, batches: seq<Batch>, events: seq<Event>) {
    forall k :: 0 <= k < |events| ==> CanFollow(hash, m, batches, events[..k], events[k])
  }

  /** The sizes of a manifest a reader has accepted. */
  ghost predicate Sized(m: ShardManifest) {
    m.shardSize >= 1 && m.shardCount == ShardCount(m.totalSize, m.shardSize) == |m.shardChecksums|
  }

  /** The span of one shard in the assembled buffer. */
  function Span(m: ShardManifest, data: Bytes, i: nat): Bytes
    requires Sized(m) && |data| == m.totalSize && i < m.shardCount
  {
    ShardSpan(m.totalSize, m.shardSize, i);
    data[i * m.shardSize..SpanEnd(m.totalSize, m.shardSize, i + 1)]
  }

  function Numbered(n: nat): (r: seq<nat>)
    ensures |r| == n && forall i :: 0 <= i < n ==> r[i] == i
  {
    seq(n, i requires 0 <= i < n => i)
  }

  /** The download state the event loop keeps: held shards match their digests, finished
      batches wait until every shard before them is finished, and the running digest has seen
      exactly the shards before the frontier. */
  ghost predicate Progress(hash: Bytes -> Digest, m: ShardManifest, batches: seq<Batch>, events: seq<Event>,
                           data: Bytes, ready: set<nat>, frontier: nat, digested: Bytes, visited: seq<nat>)
    requires Sized(m) && |data| == m.totalSize
  {
    && frontier <= m.shardCount
    && (forall i :: i in Held(hash, m, events) ==> i < m.shardCount && hash(Span(m, data, i)) == m.shardChecksums[i])
    && Returned(batches, events) <= Held(hash, m, events)
    && (forall i: nat :: i in Returned(batches, events) <==> i < frontier || i in ready)
    && (forall i :: i in ready ==> i >= frontier)
    && digested == data[..SpanEnd(m.totalSize, m.shardSize, frontier)]
    && visited == Numbered(frontier)
  }

  lemma {:induction false} EventStep(hash: Bytes -> Digest, m: ShardManifest, batches: seq<Batch>, events: seq<Event>, k: nat)
    requires k < |events|
    ensures Held(hash, m, events[..k + 1]) == HeldAfter(hash, m, Held(hash, m, events[..k]), events[k])
    ensures Returned(batches, events[..k + 1])
         == Returned(batches, events[..k])
            + (if events[k].Complete? && events[k].batch < |batches| then Elements(batches[events[k].batch].indices) else {})
  {
    assert events[..k + 1][..k] == events[..k];
  }

  /** Spans of different shards do not meet. */
  lemma {:induction false} SpansApart(m: ShardManifest, i: nat, j: nat)
    requires Sized(m) && i < j < m.shardCount
    ensures SpanEnd(m.totalSize, m.shardSize, i + 1) <= j * m.shardSize
  {
    TimesMonotone(i + 1, j, m.shardSize);
  }

  function Written(m: ShardManifest, data: Bytes, i: nat, bytes: Bytes): (r: Bytes)
    requires Sized(m) && |data| == m.totalSize && i < m.shardCount
    requires |bytes| == ShardLength(m.totalSize, m.shardSize, i)
    ensures |r| == |data|
  {
    ShardSpan(m.totalSize, m.shardSize, i);
    data[..i * m.shardSize] + bytes + data[SpanEnd(m.totalSize, m.shardSize, i + 1)..]
  }

  lemma {:induction false} Splice(data: Bytes, from: nat, to: nat, bytes: Bytes, p: nat, q: nat)
    requires from <= to <= |data| && |bytes| == to - from && p <= q <= |data|
    ensures var w := data[..from] + bytes + data[to..];
      && |w| == |data| && w[from..to] == bytes
      && (q <= from || to <= p ==> w[p..q] == data[p..q])
  {
    var w := data[..from] + bytes + data[to..];
    assert forall k :: 0 <= k < |w| && !(from <= k < to) ==> w[k] == data[k];
  }

  /** Filling one target changes that shard and no other. */
  lemma {:induction false} WrittenSpans(m: ShardManifest, data: Bytes, i: nat, bytes: Bytes, j: nat)
    requires Sized(m) && |data| == m.totalSize && i < m.shardCount && j < m.shardCount
    requires |bytes| == ShardLength(m.totalSize, m.shardSize, i)
    ensures Span(m, Written(m, data, i, bytes), j) == if i == j then bytes else Span(m, data, j)
  {
    ShardSpan(m.totalSize, m.shardSize, i);
    ShardSpan(m.totalSize, m.shardSize, j);
    if i < j {
      SpansApart(m, i, j);
    } else if j < i {
      SpansApart(m, j, i);
    }
    Splice(data, i * m.shardSize, SpanEnd(m.totalSize, m.shardSize, i + 1), bytes,
           j * m.shardSize, SpanEnd(m.totalSize, m.shardSize, j + 1));
  }

  lemma {:induction false} WrittenBeyond(m: ShardManifest, data: Bytes, i: nat, bytes: Bytes, k: nat)
    requires Sized(m) && |data| == m.totalSize && k <= i < m.shardCount
    requires |bytes| == ShardLength(m.totalSize, m.shardSize, i)
    ensures var end := SpanEnd(m.totalSize, m.shardSize, k); Written(m, data, i, bytes)[..end] == data[..end]
  {
    ShardSpan(m.totalSize, m.shardSize, i);
    TimesMonotone(k, i, m.shardSize);
    Splice(data, i * m.shardSize, SpanEnd(m.totalSize, m.shardSize, i + 1), bytes,
           0, SpanEnd(m.totalSize, m.shardSize, k));
  }

  lemma {:induction false} OfferProgress(hash: Bytes -> Digest, m: ShardManifest, batches: seq<Batch>, events: seq<Event>, k: nat,
                                         data: Bytes, ready: set<nat>, frontier: nat, digested: Bytes, visited: seq<nat>)
    requires Sized(m) && |data| == m.totalSize && k < |events| && events[k].Offer?
    requires CanFollow(hash, m, batches, events[..k], events[k])
    requires Progress(hash, m, batches, events[..k], data, ready, frontier, digested, visited)
    ensures Progress(hash, m, batches, events[..k + 1], Written(m, data, events[k].index, events[k].bytes),
                     ready, frontier, digested, visited)
  {
    var i, bytes := events[k].index, events[k].bytes;
    var after := Written(m, data, i, bytes);
    EventStep(hash, m, batches, events, k);
    forall j | j in Held(hash, m, events[..k + 1])
      ensures j < m.shardCount && hash(Span(m, after, j)) == m.shardChecksums[j]
    {
      WrittenSpans(m, data, i, bytes, j);
    }
    assert i >= frontier;
    WrittenBeyond(m, data, i, bytes, frontier);
  }

  lemma {:induction false} CompleteProgress(hash: Bytes -> Digest, m: ShardManifest, batches: seq<Batch>, events: seq<Event>, k: nat,
                                            data: Bytes, ready: set<nat>, frontier: nat, digested: Bytes, visited: seq<nat>)
    requires Sized(m) && |data| == m.totalSize && k < |events| && events[k].Complete?
    requires CanFollow(hash, m, batches, events[..k], events[k])
    requires multiset(Flatten(batches)) == multiset(Numbered(m.shardCount))
    requires Progress(hash, m, batches, events[..k], data, ready, frontier, digested, visited)
    ensures Progress(hash, m, batches, events[..k + 1], data, ready + Elements(batches[events[k].batch].indices),
                     frontier, digested, visited)
  {
    EventStep(hash, m, batches, events, k);
    var b := events[k].batch;
    forall i | i in batches[b].indices ensures i >= frontier {
      NotYetReturned(hash, m, batches, events, k, b, i);
    }
  }

  lemma {:induction false} ReturnedFrom(batches: seq<Batch>, events: seq<Event>, i: nat) returns (b: nat)
    requires i in Returned(batches, events)
    ensures b < |batches| && Complete(b) in events && i in batches[b].indices
  {
    var n := |events| - 1;
    if i in Returned(batches, events[..n]) {
      b := ReturnedFrom(batches, events[..n], i);
    } else {
      b := events[n].batch;
    }
  }

  /** In a partition no shard is in two batches, so a batch still out brings only new shards. */
  lemma {:induction false} NotYetReturned(hash: Bytes -> Digest, m: ShardManifest, batches: seq<Batch>, events: seq<Event>,
                                          k: nat, b: nat, i: nat)
    requires k < |events| && events[k] == Complete(b) && CanFollow(hash, m, batches, events[..k], events[k])
    requires multiset(Flatten(batches)) == multiset(Numbered(m.shardCount)) && i in batches[b].indices
    ensures i !in Returned(batches, events[..k])
  {
    if i in Returned(batches, events[..k]) {
      var other := ReturnedFrom(batches, events[..k], i);
      OnceEach(Numbered(m.shardCount), i);
      TwiceIn(batches, if b < other then b else other, if b < other then other else b, i);
    }
  }

  lemma {:induction false} OnceIn(batches: seq<Batch>, k: nat, i: nat)
    requires k < |batches| && i in batches[k].indices
    ensures multiset(Flatten(batches))[i] >= 1
  {
    var n := |batches| - 1;
    assert i in multiset(batches[k].indices);
    if k < n {
      OnceIn(batches[..n], k, i);
    }
  }

  lemma {:induction false} TwiceIn(batches: seq<Batch>, a: nat, b: nat, i: nat)
    requires a < b < |batches| && i in batches[a].indices && i in batches[b].indices
    ensures multiset(Flatten(batches))[i] >= 2
  {
    var n := |batches| - 1;
    if b < n {
      TwiceIn(batches[..n], a, b, i);
    } else {
      OnceIn(batches[..n], a, i);
      assert i in multiset(batches[n].indices);
    }
  }

  lemma {:induction false} FrontierProgress(hash: Bytes -> Digest, m: ShardManifest, batches: seq<Batch>, events: seq<Event>,
                                            data: Bytes, ready: set<nat>, frontier: nat, digested: Bytes, visited: seq<nat>)
    requires Sized(m) && |data| == m.totalSize && frontier in ready
    requires Progress(hash, m, batches, events, data, ready, frontier, digested, visited)
    ensures frontier < m.shardCount
    ensures Progress(hash, m, batches, events, data, ready - {frontier}, frontier + 1,
                     digested + Span(m, data, frontier), visited + [frontier])
  {
    assert frontier in Returned(batches, events);
    ShardSpan(m.totalSize, m.shardSize, frontier);
  }

  /** Every shard is back once every batch is, and then the frontier has passed them all. */
  lemma {:induction false} AllReturned(hash: Bytes -> Digest, m: ShardManifest, batches: seq<Batch>, events: seq<Event>, data: Bytes,
                                       ready: set<nat>, frontier: nat, digested: Bytes, visited: seq<nat>)
    requires Sized(m) && |data| == m.totalSize && frontier !in ready
    requires multiset(Flatten(batches)) == multiset(Numbered(m.shardCount))
    requires Progress(hash, m, batches, events, data, ready, frontier, digested, visited)
    requires forall b :: 0 <= b < |batches| ==> Complete(b) in events
    ensures frontier == m.shardCount && digested == data && visited == Numbered(m.shardCount)
    ensures forall i :: 0 <= i < m.shardCount ==> hash(Span(m, data, i)) == m.shardChecksums[i]
  {
    forall i: nat | i < m.shardCount ensures i in Returned(batches, events) {
      assert Numbered(m.shardCount)[i] == i;
      assert i in multiset(Numbered(m.shardCount));
      assert i in Flatten(batches);
      FlattenElements(batches);
      var b :| 0 <= b < |batches| && i in batches[b].indices;
      CompletedReturns(batches, events, b, i);
    }
    CeilDivLeast(m.totalSize, m.shardSize, m.shardCount);
  }

  lemma {:induction false} CompletedReturns(batches: seq<Batch>, events: seq<Event>, b: nat, i: nat)
    requires b < |batches| && Complete(b) in events && i in batches[b].indices
    ensures i in Returned(batches, events)
  {
    var n := |events| - 1;
    if events[n] != Complete(b) {
      assert events == events[..n] + [events[n]];
      CompletedReturns(batches, events[..n], b, i);
    }
  }

  /** The check after the last batch: the running digest, or the root of the manifest itself. */
  predicate FinalCheck(hash: Bytes -> Digest, m: ShardManifest, data: Bytes) {
    if m.root.None? then hash(data) == m.checksum else Root(hash, m.shardChecksums) == m.root.value
  }

  /** The event loop of a full download into its preallocated buffer.  It succeeds exactly when
      every batch has returned and the final check passes; then the shards were taken to the
      digest in order, each once, and every one of them matches its digest. */
  method Assemble(hash: Bytes -> Digest, m: ShardManifest, batches: seq<Batch>, events: seq<Event>, data: array<Byte>)
    returns (ok: bool, ghost visited: seq<nat>)
    requires Sized(m) && data.Length == m.totalSize && Scheduled(hash, m, batches, events)
    requires multiset(Flatten(batches)) == multiset(Numbered(m.shardCount))
    modifies data
    ensures ok <==> (forall b :: 0 <= b < |batches| ==> Complete(b) in events) && FinalCheck(hash, m, data[..])
    ensures ok ==>
      && visited == Numbered(m.shardCount)
      && forall i :: 0 <= i < m.shardCount ==> hash(Span(m, data[..], i)) == m.shardChecksums[i]
  {
    var ready: set<nat>, frontier: nat := {}, 0;
    var digested: Bytes, finished: set<nat> := [], {};
    visited := [];
    assert SpanEnd(m.totalSize, m.shardSize, 0) == 0;
    for k := 0 to |events|
      invariant Progress(hash, m, batches, events[..k], data[..], ready, frontier, digested, visited)
      invariant frontier !in ready
      invariant forall b :: b in finished <==> Complete(b) in events[..k]
    {
      assert CanFollow(hash, m, batches, events[..k], events[k]);
      assert events[..k + 1] == events[..k] + [events[k]];
      match events[k]
      case Offer(i, bytes) =>
        OfferProgress(hash, m, batches, events, k, data[..], ready, frontier, digested, visited);
        WriteSpan(m, data, i, bytes);
      case Complete(b) =>
        CompleteProgress(hash, m, batches, events, k, data[..], ready, frontier, digested, visited);
        finished := finished + {b};
        ready := ready + Elements(batches[b].indices);
        ready, frontier, digested, visited :=
          AdvanceFrontier(hash, m, batches, events[..k + 1], data, ready, frontier, digested, visited);
    }
    assert events[..|events|] == events;
    if exists b :: 0 <= b < |batches| && b !in finished {
      return false, visited;
    }
    AllReturned(hash, m, batches, events, data[..], ready, frontier, digested, visited);
    ok := if m.root.None? then hash(digested) == m.checksum else Root(hash, m.shardChecksums) == m.root.value;
  }

  /** Takes to the digest every shard that is ready and whose predecessors all were. */
  method AdvanceFrontier(ghost hash: Bytes -> Digest, m: ShardManifest, ghost batches: seq<Batch>, ghost events: seq<Event>,
                         data: array<Byte>, ready0: set<nat>, frontier0: nat, digested0: Bytes, ghost visited0: seq<nat>)
    returns (ready: set<nat>, frontier: nat, digested: Bytes, ghost visited: seq<nat>)
    requires Sized(m) && data.Length == m.totalSize
    requires Progress(hash, m, batches, events, data[..], ready0, frontier0, digested0, visited0)
    ensures Progress(hash, m, batches, events, data[..], ready, frontier, digested, visited)
    ensures frontier !in ready
  {
    ready, frontier, digested, visited := ready0, frontier0, digested0, visited0;
    while frontier in ready
      invariant Progress(hash, m, batches, events, data[..], ready, frontier, digested, visited)
      decreases ready
    {
      FrontierProgress(hash, m, batches, events, data[..], ready, frontier, digested, visited);
      digested := digested + Span(m, data[..], frontier);
      visited := visited + [frontier];
      ready := ready - {frontier};
      frontier := frontier + 1;
    }
  }

  method WriteSpan(m: ShardManifest, data: array<Byte>, i: nat, bytes: Bytes)
    requires Sized(m) && data.Length == m.totalSize && i < m.shardCount
    requires |bytes| == ShardLength(m.totalSize, m.shardSize, i)
    modifies data
    ensures data[..] == Written(m, old(data[..]), i, bytes)
  {
    ShardSpan(m.totalSize, m.shardSize, i);
    var start := i * m.shardSize;
    forall j | 0 <= j < |bytes| {
      data[start + j] := bytes[j];
    }
  }

  /** If the manifest is the published one, a successful download is the published buffer,
      unless one of its shards collides with the shard it replaced. */
  lemma {:induction false} AssembledIsPublished(hash: Bytes -> Digest, m: ShardManifest, data: Bytes, published: Bytes)
    requires Sized(m) && |data| == m.totalSize == |published|
    requires m.shardChecksums == DigestsOf(hash, Shards(published, m.shardSize))
    requires forall i :: 0 <= i < m.shardCount ==> hash(Span(m, data, i)) == m.shardChecksums[i]
    requires CollisionFree(hash, Elements(Shards(data, m.shardSize)) + Elements(Shards(published, m.shardSize)))
    ensures data == published
  {
    var a, b := Shards(data, m.shardSize), Shards(published, m.shardSize);
    forall i | 0 <= i < m.shardCount ensures a[i] == b[i] {
      assert a[i] in Elements(a) && b[i] in Elements(b);
      assert a[i] == Span(m, data, i);
    }
    assert a == b;
    JoinShards(data, m.shardSize);
    JoinShards(published, m.shardSize);
  }

  // ---------------------------------------------------------------- caller-owned targets

  /** A target buffer by its first address and the one after its last. */
  datatype Region = Region(start: int, end: int)

  function ByStart(): Region -> int {
    (r: Region) => -r.start
  }

  predicate NeighboursApart(regions: seq<Region>) {
    forall i :: 0 <= i < |regions| - 1 ==> regions[i].end <= regions[i + 1].start
  }

  ghost predicate Apart(a: Region, b: Region) {
    a.end <= b.start || b.end <= a.start
  }

  ghost predicate AllApart(regions: seq<Region>) {
    forall i, j :: 0 <= i < j < |regions| ==> Apart(regions[i], regions[j])
  }

  lemma {:induction false} NeighboursSuffice(s: seq<Region>, i: nat, j: nat)
    requires NeighboursApart(s) && i < j < |s|
    requires forall r :: r in s ==> r.start < r.end
    ensures s[i].end <= s[j].start
    decreases j
  {
    if i + 1 < j {
      NeighboursSuffice(s, i, j - 1);
      assert s[j - 1] in s && s[j - 1].end <= s[j].start;
    }
  }

  lemma {:induction false} NeighboursNeeded(s: seq<Region>)
    requires Descending(s, ByStart()) && AllApart(s)
    requires forall r :: r in s ==> r.start < r.end
    ensures NeighboursApart(s)
  {
    forall i | 0 <= i < |s| - 1 ensures s[i].end <= s[i + 1].start {
      assert ByStart()(s[i]) >= ByStart()(s[i + 1]);
      assert Apart(s[i], s[i + 1]) && s[i] in s && s[i + 1] in s;
    }
  }

  /** Comparing each buffer with the next one in address order finds every overlap: no two of
      the given non-empty buffers overlap exactly when no neighbours do. */
  lemma {:induction false} OverlapCheckExact(regions: seq<Region>)
    requires forall r :: r in regions ==> r.start < r.end
    ensures NeighboursApart(Sort(regions, ByStart())) <==> AllApart(regions)
  {
    var s := Sort(regions, ByStart());
    SortElements(regions, ByStart());
    if NeighboursApart(s) {
      forall i, j | 0 <= i < j < |s| ensures Apart(s[i], s[j]) {
        NeighboursSuffice(s, i, j);
      }
      ApartPermutes(s, regions);
    }
    if AllApart(regions) {
      ApartPermutes(regions, s);
      SortDescending(regions, ByStart());
      NeighboursNeeded(s);
    }
  }

  lemma {:induction false} ApartPermutes(a: seq<Region>, b: seq<Region>)
    requires multiset(a) == multiset(b) && AllApart(a)
    requires forall r :: r in a ==> r.start < r.end
    ensures AllApart(b)
  {
    forall i, j | 0 <= i < j < |b| ensures Apart(b[i], b[j]) {
      assert b[i] in multiset(a) && b[j] in multiset(a);
      var p :| 0 <= p < |a| && a[p] == b[i];
      var q :| 0 <= q < |a| && a[q] == b[j];
      if b[i] == b[j] {
        TwoPlaces(b, i, j);
        OnePlace(a, p);
      }
    }
  }

  lemma {:induction false} TwoPlaces(s: seq<Region>, i: nat, j: nat)
    requires i < j < |s| && s[i] == s[j]
    ensures multiset(s)[s[i]] >= 2
  {
    assert s == s[..j] + [s[j]] + s[j + 1..];
    assert s[..j][i] == s[i] && s[i] in multiset(s[..j]);
  }

  lemma {:induction false} OnePlace(s: seq<Region>, p: nat)
    requires AllApart(s) && p < |s| && s[p].start < s[p].end
    ensures multiset(s)[s[p]] == 1
  {
    assert s == s[..p] + [s[p]] + s[p + 1..];
    assert forall i :: 0 <= i < p ==> s[i] != s[p];
    assert forall i :: p < i < |s| ==> s[i] != s[p];
    assert s[p] !in multiset(s[..p]) && s[p] !in multiset(s[p + 1..]);
  }
}
