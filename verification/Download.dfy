/** A whole streaming download: every batch is received over the batched exchange or shard by
    shard from its owners in turn, rewriting its targets as often as it takes; the batches'
    work interleaves in any order, and the event loop puts the version together. */
module Download {
  import opened Wrappers
  import opened StableSort
  import opened Sharding
  import opened Placement
  import opened Disruption
  import opened Merkle
  import opened Manifest
  import opened Exchange
  import opened Reassembly

  // ---------------------------------------------------------------- the network

  /** What an attempt leaves in a target, and whether the transport reports success. */
  datatype Fill = Fill(bytes: Bytes, delivered: bool)

  /** One batch's peer: whether it offers the batched exchange, what it sends, and what an
      exchange that fails may have written to the targets. */
  datatype Lane = Lane(offered: bool, reply: ControlReply, bulk: seq<Bytes>, partial: seq<(nat, Bytes)>)

  /** The rounds that fit before a shard's deadline, and each owner's answer in each round: over
      RDMA, if it has an endpoint for it, and over HTTP. */
  datatype Network = Network(
    lanes: nat -> Lane, rounds: nat -> nat,
    rdma: (nat, nat, Member) -> Option<Fill>, http: (nat, nat, Member) -> Fill)

  datatype Transport = Auto | HttpOnly | RdmaOnly

  predicate Fitting(m: ShardManifest, i: nat, bytes: Bytes) {
    i < m.shardCount && |bytes| == ShardLength(m.totalSize, m.shardSize, i)
  }

  /** What an attempt writes to its target. */
  function Writes(m: ShardManifest, i: nat, fill: Fill): seq<Event> {
    if Fitting(m, i, fill.bytes) then [Offer(i, fill.bytes)] else []
  }

  /** The attempt succeeds: it is reported delivered and the target has the shard's digest. */
  predicate Good(hash: Bytes -> Digest, m: ShardManifest, i: nat, fill: Fill) {
    fill.delivered && Fitting(m, i, fill.bytes) && Accepted(hash, m, Offer(i, fill.bytes))
  }

  function Rdma(mode: Transport, net: Network, i: nat, round: nat, owner: Member): Option<Fill> {
    if mode == HttpOnly then None else net.rdma(i, round, owner)
  }

  /** The owner delivers the shard in that round, over one transport or the other. */
  predicate Delivers(hash: Bytes -> Digest, m: ShardManifest, mode: Transport, net: Network, i: nat, round: nat, owner: Member) {
    || (Rdma(mode, net, i, round, owner).Some? && Good(hash, m, i, Rdma(mode, net, i, round, owner).value))
    || (mode != RdmaOnly && Good(hash, m, i, net.http(i, round, owner)))
  }

  /** Some owner delivers the shard before its deadline. */
  ghost predicate Obtainable(hash: Bytes -> Digest, m: ShardManifest, mode: Transport, net: Network, i: nat, owners: seq<Member>) {
    exists round: nat, owner :: round < net.rounds(i) && owner in owners && Delivers(hash, m, mode, net, i, round, owner)
  }

  // ---------------------------------------------------------------- traces of offers

  /** The events write to targets of the given shards only, each at its own length. */
  ghost predicate OffersTo(m: ShardManifest, indices: seq<nat>, offers: seq<Event>) {
    forall k :: 0 <= k < |offers| ==>
      offers[k].Offer? && offers[k].index in indices && Fitting(m, offers[k].index, offers[k].bytes)
  }

  lemma {:induction false} HeldSnoc(hash: Bytes -> Digest, m: ShardManifest, events: seq<Event>, e: Event)
    ensures Held(hash, m, events + [e]) == HeldAfter(hash, m, Held(hash, m, events), e)
  {
    assert (events + [e])[..|events|] == events;
  }

  /** Offers to other targets leave a held shard held. */
  lemma {:induction false} HeldAppend(hash: Bytes -> Digest, m: ShardManifest, a: seq<Event>, b: seq<Event>, i: nat)
    requires i in Held(hash, m, a)
    requires forall k :: 0 <= k < |b| ==> b[k].Offer? ==> b[k].index != i
    ensures i in Held(hash, m, a + b)
  {
    if b == [] {
      assert a + b == a;
    } else {
      var n := |b| - 1;
      HeldAppend(hash, m, a, b[..n], i);
      HeldSnoc(hash, m, a + b[..n], b[n]);
      assert a + b == a + b[..n] + [b[n]];
    }
  }

  /** What was verified last is held, whatever was there before. */
  lemma {:induction false} HeldLast(hash: Bytes -> Digest, m: ShardManifest, a: seq<Event>, b: seq<Event>)
    requires b != [] && Accepted(hash, m, b[|b| - 1])
    ensures b[|b| - 1].index in Held(hash, m, a + b)
  {
    var n := |b| - 1;
    HeldSnoc(hash, m, a + b[..n], b[n]);
    assert a + b == a + b[..n] + [b[n]];
  }

  // ---------------------------------------------------------------- one shard

  /** What asking an owner writes: first what comes over RDMA, if that is tried, then what comes
      over HTTP, unless the shard is there already or HTTP is not used. */
  function Asked(hash: Bytes -> Digest, m: ShardManifest, mode: Transport, net: Network, i: nat, round: nat, owner: Member): seq<Event> {
    var rdma, http := net.rdma(i, round, owner), Writes(m, i, net.http(i, round, owner));
    if mode == HttpOnly || rdma.None? then (if mode == RdmaOnly then [] else http)
    else if Good(hash, m, i, rdma.value) || mode == RdmaOnly then Writes(m, i, rdma.value)
    else Writes(m, i, rdma.value) + http
  }

  /** What asking the owners in turn writes, round after round, up to the k-th owner of the last
      round. */
  function AskedInTurn(hash: Bytes -> Digest, m: ShardManifest, mode: Transport, net: Network, i: nat, owners: seq<Member>,
                       round: nat, k: nat): seq<Event>
    requires k <= |owners|
    decreases round, k
  {
    if k > 0 then AskedInTurn(hash, m, mode, net, i, owners, round, k - 1) + Asked(hash, m, mode, net, i, round, owners[k - 1])
    else if round > 0 then AskedInTurn(hash, m, mode, net, i, owners, round - 1, |owners|)
    else []
  }

  /** The owners were asked in turn: up to the first that delivered, or through all rounds. */
  ghost predicate InTurn(hash: Bytes -> Digest, m: ShardManifest, mode: Transport, net: Network, i: nat, owners: seq<Member>,
                         offers: seq<Event>, ok: bool) {
    if !ok then offers == AskedInTurn(hash, m, mode, net, i, owners, net.rounds(i), 0)
    else exists round: nat, k: nat ::
      && round < net.rounds(i) && k < |owners| && FirstDelivers(hash, m, mode, net, i, owners, round, k)
      && offers == AskedInTurn(hash, m, mode, net, i, owners, round, k + 1)
  }

  /** The k-th owner of that round delivers, and none did before. */
  ghost predicate FirstDelivers(hash: Bytes -> Digest, m: ShardManifest, mode: Transport, net: Network, i: nat, owners: seq<Member>,
                                round: nat, k: nat) {
    && k < |owners| && Delivers(hash, m, mode, net, i, round, owners[k])
    && NoneBefore(hash, m, mode, net, i, owners, round) && NoneOf(hash, m, mode, net, i, round, owners, k)
  }

  /** Asks one owner: over RDMA if it can, then over HTTP unless only RDMA is allowed. */
  method AskOwner(hash: Bytes -> Digest, m: ShardManifest, mode: Transport, net: Network, i: nat, round: nat, owner: Member)
    returns (offers: seq<Event>, ok: bool)
    ensures OffersTo(m, [i], offers)
    ensures offers == Asked(hash, m, mode, net, i, round, owner)
    ensures ok <==> Delivers(hash, m, mode, net, i, round, owner)
    ensures ok ==> offers != [] && Accepted(hash, m, offers[|offers| - 1])
  {
    offers := [];
    var endpoint := Rdma(mode, net, i, round, owner);
    if endpoint.Some? {
      offers := Writes(m, i, endpoint.value);
      if Good(hash, m, i, endpoint.value) {
        return offers, true;
      }
    }
    if mode == RdmaOnly {
      return offers, false;
    }
    var fill := net.http(i, round, owner);
    offers := offers + Writes(m, i, fill);
    ok := Good(hash, m, i, fill);
  }

  /** None of the first k owners delivers in this round. */
  ghost predicate NoneOf(hash: Bytes -> Digest, m: ShardManifest, mode: Transport, net: Network, i: nat, round: nat, owners: seq<Member>, k: nat) {
    k <= |owners| && forall j :: 0 <= j < k ==> !Delivers(hash, m, mode, net, i, round, owners[j])
  }

  lemma {:induction false} AskedNext(hash: Bytes -> Digest, m: ShardManifest, mode: Transport, net: Network, i: nat, owners: seq<Member>,
                                     round: nat, k: nat, offers: seq<Event>, asked: seq<Event>)
    requires k < |owners| && offers == AskedInTurn(hash, m, mode, net, i, owners, round, k)
    requires asked == Asked(hash, m, mode, net, i, round, owners[k])
    ensures offers + asked == AskedInTurn(hash, m, mode, net, i, owners, round, k + 1)
  {
  }

  lemma {:induction false} OffersJoin(m: ShardManifest, indices: seq<nat>, before: seq<Event>, more: seq<Event>)
    requires OffersTo(m, indices, before) && OffersTo(m, indices, more)
    ensures OffersTo(m, indices, before + more)
    ensures more != [] ==> (before + more)[|before + more| - 1] == more[|more| - 1]
  {
  }

  /** The first k owners were asked in this round, to no avail. */
  ghost predicate AskedSoFar(hash: Bytes -> Digest, m: ShardManifest, mode: Transport, net: Network, i: nat, owners: seq<Member>,
                             round: nat, k: nat, offers: seq<Event>) {
    && OffersTo(m, [i], offers) && NoneOf(hash, m, mode, net, i, round, owners, k)
    && offers == AskedInTurn(hash, m, mode, net, i, owners, round, k)
  }

  /** The k-th owner was the first of this round that delivered. */
  ghost predicate DeliveredAt(hash: Bytes -> Digest, m: ShardManifest, mode: Transport, net: Network, i: nat, owners: seq<Member>,
                              round: nat, k: nat, offers: seq<Event>) {
    && k < |owners| && OffersTo(m, [i], offers) && NoneOf(hash, m, mode, net, i, round, owners, k)
    && Delivers(hash, m, mode, net, i, round, owners[k]) && offers == AskedInTurn(hash, m, mode, net, i, owners, round, k + 1)
    && offers != [] && Accepted(hash, m, offers[|offers| - 1])
  }

  /** Asks the k-th owner. */
  method AskNext(hash: Bytes -> Digest, m: ShardManifest, mode: Transport, net: Network, i: nat, owners: seq<Member>, round: nat,
                 k: nat, before: seq<Event>)
    returns (offers: seq<Event>, delivered: bool)
    requires k < |owners| && AskedSoFar(hash, m, mode, net, i, owners, round, k, before)
    ensures if delivered then DeliveredAt(hash, m, mode, net, i, owners, round, k, offers)
            else AskedSoFar(hash, m, mode, net, i, owners, round, k + 1, offers)
  {
    var asked;
    asked, delivered := AskOwner(hash, m, mode, net, i, round, owners[k]);
    AskedNext(hash, m, mode, net, i, owners, round, k, before, asked);
    OffersJoin(m, [i], before, asked);
    offers := before + asked;
  }

  /** One round: the owners are asked in turn until one delivers. */
  method AskRound(hash: Bytes -> Digest, m: ShardManifest, mode: Transport, net: Network, i: nat, owners: seq<Member>, round: nat,
                  before: seq<Event>)
    returns (offers: seq<Event>, k: nat)
    requires AskedSoFar(hash, m, mode, net, i, owners, round, 0, before)
    ensures k <= |owners|
    ensures if k < |owners| then DeliveredAt(hash, m, mode, net, i, owners, round, k, offers)
            else AskedSoFar(hash, m, mode, net, i, owners, round, k, offers)
  {
    offers, k := before, 0;
    while k < |owners|
      invariant k <= |owners| && AskedSoFar(hash, m, mode, net, i, owners, round, k, offers)
    {
      var delivered;
      offers, delivered := AskNext(hash, m, mode, net, i, owners, round, k, offers);
      if delivered {
        return;
      }
      k := k + 1;
    }
  }

  /** Goes round the owners until one delivers the shard or the deadline is over. */
  method ReceiveShard(hash: Bytes -> Digest, m: ShardManifest, mode: Transport, net: Network, i: nat, owners: seq<Member>)
    returns (offers: seq<Event>, ok: bool)
    ensures OffersTo(m, [i], offers)
    ensures ok <==> Obtainable(hash, m, mode, net, i, owners)
    ensures ok ==> offers != [] && Accepted(hash, m, offers[|offers| - 1])
    ensures InTurn(hash, m, mode, net, i, owners, offers, ok)
  {
    offers := [];
    var round := 0;
    while round < net.rounds(i)
      invariant round <= net.rounds(i)
      invariant AskedSoFar(hash, m, mode, net, i, owners, round, 0, offers)
      invariant NoneBefore(hash, m, mode, net, i, owners, round)
    {
      var k;
      offers, k := AskRound(hash, m, mode, net, i, owners, round, offers);
      if k < |owners| {
        DeliveredInTurn(hash, m, mode, net, i, owners, round, k, offers);
        return offers, true;
      }
      NoneInRound(hash, m, mode, net, i, owners, round, offers);
      round := round + 1;
    }
    NeverInTurn(hash, m, mode, net, i, owners, offers);
    return offers, false;
  }

  /** No owner delivers in the rounds before. */
  ghost predicate NoneBefore(hash: Bytes -> Digest, m: ShardManifest, mode: Transport, net: Network, i: nat, owners: seq<Member>, round: nat) {
    forall r: nat, o :: r < round && o in owners ==> !Delivers(hash, m, mode, net, i, r, o)
  }

  lemma {:induction false} NoneInRound(hash: Bytes -> Digest, m: ShardManifest, mode: Transport, net: Network, i: nat, owners: seq<Member>,
                                       round: nat, offers: seq<Event>)
    requires NoneBefore(hash, m, mode, net, i, owners, round)
    requires AskedSoFar(hash, m, mode, net, i, owners, round, |owners|, offers)
    ensures NoneBefore(hash, m, mode, net, i, owners, round + 1)
    ensures AskedSoFar(hash, m, mode, net, i, owners, round + 1, 0, offers)
  {
  }

  lemma {:induction false} DeliveredInTurn(hash: Bytes -> Digest, m: ShardManifest, mode: Transport, net: Network, i: nat,
                                           owners: seq<Member>, round: nat, k: nat, offers: seq<Event>)
    requires round < net.rounds(i) && NoneBefore(hash, m, mode, net, i, owners, round)
    requires DeliveredAt(hash, m, mode, net, i, owners, round, k, offers)
    ensures Obtainable(hash, m, mode, net, i, owners) && InTurn(hash, m, mode, net, i, owners, offers, true)
    ensures OffersTo(m, [i], offers) && offers != [] && Accepted(hash, m, offers[|offers| - 1])
  {
    assert FirstDelivers(hash, m, mode, net, i, owners, round, k);
  }

  lemma {:induction false} NeverInTurn(hash: Bytes -> Digest, m: ShardManifest, mode: Transport, net: Network, i: nat,
                                       owners: seq<Member>, offers: seq<Event>)
    requires NoneBefore(hash, m, mode, net, i, owners, net.rounds(i))
    requires AskedSoFar(hash, m, mode, net, i, owners, net.rounds(i), 0, offers)
    ensures !Obtainable(hash, m, mode, net, i, owners) && InTurn(hash, m, mode, net, i, owners, offers, false)
    ensures OffersTo(m, [i], offers)
  {
  }

  // ---------------------------------------------------------------- one batch

  ghost predicate AllHeld(hash: Bytes -> Digest, m: ShardManifest, indices: seq<nat>, offers: seq<Event>) {
    forall i :: i in indices ==> i in Held(hash, m, offers)
  }

  /** One more shard received after the others. */
  lemma {:induction false} OneMoreHeld(hash: Bytes -> Digest, m: ShardManifest, indices: seq<nat>, before: seq<Event>, i: nat, more: seq<Event>)
    requires AllHeld(hash, m, indices, before) && i !in indices
    requires OffersTo(m, [i], more) && more != [] && Accepted(hash, m, more[|more| - 1])
    ensures AllHeld(hash, m, indices + [i], before + more)
  {
    HeldLast(hash, m, before, more);
    forall j | j in indices ensures j in Held(hash, m, before + more) {
      HeldAppend(hash, m, before, more, j);
    }
  }

  lemma {:induction false} OffersWiden(m: ShardManifest, some: seq<nat>, all: seq<nat>, offers: seq<Event>)
    requires OffersTo(m, some, offers) && forall i :: i in some ==> i in all
    ensures OffersTo(m, all, offers)
  {
  }

  lemma {:induction false} NextHeld(
    hash: Bytes -> Digest, m: ShardManifest, done: seq<nat>, indices: seq<nat>, k: nat,
    before: seq<Event>, offers: seq<Event>, received: seq<Event>)
    requires Distinct(done + indices) && k < |indices| && AllHeld(hash, m, done + indices[..k], before + offers)
    requires OffersTo(m, [indices[k]], received) && received != [] && Accepted(hash, m, received[|received| - 1])
    ensures AllHeld(hash, m, done + indices[..k + 1], before + (offers + received))
  {
    assert (done + indices)[|done| + k] == indices[k] && (done + indices)[..|done| + k] == done + indices[..k];
    OneMoreHeld(hash, m, done + indices[..k], before + offers, indices[k], received);
    assert done + indices[..k + 1] == done + indices[..k] + [indices[k]];
    assert before + (offers + received) == before + offers + received;
  }

  /** The first k shards can be had. */
  ghost predicate FirstObtainable(hash: Bytes -> Digest, m: ShardManifest, mode: Transport, net: Network, indices: seq<nat>,
                                  owners: nat -> seq<Member>, k: nat) {
    k <= |indices| && forall j :: 0 <= j < k ==> Obtainable(hash, m, mode, net, indices[j], owners(indices[j]))
  }

  /** Receives the shards one after the other; the first that never arrives ends it. */
  method ReceiveEach(hash: Bytes -> Digest, m: ShardManifest, mode: Transport, net: Network, indices: seq<nat>,
                     owners: nat -> seq<Member>, before: seq<Event>, ghost done: seq<nat>)
    returns (offers: seq<Event>, ok: bool)
    requires Distinct(done + indices) && AllHeld(hash, m, done, before)
    ensures OffersTo(m, indices, offers)
    ensures ok <==> forall i :: i in indices ==> Obtainable(hash, m, mode, net, i, owners(i))
    ensures ok ==> AllHeld(hash, m, done + indices, before + offers)
  {
    offers := [];
    assert done + indices[..0] == done && before + offers == before;
    for k := 0 to |indices|
      invariant OffersTo(m, indices, offers) && FirstObtainable(hash, m, mode, net, indices, owners, k)
      invariant AllHeld(hash, m, done + indices[..k], before + offers)
    {
      var received, arrived := ReceiveShard(hash, m, mode, net, indices[k], owners(indices[k]));
      OffersWiden(m, [indices[k]], indices, received);
      if arrived {
        NextHeld(hash, m, done, indices, k, before, offers, received);
      }
      offers := offers + received;
      if !arrived {
        return offers, false;
      }
    }
    assert indices[..|indices|] == indices;
    ok := true;
  }

  /** The part of an aborted exchange's writes that lands in the batch's targets. */
  function Landed(m: ShardManifest, indices: seq<nat>, partial: seq<(nat, Bytes)>): (r: seq<Event>)
    ensures OffersTo(m, indices, r)
  {
    if partial == [] then []
    else
      var before, w := Landed(m, indices, partial[..|partial| - 1]), partial[|partial| - 1];
      if w.0 in indices && Fitting(m, w.0, w.1) then before + [Offer(w.0, w.1)] else before
  }

  function Sizes(m: ShardManifest, indices: seq<nat>): map<nat, nat>
    requires Sized(m) && forall i :: i in indices ==> i < m.shardCount
  {
    map i | i in indices :: (ShardSpan(m.totalSize, m.shardSize, i); ShardLength(m.totalSize, m.shardSize, i) as nat)
  }

  function Expected(m: ShardManifest, indices: seq<nat>): map<nat, Digest>
    requires Sized(m) && forall i :: i in indices ==> i < m.shardCount
  {
    map i | i in indices :: m.shardChecksums[i]
  }

  /** The completed shards of an exchange as offers, in the order they were received. */
  function Filled(completed: seq<nat>, contents: map<nat, Bytes>): (r: seq<Event>)
    requires forall i :: i in completed ==> i in contents
    ensures |r| == |completed| && forall k :: 0 <= k < |r| ==> r[k] == Offer(completed[k], contents[completed[k]])
  {
    seq(|completed|, k requires 0 <= k < |completed| => Offer(completed[k], contents[completed[k]]))
  }

  lemma {:induction false} FilledHeld(hash: Bytes -> Digest, m: ShardManifest, completed: seq<nat>, contents: map<nat, Bytes>, n: nat)
    requires n <= |completed| && Distinct(completed) && forall i :: i in completed ==> i in contents
    requires forall i :: i in completed ==> Accepted(hash, m, Offer(i, contents[i]))
    ensures AllHeld(hash, m, completed[..n], Filled(completed, contents)[..n])
  {
    if n > 0 {
      FilledHeld(hash, m, completed, contents, n - 1);
      var f := Filled(completed, contents);
      assert f[..n] == f[..n - 1] + [f[n - 1]];
      assert completed[..n] == completed[..n - 1] + [completed[n - 1]];
      HeldSnoc(hash, m, f[..n - 1], f[n - 1]);
    }
  }

  lemma {:induction false} CompletedHeld(hash: Bytes -> Digest, m: ShardManifest, indices: seq<nat>, completed: seq<nat>, contents: map<nat, Bytes>)
    requires Sized(m) && Distinct(completed) && forall i :: i in completed ==> i in indices && i in contents
    requires forall i :: i in indices ==> i < m.shardCount
    requires forall i :: i in completed ==>
      |contents[i]| == ShardLength(m.totalSize, m.shardSize, i) && hash(contents[i]) == m.shardChecksums[i]
    ensures OffersTo(m, indices, Filled(completed, contents)) && AllHeld(hash, m, completed, Filled(completed, contents))
  {
    FilledHeld(hash, m, completed, contents, |completed|);
    var f := Filled(completed, contents);
    assert completed[..|completed|] == completed && f[..|completed|] == f;
    forall k | 0 <= k < |f| ensures f[k].index in completed {
      assert f[k].index == completed[k];
    }
  }

  /** A successful exchange splits the batch, and the targets of its completed part hold their
      shards. */
  lemma {:induction false} ExchangeHeld(hash: Bytes -> Digest, m: ShardManifest, indices: seq<nat>, lane: Lane, o: Outcome)
    requires Sized(m) && Distinct(indices) && forall i :: i in indices ==> i < m.shardCount
    requires o == ClientOutcome(hash, m.name, indices, Sizes(m, indices), Expected(m, indices), lane.reply, lane.bulk)
    requires o.Exchanged?
    ensures Distinct(o.completed + o.unavailable) && multiset(o.completed + o.unavailable) == multiset(indices)
    ensures forall i :: i in indices <==> i in o.completed + o.unavailable
    ensures forall i :: (i in o.completed ==> i in indices && i in o.contents) && (i in o.unavailable ==> i in indices)
    ensures OffersTo(m, indices, Filled(o.completed, o.contents)) && AllHeld(hash, m, o.completed, Filled(o.completed, o.contents))
  {
    var sizes, expected := Sizes(m, indices), Expected(m, indices);
    assert sizes.Keys == expected.Keys == Elements(indices);
    EveryIndexAccountedFor(hash, m.name, indices, sizes, expected, lane.reply, lane.bulk);
    SetSizeDistinct(o.unavailable);
    SplitOnce(o.completed, o.unavailable, indices);
    SplitMembers(o.completed, o.unavailable, indices);
    assert forall i :: i in o.completed ==> i in Elements(o.completed);
    CompletedHeld(hash, m, indices, o.completed, o.contents);
  }

  /** The exchange with the batch's peer: the completed part of the batch with its offers, and
      what is left; after a failure everything is left, whatever was written. */
  method TryExchange(hash: Bytes -> Digest, m: ShardManifest, indices: seq<nat>, lane: Lane)
    returns (offers: seq<Event>, completed: seq<nat>, left: seq<nat>)
    requires Sized(m) && Distinct(indices) && forall i :: i in indices ==> i < m.shardCount
    ensures OffersTo(m, indices, offers) && AllHeld(hash, m, completed, offers)
    ensures Distinct(completed + left) && multiset(completed + left) == multiset(indices)
    ensures forall i :: i in indices <==> i in completed || i in left
    ensures var o := ClientOutcome(hash, m.name, indices, Sizes(m, indices), Expected(m, indices), lane.reply, lane.bulk);
      && (o.Exchanged? ==> (completed, left) == (o.completed, o.unavailable))
      && (o.Exchanged? ==> forall i :: i in completed ==> i in o.contents && Offer(i, o.contents[i]) in offers)
      && (o.Failure? ==> completed == [] && offers == Landed(m, indices, lane.partial))
  {
    var sizes, expected := Sizes(m, indices), Expected(m, indices);
    var o := ClientOutcome(hash, m.name, indices, sizes, expected, lane.reply, lane.bulk);
    if o.Failure? {
      assert [] + indices == indices;
      return Landed(m, indices, lane.partial), [], indices;
    }
    ExchangeHeld(hash, m, indices, lane, o);
    forall i | i in o.completed ensures Offer(i, o.contents[i]) in Filled(o.completed, o.contents) {
      var k :| 0 <= k < |o.completed| && o.completed[k] == i;
      assert Filled(o.completed, o.contents)[k] == Offer(i, o.contents[i]);
    }
    return Filled(o.completed, o.contents), o.completed, o.unavailable;
  }

  /** The shards of a batch that its peer hands over in a batched exchange. */
  function Exchanged(hash: Bytes -> Digest, m: ShardManifest, mode: Transport, lane: Lane, indices: seq<nat>): set<nat>
    requires Sized(m) && forall i :: i in indices ==> i < m.shardCount
  {
    var o := ClientOutcome(hash, m.name, indices, Sizes(m, indices), Expected(m, indices), lane.reply, lane.bulk);
    if mode != HttpOnly && lane.offered && o.Exchanged? then Elements(o.completed) else {}
  }

  /** Every shard of the batch is exchanged, or can be had from one of its owners. */
  ghost predicate BatchArrives(hash: Bytes -> Digest, m: ShardManifest, mode: Transport, net: Network, lane: Lane, indices: seq<nat>,
                               owners: nat -> seq<Member>)
    requires Sized(m) && forall i :: i in indices ==> i < m.shardCount
  {
    forall i :: i in indices && i !in Exchanged(hash, m, mode, lane, indices) ==> Obtainable(hash, m, mode, net, i, owners(i))
  }

  lemma {:induction false} LeftArrives(hash: Bytes -> Digest, m: ShardManifest, mode: Transport, net: Network, lane: Lane,
                                       indices: seq<nat>, owners: nat -> seq<Member>, completed: seq<nat>, left: seq<nat>)
    requires Sized(m) && forall i :: i in indices ==> i < m.shardCount
    requires Distinct(completed + left) && forall i :: i in indices <==> i in completed || i in left
    requires Exchanged(hash, m, mode, lane, indices) == Elements(completed)
    ensures BatchArrives(hash, m, mode, net, lane, indices, owners) <==>
      forall i :: i in left ==> Obtainable(hash, m, mode, net, i, owners(i))
  {
    forall i | i in left ensures i !in completed {
      Apart(completed, left, i);
    }
  }

  lemma {:induction false} Apart(a: seq<nat>, b: seq<nat>, i: nat)
    requires Distinct(a + b) && i in b
    ensures i !in a
  {
    var k :| 0 <= k < |b| && b[k] == i;
    forall j | 0 <= j < |a| ensures a[j] != i {
      assert (a + b)[j] != (a + b)[|a| + k];
    }
  }

  /** What a batch has before single receipts: what was exchanged, where the peer offers it. */
  method StartBatch(hash: Bytes -> Digest, m: ShardManifest, mode: Transport, lane: Lane, indices: seq<nat>)
    returns (offers: seq<Event>, completed: seq<nat>, left: seq<nat>)
    requires Sized(m) && Distinct(indices) && forall i :: i in indices ==> i < m.shardCount
    ensures OffersTo(m, indices, offers) && AllHeld(hash, m, completed, offers)
    ensures Distinct(completed + left) && multiset(completed + left) == multiset(indices)
    ensures forall i :: i in indices <==> i in completed || i in left
    ensures Exchanged(hash, m, mode, lane, indices) == Elements(completed)
  {
    if mode != HttpOnly && lane.offered {
      offers, completed, left := TryExchange(hash, m, indices, lane);
    } else {
      offers, completed, left := [], [], indices;
      assert [] + indices == indices;
    }
  }

  /** One batch: the batched exchange where the peer offers it, single receipts for whatever it
      leaves, or for everything once it fails, which rewrites targets that were verified.  A batch
      that returns, returns each index once, and its targets hold the verified shards; it returns
      exactly if every shard of it is exchanged or can be had from an owner. */
  method ReceiveBatch(hash: Bytes -> Digest, m: ShardManifest, mode: Transport, net: Network, lane: Lane, indices: seq<nat>,
                      owners: nat -> seq<Member>)
    returns (offers: seq<Event>, r: Option<seq<nat>>)
    requires Sized(m) && Distinct(indices) && forall i :: i in indices ==> i < m.shardCount
    ensures OffersTo(m, indices, offers)
    ensures r.Some? ==> multiset(r.value) == multiset(indices) && AllHeld(hash, m, indices, offers)
    ensures r.Some? <==> BatchArrives(hash, m, mode, net, lane, indices, owners)
  {
    var before, completed, left := StartBatch(hash, m, mode, lane, indices);
    LeftArrives(hash, m, mode, net, lane, indices, owners, completed, left);
    var single, ok := ReceiveEach(hash, m, mode, net, left, owners, before, completed);
    OffersWiden(m, left, indices, single);
    OffersJoin(m, indices, before, single);
    offers := before + single;
    if !ok {
      return offers, None;
    }
    HeldSame(hash, m, completed + left, indices, offers);
    return offers, Some(completed + left);
  }

  lemma {:induction false} HeldSame(hash: Bytes -> Digest, m: ShardManifest, some: seq<nat>, all: seq<nat>, offers: seq<Event>)
    requires AllHeld(hash, m, some, offers) && forall i :: i in all ==> i in some
    ensures AllHeld(hash, m, all, offers)
  {
  }

  lemma {:induction false} SplitMembers(a: seq<nat>, b: seq<nat>, whole: seq<nat>)
    requires Distinct(a) && Distinct(b)
    requires Elements(a) + Elements(b) == Elements(whole) && Elements(a) * Elements(b) == {}
    ensures Distinct(a + b) && forall i :: i in whole <==> i in a + b
    ensures forall i :: (i in a ==> i in whole) && (i in b ==> i in whole)
  {
    forall i, j | 0 <= i < |a| && 0 <= j < |b| ensures a[i] != b[j] {
      assert a[i] in Elements(a) && b[j] in Elements(b) && a[i] !in Elements(a) * Elements(b);
    }
    forall i ensures i in whole <==> i in a + b {
      assert i in Elements(whole) <==> i in Elements(a) + Elements(b);
    }
  }

  lemma {:induction false} SplitOnce(a: seq<nat>, b: seq<nat>, whole: seq<nat>)
    requires Distinct(a) && Distinct(b) && Distinct(whole)
    requires Elements(a) + Elements(b) == Elements(whole) && Elements(a) * Elements(b) == {}
    ensures multiset(a + b) == multiset(whole)
  {
    forall x ensures multiset(a + b)[x] == multiset(whole)[x] {
      OnceEach(a, x);
      OnceEach(b, x);
      OnceEach(whole, x);
      assert x in Elements(whole) <==> x in Elements(a) + Elements(b);
      assert x in Elements(a) * Elements(b) <==> x in Elements(a) && x in Elements(b);
    }
  }

  // ---------------------------------------------------------------- batches side by side

  /** What one batch does: its offers in order, and whether it returns in the end. */
  datatype Work = Work(offers: seq<Event>, ok: bool)

  function Trace(w: Work, b: nat): seq<Event> {
    w.offers + (if w.ok then [Complete(b)] else [])
  }

  ghost predicate SoundWork(hash: Bytes -> Digest, m: ShardManifest, indices: seq<nat>, w: Work) {
    OffersTo(m, indices, w.offers) && (w.ok ==> AllHeld(hash, m, indices, w.offers))
  }

  ghost predicate AllSound(hash: Bytes -> Digest, m: ShardManifest, batches: seq<Batch>, works: seq<Work>) {
    |works| == |batches| && forall b :: 0 <= b < |batches| ==> SoundWork(hash, m, batches[b].indices, works[b])
  }

  /** No shard is in two batches. */
  ghost predicate BatchesApart(batches: seq<Batch>) {
    forall a, b, i :: 0 <= a < |batches| && 0 <= b < |batches| && i in batches[a].indices && i in batches[b].indices ==> a == b
  }

  lemma {:induction false} PartitionApart(batches: seq<Batch>, n: nat)
    requires multiset(Flatten(batches)) == multiset(Numbered(n))
    ensures BatchesApart(batches)
    ensures forall b :: 0 <= b < |batches| ==> Distinct(batches[b].indices) && forall i :: i in batches[b].indices ==> i < n
  {
    forall a, b, i | 0 <= a < |batches| && 0 <= b < |batches| && i in batches[a].indices && i in batches[b].indices ensures a == b {
      OnceEach(Numbered(n), i);
      if a < b {
        TwiceIn(batches, a, b, i);
      } else if b < a {
        TwiceIn(batches, b, a, i);
      }
    }
    forall b | 0 <= b < |batches| ensures Distinct(batches[b].indices) && forall i :: i in batches[b].indices ==> i < n {
      BatchOnce(batches, b, n);
    }
  }

  lemma {:induction false} BatchOnce(batches: seq<Batch>, b: nat, n: nat)
    requires b < |batches| && multiset(Flatten(batches)) == multiset(Numbered(n))
    ensures Distinct(batches[b].indices) && forall i :: i in batches[b].indices ==> i < n
  {
    var indices := batches[b].indices;
    forall i | i in indices ensures i < n {
      OnceIn(batches, b, i);
      OnceEach(Numbered(n), i);
    }
    forall j, k | 0 <= j < k < |indices| ensures indices[j] != indices[k] {
      if indices[j] == indices[k] {
        RepeatedIn(batches, b, j, k);
        OnceEach(Numbered(n), indices[j]);
      }
    }
  }

  lemma {:induction false} RepeatedIn(batches: seq<Batch>, b: nat, j: nat, k: nat)
    requires b < |batches| && j < k < |batches[b].indices| && batches[b].indices[j] == batches[b].indices[k]
    ensures multiset(Flatten(batches))[batches[b].indices[j]] >= 2
  {
    var n, indices := |batches| - 1, batches[b].indices;
    if b < n {
      RepeatedIn(batches[..n], b, j, k);
    } else {
      assert indices == indices[..k] + [indices[k]] + indices[k + 1..];
      assert indices[..k][j] == indices[j] && indices[j] in multiset(indices[..k]);
    }
  }

  /** The merged events so far: each batch is as far along its own trace as its position says,
      and its targets hold what its own offers left there. */
  ghost predicate Merged(hash: Bytes -> Digest, m: ShardManifest, batches: seq<Batch>, works: seq<Work>, events: seq<Event>, positions: seq<nat>) {
    && |positions| == |works| == |batches|
    && (forall b :: 0 <= b < |works| ==> positions[b] <= |Trace(works[b], b)|)
    && Scheduled(hash, m, batches, events)
    && (forall b: nat :: Complete(b) in events ==> b < |works|)
    && (forall b :: 0 <= b < |works| ==> (Complete(b) in events <==> positions[b] > |works[b].offers|))
    && (forall b, i :: 0 <= b < |works| && i in batches[b].indices ==>
          (i in Held(hash, m, events) <==> i in Held(hash, m, Done(works[b], positions[b]))))
  }

  /** The offers a batch has made by the given position. */
  function Done(w: Work, position: nat): seq<Event> {
    if position <= |w.offers| then w.offers[..position] else w.offers
  }

  lemma {:induction false} ScheduledSnoc(hash: Bytes -> Digest, m: ShardManifest, batches: seq<Batch>, events: seq<Event>, e: Event)
    requires Scheduled(hash, m, batches, events) && CanFollow(hash, m, batches, events, e)
    ensures Scheduled(hash, m, batches, events + [e])
  {
    var all := events + [e];
    forall k | 0 <= k < |all| ensures CanFollow(hash, m, batches, all[..k], all[k]) {
      if k < |events| {
        assert all[..k] == events[..k];
      } else {
        assert all[..k] == events;
      }
    }
  }

  /** The next offer of a batch can follow: its targets belong to no batch that has returned. */
  lemma {:induction false} OfferFollows(hash: Bytes -> Digest, m: ShardManifest, batches: seq<Batch>, works: seq<Work>,
                                        events: seq<Event>, positions: seq<nat>, b: nat)
    requires Merged(hash, m, batches, works, events, positions) && BatchesApart(batches) && AllSound(hash, m, batches, works)
    requires b < |works| && positions[b] < |works[b].offers|
    ensures CanFollow(hash, m, batches, events, works[b].offers[positions[b]])
    ensures works[b].offers[positions[b]].index in batches[b].indices
  {
    assert SoundWork(hash, m, batches[b].indices, works[b]);
    var i := works[b].offers[positions[b]].index;
    if i in Returned(batches, events) {
      var other := ReturnedFrom(batches, events, i);
      assert false;
    }
  }

  lemma {:induction false} CompleteFollows(hash: Bytes -> Digest, m: ShardManifest, batches: seq<Batch>, works: seq<Work>,
                                           events: seq<Event>, positions: seq<nat>, b: nat)
    requires Merged(hash, m, batches, works, events, positions) && AllSound(hash, m, batches, works)
    requires b < |works| && positions[b] == |works[b].offers| && works[b].ok
    ensures CanFollow(hash, m, batches, events, Complete(b))
  {
    assert SoundWork(hash, m, batches[b].indices, works[b]);
    assert Done(works[b], positions[b]) == works[b].offers;
  }

  /** A batch's next offer changes its own target as its own trace says. */
  lemma {:induction false} OwnOffer(hash: Bytes -> Digest, m: ShardManifest, events: seq<Event>, offers: seq<Event>, p: nat, i: nat)
    requires p < |offers| && (i in Held(hash, m, events) <==> i in Held(hash, m, offers[..p]))
    ensures i in Held(hash, m, events + [offers[p]]) <==> i in Held(hash, m, offers[..p + 1])
  {
    HeldSnoc(hash, m, events, offers[p]);
    HeldPrefix(hash, m, offers, p);
    SameAfter(hash, m, Held(hash, m, events), Held(hash, m, offers[..p]), offers[p], i);
  }

  lemma {:induction false} HeldPrefix(hash: Bytes -> Digest, m: ShardManifest, offers: seq<Event>, p: nat)
    requires p < |offers|
    ensures Held(hash, m, offers[..p + 1]) == HeldAfter(hash, m, Held(hash, m, offers[..p]), offers[p])
  {
    HeldSnoc(hash, m, offers[..p], offers[p]);
    assert offers[..p + 1] == offers[..p] + [offers[p]];
  }

  lemma {:induction false} SameAfter(hash: Bytes -> Digest, m: ShardManifest, a: set<nat>, b: set<nat>, e: Event, i: nat)
    requires i in a <==> i in b
    ensures i in HeldAfter(hash, m, a, e) <==> i in HeldAfter(hash, m, b, e)
  {
  }

  lemma {:induction false} OtherEvent(hash: Bytes -> Digest, m: ShardManifest, events: seq<Event>, e: Event, i: nat)
    requires e.Offer? ==> e.index != i
    ensures i in Held(hash, m, events + [e]) <==> i in Held(hash, m, events)
  {
    HeldSnoc(hash, m, events, e);
  }

  /** An event of one batch leaves the targets of the others alone. */
  lemma {:induction false} HeldMerges(hash: Bytes -> Digest, m: ShardManifest, batches: seq<Batch>, works: seq<Work>,
                                      events: seq<Event>, positions: seq<nat>, b: nat, c: nat, i: nat)
    requires Merged(hash, m, batches, works, events, positions) && BatchesApart(batches) && AllSound(hash, m, batches, works)
    requires b < |works| && positions[b] < |Trace(works[b], b)| && c < |works| && i in batches[c].indices
    ensures var e := Trace(works[b], b)[positions[b]]; var after := positions[b := positions[b] + 1];
      i in Held(hash, m, events + [e]) <==> i in Held(hash, m, Done(works[c], after[c]))
  {
    var p, e := positions[b], Trace(works[b], b)[positions[b]];
    if p >= |works[b].offers| {
      assert e == Complete(b);
      OtherEvent(hash, m, events, e, i);
      assert Done(works[b], p) == works[b].offers == Done(works[b], p + 1);
    } else if c == b {
      OwnOffer(hash, m, events, works[b].offers, p, i);
    } else {
      OfferFollows(hash, m, batches, works, events, positions, b);
      OtherEvent(hash, m, events, e, i);
    }
  }

  lemma {:induction false} MergeStep(hash: Bytes -> Digest, m: ShardManifest, batches: seq<Batch>, works: seq<Work>,
                                     events: seq<Event>, positions: seq<nat>, b: nat)
    requires Merged(hash, m, batches, works, events, positions) && BatchesApart(batches) && AllSound(hash, m, batches, works)
    requires b < |works| && positions[b] < |Trace(works[b], b)|
    ensures Merged(hash, m, batches, works, events + [Trace(works[b], b)[positions[b]]], positions[b := positions[b] + 1])
  {
    var e := Trace(works[b], b)[positions[b]];
    if positions[b] < |works[b].offers| {
      OfferFollows(hash, m, batches, works, events, positions, b);
      assert SoundWork(hash, m, batches[b].indices, works[b]);
      assert e.Offer?;
    } else {
      CompleteFollows(hash, m, batches, works, events, positions, b);
    }
    ScheduledSnoc(hash, m, batches, events, e);
    forall c, i | 0 <= c < |works| && i in batches[c].indices
      ensures i in Held(hash, m, events + [e]) <==> i in Held(hash, m, Done(works[c], positions[b := positions[b] + 1][c]))
    {
      HeldMerges(hash, m, batches, works, events, positions, b, c, i);
    }
  }

  /** How often a batch had its turn. */
  function Turns(who: seq<nat>, b: nat): nat {
    if who == [] then 0 else Turns(who[..|who| - 1], b) + (if who[|who| - 1] == b then 1 else 0)
  }

  function Positions(works: seq<Work>, who: seq<nat>): (r: seq<nat>)
    ensures |r| == |works| && forall b :: 0 <= b < |works| ==> r[b] == Turns(who, b)
  {
    seq(|works|, b requires 0 <= b < |works| => Turns(who, b))
  }

  /** At the k-th turn the batch goes on where it had stopped. */
  predicate GoesOn(works: seq<Work>, who: seq<nat>, events: seq<Event>, k: nat) {
    && k < |who| && k < |events| && who[k] < |works|
    && Turns(who[..k], who[k]) < |Trace(works[who[k]], who[k])|
    && events[k] == Trace(works[who[k]], who[k])[Turns(who[..k], who[k])]
  }

  /** The events are those of the batches whose turn it was, each going on where it had stopped. */
  ghost predicate IsInterleaving(works: seq<Work>, who: seq<nat>, events: seq<Event>) {
    |who| == |events| && forall k: nat :: k < |who| ==> GoesOn(works, who, events, k)
  }

  /** Every batch has come to its own end. */
  ghost predicate AllThrough(works: seq<Work>, who: seq<nat>) {
    forall b :: 0 <= b < |works| ==> Turns(who, b) == |Trace(works[b], b)|
  }

  lemma {:induction false} OneMoreTurn(works: seq<Work>, who: seq<nat>, events: seq<Event>, b: nat)
    requires IsInterleaving(works, who, events) && b < |works| && Turns(who, b) < |Trace(works[b], b)|
    ensures IsInterleaving(works, who + [b], events + [Trace(works[b], b)[Turns(who, b)]])
    ensures Positions(works, who + [b]) == Positions(works, who)[b := Turns(who, b) + 1]
  {
    var next, more := who + [b], events + [Trace(works[b], b)[Turns(who, b)]];
    assert next[..|who|] == who;
    forall k: nat | k < |who| ensures GoesOn(works, next, more, k) {
      assert GoesOn(works, who, events, k) && next[..k] == who[..k];
    }
    PositionsMove(works, who, b, next);
  }

  lemma {:induction false} PositionsMove(works: seq<Work>, before: seq<nat>, b: nat, who: seq<nat>)
    requires b < |works| && who == before + [b]
    ensures Positions(works, who) == Positions(works, before)[b := Turns(before, b) + 1]
  {
    assert who[..|before|] == before;
  }

  lemma {:induction false} InterleavingMerges(hash: Bytes -> Digest, m: ShardManifest, batches: seq<Batch>, works: seq<Work>,
                                              who: seq<nat>, events: seq<Event>)
    requires BatchesApart(batches) && AllSound(hash, m, batches, works) && IsInterleaving(works, who, events)
    ensures Merged(hash, m, batches, works, events, Positions(works, who))
  {
    if who == [] {
      MergeStart(hash, m, batches, works);
      assert Positions(works, who) == seq(|works|, _ => 0);
    } else {
      var n := |who| - 1;
      LastTurn(works, who, events);
      InterleavingMerges(hash, m, batches, works, who[..n], events[..n]);
      MergeStep(hash, m, batches, works, events[..n], Positions(works, who[..n]), who[n]);
    }
  }

  lemma {:induction false} LastTurn(works: seq<Work>, who: seq<nat>, events: seq<Event>)
    requires IsInterleaving(works, who, events) && who != []
    ensures var n := |who| - 1; var before, b := who[..n], who[n];
      && IsInterleaving(works, before, events[..n]) && b < |works| && Turns(before, b) < |Trace(works[b], b)|
      && events == events[..n] + [Trace(works[b], b)[Turns(before, b)]]
      && Positions(works, who) == Positions(works, before)[b := Turns(before, b) + 1]
  {
    var n := |who| - 1;
    var before, earlier := who[..n], events[..n];
    forall k: nat | k < n ensures GoesOn(works, before, earlier, k) {
      assert GoesOn(works, who, events, k) && before[..k] == who[..k];
    }
    assert GoesOn(works, who, events, n) && who == before + [who[n]];
    PositionsMove(works, before, who[n], who);
  }

  /** Whatever turns the batches take, the event loop admits what comes of it; and when every
      batch has come to its end, exactly those have returned that end well. */
  lemma {:induction false} EveryInterleaving(hash: Bytes -> Digest, m: ShardManifest, batches: seq<Batch>, works: seq<Work>,
                                             who: seq<nat>, events: seq<Event>)
    requires BatchesApart(batches) && AllSound(hash, m, batches, works) && IsInterleaving(works, who, events)
    ensures Scheduled(hash, m, batches, events)
    ensures AllThrough(works, who) ==> forall b :: 0 <= b < |batches| ==> (Complete(b) in events <==> works[b].ok)
  {
    InterleavingMerges(hash, m, batches, works, who, events);
  }

  /** The turns a schedule gives: batches that are through lose theirs. */
  function Followed(works: seq<Work>, schedule: seq<nat>): seq<nat> {
    if schedule == [] then []
    else
      var before, b := Followed(works, schedule[..|schedule| - 1]), schedule[|schedule| - 1];
      if HasMore(works, before, b) then before + [b] else before
  }

  /** How far the batches are after their turns: never beyond their ends. */
  ghost predicate Underway(works: seq<Work>, who: seq<nat>, events: seq<Event>, positions: seq<nat>) {
    && IsInterleaving(works, who, events) && positions == Positions(works, who)
    && forall c :: 0 <= c < |works| ==> positions[c] <= |Trace(works[c], c)|
  }

  /** Lets the batch do its next step. */
  method TakeTurn(works: seq<Work>, b: nat, events: seq<Event>, positions: seq<nat>, ghost who: seq<nat>)
    returns (further: seq<Event>, moved: seq<nat>)
    requires Underway(works, who, events, positions) && b < |works| && positions[b] < |Trace(works[b], b)|
    ensures Underway(works, who + [b], further, moved) && moved == positions[b := positions[b] + 1]
  {
    OneMoreTurn(works, who, events, b);
    further := events + [Trace(works[b], b)[positions[b]]];
    moved := positions[b := positions[b] + 1];
  }

  /** Whether the batch exists and is not through. */
  predicate HasMore(works: seq<Work>, who: seq<nat>, b: nat) {
    b < |works| && Turns(who, b) < |Trace(works[b], b)|
  }

  lemma {:induction false} FollowedNext(works: seq<Work>, schedule: seq<nat>, k: nat, who: seq<nat>)
    requires k < |schedule| && who == Followed(works, schedule[..k])
    ensures Followed(works, schedule[..k + 1]) == if HasMore(works, who, schedule[k]) then who + [schedule[k]] else who
  {
    assert schedule[..k + 1][..k] == schedule[..k];
  }

  /** Lets the batch do its next step if it has one. */
  method OfferTurn(works: seq<Work>, b: nat, events0: seq<Event>, positions0: seq<nat>, ghost who0: seq<nat>)
    returns (events: seq<Event>, positions: seq<nat>, ghost who: seq<nat>)
    requires Underway(works, who0, events0, positions0)
    ensures Underway(works, who, events, positions) && who == if HasMore(works, who0, b) then who0 + [b] else who0
  {
    events, positions, who := events0, positions0, who0;
    if b < |works| && positions[b] < |Trace(works[b], b)| {
      events, positions := TakeTurn(works, b, events, positions, who);
      who := who + [b];
    }
  }

  /** Each turn of the schedule lets the batch it names do its next step, if it has one. */
  method FollowSchedule(works: seq<Work>, schedule: seq<nat>)
    returns (events: seq<Event>, positions: seq<nat>, ghost who: seq<nat>)
    ensures Underway(works, who, events, positions) && who == Followed(works, schedule)
  {
    events, who := [], [];
    positions := seq(|works|, _ => 0);
    for k := 0 to |schedule|
      invariant Underway(works, who, events, positions)
      invariant who == Followed(works, schedule[..k])
    {
      FollowedNext(works, schedule, k, who);
      events, positions, who := OfferTurn(works, schedule[k], events, positions, who);
    }
    assert schedule[..|schedule|] == schedule;
  }

  /** Runs the batches side by side as the schedule says, and then each to its own end. */
  method Interleave(hash: Bytes -> Digest, m: ShardManifest, batches: seq<Batch>, works: seq<Work>, schedule: seq<nat>)
    returns (events: seq<Event>, ghost who: seq<nat>)
    requires BatchesApart(batches) && AllSound(hash, m, batches, works)
    ensures IsInterleaving(works, who, events) && AllThrough(works, who) && Followed(works, schedule) <= who
    ensures Scheduled(hash, m, batches, events)
    ensures forall b :: 0 <= b < |batches| ==> (Complete(b) in events <==> works[b].ok)
  {
    var positions: seq<nat>;
    events, positions, who := FollowSchedule(works, schedule);
    for b: nat := 0 to |works|
      invariant Underway(works, who, events, positions) && Followed(works, schedule) <= who
      invariant forall c :: 0 <= c < b ==> positions[c] == |Trace(works[c], c)|
    {
      events, positions, who := RunToEnd(works, b, events, positions, who);
    }
    EveryInterleaving(hash, m, batches, works, who, events);
  }

  /** Lets one batch do all the steps it has left. */
  method RunToEnd(works: seq<Work>, b: nat, events0: seq<Event>, positions0: seq<nat>, ghost who0: seq<nat>)
    returns (events: seq<Event>, positions: seq<nat>, ghost who: seq<nat>)
    requires Underway(works, who0, events0, positions0) && b < |works|
    ensures Underway(works, who, events, positions) && who0 <= who
    ensures positions == positions0[b := |Trace(works[b], b)|]
  {
    events, positions, who := events0, positions0, who0;
    while positions[b] < |Trace(works[b], b)|
      invariant Underway(works, who, events, positions) && who0 <= who
      invariant positions == positions0[b := positions[b]]
      decreases |Trace(works[b], b)| - positions[b]
    {
      events, positions := TakeTurn(works, b, events, positions, who);
      who := who + [b];
    }
  }

  lemma {:induction false} MergeStart(hash: Bytes -> Digest, m: ShardManifest, batches: seq<Batch>, works: seq<Work>)
    requires |works| == |batches|
    ensures Merged(hash, m, batches, works, [], seq(|works|, _ => 0))
  {
    forall b, i | 0 <= b < |works| && i in batches[b].indices ensures i !in Held(hash, m, Done(works[b], 0)) {
      assert Done(works[b], 0) == [];
    }
  }

  // ---------------------------------------------------------------- the whole download

  /** The first owner of a shard. */
  function FirstOf(owners: nat -> seq<Member>): nat -> Member {
    (i: nat) => if owners(i) == [] then Member("") else owners(i)[0]
  }

  /** The work is a sound one for the batch, and has returned exactly if the batch arrives. */
  ghost predicate Receipt(hash: Bytes -> Digest, m: ShardManifest, mode: Transport, net: Network, b: nat, indices: seq<nat>,
                          owners: nat -> seq<Member>, work: Work) {
    && Sized(m) && (forall i :: i in indices ==> i < m.shardCount) && SoundWork(hash, m, indices, work)
    && (work.ok <==> BatchArrives(hash, m, mode, net, net.lanes(b), indices, owners))
  }

  /** The works are receipts for the first batches. */
  ghost predicate Receipts(hash: Bytes -> Digest, m: ShardManifest, mode: Transport, net: Network, batches: seq<Batch>,
                           owners: nat -> seq<Member>, works: seq<Work>) {
    && |works| <= |batches|
    && forall b: nat :: b < |works| ==> Receipt(hash, m, mode, net, b, batches[b].indices, owners, works[b])
  }

  lemma {:induction false} OneMoreReceipt(hash: Bytes -> Digest, m: ShardManifest, mode: Transport, net: Network, batches: seq<Batch>,
                                          owners: nat -> seq<Member>, works: seq<Work>, work: Work)
    requires Receipts(hash, m, mode, net, batches, owners, works) && |works| < |batches|
    requires Receipt(hash, m, mode, net, |works|, batches[|works|].indices, owners, work)
    ensures Receipts(hash, m, mode, net, batches, owners, works + [work])
  {
    forall b: nat | b <= |works|
      ensures Receipt(hash, m, mode, net, b, batches[b].indices, owners, (works + [work])[b])
    {
      if b < |works| {
        assert Receipt(hash, m, mode, net, b, batches[b].indices, owners, works[b]);
      }
    }
  }

  /** Receives every batch, each on its own lane. */
  method ReceiveBatches(hash: Bytes -> Digest, m: ShardManifest, mode: Transport, net: Network, batches: seq<Batch>, owners: nat -> seq<Member>)
    returns (works: seq<Work>, received: bool)
    requires Sized(m)
    requires forall b :: 0 <= b < |batches| ==> Distinct(batches[b].indices) && forall i :: i in batches[b].indices ==> i < m.shardCount
    ensures |works| == |batches| && Receipts(hash, m, mode, net, batches, owners, works)
    ensures received <==> forall b :: 0 <= b < |works| ==> works[b].ok
  {
    works, received := [], true;
    for b := 0 to |batches|
      invariant |works| == b && Receipts(hash, m, mode, net, batches, owners, works)
      invariant received <==> forall c :: 0 <= c < b ==> works[c].ok
    {
      var work := ReceiveWork(hash, m, mode, net, b, batches[b].indices, owners);
      OneMoreReceipt(hash, m, mode, net, batches, owners, works, work);
      works, received := works + [work], received && work.ok;
    }
  }

  /** Receives one batch and notes what it did. */
  method ReceiveWork(hash: Bytes -> Digest, m: ShardManifest, mode: Transport, net: Network, b: nat, indices: seq<nat>,
                     owners: nat -> seq<Member>) returns (work: Work)
    requires Sized(m) && Distinct(indices) && forall i :: i in indices ==> i < m.shardCount
    ensures Receipt(hash, m, mode, net, b, indices, owners, work)
  {
    var offers, r := ReceiveBatch(hash, m, mode, net, net.lanes(b), indices, owners);
    work := Work(offers, r.Some?);
  }

  /** If every shard can be had from some owner, every batch arrives. */
  lemma {:induction false} ReceiptsSound(hash: Bytes -> Digest, m: ShardManifest, mode: Transport, net: Network, batches: seq<Batch>,
                                         owners: nat -> seq<Member>, works: seq<Work>)
    requires |works| == |batches| && Receipts(hash, m, mode, net, batches, owners, works)
    ensures AllSound(hash, m, batches, works)
    ensures (forall i: nat :: i < m.shardCount ==> Obtainable(hash, m, mode, net, i, owners(i))) ==>
      forall b :: 0 <= b < |works| ==> works[b].ok
  {
    forall b: nat | b < |works| ensures SoundWork(hash, m, batches[b].indices, works[b]) {
      assert Receipt(hash, m, mode, net, b, batches[b].indices, owners, works[b]);
    }
  }

  /** What a successful download guarantees: every target holds a shard of the right digest,
      and the final check passes. */
  ghost predicate Downloaded(hash: Bytes -> Digest, m: ShardManifest, data: Bytes)
    requires Sized(m)
  {
    && |data| == m.totalSize && FinalCheck(hash, m, data)
    && forall i :: 0 <= i < m.shardCount ==> hash(Span(m, data, i)) == m.shardChecksums[i]
  }

  /** A full download, from grouping the shards to the final check, with any network and any
      interleaving of the batches.  When it succeeds, every target holds a shard of the right
      digest, although targets may have been rewritten after they were verified, and the digest
      has seen the shards in order, each once.  It succeeds exactly if all were received and the
      final check passes, and all are when each can be had from some owner in time. */
  method RunDownload(hash: Bytes -> Digest, m: ShardManifest, mode: Transport, net: Network, owners: nat -> seq<Member>,
                     size: nat, schedule: seq<nat>, data: array<Byte>)
    returns (received: bool, ok: bool, ghost visited: seq<nat>)
    requires Sized(m) && data.Length == m.totalSize && size >= 1
    modifies data
    ensures ok <==> received && FinalCheck(hash, m, data[..])
    ensures ok ==> visited == Numbered(m.shardCount) && Downloaded(hash, m, data[..])
    ensures (forall i: nat :: i < m.shardCount ==> Obtainable(hash, m, mode, net, i, owners(i))) ==> received
  {
    var first := FirstOf(owners);
    var groups := GroupByFirstOwner(Numbered(m.shardCount), first);
    var batches := MakeBatches(groups, size, first, m.shardCount);
    PartitionApart(batches, m.shardCount);
    var works;
    works, received := ReceiveBatches(hash, m, mode, net, batches, owners);
    ReceiptsSound(hash, m, mode, net, batches, owners, works);
    var events, who := Interleave(hash, m, batches, works, schedule);
    ok, visited := Assemble(hash, m, batches, events, data);
  }

  // ---------------------------------------------------------------- the client

  /** How a client is configured. */
  datatype Client = Client(servers: seq<string>, replicationFactor: nat, maxBytes: nat, locality: string,
                           mode: Transport, batchSize: nat)

  datatype ClientError = OtherMembership | BadServers(error: PlacementError) | Unavailable

  /** The members a download asks, and with which replication factor: the manifest's, which must
      be the client's own, or, if it names none, the client's servers, each holding everything. */
  function Membership(client: Client, m: ShardManifest): Result<(seq<Member>, nat), ClientError> {
    match CanonicalMembers(client.servers)
    case Err(e) => Err(BadServers(e))
    case Ok(c) =>
      if m.members == [] then Ok((c, |c|))
      else if m.members != c || m.replicationFactor != client.replicationFactor then Err(OtherMembership)
      else Ok((m.members, m.replicationFactor))
  }

  function LocalityIn(profiles: map<string, RawProfile>): Member -> Option<string> {
    (x: Member) => if x.url in profiles then Some(ProfileFor(profiles, x).locality) else None
  }

  /** The owners of a shard in the order in which the client asks them; an accepted manifest
      leaves the placement no reason to refuse (PlacementAccepts). */
  function AskedOwners(client: Client, m: ShardManifest, members: seq<Member>, rf: nat, score: (Member, Profile) -> int): seq<Member> {
    var profiles := WrittenProfiles(m.profiles);
    match OwnersFor(Urls(members), rf, profiles, score)
    case Ok(owners) => OrderForClient(owners, LocalityIn(profiles), client.locality)
    case Err(_) => []
  }

  lemma {:induction false} PlacementAccepts(hash: Bytes -> Digest, client: Client, m: ShardManifest, score: (Member, Profile) -> int)
    requires Consistent(hash, m) && Membership(client, m).Ok?
    ensures var (members, rf) := Membership(client, m).value; var profiles := WrittenProfiles(m.profiles);
      && members != [] && rf >= 1
      && OwnersFor(Urls(members), rf, profiles, score) == Ok(Owners(members, ScoreIn(profiles, score), DomainIn(profiles), rf))
  {
    CanonicalMembersSound(client.servers);
    CanonicalMembersIdempotent(client.servers);
    if m.members == [] {
      DefaultsAccepted(CanonicalMembers(client.servers).value);
    } else {
      ProfilesRead(m.members, m.profiles);
    }
  }

  // ---------------------------------------------------------------- what the caller can rely on

  /** The manifest is for this client: its servers are a membership, and a manifest that names
      members names these and the client's replication factor. */
  ghost predicate ForClient(client: Client, m: ShardManifest) {
    && GoodUrls(client.servers)
    && (m.members != [] ==> m.members == Stripped(client.servers) && m.replicationFactor == client.replicationFactor)
  }

  lemma {:induction false} MembershipExact(client: Client, m: ShardManifest)
    ensures if ForClient(client, m)
            then Membership(client, m) == Ok((Stripped(client.servers), CopiesFor(client, m)))
            else Membership(client, m) == Err(if GoodUrls(client.servers) then OtherMembership else BadServers(BadMembership))
  {
    MembershipExactly(client.servers);
  }

  /** In how many copies the version is placed: in every server if the manifest names none. */
  function CopiesFor(client: Client, m: ShardManifest): nat {
    if m.members == [] then |client.servers| else client.replicationFactor
  }

  /** The owners of a shard by placement over the client's servers. */
  function PlacedOwners(client: Client, m: ShardManifest, score: (Member, Profile) -> int): Result<seq<Member>, PlacementError> {
    OwnersFor(client.servers, CopiesFor(client, m), WrittenProfiles(m.profiles), score)
  }

  /** The locality the manifest gives the member. */
  ghost predicate LocatedAt(m: ShardManifest, x: Member, locality: string) {
    exists i :: 0 <= i < |m.profiles| && m.profiles[i].0 == x && m.profiles[i].1.locality == locality
  }

  lemma {:induction false} LocalityKnown(m: ShardManifest, x: Member, locality: string)
    requires forall i, j :: 0 <= i < j < |m.profiles| ==> m.profiles[i].0 != m.profiles[j].0
    ensures LocalityIn(WrittenProfiles(m.profiles))(x) == Some(locality) <==> LocatedAt(m, x, locality)
  {
    if x.url in WrittenProfiles(m.profiles) {
      var i := WrittenFrom(m.profiles, x.url);
      assert m.profiles[i].0 == x;
      WrittenProfilesAt(m.profiles, i);
    }
    forall i | 0 <= i < |m.profiles| && m.profiles[i].0 == x && m.profiles[i].1.locality == locality
      ensures LocalityIn(WrittenProfiles(m.profiles))(x) == Some(locality)
    {
      WrittenProfilesAt(m.profiles, i);
    }
  }

  lemma {:induction false} ProfilesApart(hash: Bytes -> Digest, m: ShardManifest)
    requires Consistent(hash, m)
    ensures forall i, j :: 0 <= i < j < |m.profiles| ==> m.profiles[i].0 != m.profiles[j].0
  {
    if m.members != [] {
      CanonicalMembersSound(Urls(m.members));
    }
  }

  /** The client asks each of the placed owners once, those of its own locality first, and both
      kinds in the order of placement. */
  lemma {:induction false} AskingOrder(hash: Bytes -> Digest, client: Client, m: ShardManifest, score: (Member, Profile) -> int)
      returns (asked: seq<Member>, near: Member -> bool, far: Member -> bool)
    requires Consistent(hash, m) && ForClient(client, m)
    ensures asked == AskedOwners(client, m, Stripped(client.servers), CopiesFor(client, m), score)
    ensures PlacedOwners(client, m, score).Ok? && multiset(asked) == multiset(PlacedOwners(client, m, score).value)
    ensures forall x :: near(x) == !far(x) && (near(x) <==> LocatedAt(m, x, client.locality))
    ensures asked == if client.locality == "" then PlacedOwners(client, m, score).value
                     else Filter(PlacedOwners(client, m, score).value, near) + Filter(PlacedOwners(client, m, score).value, far)
  {
    var locality := LocalityIn(WrittenProfiles(m.profiles));
    near, far := LocalTo(locality, client.locality), RemoteTo(locality, client.locality);
    asked := AskedOwners(client, m, Stripped(client.servers), CopiesFor(client, m), score);
    MembershipExact(client, m);
    PlacementAccepts(hash, client, m, score);
    SamePlacement(client, m, score);
    LocalOwnersFirst(PlacedOwners(client, m, score).value, locality, client.locality);
    ProfilesApart(hash, m);
    forall x ensures near(x) <==> LocatedAt(m, x, client.locality) {
      LocalityKnown(m, x, client.locality);
    }
  }

  /** Placing over the servers is placing over the members they are. */
  lemma {:induction false} SamePlacement(client: Client, m: ShardManifest, score: (Member, Profile) -> int)
    requires GoodUrls(client.servers)
    ensures PlacedOwners(client, m, score)
         == OwnersFor(Urls(Stripped(client.servers)), CopiesFor(client, m), WrittenProfiles(m.profiles), score)
  {
    MembershipExactly(client.servers);
    CanonicalMembersIdempotent(client.servers);
  }

  /** In that round the owner hands over the shard: over RDMA, unless only HTTP is used, or over
      HTTP, unless only RDMA is, reported as delivered, of the right length and digest. */
  ghost predicate HandsOver(hash: Bytes -> Digest, m: ShardManifest, mode: Transport, net: Network, i: nat, round: nat, owner: Member)
    requires Sized(m) && i < m.shardCount
  {
    exists fill: Fill ::
      && ((mode != HttpOnly && net.rdma(i, round, owner) == Some(fill)) || (mode != RdmaOnly && net.http(i, round, owner) == fill))
      && fill.delivered && |fill.bytes| == ShardLength(m.totalSize, m.shardSize, i) && hash(fill.bytes) == m.shardChecksums[i]
  }

  lemma {:induction false} HandsOverExactly(hash: Bytes -> Digest, m: ShardManifest, mode: Transport, net: Network,
                                            i: nat, round: nat, owner: Member)
    requires Sized(m) && i < m.shardCount
    ensures HandsOver(hash, m, mode, net, i, round, owner) <==> Delivers(hash, m, mode, net, i, round, owner)
  {
    forall fill: Fill
      ensures Good(hash, m, i, fill) <==>
        fill.delivered && |fill.bytes| == ShardLength(m.totalSize, m.shardSize, i) && hash(fill.bytes) == m.shardChecksums[i]
    {
    }
    if Delivers(hash, m, mode, net, i, round, owner) {
      var rdma := Rdma(mode, net, i, round, owner);
      if rdma.Some? && Good(hash, m, i, rdma.value) {
        assert net.rdma(i, round, owner) == Some(rdma.value);
      } else {
        assert Good(hash, m, i, net.http(i, round, owner));
      }
    }
  }

  /** The shard is handed over, before its deadline, by one of its placed owners. */
  ghost predicate ShardReachable(hash: Bytes -> Digest, m: ShardManifest, client: Client, score: (Member, Profile) -> int,
                                 net: Network, i: nat)
    requires Sized(m) && i < m.shardCount
  {
    && PlacedOwners(client, m, score).Ok?
    && exists round: nat, owner ::
         && round < net.rounds(i) && owner in PlacedOwners(client, m, score).value
         && HandsOver(hash, m, client.mode, net, i, round, owner)
  }

  /** Every shard is. */
  ghost predicate Reachable(hash: Bytes -> Digest, m: ShardManifest, client: Client, score: nat -> (Member, Profile) -> int, net: Network)
    requires Sized(m)
  {
    forall i: nat :: i < m.shardCount ==> ShardReachable(hash, m, client, score(i), net, i)
  }

  lemma {:induction false} ReachableIsObtainable(hash: Bytes -> Digest, m: ShardManifest, client: Client,
                                                 score: nat -> (Member, Profile) -> int, net: Network)
    requires Consistent(hash, m) && ForClient(client, m) && Reachable(hash, m, client, score, net)
    ensures AllObtainable(hash, m, client.mode, net, AskedAll(client, m, Stripped(client.servers), CopiesFor(client, m), score))
  {
    forall i: nat | i < m.shardCount
      ensures Obtainable(hash, m, client.mode, net, i, AskedOwners(client, m, Stripped(client.servers), CopiesFor(client, m), score(i)))
    {
      ShardObtainable(hash, m, client, score(i), net, i);
    }
  }

  lemma {:induction false} ShardObtainable(hash: Bytes -> Digest, m: ShardManifest, client: Client, score: (Member, Profile) -> int,
                                           net: Network, i: nat)
    requires Consistent(hash, m) && ForClient(client, m) && i < m.shardCount && ShardReachable(hash, m, client, score, net, i)
    ensures Obtainable(hash, m, client.mode, net, i, AskedOwners(client, m, Stripped(client.servers), CopiesFor(client, m), score))
  {
    var round: nat, owner :|
      && round < net.rounds(i) && owner in PlacedOwners(client, m, score).value
      && HandsOver(hash, m, client.mode, net, i, round, owner);
    var asked, near, far := AskingOrder(hash, client, m, score);
    SameMembers(asked, PlacedOwners(client, m, score).value, owner);
    HandsOverExactly(hash, m, client.mode, net, i, round, owner);
  }

  lemma {:induction false} SameMembers(a: seq<Member>, b: seq<Member>, x: Member)
    requires multiset(a) == multiset(b) && x in b
    ensures x in a
  {
    assert x in multiset(b);
  }

  lemma {:induction false} DefaultsAccepted(members: seq<Member>)
    ensures WrittenProfiles([]) == map[] && ProfilesWithin(members, map[]).Ok?
  {
  }

  /** Every shard can be had from some owner in time. */
  ghost predicate AllObtainable(hash: Bytes -> Digest, m: ShardManifest, mode: Transport, net: Network, owners: nat -> seq<Member>) {
    forall i: nat :: i < m.shardCount ==> Obtainable(hash, m, mode, net, i, owners(i))
  }

  /** The owners of all shards. */
  function AskedAll(client: Client, m: ShardManifest, members: seq<Member>, rf: nat, score: nat -> (Member, Profile) -> int)
    : nat -> seq<Member>
  {
    (i: nat) => AskedOwners(client, m, members, rf, score(i))
  }

  /** Fetches the shards into a new buffer. */
  method Fetch(hash: Bytes -> Digest, m: ShardManifest, client: Client, net: Network, owners: nat -> seq<Member>, schedule: seq<nat>)
    returns (r: Result<Option<Bytes>, ClientError>, ghost assembled: Bytes)
    requires Sized(m) && client.batchSize >= 1
    ensures r.Ok? && r.value.Some? ==> Downloaded(hash, m, r.value.value)
    ensures r.Err? ==> r == Err(Unavailable) && client.mode == RdmaOnly
    ensures |assembled| == m.totalSize
    ensures AllObtainable(hash, m, client.mode, net, owners) ==>
      r == Ok(if FinalCheck(hash, m, assembled) then Some(assembled) else None)
  {
    var data := new Byte[m.totalSize](_ => 0);
    var received, ok, visited := RunDownload(hash, m, client.mode, net, owners, client.batchSize, schedule, data);
    assembled := data[..];
    if !received && client.mode == RdmaOnly {
      return Err(Unavailable), assembled;
    }
    return Ok(if ok then Some(data[..]) else None), assembled;
  }

  /** A client's streaming download of a version whose manifest it has accepted.  A version
      beyond the client's limit is not fetched; bad servers or a manifest for another membership
      are refused; otherwise every shard is asked from its owners, and what is returned has
      passed every check.  When each shard is handed over in time by one of its placed owners,
      over whatever transport, it succeeds, except that a manifest without a root has its
      checksum compared with the whole buffer at the end. */
  method DownloadStreaming(hash: Bytes -> Digest, m: ShardManifest, client: Client, score: nat -> (Member, Profile) -> int,
                           net: Network, schedule: seq<nat>)
    returns (r: Result<Option<Bytes>, ClientError>, ghost assembled: Bytes)
    requires Consistent(hash, m) && client.batchSize >= 1
    ensures m.totalSize > client.maxBytes ==> r == Ok(None)
    ensures m.totalSize <= client.maxBytes && !ForClient(client, m) ==>
      r == Err(if GoodUrls(client.servers) then OtherMembership else BadServers(BadMembership))
    ensures r.Ok? && r.value.Some? ==>
      m.totalSize <= client.maxBytes && ForClient(client, m) && Downloaded(hash, m, r.value.value)
    ensures m.totalSize <= client.maxBytes && ForClient(client, m) ==>
      && (r.Err? ==> r == Err(Unavailable) && client.mode == RdmaOnly)
      && (Reachable(hash, m, client, score, net) ==>
            |assembled| == m.totalSize
            && r == Ok(if m.root.Some? || hash(assembled) == m.checksum then Some(assembled) else None))
    ensures r.Ok? && r.value.Some? ==>
      && |r.value.value| == m.totalSize && (m.root.None? ==> hash(r.value.value) == m.checksum)
      && (forall i :: 0 <= i < m.shardCount ==> hash(Span(m, r.value.value, i)) == m.shardChecksums[i])
  {
    MembershipExact(client, m);
    if m.totalSize > client.maxBytes {
      return Ok(None), [];
    }
    var membership := Membership(client, m);
    if membership.Err? {
      return Err(membership.error), [];
    }
    var (members, rf) := membership.value;
    r, assembled := Fetch(hash, m, client, net, AskedAll(client, m, members, rf, score), schedule);
    if Reachable(hash, m, client, score, net) {
      ReachableIsObtainable(hash, m, client, score, net);
    }
  }

  /** A download under a manifest with the published root, size and shard size is the published
      buffer, whatever the network and the manifest's author did, unless the hash collides. */
  lemma {:induction false} DownloadIsPublished(hash: Bytes -> Digest, name: string, published: Bytes, shardSize: int, size: nat,
                                               d: Document, data: Bytes)
    requires BuildManifest(hash, name, published, shardSize).Ok? && FixedLength(hash)
    requires Read(hash, size, d).Ok? && d.schema == SCHEMA
    requires Sized(Read(hash, size, d).value) && Downloaded(hash, Read(hash, size, d).value, data)
    requires var m := BuildManifest(hash, name, published, shardSize).value;
      && d.totalSize == m.totalSize && d.shardSize == m.shardSize && d.root == m.root
      && CollisionFree(hash, Hashed(hash, d.shardChecksums) + Hashed(hash, m.shardChecksums))
    requires CollisionFree(hash, Elements(Shards(data, shardSize)) + Elements(Shards(published, shardSize)))
    ensures data == published
  {
    AcceptedFixesShards(hash, name, published, shardSize, size, d);
    AssembledIsPublished(hash, Read(hash, size, d).value, data, published);
  }
}
