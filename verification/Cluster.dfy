/** A version streamed through a cluster of middles: every middle computes the same placement,
    fetches its primary shards from the origin and its replicas from their primaries, each kind
    in its own pool of workers, and retries until the shard is verified. */
module Cluster {
  import opened Wrappers
  import opened Placement
  import opened Greedy

  // ---------------------------------------------------------------- who fetches what

  /** One published version, and for each of its shards the owners every middle computes. */
  datatype Config = Config(
    members: seq<Member>, copies: nat, owners: seq<seq<Member>>,
    shards: seq<Bytes>, hash: Bytes -> Digest, workers: nat)

  /** Each shard has the same number of distinct owners among the members, at least one. */
  ghost predicate WellFormed(c: Config) {
    && c.workers >= 1 && c.copies >= 1 && |c.owners| == |c.shards| && Distinct(c.members)
    && (forall i :: 0 <= i < |c.owners| ==>
          |c.owners[i]| == c.copies && Distinct(c.owners[i]) && forall m :: m in c.owners[i] ==> m in c.members)
  }

  /** The owners of every shard, by placement over an agreed membership. */
  function Placed(members: seq<Member>, rf: nat, score: (nat, Member) -> int, domain: Member -> string, n: nat)
    : (r: seq<seq<Member>>)
    ensures |r| == n
  {
    seq(n, i requires 0 <= i < n => Owners(members, (m: Member) => score(i, m), domain, rf))
  }

  /** The placement of a version makes a well-formed cluster with min(rf, members) copies. */
  lemma {:induction false} PlacementFits(members: seq<Member>, rf: nat, score: (nat, Member) -> int, domain: Member -> string,
                                         shards: seq<Bytes>, hash: Bytes -> Digest, workers: nat)
    requires Distinct(members) && members != [] && rf >= 1 && workers >= 1
    ensures WellFormed(Config(members, Min(rf, |members|), Placed(members, rf, score, domain, |shards|),
                              shards, hash, workers))
  {
    var owners := Placed(members, rf, score, domain, |shards|);
    forall i | 0 <= i < |owners|
      ensures |owners[i]| == Min(rf, |members|) && Distinct(owners[i]) && forall m :: m in owners[i] ==> m in members
    {
      OwnersShape(members, (m: Member) => score(i, m), domain, rf);
      assert owners[i] == Owners(members, (m: Member) => score(i, m), domain, rf);
    }
  }

  /** Every shard's owners are picked by the shard's own scores: each is the best of those left,
      a new failure class first, then the score for this shard, then the membership's order. */
  lemma {:induction false} PlacedByOwnScores(members: seq<Member>, rf: nat, score: (nat, Member) -> int, domain: Member -> string,
                                             n: nat, i: nat, k: nat, x: Member)
    requires Distinct(members) && i < n && k < |Placed(members, rf, score, domain, n)[i]|
    requires x in members && x !in Placed(members, rf, score, domain, n)[i][..k + 1]
    ensures var o := Placed(members, rf, score, domain, n)[i]; var picked := o[..k];
      && o[k] in members && o[k] !in picked && (Fresh(picked, domain, x) ==> Fresh(picked, domain, o[k]))
      && (Fresh(picked, domain, x) == Fresh(picked, domain, o[k]) ==>
            score(i, o[k]) > score(i, x) || (score(i, o[k]) == score(i, x) && Earlier(members, o[k], x)))
  {
    OwnersAreGreedy(members, (m: Member) => score(i, m), domain, rf, k, x);
    assert Placed(members, rf, score, domain, n)[i] == Owners(members, (m: Member) => score(i, m), domain, rf);
  }

  datatype Role = Primary | Replica

  predicate Has(c: Config, i: nat, m: Member, role: Role) {
    && i < |c.owners| && c.owners[i] != []
    && (role == Primary <==> c.owners[i][0] == m)
    && m in c.owners[i]
  }

  /** The shards below n that a middle fetches in a role, in order. */
  function Tasks(c: Config, m: Member, role: Role, n: nat): seq<nat> {
    if n == 0 then []
    else Tasks(c, m, role, n - 1) + (if Has(c, n - 1, m, role) then [n - 1] else [])
  }

  /** The same as a set. */
  function TaskSet(c: Config, m: Member, role: Role): set<nat> {
    set i: nat | i < |c.owners| && Has(c, i, m, role)
  }

  lemma {:induction false} TasksAre(c: Config, m: Member, role: Role, n: nat)
    ensures forall i: nat :: i in Tasks(c, m, role, n) <==> i < n && Has(c, i, m, role)
    ensures Distinct(Tasks(c, m, role, n))
  {
    if n > 0 {
      TasksAre(c, m, role, n - 1);
    }
  }

  /** A task with the place it is fetched from: the origin, or the shard's primary. */
  datatype Assignment = Assignment(index: nat, source: Option<Member>)

  function Sourced(c: Config, m: Member, role: Role, n: nat): seq<Assignment> {
    if n == 0 then []
    else Sourced(c, m, role, n - 1)
         + (if Has(c, n - 1, m, role)
            then [Assignment(n - 1, if role == Primary then None else Some(c.owners[n - 1][0]))] else [])
  }

  /** What one middle decides to fetch, and from where. */
  method Assign(c: Config, me: Member) returns (primaries: seq<Assignment>, replicas: seq<Assignment>)
    requires WellFormed(c)
    ensures primaries == Sourced(c, me, Primary, |c.shards|)
    ensures replicas == Sourced(c, me, Replica, |c.shards|)
  {
    primaries, replicas := [], [];
    for i := 0 to |c.shards|
      invariant primaries == Sourced(c, me, Primary, i)
      invariant replicas == Sourced(c, me, Replica, i)
    {
      var owners := c.owners[i];
      if owners[0] == me {
        primaries := primaries + [Assignment(i, None)];
      } else if me in owners[1..] {
        replicas := replicas + [Assignment(i, Some(owners[0]))];
      }
    }
  }

  /** The assignments are the middle's tasks; each shard is assigned in at most one role, and
      as primary exactly at its first owner. */
  lemma {:induction false} AssignmentsAre(c: Config, m: Member, role: Role, n: nat)
    requires n <= |c.owners|
    ensures |Sourced(c, m, role, n)| == |Tasks(c, m, role, n)|
    ensures forall k :: 0 <= k < |Tasks(c, m, role, n)| ==>
      && Sourced(c, m, role, n)[k].index == Tasks(c, m, role, n)[k] < |c.owners|
      && c.owners[Tasks(c, m, role, n)[k]] != []
      && Sourced(c, m, role, n)[k].source
         == if role == Primary then None else Some(c.owners[Tasks(c, m, role, n)[k]][0])
  {
    if n > 0 {
      AssignmentsAre(c, m, role, n - 1);
    }
  }

  // ---------------------------------------------------------------- steps

  /** The workers of one role: tasks still waiting for a worker, in order, and running ones. */
  datatype Pool = Pool(waiting: seq<nat>, running: set<nat>)

  datatype Node = Node(primary: Pool, replica: Pool, held: map<nat, Bytes>)

  /** served counts, for each shard, the origin replies a middle accepted. */
  datatype State = State(nodes: map<Member, Node>, served: seq<nat>)

  /** A worker takes the next task, or a running task gets an answer: no payload, or bytes
      that may have been damaged on the way. */
  datatype Step = Start(m: Member, role: Role) | Answer(m: Member, role: Role, i: nat, payload: Option<Bytes>)

  function PoolOf(n: Node, role: Role): Pool {
    if role == Primary then n.primary else n.replica
  }

  function WithPool(n: Node, role: Role, p: Pool): Node {
    if role == Primary then n.(primary := p) else n.(replica := p)
  }

  function FreshPool(c: Config, m: Member, role: Role): Pool {
    Pool(Tasks(c, m, role, |c.owners|), {})
  }

  function Init(c: Config): State {
    State(map m | m in Elements(c.members) :: Node(FreshPool(c, m, Primary), FreshPool(c, m, Replica), map[]),
          seq(|c.shards|, i => 0))
  }

  /** A payload is kept only if it passes the size and digest checks of the shard. */
  predicate Verified(c: Config, i: nat, payload: Option<Bytes>) {
    i < |c.shards| && payload.Some? && |payload.value| == |c.shards[i]| && c.hash(payload.value) == c.hash(c.shards[i])
  }

  /** The first owner of a shard holds it. */
  predicate PrimaryHolds(c: Config, nodes: map<Member, Node>, i: nat) {
    i < |c.owners| && c.owners[i] != [] && c.owners[i][0] in nodes && i in nodes[c.owners[i][0]].held
  }

  /** The origin can always answer; a replica's source has bytes only once it holds the shard. */
  predicate SourceReady(c: Config, nodes: map<Member, Node>, role: Role, i: nat) {
    role == Primary || PrimaryHolds(c, nodes, i)
  }

  predicate Enabled(c: Config, s: State, step: Step) {
    step.m in s.nodes &&
    var pool := PoolOf(s.nodes[step.m], step.role);
    match step
    case Start(_, _) => pool.waiting != [] && |pool.running| < c.workers
    case Answer(_, role, i, payload) => i in pool.running && (payload.Some? ==> SourceReady(c, s.nodes, role, i))
  }

  function Begun(p: Pool): Pool
    requires p.waiting != []
  {
    Pool(p.waiting[1..], p.running + {p.waiting[0]})
  }

  function Started(n: Node, role: Role): Node
    requires PoolOf(n, role).waiting != []
  {
    WithPool(n, role, Begun(PoolOf(n, role)))
  }

  function Finished(p: Pool, i: nat): Pool {
    p.(running := p.running - {i})
  }

  function Filling(n: Node, role: Role, i: nat, payload: Bytes): Node {
    WithPool(n, role, Finished(PoolOf(n, role), i)).(held := n.held[i := payload])
  }

  function Apply(c: Config, s: State, step: Step): State
    requires Enabled(c, s, step)
  {
    var n := s.nodes[step.m];
    match step
    case Start(m, role) => s.(nodes := s.nodes[m := Started(n, role)])
    case Answer(m, role, i, payload) =>
      if !Verified(c, i, payload) then s
      else State(s.nodes[m := Filling(n, role, i, payload.value)],
                 if role == Primary && i < |s.served| then s.served[i := s.served[i] + 1] else s.served)
  }

  // ---------------------------------------------------------------- what every step keeps

  /** Of a role's tasks each missing one is waiting or running, and nothing else is. */
  ghost predicate PoolInv(tasks: set<nat>, pool: Pool, held: map<nat, Bytes>, workers: nat) {
    && Distinct(pool.waiting) && |pool.running| <= workers
    && (forall i :: i in pool.waiting ==> i !in pool.running)
    && (forall i: nat :: Pending(pool, i) <==> i in tasks && i !in held)
  }

  predicate Pending(pool: Pool, i: nat) {
    i in pool.waiting || i in pool.running
  }

  /** Every held shard is the published one, at a middle that was placed to hold it. */
  ghost predicate HeldInv(c: Config, m: Member, held: map<nat, Bytes>) {
    forall i :: i in held ==> i < |c.shards| && i < |c.owners| && m in c.owners[i] && held[i] == c.shards[i]
  }

  ghost predicate NodeInv(c: Config, m: Member, n: Node) {
    && PoolInv(TaskSet(c, m, Primary), n.primary, n.held, c.workers)
    && PoolInv(TaskSet(c, m, Replica), n.replica, n.held, c.workers)
    && HeldInv(c, m, n.held)
  }

  /** The origin has served a shard exactly if its primary holds it, and then once. */
  ghost predicate ServedInv(c: Config, nodes: map<Member, Node>, served: seq<nat>) {
    forall i :: 0 <= i < |served| ==> served[i] == if PrimaryHolds(c, nodes, i) then 1 else 0
  }

  ghost predicate Inv(c: Config, s: State) {
    && s.nodes.Keys == Elements(c.members) && |s.served| == |c.shards|
    && (forall m :: m in s.nodes ==> NodeInv(c, m, s.nodes[m]))
    && ServedInv(c, s.nodes, s.served)
  }

  lemma {:induction false} InitInv(c: Config)
    requires WellFormed(c)
    ensures Inv(c, Init(c))
  {
    forall m | m in Init(c).nodes ensures NodeInv(c, m, Init(c).nodes[m]) {
      TasksAre(c, m, Primary, |c.owners|);
      TasksAre(c, m, Replica, |c.owners|);
    }
  }

  lemma {:induction false} BeginPool(tasks: set<nat>, pool: Pool, held: map<nat, Bytes>, workers: nat)
    requires PoolInv(tasks, pool, held, workers) && pool.waiting != [] && |pool.running| < workers
    ensures PoolInv(tasks, Begun(pool), held, workers)
    ensures |Begun(pool).running| == |pool.running| + 1
  {
    assert pool.waiting == [pool.waiting[0]] + pool.waiting[1..];
    forall i: nat ensures Pending(Begun(pool), i) <==> Pending(pool, i) {
    }
  }

  lemma {:induction false} FinishPool(tasks: set<nat>, pool: Pool, held: map<nat, Bytes>, workers: nat, i: nat, payload: Bytes)
    requires PoolInv(tasks, pool, held, workers) && i in pool.running
    ensures i in tasks && i !in held
    ensures PoolInv(tasks, Finished(pool, i), held[i := payload], workers)
    ensures |Finished(pool, i).running| == |pool.running| - 1
  {
    assert Pending(pool, i);
    forall j: nat ensures Pending(Finished(pool, i), j) <==> Pending(pool, j) && j != i {
    }
  }

  lemma {:induction false} OtherPool(tasks: set<nat>, pool: Pool, held: map<nat, Bytes>, workers: nat, i: nat, payload: Bytes)
    requires PoolInv(tasks, pool, held, workers) && i !in tasks
    ensures PoolInv(tasks, pool, held[i := payload], workers)
  {
  }

  lemma {:induction false} StartKeepsNode(c: Config, m: Member, role: Role, n: Node)
    requires NodeInv(c, m, n) && PoolOf(n, role).waiting != [] && |PoolOf(n, role).running| < c.workers
    ensures NodeInv(c, m, Started(n, role))
    ensures NodeWork(Started(n, role)) == NodeWork(n) - 1
  {
    BeginPool(TaskSet(c, m, role), PoolOf(n, role), n.held, c.workers);
  }

  /** A running task is a missing shard that the middle has this one role for. */
  lemma {:induction false} RunningIsTask(c: Config, m: Member, role: Role, n: Node, i: nat)
    requires NodeInv(c, m, n) && i in PoolOf(n, role).running
    ensures Has(c, i, m, role) && i !in n.held
  {
    FinishPool(TaskSet(c, m, role), PoolOf(n, role), n.held, c.workers, i, []);
  }

  lemma {:induction false} FillKeepsNode(c: Config, m: Member, role: Role, n: Node, i: nat)
    requires NodeInv(c, m, n) && i in PoolOf(n, role).running && i < |c.shards|
    ensures NodeInv(c, m, Filling(n, role, i, c.shards[i]))
    ensures NodeWork(Filling(n, role, i, c.shards[i])) == NodeWork(n) - 1
  {
    RunningIsTask(c, m, role, n, i);
    FinishPool(TaskSet(c, m, role), PoolOf(n, role), n.held, c.workers, i, c.shards[i]);
    if role == Primary {
      OtherPool(TaskSet(c, m, Replica), n.replica, n.held, c.workers, i, c.shards[i]);
    } else {
      OtherPool(TaskSet(c, m, Primary), n.primary, n.held, c.workers, i, c.shards[i]);
    }
  }

  lemma {:induction false} StartKeepsServed(c: Config, nodes: map<Member, Node>, served: seq<nat>, m: Member, n: Node)
    requires ServedInv(c, nodes, served) && m in nodes && n.held == nodes[m].held
    ensures ServedInv(c, nodes[m := n], served)
  {
  }

  lemma {:induction false} FillKeepsServed(c: Config, nodes: map<Member, Node>, served: seq<nat>, m: Member, n: Node, role: Role, i: nat)
    requires ServedInv(c, nodes, served) && m in nodes && i < |served|
    requires Has(c, i, m, role) && i !in nodes[m].held && i in n.held && forall j: nat :: j != i ==> (j in n.held <==> j in nodes[m].held)
    ensures ServedInv(c, nodes[m := n], if role == Primary then served[i := served[i] + 1] else served)
  {
    forall j: nat | j < |served| && j != i ensures PrimaryHolds(c, nodes[m := n], j) == PrimaryHolds(c, nodes, j) {
    }
  }

  /** The damage a network can do goes unnoticed only by a collision. */
  ghost predicate NoCollision(c: Config, step: Step) {
    step.Answer? && step.payload.Some? && step.i < |c.shards| ==>
      CollisionFree(c.hash, {step.payload.value, c.shards[step.i]})
  }

  /** A verified payload is the published shard. */
  lemma {:induction false} VerifiedIsPublished(c: Config, step: Step)
    requires step.Answer? && Verified(c, step.i, step.payload) && NoCollision(c, step)
    ensures step.payload.value == c.shards[step.i]
  {
    var inputs := {step.payload.value, c.shards[step.i]};
    assert step.payload.value in inputs && c.shards[step.i] in inputs;
  }

  lemma {:induction false} StartKeepsInv(c: Config, s: State, step: Step)
    requires Inv(c, s) && Enabled(c, s, step) && step.Start?
    ensures Inv(c, Apply(c, s, step))
  {
    var n := s.nodes[step.m];
    StartKeepsNode(c, step.m, step.role, n);
    StartKeepsServed(c, s.nodes, s.served, step.m, Started(n, step.role));
  }

  lemma {:induction false} FillKeepsInv(c: Config, s: State, step: Step)
    requires WellFormed(c) && Inv(c, s) && Enabled(c, s, step) && NoCollision(c, step)
    requires step.Answer? && Verified(c, step.i, step.payload)
    ensures Inv(c, Apply(c, s, step))
  {
    var n := s.nodes[step.m];
    VerifiedIsPublished(c, step);
    RunningIsTask(c, step.m, step.role, n, step.i);
    FillKeepsNode(c, step.m, step.role, n, step.i);
    FillKeepsServed(c, s.nodes, s.served, step.m, Filling(n, step.role, step.i, c.shards[step.i]), step.role, step.i);
  }

  lemma {:induction false} StepKeepsInv(c: Config, s: State, step: Step)
    requires WellFormed(c) && Inv(c, s) && Enabled(c, s, step) && NoCollision(c, step)
    ensures Inv(c, Apply(c, s, step))
  {
    if step.Start? {
      StartKeepsInv(c, s, step);
    } else if Verified(c, step.i, step.payload) {
      FillKeepsInv(c, s, step);
    }
  }

  // ---------------------------------------------------------------- progress

  function NodeWork(n: Node): nat {
    2 * |n.primary.waiting| + |n.primary.running| + 2 * |n.replica.waiting| + |n.replica.running|
  }

  /** Work left at the given middles: two for a waiting task, one for a running one. */
  function Work(members: seq<Member>, nodes: map<Member, Node>): nat {
    if members == [] then 0
    else
      var m := members[|members| - 1];
      Work(members[..|members| - 1], nodes) + (if m in nodes then NodeWork(nodes[m]) else 0)
  }

  lemma {:induction false} WorkUpdate(members: seq<Member>, nodes: map<Member, Node>, m: Member, n: Node)
    requires Distinct(members) && m in nodes
    ensures Work(members, nodes[m := n])
         == Work(members, nodes) + (if m in members then NodeWork(n) - NodeWork(nodes[m]) else 0)
  {
    if members != [] {
      WorkUpdate(members[..|members| - 1], nodes, m, n);
    }
  }

  function Remaining(c: Config, s: State): nat {
    Work(c.members, s.nodes)
  }

  /** A step that starts a task or fills a shard. */
  predicate Productive(c: Config, step: Step) {
    step.Start? || Verified(c, step.i, step.payload)
  }

  /** Productive steps take one unit off the remaining work; the others change nothing. */
  lemma {:induction false} StepWork(c: Config, s: State, step: Step)
    requires WellFormed(c) && Inv(c, s) && Enabled(c, s, step) && NoCollision(c, step)
    ensures if Productive(c, step) then Remaining(c, Apply(c, s, step)) == Remaining(c, s) - 1
            else Apply(c, s, step) == s
  {
    assert step.m in Elements(c.members);
    var n := s.nodes[step.m];
    if step.Start? {
      StartKeepsNode(c, step.m, step.role, n);
      WorkUpdate(c.members, s.nodes, step.m, Started(n, step.role));
    } else if Productive(c, step) {
      VerifiedIsPublished(c, step);
      FillKeepsNode(c, step.m, step.role, n, step.i);
      WorkUpdate(c.members, s.nodes, step.m, Filling(n, step.role, step.i, c.shards[step.i]));
    }
  }

  /** Every middle holds every shard placed on it. */
  ghost predicate Filled(c: Config, s: State) {
    forall i, m :: 0 <= i < |c.owners| && m in c.owners[i] ==> m in s.nodes && i in s.nodes[m].held
  }

  ghost predicate Moves(c: Config, s: State, step: Step) {
    Enabled(c, s, step) && Productive(c, step) && NoCollision(c, step)
  }

  /** A missing task of a pool whose running tasks all have a ready source can move: one of
      those is answered, or, if none is running, a worker is free to start the next. */
  lemma {:induction false} TaskMoves(c: Config, s: State, m: Member, role: Role, i: nat) returns (step: Step)
    requires WellFormed(c) && Inv(c, s) && m in s.nodes
    requires Has(c, i, m, role) && i !in s.nodes[m].held
    requires forall j :: j in PoolOf(s.nodes[m], role).running ==> SourceReady(c, s.nodes, role, j)
    ensures Moves(c, s, step)
  {
    var pool := PoolOf(s.nodes[m], role);
    if j :| j in pool.running {
      RunningIsTask(c, m, role, s.nodes[m], j);
      step := Answer(m, role, j, Some(c.shards[j]));
    } else {
      assert pool.running == {};
      assert PoolInv(TaskSet(c, m, role), pool, s.nodes[m].held, c.workers);
      assert Pending(pool, i);
      step := Start(m, role);
    }
  }

  /** With a live origin nothing gets stuck: while any placed shard is missing, some productive
      step can be taken, whatever the workers are waiting for. */
  lemma {:induction false} NeverStuck(c: Config, s: State) returns (step: Step)
    requires WellFormed(c) && Inv(c, s) && !Filled(c, s)
    ensures Moves(c, s, step)
  {
    var i, m :| 0 <= i < |c.owners| && m in c.owners[i] && !(m in s.nodes && i in s.nodes[m].held);
    assert m in Elements(c.members);
    var p := c.owners[i][0];
    assert p in c.owners[i] && p in Elements(c.members);
    if i !in s.nodes[p].held {
      step := TaskMoves(c, s, p, Primary, i);
    } else if j :| j in s.nodes[m].replica.running && !SourceReady(c, s.nodes, Replica, j) {
      RunningIsTask(c, m, Replica, s.nodes[m], j);
      var q := c.owners[j][0];
      assert q in c.owners[j] && q in Elements(c.members);
      step := TaskMoves(c, s, q, Primary, j);
    } else {
      step := TaskMoves(c, s, m, Replica, i);
    }
  }

  // ---------------------------------------------------------------- whole runs

  ghost predicate IsRun(c: Config, steps: seq<Step>, states: seq<State>) {
    && |states| == |steps| + 1 && states[0] == Init(c)
    && (forall k :: 0 <= k < |steps| ==>
          Enabled(c, states[k], steps[k]) && NoCollision(c, steps[k]) && states[k + 1] == Apply(c, states[k], steps[k]))
  }

  function ProductiveSteps(c: Config, steps: seq<Step>): nat {
    if steps == [] then 0
    else ProductiveSteps(c, steps[..|steps| - 1]) + (if Productive(c, steps[|steps| - 1]) then 1 else 0)
  }

  lemma {:induction false} RunKeepsInv(c: Config, steps: seq<Step>, states: seq<State>)
    requires WellFormed(c) && IsRun(c, steps, states)
    ensures Inv(c, states[|steps|])
    ensures Remaining(c, states[|steps|]) == Remaining(c, Init(c)) - ProductiveSteps(c, steps)
  {
    if steps == [] {
      InitInv(c);
    } else {
      var n := |steps| - 1;
      assert IsRun(c, steps[..n], states[..n + 1]);
      RunKeepsInv(c, steps[..n], states[..n + 1]);
      StepKeepsInv(c, states[n], steps[n]);
      StepWork(c, states[n], steps[n]);
    }
  }

  ghost predicate HeldFirst(c: Config, nodes: map<Member, Node>, held: map<nat, Bytes>) {
    forall i: nat :: i in held ==> PrimaryHolds(c, nodes, i)
  }

  /** Whoever holds a shard, its primary holds it too. */
  ghost predicate PrimaryFirst(c: Config, nodes: map<Member, Node>) {
    forall m :: m in nodes ==> HeldFirst(c, nodes, nodes[m].held)
  }

  /** Nobody loses a shard, so what primaries hold they keep holding. */
  lemma {:induction false} GrowingKeepsFirst(c: Config, nodes: map<Member, Node>, m: Member, n: Node, held: map<nat, Bytes>)
    requires m in nodes && nodes[m].held.Keys <= n.held.Keys && HeldFirst(c, nodes, held)
    ensures HeldFirst(c, nodes[m := n], held)
  {
    forall i: nat | i in held ensures PrimaryHolds(c, nodes[m := n], i) {
      assert PrimaryHolds(c, nodes, i);
    }
  }

  lemma {:induction false} FillKeepsFirst(c: Config, nodes: map<Member, Node>, m: Member, n: Node, role: Role, i: nat)
    requires PrimaryFirst(c, nodes) && m in nodes && Has(c, i, m, role) && SourceReady(c, nodes, role, i)
    requires n.held.Keys == nodes[m].held.Keys + {i}
    ensures PrimaryFirst(c, nodes[m := n])
  {
    var after := nodes[m := n];
    forall x | x in after ensures HeldFirst(c, after, after[x].held) {
      GrowingKeepsFirst(c, nodes, m, n, nodes[x].held);
      if x == m {
        if role == Replica {
          GrowingKeepsFirst(c, nodes, m, n, map[i := []]);
          assert PrimaryHolds(c, after, i);
        }
        forall j: nat | j in n.held ensures PrimaryHolds(c, after, j) {
        }
      }
    }
  }

  lemma {:induction false} StartKeepsFirst(c: Config, nodes: map<Member, Node>, m: Member, n: Node)
    requires PrimaryFirst(c, nodes) && m in nodes && n.held == nodes[m].held
    ensures PrimaryFirst(c, nodes[m := n])
  {
    forall x | x in nodes ensures HeldFirst(c, nodes[m := n], nodes[x].held) {
      GrowingKeepsFirst(c, nodes, m, n, nodes[x].held);
    }
  }

  lemma {:induction false} StepKeepsFirst(c: Config, s: State, step: Step)
    requires PrimaryFirst(c, s.nodes) && Enabled(c, s, step)
    requires step.Answer? ==> Has(c, step.i, step.m, step.role)
    ensures PrimaryFirst(c, Apply(c, s, step).nodes)
  {
    match step
    case Start(m, role) => StartKeepsFirst(c, s.nodes, m, Started(s.nodes[m], role));
    case Answer(m, role, i, payload) =>
      if Verified(c, i, payload) {
        FillingHolds(s.nodes[m], role, i, payload.value);
        FillKeepsFirst(c, s.nodes, m, Filling(s.nodes[m], role, i, payload.value), role, i);
      }
  }

  lemma {:induction false} AnswersTask(c: Config, s: State, m: Member, role: Role, i: nat)
    requires Inv(c, s) && m in s.nodes && i in PoolOf(s.nodes[m], role).running
    ensures Has(c, i, m, role)
  {
    RunningIsTask(c, m, role, s.nodes[m], i);
  }

  lemma {:induction false} FillingHolds(n: Node, role: Role, i: nat, payload: Bytes)
    ensures Filling(n, role, i, payload).held.Keys == n.held.Keys + {i}
  {
  }

  /** In every run a replica arrives only after its shard's primary: replicas are relayed from
      the first owner, never from the origin. */
  lemma {:induction false} ReplicasFollowPrimaries(c: Config, steps: seq<Step>, states: seq<State>)
    requires WellFormed(c) && IsRun(c, steps, states)
    ensures PrimaryFirst(c, states[|steps|].nodes)
  {
    if steps != [] {
      var n := |steps| - 1;
      assert IsRun(c, steps[..n], states[..n + 1]);
      RunKeepsInv(c, steps[..n], states[..n + 1]);
      ReplicasFollowPrimaries(c, steps[..n], states[..n + 1]);
      if steps[n].Answer? {
        AnswersTask(c, states[n], steps[n].m, steps[n].role, steps[n].i);
      }
      StepKeepsFirst(c, states[n], steps[n]);
    }
  }

  /** The copies of the version that exist in the cluster. */
  function Copies(s: State): set<(Member, nat)> {
    set m, i | m in s.nodes && i in s.nodes[m].held :: (m, i)
  }

  function PairsAt(owners: seq<Member>, i: nat): set<(Member, nat)> {
    set m | m in owners :: (m, i)
  }

  /** The copies that the placement of the first n shards asks for. */
  function PlacedCopies(owners: seq<seq<Member>>, n: nat): set<(Member, nat)>
    requires n <= |owners|
  {
    if n == 0 then {} else PlacedCopies(owners, n - 1) + PairsAt(owners[n - 1], n - 1)
  }

  lemma {:induction false} PlacedMembers(owners: seq<seq<Member>>, n: nat, p: (Member, nat))
    requires n <= |owners|
    ensures p in PlacedCopies(owners, n) <==> p.1 < n && p.0 in owners[p.1]
  {
    if n > 0 {
      PlacedMembers(owners, n - 1, p);
      assert p in PairsAt(owners[n - 1], n - 1) <==> p.1 == n - 1 && p.0 in owners[n - 1];
    }
  }

  lemma {:induction false} PairCount(s: seq<Member>, i: nat)
    requires Distinct(s)
    ensures |PairsAt(s, i)| == |s|
  {
    if s == [] {
      assert PairsAt(s, i) == {};
    } else {
      var n := |s| - 1;
      PairCount(s[..n], i);
      assert s == s[..n] + [s[n]];
      assert PairsAt(s, i) == PairsAt(s[..n], i) + {(s[n], i)};
    }
  }

  lemma {:induction false} PlacedApart(owners: seq<seq<Member>>, n: nat)
    requires n < |owners|
    ensures PlacedCopies(owners, n) !! PairsAt(owners[n], n)
  {
    forall m: Member, i: nat ensures !((m, i) in PlacedCopies(owners, n) && (m, i) in PairsAt(owners[n], n)) {
      PlacedMembers(owners, n, (m, i));
    }
  }

  lemma {:induction false} PlacedGrow(owners: seq<seq<Member>>, n: nat)
    requires n < |owners| && Distinct(owners[n])
    ensures |PlacedCopies(owners, n + 1)| == |PlacedCopies(owners, n)| + |owners[n]|
  {
    PlacedApart(owners, n);
    PairCount(owners[n], n);
  }

  lemma {:induction false} PlacedCount(owners: seq<seq<Member>>, copies: nat, n: nat)
    requires n <= |owners| && forall i :: 0 <= i < |owners| ==> |owners[i]| == copies && Distinct(owners[i])
    ensures |PlacedCopies(owners, n)| == n * copies
  {
    if n == 0 {
      PlacedNone(owners);
    } else {
      PlacedCount(owners, copies, n - 1);
      PlacedGrow(owners, n - 1);
      OneMore(n, copies);
    }
  }

  lemma {:induction false} PlacedNone(owners: seq<seq<Member>>)
    ensures |PlacedCopies(owners, 0)| == 0
  {
  }

  lemma {:induction false} OneMore(n: nat, copies: nat)
    requires n > 0
    ensures n * copies == (n - 1) * copies + copies
  {
  }

  lemma {:induction false} FilledCopies(c: Config, s: State)
    requires WellFormed(c) && Inv(c, s) && Filled(c, s)
    ensures Copies(s) == PlacedCopies(c.owners, |c.owners|)
  {
    forall p ensures p in Copies(s) <==> p in PlacedCopies(c.owners, |c.owners|) {
      PlacedMembers(c.owners, |c.owners|, p);
      if p in Copies(s) {
        assert HeldInv(c, p.0, s.nodes[p.0].held);
      }
    }
  }

  lemma {:induction false} FilledServed(c: Config, s: State)
    requires WellFormed(c) && Inv(c, s) && Filled(c, s)
    ensures forall i :: 0 <= i < |s.served| ==> s.served[i] == 1
  {
    forall i: nat | i < |s.served| ensures PrimaryHolds(c, s.nodes, i) {
      assert c.owners[i][0] in c.owners[i];
    }
  }

  /** In every interleaving: each held shard is the published one and sits where it is placed;
      the origin has served no shard more than once; and the productive steps never outnumber
      the work there was, so a run that keeps taking them ends. */
  lemma {:induction false} EveryRunIsSafe(c: Config, steps: seq<Step>, states: seq<State>)
    requires WellFormed(c) && IsRun(c, steps, states)
    ensures var s := states[|steps|];
      && (forall m, i :: m in s.nodes && i in s.nodes[m].held ==>
            i < |c.shards| && s.nodes[m].held[i] == c.shards[i] && m in c.owners[i])
      && |s.served| == |c.shards| && (forall i :: 0 <= i < |s.served| ==> s.served[i] <= 1)
      && ProductiveSteps(c, steps) <= Remaining(c, Init(c))
  {
    RunKeepsInv(c, steps, states);
    var s := states[|steps|];
    forall m, i | m in s.nodes && i in s.nodes[m].held
      ensures i < |c.shards| && s.nodes[m].held[i] == c.shards[i] && m in c.owners[i]
    {
      assert HeldInv(c, m, s.nodes[m].held);
    }
  }

  /** A run that can make no more progress has filled the cluster: every shard was served by
      the origin exactly once and exists in as many copies as the placement asks for. */
  lemma {:induction false} EveryRunFills(c: Config, steps: seq<Step>, states: seq<State>)
    requires WellFormed(c) && IsRun(c, steps, states)
    requires forall step :: !Moves(c, states[|steps|], step)
    ensures var s := states[|steps|];
      && Filled(c, s) && |s.served| == |c.shards| && (forall i :: 0 <= i < |s.served| ==> s.served[i] == 1)
      && Copies(s) == PlacedCopies(c.owners, |c.owners|) && |Copies(s)| == |c.shards| * c.copies
  {
    RunKeepsInv(c, steps, states);
    var s := states[|steps|];
    if !Filled(c, s) {
      var step := NeverStuck(c, s);
      assert false;
    }
    FilledServed(c, s);
    FilledCopies(c, s);
    PlacedCount(c.owners, c.copies, |c.owners|);
  }
}
