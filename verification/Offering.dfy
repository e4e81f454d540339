/** A publisher whose calls may overlap.  A call decides whether to take an adapter, broadcasts
    it, registers the version as a source and adds it to the list; other calls run between these
    steps, and a call can fail at each of them.  What the origin then holds is a run of
    broadcasts, so the list and the memory behind it can drift apart. */
module Offering {
  import opened Wrappers
  import opened StoreModel
  import opened VersionNames
  import opened Publication
  import opened RunPublisher
  import Lease
  import Retention
  import PublicationRuns

  type Adapter = Lease.Adapter

  /** A call under way; its broadcast number once it has one. */
  datatype Attempt = Attempt(adapter: Adapter, number: Option<nat>)

  datatype Listed = Listed(adapter: Adapter, number: nat)

  /** The buffers broadcast so far, the list, the calls under way, and the numbers of the
      broadcasts whose call failed afterwards. */
  datatype State = State(broadcasts: seq<Publication>, listed: seq<Listed>, pending: seq<Attempt>, lost: seq<nat>)

  datatype Step =
    | Offer(x: Adapter)
    | Broadcast(k: nat, p: Publication)
    | Join(k: nat)
    | Fail(k: nat)

  const NEW := State([], [], [], [])

  function Adapters(listed: seq<Listed>): (r: seq<Adapter>)
    ensures |r| == |listed| && forall i :: 0 <= i < |r| ==> r[i] == listed[i].adapter
  {
    seq(|listed|, i requires 0 <= i < |listed| => listed[i].adapter)
  }

  function Others(pending: seq<Attempt>, k: nat): seq<Attempt>
    requires k < |pending|
  {
    pending[..k] + pending[k + 1..]
  }

  predicate Enabled(hash: Bytes -> Digest, s: State, step: Step) {
    match step
    case Offer(x) => Decide(Adapters(s.listed), x.step, x.digest) == Accept
    case Broadcast(k, p) =>
      && k < |s.pending| && s.pending[k].number == None
      && p.Buffer? && hash(p.data) == s.pending[k].adapter.digest
    case Join(k) => k < |s.pending| && s.pending[k].number.Some?
    case Fail(k) => k < |s.pending|
  }

  function Next(retain: nat, s: State, step: Step): State
    requires !step.Offer? ==> step.k < |s.pending|
    requires step.Join? ==> s.pending[step.k].number.Some?
  {
    match step
    case Offer(x) => s.(pending := s.pending + [Attempt(x, None)])
    case Broadcast(k, p) =>
      s.(broadcasts := s.broadcasts + [p],
         pending := s.pending[k := s.pending[k].(number := Some(|s.broadcasts|))])
    case Join(k) =>
      var joined := Listed(s.pending[k].adapter, s.pending[k].number.value);
      s.(listed := KeepLast(s.listed + [joined], retain), pending := Others(s.pending, k))
    case Fail(k) =>
      s.(pending := Others(s.pending, k),
         lost := if s.pending[k].number.Some? then s.lost + [s.pending[k].number.value] else s.lost)
  }

  ghost predicate IsRun(hash: Bytes -> Digest, retain: nat, steps: seq<Step>, states: seq<State>) {
    && |states| == |steps| + 1 && states[0] == NEW
    && (forall i :: 0 <= i < |steps| ==>
          Enabled(hash, states[i], steps[i]) && states[i + 1] == Next(retain, states[i], steps[i]))
  }

  lemma {:induction false} OneMore(hash: Bytes -> Digest, retain: nat, steps: seq<Step>, states: seq<State>, step: Step)
      returns (more: seq<Step>, later: seq<State>)
    requires IsRun(hash, retain, steps, states) && Enabled(hash, states[|steps|], step)
    ensures IsRun(hash, retain, more, later) && more == steps + [step]
    ensures later == states + [Next(retain, states[|steps|], step)]
  {
    more, later := steps + [step], states + [Next(retain, states[|steps|], step)];
  }

  // ---------------------------------------------------------------- one call at a time

  /** A call that meets no other adds its adapter to the list as the publisher's own method
      does, or leaves it as it is when the registration fails. */
  lemma {:induction false} CallAsSteps(hash: Bytes -> Digest, retain: nat, s: State, x: Adapter, p: Publication, registered: bool)
    requires s.pending == [] && p.Buffer? && hash(p.data) == x.digest
    requires Enabled(hash, s, Offer(x))
    ensures var s1 := Next(retain, s, Offer(x));
      && Enabled(hash, s1, Broadcast(0, p))
      && var s2 := Next(retain, s1, Broadcast(0, p));
      var last := if registered then Join(0) else Fail(0);
      && Enabled(hash, s2, last)
      && var s3 := Next(retain, s2, last);
      && s3.pending == [] && s3.broadcasts == s.broadcasts + [p]
      && Adapters(s3.listed) == (if registered then KeepLast(Adapters(s.listed) + [x], retain) else Adapters(s.listed))
      && s3.listed == (if registered then KeepLast(s.listed + [Listed(x, |s.broadcasts|)], retain) else s.listed)
      && s3.lost == (if registered then s.lost else s.lost + [|s.broadcasts|])
  {
    var s1 := Next(retain, s, Offer(x));
    var s2 := Next(retain, s1, Broadcast(0, p));
    assert s2.pending == [Attempt(x, Some(|s.broadcasts|))];
    assert Others(s2.pending, 0) == [];
  }

  /** A call begins only when no other is under way. */
  ghost predicate Serial(steps: seq<Step>, states: seq<State>)
    requires |states| == |steps| + 1
  {
    forall i :: 0 <= i < |steps| && steps[i].Offer? ==> states[i].pending == []
  }

  // ---------------------------------------------------------------- the order of the list

  /** The call joins the list behind one with a later step, or the same. */
  predicate Overtaken(s: State, step: Step) {
    && step.Join? && step.k < |s.pending| && s.listed != []
    && s.listed[|s.listed| - 1].adapter.step >= s.pending[step.k].adapter.step
  }

  lemma {:induction false} AppendOrder(listed: seq<Listed>, x: Listed, retain: nat)
    requires retain >= 1
    ensures var after := KeepLast(listed + [x], retain);
      && |after| == Min(|listed| + 1, retain) && after[|after| - 1] == x
      && (|after| > 1 ==> after[|after| - 2] == listed[|listed| - 1])
      && (Increasing(Adapters(listed)) && (listed == [] || listed[|listed| - 1].adapter.step < x.adapter.step) ==>
            Increasing(Adapters(after)))
  {
  }

  lemma {:induction false} StepOrder(hash: Bytes -> Digest, retain: nat, s: State, step: Step)
    requires retain >= 1 && Enabled(hash, s, step) && |s.listed| <= retain && Increasing(Adapters(s.listed))
    ensures var after := Next(retain, s, step);
      && |after.listed| <= retain
      && (Increasing(Adapters(after.listed)) <==> retain == 1 || !Overtaken(s, step))
  {
    if step.Join? {
      var x := Listed(s.pending[step.k].adapter, s.pending[step.k].number.value);
      AppendOrder(s.listed, x, retain);
      var after := Adapters(KeepLast(s.listed + [x], retain));
      if retain > 1 && Overtaken(s, step) {
        assert after[|after| - 2].step >= after[|after| - 1].step;
      }
    }
  }

  lemma {:induction false} OrderUpTo(hash: Bytes -> Digest, retain: nat, steps: seq<Step>, states: seq<State>, k: nat)
    requires retain >= 1 && IsRun(hash, retain, steps, states) && k <= |steps|
    requires retain == 1 || forall i :: 0 <= i < k ==> !Overtaken(states[i], steps[i])
    ensures |states[k].listed| <= retain && Increasing(Adapters(states[k].listed))
  {
    if k > 0 {
      OrderUpTo(hash, retain, steps, states, k - 1);
      StepOrder(hash, retain, states[k - 1], steps[k - 1]);
    }
  }

  /** However the calls overlap, the steps of the list increase at all times exactly if no call
      is overtaken, that is, joins behind one with a later step; a list of one is always in
      order. */
  lemma {:induction false} OrderSurvivesExactly(hash: Bytes -> Digest, retain: nat, steps: seq<Step>, states: seq<State>)
    requires retain >= 1 && IsRun(hash, retain, steps, states)
    ensures (forall i :: 0 <= i < |states| ==> Increasing(Adapters(states[i].listed))) <==>
      retain == 1 || forall i :: 0 <= i < |steps| ==> !Overtaken(states[i], steps[i])
  {
    if retain == 1 || forall i :: 0 <= i < |steps| ==> !Overtaken(states[i], steps[i]) {
      forall i | 0 <= i < |states| ensures Increasing(Adapters(states[i].listed)) {
        OrderUpTo(hash, retain, steps, states, i);
      }
    } else {
      var i := FirstOvertaken(steps, states);
      OrderUpTo(hash, retain, steps, states, i);
      StepOrder(hash, retain, states[i], steps[i]);
      assert !Increasing(Adapters(states[i + 1].listed));
    }
  }

  lemma {:induction false} FirstOvertaken(steps: seq<Step>, states: seq<State>) returns (i: nat)
    requires |states| == |steps| + 1
    requires !forall i :: 0 <= i < |steps| ==> !Overtaken(states[i], steps[i])
    ensures i < |steps| && Overtaken(states[i], steps[i])
    ensures forall j :: 0 <= j < i ==> !Overtaken(states[j], steps[j])
  {
    i := 0;
    while !Overtaken(states[i], steps[i])
      invariant i < |steps| && forall j :: 0 <= j < i ==> !Overtaken(states[j], steps[j])
      decreases |steps| - i
    {
      i := i + 1;
    }
  }

  /** The one call under way was accepted against the list as it still is. */
  ghost predicate Alone(s: State) {
    && |s.pending| <= 1
    && (forall a :: a in s.pending ==> Decide(Adapters(s.listed), a.adapter.step, a.adapter.digest) == Accept)
  }

  lemma {:induction false} StepAlone(hash: Bytes -> Digest, retain: nat, s: State, step: Step)
    requires Enabled(hash, s, step) && Alone(s) && (step.Offer? ==> s.pending == [])
    ensures Alone(Next(retain, s, step)) && !Overtaken(s, step)
  {
    if !step.Offer? {
      assert s.pending[step.k] in s.pending;
      assert step.k == 0 && Others(s.pending, 0) == [];
    }
  }

  lemma {:induction false} SerialAlone(hash: Bytes -> Digest, retain: nat, steps: seq<Step>, states: seq<State>, k: nat)
    requires IsRun(hash, retain, steps, states) && Serial(steps, states) && k <= |steps|
    ensures Alone(states[k])
  {
    if k > 0 {
      SerialAlone(hash, retain, steps, states, k - 1);
      StepAlone(hash, retain, states[k - 1], steps[k - 1]);
    }
  }

  /** Calls made one after the other are never overtaken, so their steps increase. */
  lemma {:induction false} SerialKeepsOrder(hash: Bytes -> Digest, retain: nat, steps: seq<Step>, states: seq<State>, k: nat)
    requires retain >= 1 && IsRun(hash, retain, steps, states) && Serial(steps, states) && k <= |steps|
    ensures Increasing(Adapters(states[k].listed))
  {
    forall i | 0 <= i < |steps| ensures !Overtaken(states[i], steps[i]) {
      SerialAlone(hash, retain, steps, states, i);
      StepAlone(hash, retain, states[i], steps[i]);
    }
    OrderUpTo(hash, retain, steps, states, k);
  }

  /** Two calls that overlap: the later step joins first, the list ends as [2, 1], and the
      adapter of step 2, still listed, would be taken once more. */
  lemma {:induction false} OverlapBreaksOrder(hash: Bytes -> Digest, retain: nat, p: Publication, q: Publication)
      returns (steps: seq<Step>, states: seq<State>)
    requires retain >= 2 && p.Buffer? && q.Buffer?
    ensures IsRun(hash, retain, steps, states)
    ensures var last := Adapters(states[|steps|].listed); var second := Lease.Adapter(2, hash(q.data), |q.data|);
      && last == [second, Lease.Adapter(1, hash(p.data), |p.data|)]
      && Decide(last, second.step, second.digest) == Accept
  {
    var x, y := Lease.Adapter(1, hash(p.data), |p.data|), Lease.Adapter(2, hash(q.data), |q.data|);
    var a, b := Attempt(x, None), Attempt(y, None);
    var sent, sentToo := Attempt(x, Some(0)), Attempt(y, Some(1));
    steps, states := OneMore(hash, retain, [], [NEW], Offer(x));
    steps, states := OneMore(hash, retain, steps, states, Offer(y));
    assert states[2] == State([], [], [a, b], []);
    steps, states := OneMore(hash, retain, steps, states, Broadcast(0, p));
    steps, states := OneMore(hash, retain, steps, states, Broadcast(1, q));
    assert states[4] == State([p, q], [], [sent, sentToo], []);
    steps, states := OneMore(hash, retain, steps, states, Join(1));
    assert states[5] == State([p, q], [Listed(y, 1)], [sent], []);
    steps, states := OneMore(hash, retain, steps, states, Join(0));
    assert states[6] == State([p, q], [Listed(y, 1), Listed(x, 0)], [], []);
  }

  // ---------------------------------------------------------------- what the origin still holds

  /** Every broadcast is an unmirrored buffer that fits, as the version of its number. */
  ghost predicate AllFit(hash: Bytes -> Digest, first: nat, ps: seq<Publication>, maxBytes: nat) {
    forall i :: 0 <= i < |ps| ==> Retention.Plain(hash, first + i, ps[i], maxBytes)
  }

  /** What the memory of a publisher's origin holds after its broadcasts. */
  function Memory(hash: Bytes -> Digest, start: Origin, s: State): seq<Stored> {
    PublicationRuns.Run(hash, start, s.broadcasts).store.versions
  }

  predicate Holds(versions: seq<Stored>, number: nat) {
    Name(number) in StoreNames(versions)
  }

  /** The memory holds bytes with that digest under that number. */
  ghost predicate Serves(hash: Bytes -> Digest, versions: seq<Stored>, number: nat, digest: Digest) {
    exists i ::
      && 0 <= i < |versions| && versions[i].meta.name == Name(number)
      && versions[i].data.Some? && hash(versions[i].data.value) == digest
  }

  lemma {:induction false} NamesDiffer(a: nat, b: nat)
    requires Name(a) == Name(b)
    ensures a == b
  {
    NameRoundTrip(a);
    NameRoundTrip(b);
  }

  lemma {:induction false} LastNames(names: seq<string>, first: nat, total: nat, j: nat)
    requires |names| <= total && j < total
    requires forall i :: 0 <= i < |names| ==> names[i] == Name(first + total - |names| + i)
    ensures Name(first + j) in names <==> j + |names| >= total
  {
    if j + |names| >= total {
      assert names[j + |names| - total] == Name(first + j);
    } else if Name(first + j) in names {
      var i :| 0 <= i < |names| && names[i] == Name(first + j);
      NamesDiffer(first + total - |names| + i, first + j);
    }
  }

  /** The memory holds exactly the last broadcasts, as many as are retained. */
  lemma {:induction false} HoldsLastBroadcasts(hash: Bytes -> Digest, versions: seq<Stored>, first: nat, ps: seq<Publication>,
                                               retain: nat, j: nat)
    requires Retention.RetainsLast(versions, first, ps, retain) && j < |ps|
    ensures Holds(versions, first + j) <==> j + retain >= |ps|
    ensures Holds(versions, first + j) ==> Serves(hash, versions, first + j, hash(ps[j].data))
  {
    LastNames(StoreNames(versions), first, |ps|, j);
    if Holds(versions, first + j) {
      var i := j + |versions| - |ps|;
      assert versions[i].meta.name == Name(first + j) && versions[i].data == Some(ps[j].data);
    }
  }

  /** Every listed adapter was broadcast under its number, and so is every one under way. */
  ghost predicate Numbered(hash: Bytes -> Digest, s: State) {
    && (forall l :: l in s.listed ==> l.number < |s.broadcasts|)
    && (forall l :: l in s.listed ==> s.broadcasts[l.number].Buffer? && hash(s.broadcasts[l.number].data) == l.adapter.digest)
    && (forall a :: a in s.pending && a.number.Some? ==> a.number.value < |s.broadcasts|)
    && (forall a :: a in s.pending && a.number.Some? ==>
          s.broadcasts[a.number.value].Buffer? && hash(s.broadcasts[a.number.value].data) == a.adapter.digest)
  }

  lemma {:induction false} StepNumbered(hash: Bytes -> Digest, retain: nat, s: State, step: Step)
    requires Numbered(hash, s) && Enabled(hash, s, step)
    ensures Numbered(hash, Next(retain, s, step))
  {
    var after := Next(retain, s, step);
    forall a | a in after.pending
      ensures a in s.pending || (step.Offer? && a == Attempt(step.x, None))
              || (step.Broadcast? && a == s.pending[step.k].(number := Some(|s.broadcasts|)))
    {
    }
    forall l | l in after.listed
      ensures l in s.listed || (step.Join? && l == Listed(s.pending[step.k].adapter, s.pending[step.k].number.value))
    {
    }
    if !step.Offer? {
      assert s.pending[step.k] in s.pending;
    }
  }

  lemma {:induction false} RunNumbered(hash: Bytes -> Digest, retain: nat, steps: seq<Step>, states: seq<State>, k: nat)
    requires IsRun(hash, retain, steps, states) && k <= |steps|
    ensures Numbered(hash, states[k])
  {
    if k > 0 {
      RunNumbered(hash, retain, steps, states, k - 1);
      StepNumbered(hash, retain, states[k - 1], steps[k - 1]);
    }
  }

  /** However the calls overlap and fail: the origin holds a listed adapter exactly if its
      broadcast is among the last ones, as many as are retained, and it then holds bytes of the
      adapter's digest. */
  lemma {:induction false} ListedIsHeldExactly(hash: Bytes -> Digest, maxBytes: nat, retain: nat, folders: seq<Folder>, first: nat,
                                               steps: seq<Step>, states: seq<State>, k: nat) returns (memory: seq<Stored>)
    requires retain >= 1 && IsRun(hash, retain, steps, states) && k <= |steps|
    requires first == NextNumber(PublicationRuns.Start(retain * maxBytes, folders, retain))
    requires AllFit(hash, first, states[k].broadcasts, maxBytes)
    ensures memory == Memory(hash, PublicationRuns.Start(retain * maxBytes, folders, retain), states[k])
    ensures forall l :: l in states[k].listed ==>
      && (Holds(memory, first + l.number) <==> l.number + retain >= |states[k].broadcasts|)
      && (Holds(memory, first + l.number) ==> Serves(hash, memory, first + l.number, l.adapter.digest))
  {
    RunNumbered(hash, retain, steps, states, k);
    memory := Retention.MemoryAfter(hash, maxBytes, retain, folders, states[k].broadcasts, first);
    ListedHeld(hash, states[k], memory, first, retain);
  }

  lemma {:induction false} ListedHeld(hash: Bytes -> Digest, s: State, versions: seq<Stored>, first: nat, retain: nat)
    requires Numbered(hash, s) && Retention.RetainsLast(versions, first, s.broadcasts, retain)
    ensures forall l :: l in s.listed ==>
      && (Holds(versions, first + l.number) <==> l.number + retain >= |s.broadcasts|)
      && (Holds(versions, first + l.number) ==> Serves(hash, versions, first + l.number, l.adapter.digest))
  {
    forall l | l in s.listed
      ensures Holds(versions, first + l.number) <==> l.number + retain >= |s.broadcasts|
      ensures Holds(versions, first + l.number) ==> Serves(hash, versions, first + l.number, l.adapter.digest)
    {
      HoldsLastBroadcasts(hash, versions, first, s.broadcasts, retain, l.number);
    }
  }

  // ---------------------------------------------------------------- calls one after the other

  /** How many of the numbers are not below the bound. */
  function CountFrom(numbers: seq<nat>, bound: nat): nat {
    if numbers == [] then 0
    else CountFrom(numbers[..|numbers| - 1], bound) + (if numbers[|numbers| - 1] >= bound then 1 else 0)
  }

  lemma {:induction false} CountFromNone(numbers: seq<nat>, bound: nat)
    requires forall i :: 0 <= i < |numbers| ==> numbers[i] < bound
    ensures CountFrom(numbers, bound) == 0
  {
    if numbers != [] {
      CountFromNone(numbers[..|numbers| - 1], bound);
    }
  }

  /** The broadcasts whose call is still under way. */
  function InFlight(s: State): nat
    requires |s.pending| <= 1
  {
    if s.pending != [] && s.pending[0].number.Some? then 1 else 0
  }

  /** The newest broadcast is the one in flight; and from each listed broadcast on, every number
      is listed, lost or in flight. */
  ghost predicate Tallied(s: State) {
    && |s.pending| <= 1
    && (InFlight(s) == 1 ==> s.pending[0].number.value + 1 == |s.broadcasts|)
    && (forall i :: 0 <= i < |s.lost| ==> s.lost[i] + InFlight(s) < |s.broadcasts|)
    && (forall i :: 0 <= i < |s.listed| ==> s.listed[i].number + InFlight(s) < |s.broadcasts|)
    && (forall i, j :: 0 <= i < j < |s.listed| ==> s.listed[i].number < s.listed[j].number)
    && (forall i :: 0 <= i < |s.listed| ==>
          |s.broadcasts| == s.listed[i].number + (|s.listed| - i) + CountFrom(s.lost, s.listed[i].number) + InFlight(s))
  }

  lemma {:induction false} JoinTallied(retain: nat, s: State)
    requires Tallied(s) && InFlight(s) == 1
    ensures Tallied(Next(retain, s, Join(0)))
  {
    var after := Next(retain, s, Join(0));
    var x := Listed(s.pending[0].adapter, s.pending[0].number.value);
    assert Others(s.pending, 0) == [];
    CountFromNone(s.lost, x.number);
    var all := s.listed + [x];
    forall i | 0 <= i < |after.listed|
      ensures after.listed[i].number < |s.broadcasts|
      ensures |s.broadcasts| == after.listed[i].number + (|after.listed| - i) + CountFrom(s.lost, after.listed[i].number)
    {
      var j := i + |all| - |after.listed|;
      assert after.listed[i] == all[j];
      if j < |s.listed| {
        assert all[j] == s.listed[j];
      }
    }
  }

  lemma {:induction false} FailTallied(retain: nat, s: State)
    requires Tallied(s) && s.pending != []
    ensures Tallied(Next(retain, s, Fail(0)))
  {
    var after := Next(retain, s, Fail(0));
    assert Others(s.pending, 0) == [];
    if InFlight(s) == 1 {
      var n := s.pending[0].number.value;
      assert after.lost[..|s.lost|] == s.lost;
      forall i | 0 <= i < |s.listed| ensures CountFrom(after.lost, s.listed[i].number) == CountFrom(s.lost, s.listed[i].number) + 1 {
        assert s.listed[i].number + 1 < |s.broadcasts|;
      }
    }
  }

  lemma {:induction false} StepTallied(hash: Bytes -> Digest, retain: nat, s: State, step: Step)
    requires Tallied(s) && Enabled(hash, s, step) && (step.Offer? ==> s.pending == [])
    ensures Tallied(Next(retain, s, step))
  {
    match step
    case Offer(x) =>
    case Broadcast(k, p) =>
    case Join(k) => JoinTallied(retain, s);
    case Fail(k) => FailTallied(retain, s);
  }

  lemma {:induction false} SerialTallied(hash: Bytes -> Digest, retain: nat, steps: seq<Step>, states: seq<State>, k: nat)
    requires IsRun(hash, retain, steps, states) && Serial(steps, states) && k <= |steps|
    ensures Tallied(states[k])
  {
    if k > 0 {
      SerialTallied(hash, retain, steps, states, k - 1);
      StepTallied(hash, retain, states[k - 1], steps[k - 1]);
    }
  }

  /** Every listed adapter is held by the origin. */
  ghost predicate AllHeld(memory: seq<Stored>, first: nat, listed: seq<Listed>) {
    forall l :: l in listed ==> Holds(memory, first + l.number)
  }

  /** Calls made one after the other: at every moment the origin holds all that is listed
      exactly if the listed adapters, the broadcasts lost since the oldest of them, and the one
      not yet registered are together no more than are retained. */
  lemma {:induction false} AllHeldExactly(hash: Bytes -> Digest, maxBytes: nat, retain: nat, folders: seq<Folder>, first: nat,
                                          steps: seq<Step>, states: seq<State>, k: nat) returns (memory: seq<Stored>)
    requires retain >= 1 && IsRun(hash, retain, steps, states) && Serial(steps, states) && k <= |steps|
    requires first == NextNumber(PublicationRuns.Start(retain * maxBytes, folders, retain))
    requires AllFit(hash, first, states[k].broadcasts, maxBytes)
    ensures memory == Memory(hash, PublicationRuns.Start(retain * maxBytes, folders, retain), states[k])
    ensures |states[k].pending| <= 1
    ensures var s := states[k];
      AllHeld(memory, first, s.listed) <==>
        s.listed == [] || |s.listed| + CountFrom(s.lost, s.listed[0].number) + InFlight(s) <= retain
  {
    SerialTallied(hash, retain, steps, states, k);
    memory := ListedIsHeldExactly(hash, maxBytes, retain, folders, first, steps, states, k);
    OldestDecides(memory, first, states[k], retain);
  }

  lemma {:induction false} OldestDecides(memory: seq<Stored>, first: nat, s: State, retain: nat)
    requires Tallied(s)
    requires forall l :: l in s.listed ==> (Holds(memory, first + l.number) <==> l.number + retain >= |s.broadcasts|)
    ensures AllHeld(memory, first, s.listed) <==>
      s.listed == [] || |s.listed| + CountFrom(s.lost, s.listed[0].number) + InFlight(s) <= retain
  {
    if s.listed != [] {
      assert s.listed[0] in s.listed;
      forall l | l in s.listed ensures s.listed[0].number <= l.number {
        var i :| 0 <= i < |s.listed| && s.listed[i] == l;
      }
    }
  }

  // ---------------------------------------------------------------- the call that loses one

  lemma {:induction false} OneMoreStep(hash: Bytes -> Digest, retain: nat, steps: seq<Step>, states: seq<State>, step: Step)
      returns (more: seq<Step>, later: seq<State>)
    requires IsRun(hash, retain, steps, states) && Serial(steps, states)
    requires var s := states[|steps|]; Enabled(hash, s, step) && (step.Offer? ==> s.pending == [])
    ensures IsRun(hash, retain, more, later) && Serial(more, later) && more == steps + [step]
    ensures later == states + [Next(retain, states[|steps|], step)]
  {
    more, later := OneMore(hash, retain, steps, states, step);
  }

  /** Any serial run can be followed by a whole call. */
  lemma {:induction false} OneMoreCall(hash: Bytes -> Digest, retain: nat, steps: seq<Step>, states: seq<State>, x: Adapter,
                                       p: Publication, registered: bool)
      returns (more: seq<Step>, later: seq<State>)
    requires IsRun(hash, retain, steps, states) && Serial(steps, states)
    requires p.Buffer? && hash(p.data) == x.digest
    requires var s := states[|steps|]; s.pending == [] && Enabled(hash, s, Offer(x))
    ensures IsRun(hash, retain, more, later) && Serial(more, later)
    ensures steps <= more && states <= later
    ensures var s, last := states[|steps|], later[|more|];
      last == if registered
            then s.(broadcasts := s.broadcasts + [p], listed := KeepLast(s.listed + [Listed(x, |s.broadcasts|)], retain))
            else s.(broadcasts := s.broadcasts + [p], lost := s.lost + [|s.broadcasts|])
  {
    CallAsSteps(hash, retain, states[|steps|], x, p, registered);
    more, later := OneMoreStep(hash, retain, steps, states, Offer(x));
    more, later := OneMoreStep(hash, retain, more, later, Broadcast(0, p));
    more, later := OneMoreStep(hash, retain, more, later, if registered then Join(0) else Fail(0));
  }

  /** A full list at rest: one more call whose registration fails, and the origin no longer
      holds all that is listed. */
  lemma {:induction false} FailedRegistrationLoses(hash: Bytes -> Digest, maxBytes: nat, retain: nat, folders: seq<Folder>, first: nat,
                                                   steps: seq<Step>, states: seq<State>, x: Adapter, p: Publication)
      returns (more: seq<Step>, later: seq<State>, memory: seq<Stored>)
    requires retain >= 1 && IsRun(hash, retain, steps, states) && Serial(steps, states)
    requires p.Buffer? && hash(p.data) == x.digest
    requires var s := states[|steps|]; s.pending == [] && |s.listed| == retain && Enabled(hash, s, Offer(x))
    requires first == NextNumber(PublicationRuns.Start(retain * maxBytes, folders, retain))
    requires AllFit(hash, first, states[|steps|].broadcasts + [p], maxBytes)
    ensures IsRun(hash, retain, more, later) && Serial(more, later) && steps <= more && states <= later
    ensures memory == Memory(hash, PublicationRuns.Start(retain * maxBytes, folders, retain), later[|more|])
    ensures later[|more|].listed == states[|steps|].listed
    ensures !AllHeld(memory, first, states[|steps|].listed)
  {
    var s := states[|steps|];
    SerialTallied(hash, retain, steps, states, |steps|);
    more, later := OneMoreCall(hash, retain, steps, states, x, p, false);
    memory := AllHeldExactly(hash, maxBytes, retain, folders, first, more, later, |more|);
    assert (s.lost + [|s.broadcasts|])[..|s.lost|] == s.lost;
    assert CountFrom(s.lost + [|s.broadcasts|], s.listed[0].number) == CountFrom(s.lost, s.listed[0].number) + 1;
  }

  /** The buffer published n times, with steps from one on. */
  function Copies(hash: Bytes -> Digest, p: Publication, n: nat): (r: seq<Listed>)
    requires p.Buffer?
    ensures |r| == n
  {
    if n == 0 then [] else Copies(hash, p, n - 1) + [Listed(Lease.Adapter(n, hash(p.data), |p.data|), n - 1)]
  }

  lemma {:induction false} Filled(hash: Bytes -> Digest, retain: nat, p: Publication, n: nat) returns (steps: seq<Step>, states: seq<State>)
    requires p.Buffer? && n <= retain
    ensures IsRun(hash, retain, steps, states) && Serial(steps, states)
    ensures states[|steps|] == State(seq(n, i => p), Copies(hash, p, n), [], [])
  {
    if n == 0 {
      steps, states := [], [NEW];
    } else {
      steps, states := Filled(hash, retain, p, n - 1);
      var x := Lease.Adapter(n, hash(p.data), |p.data|);
      steps, states := OneMoreCall(hash, retain, steps, states, x, p, true);
      assert seq(n - 1, i => p) + [p] == seq(n, i => p);
    }
  }

  lemma {:induction false} FitPrefix(hash: Bytes -> Digest, first: nat, ps: seq<Publication>, maxBytes: nat, n: nat)
    requires AllFit(hash, first, ps, maxBytes) && n <= |ps|
    ensures AllFit(hash, first, ps[..n], maxBytes)
  {
  }

  lemma {:induction false} FilledIsHeld(hash: Bytes -> Digest, maxBytes: nat, retain: nat, folders: seq<Folder>, first: nat, p: Publication)
      returns (steps: seq<Step>, states: seq<State>, full: seq<Stored>)
    requires retain >= 1 && first == NextNumber(PublicationRuns.Start(retain * maxBytes, folders, retain))
    requires p.Buffer? && AllFit(hash, first, seq(retain, i => p), maxBytes)
    ensures IsRun(hash, retain, steps, states) && Serial(steps, states)
    ensures states[|steps|] == State(seq(retain, i => p), Copies(hash, p, retain), [], [])
    ensures full == Memory(hash, PublicationRuns.Start(retain * maxBytes, folders, retain), states[|steps|])
    ensures AllHeld(full, first, states[|steps|].listed)
  {
    steps, states := Filled(hash, retain, p, retain);
    full := AllHeldExactly(hash, maxBytes, retain, folders, first, steps, states, |steps|);
  }

  /** Such a run, for every number retained: as many calls as that succeed, and the origin holds
      all of them; one more whose registration fails, and it has dropped the first, still
      listed. */
  lemma {:induction false} ListOutlivesMemory(hash: Bytes -> Digest, maxBytes: nat, retain: nat, folders: seq<Folder>, first: nat,
                                              p: Publication)
      returns (steps: seq<Step>, states: seq<State>, k: nat, full: seq<Stored>, memory: seq<Stored>)
    requires retain >= 1 && first == NextNumber(PublicationRuns.Start(retain * maxBytes, folders, retain))
    requires p.Buffer? && AllFit(hash, first, seq(retain + 1, i => p), maxBytes)
    ensures IsRun(hash, retain, steps, states) && Serial(steps, states) && k <= |steps|
    ensures states[k].listed == states[|steps|].listed == Copies(hash, p, retain)
    ensures states[k].pending == [] && states[k].lost == []
    ensures full == Memory(hash, PublicationRuns.Start(retain * maxBytes, folders, retain), states[k])
    ensures memory == Memory(hash, PublicationRuns.Start(retain * maxBytes, folders, retain), states[|steps|])
    ensures AllHeld(full, first, states[k].listed) && !AllHeld(memory, first, states[k].listed)
  {
    var copies := seq(retain, i => p);
    assert seq(retain + 1, i => p)[..retain] == copies && seq(retain + 1, i => p) == copies + [p];
    FitPrefix(hash, first, seq(retain + 1, i => p), maxBytes, retain);
    steps, states, full := FilledIsHeld(hash, maxBytes, retain, folders, first, p);
    k := |steps|;
    var x := Lease.Adapter(retain + 1, hash(p.data), |p.data|);
    steps, states, memory := FailedRegistrationLoses(hash, maxBytes, retain, folders, first, steps, states, x, p);
  }
}
