/** The lease on a run: one expiring record in the registry that publishers claim, renew and
    replace, each by an atomic script, while their heartbeats, publications and start-ups
    interleave and time passes. */
module Lease {
  import opened Wrappers

  /** A publisher's random identity. */
  datatype Owner = Owner(id: nat)

  datatype Adapter = Adapter(step: int, digest: Digest, size: nat)

  datatype Record = Record(owner: Owner, publications: seq<Adapter>, expiry: real)

  /** The record a reader sees: none once it has expired. */
  function Visible(record: Option<Record>, now: real): Option<Record> {
    if record.Some? && now < record.value.expiry then record else None
  }

  /** The registry script: refuses if another owner's record is visible, else replaces it. */
  function Script(record: Option<Record>, now: real, owner: Owner, publications: seq<Adapter>, ttl: real)
    : (Option<Record>, bool)
  {
    var shown := Visible(record, now);
    if shown.Some? && shown.value.owner != owner then (record, false)
    else (Some(Record(owner, publications, now + ttl)), true)
  }

  // ---------------------------------------------------------------- publishers and their steps

  datatype Phase = New | Claiming | Beating | Stopped

  /** pending counts publications past their fencing check, committed those that have joined
      the list and still have to refresh; attempted and missed tell about the last heartbeat.
      A start-up or heartbeat that is refused ends the heartbeats until the next start-up. */
  datatype Controller = Controller(
    phase: Phase, fenced: bool, pending: nat, committed: nat, publications: seq<Adapter>,
    attempted: real, missed: bool)

  datatype Write = Write(owner: Owner, at: real, until: real)

  /** writes is the history of the record, oldest first. */
  datatype System = System(now: real, record: Option<Record>, publishers: map<Owner, Controller>, writes: seq<Write>)

  /** Whether a refresh came to its end: its reply can get lost, or a registration call behind
      the script can fail, after the script has run. */
  datatype End = Clean | Faulty

  datatype Step =
    | Tick(d: real)
    | Check(o: Owner)
    | Claim(o: Owner, end: End)
    | Beat(o: Owner, end: End)
    | Miss(o: Owner)
    | Begin(o: Owner)
    | Commit(o: Owner, adapter: Adapter)
    | Flush(o: Owner, end: End)
    | Abandon(o: Owner, joined: bool)

  /** How long a write of each publisher lasts, and how many versions it retains. */
  datatype Terms = Terms(ttl: Owner -> real, retain: nat)

  predicate Enabled(s: System, step: Step) {
    match step
    case Tick(d) => d > 0.0
    case Check(o) => o in s.publishers && (s.publishers[o].phase == New || s.publishers[o].phase == Stopped)
    case Claim(o, _) => o in s.publishers && s.publishers[o].phase == Claiming
    case Beat(o, _) => o in s.publishers && s.publishers[o].phase == Beating
    case Miss(o) => o in s.publishers && (s.publishers[o].phase == Beating || s.publishers[o].phase == Claiming)
    case Begin(o) => o in s.publishers && !s.publishers[o].fenced
    case Commit(o, _) => o in s.publishers && s.publishers[o].pending > 0
    case Flush(o, _) => o in s.publishers && s.publishers[o].committed > 0
    case Abandon(o, joined) => o in s.publishers && (if joined then s.publishers[o].committed > 0 else s.publishers[o].pending > 0)
  }

  /** Whether the script would write for this publisher now. */
  predicate MayWrite(s: System, o: Owner) {
    var shown := Visible(s.record, s.now);
    shown.None? || shown.value.owner == o
  }

  /** The script is run for publisher o, whose own state becomes p. */
  function Refresh(t: Terms, s: System, o: Owner, p: Controller): System
    requires o in s.publishers
  {
    if !MayWrite(s, o) then Set(s, o, p)
    else
      s.(record := Script(s.record, s.now, o, p.publications, t.ttl(o)).0,
         publishers := s.publishers[o := p],
         writes := s.writes + [Write(o, s.now, s.now + t.ttl(o))])
  }

  function Set(s: System, o: Owner, p: Controller): System {
    s.(publishers := s.publishers[o := p])
  }

  /** The publisher sees that it was refused. */
  predicate Refused(s: System, o: Owner, end: End) {
    !MayWrite(s, o) && end == Clean
  }

  /** A start-up that does not see its claim accepted fails. */
  function Claimed(s: System, o: Owner, p: Controller, end: End): Controller {
    p.(phase := if MayWrite(s, o) && end == Clean then Beating else Stopped,
       fenced := p.fenced || Refused(s, o, end), attempted := s.now, missed := false)
  }

  /** A heartbeat that raises ends the heartbeats if the publisher is fenced, by it or before;
      otherwise it is a missed one unless its script wrote. */
  function Beaten(s: System, o: Owner, p: Controller, end: End): Controller {
    var fenced := p.fenced || Refused(s, o, end);
    p.(phase := if fenced && !(MayWrite(s, o) && end == Clean) then Stopped else Beating,
       fenced := fenced, attempted := s.now, missed := !MayWrite(s, o))
  }

  /** A publication's refresh is over when it succeeds or is refused; otherwise it is retried,
      and the publication stays in flight. */
  function Flushed(s: System, o: Owner, p: Controller, end: End): Controller
    requires p.committed > 0
  {
    if end == Faulty then p
    else p.(committed := p.committed - 1, fenced := p.fenced || Refused(s, o, end))
  }

  /** A publication fails before it joined the list, or runs out of time while retrying. */
  function Abandoned(p: Controller, joined: bool): Controller
    requires if joined then p.committed > 0 else p.pending > 0
  {
    if joined then p.(committed := p.committed - 1) else p.(pending := p.pending - 1)
  }

  /** The script is not reached: a start-up fails, and a heartbeat is repeated unless the
      publisher is fenced. */
  function Missed(s: System, p: Controller): Controller {
    p.(phase := if p.fenced || p.phase == Claiming then Stopped else Beating, attempted := s.now, missed := true)
  }

  function Apply(t: Terms, s: System, step: Step): System
    requires Enabled(s, step)
  {
    match step
    case Tick(d) => s.(now := s.now + d)
    case Check(o) => if Visible(s.record, s.now).Some? then s else Set(s, o, s.publishers[o].(phase := Claiming))
    case Claim(o, end) => Refresh(t, s, o, Claimed(s, o, s.publishers[o], end))
    case Beat(o, end) => Refresh(t, s, o, Beaten(s, o, s.publishers[o], end))
    case Miss(o) => Set(s, o, Missed(s, s.publishers[o]))
    case Begin(o) => Set(s, o, s.publishers[o].(pending := s.publishers[o].pending + 1))
    case Commit(o, adapter) =>
      var p := s.publishers[o];
      Set(s, o, p.(pending := p.pending - 1, committed := p.committed + 1,
                   publications := KeepLast(p.publications + [adapter], t.retain)))
    case Flush(o, end) => Refresh(t, s, o, Flushed(s, o, s.publishers[o], end))
    case Abandon(o, joined) => Set(s, o, Abandoned(s.publishers[o], joined))
  }

  function NewController(): Controller {
    Controller(New, false, 0, 0, [], 0.0, false)
  }

  function Init(owners: set<Owner>): System {
    System(0.0, None, map o | o in owners :: NewController(), [])
  }

  ghost predicate IsRun(t: Terms, owners: set<Owner>, steps: seq<Step>, states: seq<System>) {
    && |states| == |steps| + 1 && states[0] == Init(owners)
    && (forall k :: 0 <= k < |steps| ==> Enabled(states[k], steps[k]) && states[k + 1] == Apply(t, states[k], steps[k]))
  }

  // ---------------------------------------------------------------- mutual exclusion

  /** The history in order of time: nobody wrote before another owner's lease had run out, and
      the record is what was written last. */
  ghost predicate LogInv(t: Terms, s: System) {
    && (forall i :: 0 <= i < |s.writes| ==>
          s.writes[i].at <= s.now && s.writes[i].until == s.writes[i].at + t.ttl(s.writes[i].owner))
    && (forall i, j :: 0 <= i < j < |s.writes| ==>
          && s.writes[i].at <= s.writes[j].at
          && (s.writes[i].owner != s.writes[j].owner ==> s.writes[i].until <= s.writes[j].at))
    && (s.record.None? <==> s.writes == [])
    && (s.record.Some? ==>
          var last := s.writes[|s.writes| - 1];
          s.record.value.owner == last.owner && s.record.value.expiry == last.until)
  }

  lemma {:induction false} RefreshKeepsLog(t: Terms, s: System, o: Owner, p: Controller)
    requires LogInv(t, s) && o in s.publishers
    ensures LogInv(t, Refresh(t, s, o, p))
  {
    var n := |s.writes|;
    if MayWrite(s, o) && n > 0 {
      var last := s.writes[n - 1];
      forall i | 0 <= i < n && s.writes[i].owner != o ensures s.writes[i].until <= s.now {
        if i < n - 1 {
          assert s.writes[i].at <= last.at;
        }
      }
    }
  }

  lemma {:induction false} StepKeepsLog(t: Terms, s: System, step: Step)
    requires LogInv(t, s) && Enabled(s, step)
    ensures LogInv(t, Apply(t, s, step))
  {
    match step
    case Claim(o, end) => RefreshKeepsLog(t, s, o, Claimed(s, o, s.publishers[o], end));
    case Beat(o, end) => RefreshKeepsLog(t, s, o, Beaten(s, o, s.publishers[o], end));
    case Flush(o, end) => RefreshKeepsLog(t, s, o, Flushed(s, o, s.publishers[o], end));
    case _ =>
  }

  lemma {:induction false} RunKeepsLog(t: Terms, owners: set<Owner>, steps: seq<Step>, states: seq<System>)
    requires IsRun(t, owners, steps, states)
    ensures LogInv(t, states[|steps|])
  {
    if steps != [] {
      var n := |steps| - 1;
      RunKeepsLog(t, owners, steps[..n], states[..n + 1]);
      StepKeepsLog(t, states[n], steps[n]);
    }
  }

  /** In every interleaving, no write replaces another owner's unexpired record. */
  lemma {:induction false} NoLeaseIsStolen(t: Terms, owners: set<Owner>, steps: seq<Step>, states: seq<System>, i: nat, j: nat)
    requires IsRun(t, owners, steps, states)
    requires i < j < |states[|steps|].writes|
    requires states[|steps|].writes[i].owner != states[|steps|].writes[j].owner
    ensures states[|steps|].writes[i].until <= states[|steps|].writes[j].at
  {
    RunKeepsLog(t, owners, steps, states);
  }

  /** A publisher whose own write has not run out is the one the registry shows; so at most one
      publisher holds a lease at any time, whatever the others believe. */
  lemma {:induction false} HolderIsShown(t: Terms, owners: set<Owner>, steps: seq<Step>, states: seq<System>, i: nat)
    requires IsRun(t, owners, steps, states)
    requires i < |states[|steps|].writes| && states[|steps|].now < states[|steps|].writes[i].until
    ensures var s := states[|steps|];
      var shown := Visible(s.record, s.now);
      shown.Some? && shown.value.owner == s.writes[i].owner
  {
    RunKeepsLog(t, owners, steps, states);
    var s := states[|steps|];
    var last := |s.writes| - 1;
    if i < last {
      assert s.writes[i].at <= s.writes[last].at;
    }
  }

  // ---------------------------------------------------------------- what the record lists

  /** The publisher whose refresh the step runs. */
  predicate Refreshes(step: Step, o: Owner) {
    || (step.Claim? && step.o == o)
    || (step.Beat? && step.o == o)
    || (step.Flush? && step.o == o)
  }

  /** Another publisher's record has not expired. */
  predicate HeldByOther(record: Option<Record>, now: real, o: Owner) {
    record.Some? && now < record.value.expiry && record.value.owner != o
  }

  /** A refresh puts the publisher's own list, as it is then, into the record for the length of
      its lease, unless another's record is live; that record stays, and no other step touches
      the record. */
  lemma {:induction false} RefreshShowsList(t: Terms, s: System, step: Step, o: Owner)
    requires Enabled(s, step) && o in s.publishers
    ensures var after := Apply(t, s, step);
      && (Refreshes(step, o) ==>
            after.record == if HeldByOther(s.record, s.now, o) then s.record
                            else Some(Record(o, s.publishers[o].publications, s.now + t.ttl(o))))
      && (!step.Claim? && !step.Beat? && !step.Flush? ==> after.record == s.record)
      && (!step.Commit? ==> o in after.publishers && after.publishers[o].publications == s.publishers[o].publications)
  {
  }

  /** The adapters a publisher has added, oldest first. */
  function Committed(steps: seq<Step>, o: Owner): seq<Adapter> {
    if steps == [] then []
    else
      var last := steps[|steps| - 1];
      Committed(steps[..|steps| - 1], o) + (if last.Commit? && last.o == o then [last.adapter] else [])
  }

  /** A publisher's list is always the last ones it added, as many as it retains. */
  lemma {:induction false} ListIsCommitted(t: Terms, owners: set<Owner>, steps: seq<Step>, states: seq<System>, o: Owner)
    requires IsRun(t, owners, steps, states) && o in owners
    ensures var s := states[|steps|];
      s.publishers.Keys == owners && s.publishers[o].publications == KeepLast(Committed(steps, o), t.retain)
  {
    if steps != [] {
      var n := |steps| - 1;
      var first, before := steps[..n], states[..n + 1];
      assert IsRun(t, owners, first, before) && before[n] == states[n];
      ListIsCommitted(t, owners, first, before, o);
      StepLists(t, states[n], steps[n], o, Committed(first, o));
    }
  }

  lemma {:induction false} StepLists(t: Terms, s: System, step: Step, o: Owner, before: seq<Adapter>)
    requires Enabled(s, step) && o in s.publishers && s.publishers[o].publications == KeepLast(before, t.retain)
    ensures var after := Apply(t, s, step);
      && after.publishers.Keys == s.publishers.Keys
      && after.publishers[o].publications
         == KeepLast(before + (if step.Commit? && step.o == o then [step.adapter] else []), t.retain)
  {
    RefreshShowsList(t, s, step, o);
    if step.Commit? {
      KeepLastTwice(before, step.adapter, t.retain);
    } else {
      assert before + [] == before;
    }
  }

  /** The step writes for the publisher: it refreshes while no other's record is live. */
  predicate WritesAt(s: System, step: Step, o: Owner) {
    Refreshes(step, o) && !HeldByOther(s.record, s.now, o)
  }

  /** Nobody writes from step k on. */
  ghost predicate NoWriteFrom(steps: seq<Step>, states: seq<System>, k: nat)
    requires |states| == |steps| + 1
  {
    forall j, q :: k <= j < |steps| ==> !WritesAt(states[j], steps[j], q)
  }

  /** Over every run: the record is from the last refresh that no live record of another stood
      against, and lists what its publisher had added until then, the last ones of it. */
  lemma {:induction false} RecordListsLastWrite(t: Terms, owners: set<Owner>, steps: seq<Step>, states: seq<System>)
      returns (k: nat, o: Owner)
    requires IsRun(t, owners, steps, states) && states[|steps|].record.Some?
    ensures k < |steps| && o in owners && WritesAt(states[k], steps[k], o) && NoWriteFrom(steps, states, k + 1)
    ensures states[|steps|].record
         == Some(Record(o, KeepLast(Committed(steps[..k], o), t.retain), states[k].now + t.ttl(o)))
  {
    var n := |steps| - 1;
    if q: Owner :| q in owners && WritesAt(states[n], steps[n], q) {
      k, o := n, q;
      LastStepWrites(t, owners, steps, states, q);
    } else {
      var first, before := steps[..n], states[..n + 1];
      NoWriteKeepsRecord(t, owners, steps, states, n);
      k, o := RecordListsLastWrite(t, owners, first, before);
      assert first[..k] == steps[..k];
      LastStepWritesNothing(t, owners, steps, states, k + 1, first, before);
    }
  }

  lemma {:induction false} LastStepWrites(t: Terms, owners: set<Owner>, steps: seq<Step>, states: seq<System>, o: Owner)
    requires IsRun(t, owners, steps, states) && steps != [] && o in owners
    requires WritesAt(states[|steps| - 1], steps[|steps| - 1], o)
    ensures var n := |steps| - 1;
      states[n + 1].record == Some(Record(o, KeepLast(Committed(steps[..n], o), t.retain), states[n].now + t.ttl(o)))
  {
    var n := |steps| - 1;
    ListIsCommitted(t, owners, steps[..n], states[..n + 1], o);
    RefreshShowsList(t, states[n], steps[n], o);
  }

  lemma {:induction false} LastStepWritesNothing(
    t: Terms, owners: set<Owner>, steps: seq<Step>, states: seq<System>, k: nat, first: seq<Step>, before: seq<System>)
    requires IsRun(t, owners, steps, states) && steps != []
    requires first == steps[..|steps| - 1] && before == states[..|steps|] && NoWriteFrom(first, before, k)
    requires forall q :: q in owners ==> !WritesAt(states[|steps| - 1], steps[|steps| - 1], q)
    ensures NoWriteFrom(steps, states, k)
  {
    var n := |steps| - 1;
    forall j, q | k <= j < |steps| ensures !WritesAt(states[j], steps[j], q) {
      if j < n {
        assert !WritesAt(before[j], first[j], q);
      } else if WritesAt(states[n], steps[n], q) {
        OnlyOwners(t, owners, steps, states, n, q);
        assert false;
      }
    }
  }

  lemma {:induction false} OnlyOwners(t: Terms, owners: set<Owner>, steps: seq<Step>, states: seq<System>, k: nat, q: Owner)
    requires IsRun(t, owners, steps, states) && k < |steps| && Refreshes(steps[k], q)
    ensures q in owners
  {
    assert IsRun(t, owners, steps[..k], states[..k + 1]);
    KeysStay(t, owners, steps[..k], states[..k + 1]);
  }

  lemma {:induction false} KeysStay(t: Terms, owners: set<Owner>, steps: seq<Step>, states: seq<System>)
    requires IsRun(t, owners, steps, states)
    ensures states[|steps|].publishers.Keys == owners
  {
    if steps != [] {
      var n := |steps| - 1;
      KeysStay(t, owners, steps[..n], states[..n + 1]);
    }
  }

  lemma {:induction false} NoWriteKeepsRecord(t: Terms, owners: set<Owner>, steps: seq<Step>, states: seq<System>, k: nat)
    requires IsRun(t, owners, steps, states) && k < |steps|
    requires forall q :: q in owners ==> !WritesAt(states[k], steps[k], q)
    ensures states[k + 1].record == states[k].record
  {
    var s, step := states[k], steps[k];
    if step.Claim? || step.Beat? || step.Flush? {
      OnlyOwners(t, owners, steps, states, k, step.o);
      RefreshShowsList(t, s, step, step.o);
    }
  }

  // ---------------------------------------------------------------- what the history says of a publisher

  /** A refresh of the publisher ran its script against another's live record and saw the refusal. */
  predicate Refusal(s: System, step: Step, o: Owner) {
    Refreshes(step, o) && step.end == Clean && HeldByOther(s.record, s.now, o)
  }

  ghost predicate RefusedBefore(steps: seq<Step>, states: seq<System>, o: Owner, n: nat)
    requires |states| == |steps| + 1 && n <= |steps|
  {
    exists k :: 0 <= k < n && Refusal(states[k], steps[k], o)
  }

  /** Over every run: a publisher is fenced exactly if one of its refreshes saw another's live record. */
  lemma {:induction false} FencedExactly(t: Terms, owners: set<Owner>, steps: seq<Step>, states: seq<System>, o: Owner)
    requires IsRun(t, owners, steps, states) && o in owners
    ensures var s := states[|steps|];
      o in s.publishers && (s.publishers[o].fenced <==> RefusedBefore(steps, states, o, |steps|))
  {
    if steps != [] {
      var n := |steps| - 1;
      FencedExactly(t, owners, steps[..n], states[..n + 1], o);
      RefusedEarlier(steps, states, o, n);
      StepFences(t, states[n], steps[n], o);
    }
  }

  lemma {:induction false} RefusedEarlier(steps: seq<Step>, states: seq<System>, o: Owner, n: nat)
    requires |states| == |steps| + 1 && n + 1 == |steps|
    ensures RefusedBefore(steps[..n], states[..n + 1], o, n) <==> RefusedBefore(steps, states, o, n)
    ensures RefusedBefore(steps, states, o, |steps|) <==> (RefusedBefore(steps, states, o, n) || Refusal(states[n], steps[n], o))
  {
    forall k | 0 <= k < n ensures Refusal(states[..n + 1][k], steps[..n][k], o) <==> Refusal(states[k], steps[k], o) {
    }
  }

  lemma {:induction false} StepFences(t: Terms, s: System, step: Step, o: Owner)
    requires Enabled(s, step) && o in s.publishers
    ensures var after := Apply(t, s, step);
      o in after.publishers && (after.publishers[o].fenced <==> (s.publishers[o].fenced || Refusal(s, step, o)))
  {
  }

  /** The publisher's claim was accepted, and it knows. */
  predicate Starts(s: System, step: Step, o: Owner) {
    step == Claim(o, Clean) && !HeldByOther(s.record, s.now, o)
  }

  /** A heartbeat of the publisher raises: its script or a call behind it failed, was refused, or
      was not reached. */
  predicate Raises(s: System, step: Step, o: Owner) {
    || (step.Beat? && step.o == o && (step.end == Faulty || HeldByOther(s.record, s.now, o)))
    || step == Miss(o)
  }

  /** A raising heartbeat with which, or before which, the publisher was refused. */
  ghost predicate Halts(steps: seq<Step>, states: seq<System>, o: Owner, k: nat)
    requires |states| == |steps| + 1 && k < |steps|
  {
    Raises(states[k], steps[k], o) && RefusedBefore(steps, states, o, k + 1)
  }

  /** Started by step k and not halted since. */
  ghost predicate BeatsSince(steps: seq<Step>, states: seq<System>, o: Owner, k: nat)
    requires |states| == |steps| + 1
  {
    k < |steps| && Starts(states[k], steps[k], o) && forall j :: k < j < |steps| ==> !Halts(steps, states, o, j)
  }

  ghost predicate Beats(steps: seq<Step>, states: seq<System>, o: Owner)
    requires |states| == |steps| + 1
  {
    exists k :: BeatsSince(steps, states, o, k)
  }

  /** Over every run: heartbeats go on exactly if the publisher has been started and since then
      none of them has raised with a refusal at hand.  Raising alone does not end them, and
      neither does a refusal that a publication has met. */
  lemma {:induction false} BeatsExactly(t: Terms, owners: set<Owner>, steps: seq<Step>, states: seq<System>, o: Owner)
    requires IsRun(t, owners, steps, states) && o in owners
    ensures var s := states[|steps|];
      o in s.publishers && (s.publishers[o].phase == Beating <==> Beats(steps, states, o))
  {
    if steps != [] {
      var n := |steps| - 1;
      BeatsExactly(t, owners, steps[..n], states[..n + 1], o);
      FencedExactly(t, owners, steps, states, o);
      BeatsGoOn(steps, states, o, n, steps[..n], states[..n + 1]);
      StepBeats(t, states[n], steps[n], o);
    }
  }

  lemma {:induction false} BeatsGoOn(steps: seq<Step>, states: seq<System>, o: Owner, n: nat, first: seq<Step>, before: seq<System>)
    requires |states| == |steps| + 1 && n + 1 == |steps| && first == steps[..n] && before == states[..n + 1]
    ensures Beats(steps, states, o)
       <==> (Starts(states[n], steps[n], o) || (Beats(first, before, o) && !Halts(steps, states, o, n)))
  {
    forall j | 0 <= j < n ensures Halts(first, before, o, j) <==> Halts(steps, states, o, j) {
      RefusedInPrefix(steps, states, o, n, j + 1);
    }
    assert Starts(states[n], steps[n], o) <==> BeatsSince(steps, states, o, n);
    if Beats(first, before, o) && !Halts(steps, states, o, n) {
      var k: nat :| BeatsSince(first, before, o, k);
      assert BeatsSince(steps, states, o, k);
    }
    if k: nat :| BeatsSince(steps, states, o, k) && k != n {
      assert BeatsSince(first, before, o, k);
    }
  }

  lemma {:induction false} RefusedInPrefix(steps: seq<Step>, states: seq<System>, o: Owner, n: nat, m: nat)
    requires |states| == |steps| + 1 && m <= n <= |steps|
    ensures RefusedBefore(steps[..n], states[..n + 1], o, m) <==> RefusedBefore(steps, states, o, m)
  {
    forall k | 0 <= k < m ensures Refusal(states[..n + 1][k], steps[..n][k], o) <==> Refusal(states[k], steps[k], o) {
    }
  }

  lemma {:induction false} StepBeats(t: Terms, s: System, step: Step, o: Owner)
    requires Enabled(s, step) && o in s.publishers
    ensures var after := Apply(t, s, step);
      && o in after.publishers
      && (after.publishers[o].phase == Beating <==>
            (Starts(s, step, o) || (s.publishers[o].phase == Beating && !(Raises(s, step, o) && after.publishers[o].fenced))))
  {
  }

  /** Step k found no live record and the publisher has not tried to claim the run since. */
  ghost predicate ClaimsSince(steps: seq<Step>, states: seq<System>, o: Owner, k: nat)
    requires |states| == |steps| + 1
  {
    && k < |steps| && steps[k] == Check(o) && (states[k].record.Some? ==> states[k].record.value.expiry <= states[k].now)
    && forall j :: k < j < |steps| ==> !Tries(steps[j], o)
  }

  predicate Tries(step: Step, o: Owner) {
    (step.Claim? && step.o == o) || step == Miss(o)
  }

  /** Over every run: a publisher is about to claim the run exactly if its start-up found no live
      record, its own of before included, and it has not tried since. */
  lemma {:induction false} ClaimsExactly(t: Terms, owners: set<Owner>, steps: seq<Step>, states: seq<System>, o: Owner)
    requires IsRun(t, owners, steps, states) && o in owners
    ensures var s := states[|steps|];
      o in s.publishers && (s.publishers[o].phase == Claiming <==> exists k :: ClaimsSince(steps, states, o, k))
  {
    if steps != [] {
      var n := |steps| - 1;
      ClaimsExactly(t, owners, steps[..n], states[..n + 1], o);
      ClaimsGoOn(steps, states, o, n, steps[..n], states[..n + 1]);
      StepClaims(t, states[n], steps[n], o);
    }
  }

  lemma {:induction false} ClaimsGoOn(steps: seq<Step>, states: seq<System>, o: Owner, n: nat, first: seq<Step>, before: seq<System>)
    requires |states| == |steps| + 1 && n + 1 == |steps| && first == steps[..n] && before == states[..n + 1]
    ensures (exists k :: ClaimsSince(steps, states, o, k))
       <==> ((steps[n] == Check(o) && (states[n].record.Some? ==> states[n].record.value.expiry <= states[n].now))
             || ((exists k :: ClaimsSince(first, before, o, k)) && !Tries(steps[n], o)))
  {
    if k: nat :| ClaimsSince(first, before, o, k) {
      if !Tries(steps[n], o) {
        assert ClaimsSince(steps, states, o, k);
      }
    }
    if k: nat :| ClaimsSince(steps, states, o, k) && k != n {
      assert ClaimsSince(first, before, o, k);
    }
    if steps[n] == Check(o) && (states[n].record.Some? ==> states[n].record.value.expiry <= states[n].now) {
      assert ClaimsSince(steps, states, o, n);
    }
  }

  lemma {:induction false} StepClaims(t: Terms, s: System, step: Step, o: Owner)
    requires Enabled(s, step) && o in s.publishers
    ensures var after := Apply(t, s, step);
      && o in after.publishers
      && (after.publishers[o].phase == Claiming <==>
            ((step == Check(o) && (s.record.Some? ==> s.record.value.expiry <= s.now))
             || (s.publishers[o].phase == Claiming && !Tries(step, o))))
  {
  }

  /** Publications of the publisher that passed the fencing check and have neither ended nor been given up. */
  function InFlight(steps: seq<Step>, o: Owner): int {
    if steps == [] then 0
    else
      var last := steps[|steps| - 1];
      InFlight(steps[..|steps| - 1], o)
      + (if last == Begin(o) then 1 else if last == Flush(o, Clean) || (last.Abandon? && last.o == o) then -1 else 0)
  }

  /** Over every run: those are the ones counted, and a publication starts only while no refresh of
      its publisher has been refused.  A refresh that fails for another reason keeps it in flight. */
  lemma {:induction false} FlightsExactly(t: Terms, owners: set<Owner>, steps: seq<Step>, states: seq<System>, o: Owner)
    requires IsRun(t, owners, steps, states) && o in owners
    ensures var s := states[|steps|];
      && o in s.publishers && s.publishers[o].pending + s.publishers[o].committed == InFlight(steps, o)
      && (Enabled(s, Begin(o)) <==> !RefusedBefore(steps, states, o, |steps|))
  {
    FencedExactly(t, owners, steps, states, o);
    if steps != [] {
      var n := |steps| - 1;
      FlightsExactly(t, owners, steps[..n], states[..n + 1], o);
      StepFlights(t, states[n], steps[n], o);
    }
  }

  lemma {:induction false} StepFlights(t: Terms, s: System, step: Step, o: Owner)
    requires Enabled(s, step) && o in s.publishers
    ensures var after := Apply(t, s, step);
      && o in after.publishers
      && after.publishers[o].pending + after.publishers[o].committed
         == s.publishers[o].pending + s.publishers[o].committed
            + (if step == Begin(o) then 1 else if step == Flush(o, Clean) || (step.Abandon? && step.o == o) then -1 else 0)
  {
  }

  // ---------------------------------------------------------------- punctual heartbeats

  /** The publisher's heartbeats are never further apart than its polling interval, and at most
      one in a row fails to reach the registry. */
  predicate PunctualStep(s: System, step: Step, o: Owner, poll: real) {
    o in s.publishers && s.publishers[o].phase == Beating ==>
      && (step.Tick? ==> s.now + step.d <= s.publishers[o].attempted + poll)
      && (step == Miss(o) ==> !s.publishers[o].missed)
  }

  ghost predicate Punctual(steps: seq<Step>, states: seq<System>, o: Owner, poll: real)
    requires |states| == |steps| + 1
  {
    forall k :: 0 <= k < |steps| ==> PunctualStep(states[k], steps[k], o, poll)
  }

  /** Only start-ups and heartbeats count as attempts, and one is missed exactly if no script of it
      wrote for the publisher; a start-up clears that. */
  lemma {:induction false} AttemptNoted(t: Terms, s: System, step: Step, o: Owner)
    requires Enabled(s, step) && o in s.publishers
    ensures var after := Apply(t, s, step);
      && o in after.publishers
      && (Tries(step, o) || (step.Beat? && step.o == o) ==> after.publishers[o].attempted == s.now)
      && (step == Miss(o) ==> after.publishers[o].missed)
      && (step.Claim? && step.o == o ==> !after.publishers[o].missed)
      && (step.Beat? && step.o == o ==> (after.publishers[o].missed <==> !WritesAt(s, step, o)))
      && (!Tries(step, o) && !(step.Beat? && step.o == o) ==>
            && after.publishers[o].attempted == s.publishers[o].attempted
            && after.publishers[o].missed == s.publishers[o].missed)
  {
  }

  /** While the publisher beats, the record is its own and outlives the next two heartbeats. */
  ghost predicate Held(t: Terms, s: System, o: Owner, poll: real) {
    o in s.publishers && s.publishers[o].phase == Beating ==>
      var p := s.publishers[o];
      && s.record.Some? && s.record.value.owner == o
      && p.attempted <= s.now <= p.attempted + poll
      && s.record.value.expiry >= p.attempted + t.ttl(o) - (if p.missed then poll else 0.0)
  }

  lemma {:induction false} StepKeepsHeld(t: Terms, s: System, step: Step, o: Owner, poll: real)
    requires Held(t, s, o, poll) && Enabled(s, step) && PunctualStep(s, step, o, poll)
    requires 0.0 < poll && 2.0 * poll < t.ttl(o)
    ensures Held(t, Apply(t, s, step), o, poll)
  {
  }

  /** With a lease longer than two polling intervals, a punctual publisher that misses at most
      one heartbeat in a row never loses its lease: it is shown at all times, and no heartbeat
      of its own is refused. */
  lemma {:induction false} PunctualKeepsLease(t: Terms, owners: set<Owner>, steps: seq<Step>, states: seq<System>, o: Owner, poll: real)
    requires IsRun(t, owners, steps, states) && Punctual(steps, states, o, poll)
    requires 0.0 < poll && 2.0 * poll < t.ttl(o)
    ensures Held(t, states[|steps|], o, poll)
    ensures var s := states[|steps|];
      o in s.publishers && s.publishers[o].phase == Beating ==>
        && Visible(s.record, s.now).Some? && Visible(s.record, s.now).value.owner == o
        && Apply(t, s, Beat(o, Clean)).publishers[o].phase == Beating
        && Apply(t, s, Beat(o, Clean)).publishers[o].fenced == s.publishers[o].fenced
  {
    if steps != [] {
      var n := |steps| - 1;
      PunctualKeepsLease(t, owners, steps[..n], states[..n + 1], o, poll);
      StepKeepsHeld(t, states[n], steps[n], o, poll);
    }
  }

  function LateSteps(o: Owner, poll: real): seq<Step> {
    [Check(o), Claim(o, Clean), Tick(poll), Miss(o), Tick(poll)]
  }

  /** The bound is exact: with a shorter lease a single missed heartbeat loses it. */
  lemma {:induction false} ShortLeaseLapses(t: Terms, o: Owner, poll: real)
    requires 0.0 < poll && t.ttl(o) <= 2.0 * poll
    ensures exists states: seq<System> ::
      && IsRun(t, {o}, LateSteps(o, poll), states) && Punctual(LateSteps(o, poll), states, o, poll)
      && o in states[5].publishers && states[5].publishers[o].phase == Beating && Visible(states[5].record, states[5].now).None?
  {
    var steps := LateSteps(o, poll);
    var s0 := Init({o});
    var s1 := Apply(t, s0, steps[0]);
    var s2 := Apply(t, s1, steps[1]);
    var s3 := Apply(t, s2, steps[2]);
    var s4 := Apply(t, s3, steps[3]);
    var s5 := Apply(t, s4, steps[4]);
    assert IsRun(t, {o}, steps, [s0, s1, s2, s3, s4, s5]);
  }

  // ---------------------------------------------------------------- configured terms

  /** The checks on a configuration, in seconds. */
  predicate ValidTerms(poll: real, lease: real) {
    poll > 0.0 && lease > 2.0 * poll
  }

  function Millis(seconds: real): real {
    1000.0 * seconds
  }

  /** The expiry the script is given: whole milliseconds, at least one. */
  function ExpiryMillis(lease: real): real {
    Max(1, Millis(lease).Floor) as real
  }

  /** Validity alone is not enough: the part of a millisecond that is cut off can be all the
      lease had over two intervals, and then a single missed heartbeat loses it. */
  lemma {:induction false} RoundingLosesTheBound(o: Owner)
    ensures var poll, lease := 0.0051, 0.01025;
      && ValidTerms(poll, lease) && ExpiryMillis(lease) < 2.0 * Millis(poll)
      && exists states: seq<System> ::
           && IsRun(Terms((_: Owner) => ExpiryMillis(lease), 1), {o}, LateSteps(o, Millis(poll)), states)
           && o in states[5].publishers && states[5].publishers[o].phase == Beating
           && Visible(states[5].record, states[5].now).None?
  {
    var poll, lease := 0.0051, 0.01025;
    assert Millis(lease).Floor == 10;
    ShortLeaseLapses(Terms((_: Owner) => ExpiryMillis(lease), 1), o, Millis(poll));
  }

  /** Every run in which the publisher is punctual keeps its lease while it beats. */
  ghost predicate SurvivesMisses(t: Terms, o: Owner, poll: real) {
    forall owners: set<Owner>, steps: seq<Step>, states: seq<System> ::
      IsRun(t, owners, steps, states) && Punctual(steps, states, o, poll) ==> Alive(states[|steps|], o)
  }

  ghost predicate Alive(s: System, o: Owner) {
    o in s.publishers && s.publishers[o].phase == Beating ==>
      var shown := Visible(s.record, s.now);
      shown.Some? && shown.value.owner == o
  }

  /** A valid configuration survives a missed heartbeat, in every run, exactly if the expiry it
      gives the script exceeds two intervals. */
  lemma {:induction false} ConfigurationExact(o: Owner, poll: real, lease: real, retain: nat)
    requires ValidTerms(poll, lease)
    ensures SurvivesMisses(Terms((_: Owner) => ExpiryMillis(lease), retain), o, Millis(poll))
       <==> 2.0 * Millis(poll) < ExpiryMillis(lease)
  {
    var t := Terms((_: Owner) => ExpiryMillis(lease), retain);
    if 2.0 * Millis(poll) < ExpiryMillis(lease) {
      forall owners: set<Owner>, steps: seq<Step>, states: seq<System> |
        IsRun(t, owners, steps, states) && Punctual(steps, states, o, Millis(poll))
        ensures Alive(states[|steps|], o)
      {
        PunctualKeepsLease(t, owners, steps, states, o, Millis(poll));
      }
    } else {
      ShortLeaseLapses(t, o, Millis(poll));
    }
  }

  // ---------------------------------------------------------------- fenced publishers

  function WritesBy(writes: seq<Write>, o: Owner): nat {
    if writes == [] then 0
    else WritesBy(writes[..|writes| - 1], o) + (if writes[|writes| - 1].owner == o then 1 else 0)
  }

  lemma {:induction false} RefreshWrites(t: Terms, s: System, q: Owner, p: Controller, o: Owner)
    requires q in s.publishers
    ensures WritesBy(Refresh(t, s, q, p).writes, o)
         == WritesBy(s.writes, o) + (if MayWrite(s, q) && q == o then 1 else 0)
  {
    var w := Write(q, s.now, s.now + t.ttl(q));
    assert (s.writes + [w])[..|s.writes|] == s.writes;
  }

  /** Fenced, neither beating nor starting up, and with no publication in flight. */
  predicate Idle(s: System, o: Owner) {
    && o in s.publishers && s.publishers[o].fenced
    && (s.publishers[o].phase == New || s.publishers[o].phase == Stopped)
    && s.publishers[o].pending == 0 && s.publishers[o].committed == 0
  }

  /** The steps and states go on from the given state. */
  ghost predicate Continues(t: Terms, s: System, steps: seq<Step>, states: seq<System>) {
    && |states| == |steps| + 1 && states[0] == s
    && (forall k :: 0 <= k < |steps| ==> Enabled(states[k], steps[k]) && states[k + 1] == Apply(t, states[k], steps[k]))
  }

  /** In some continuation the publisher writes; with or without starting it once more. */
  ghost predicate WritesLater(t: Terms, s: System, o: Owner, restart: bool) {
    exists steps: seq<Step>, states: seq<System> ::
      && Continues(t, s, steps, states) && WritesBy(states[|steps|].writes, o) > WritesBy(s.writes, o)
      && (restart || Check(o) !in steps)
  }

  lemma {:induction false} StepKeepsIdle(t: Terms, s: System, step: Step, o: Owner)
    requires Idle(s, o) && Enabled(s, step) && step != Check(o)
    ensures Idle(Apply(t, s, step), o) && WritesBy(Apply(t, s, step).writes, o) == WritesBy(s.writes, o)
  {
    match step
    case Claim(q, end) => RefreshWrites(t, s, q, Claimed(s, q, s.publishers[q], end), o);
    case Beat(q, end) => RefreshWrites(t, s, q, Beaten(s, q, s.publishers[q], end), o);
    case Flush(q, end) => RefreshWrites(t, s, q, Flushed(s, q, s.publishers[q], end), o);
    case _ =>
  }

  lemma {:induction false} IdleStays(t: Terms, s: System, steps: seq<Step>, states: seq<System>, o: Owner)
    requires Idle(s, o) && Continues(t, s, steps, states) && Check(o) !in steps
    ensures Idle(states[|steps|], o) && WritesBy(states[|steps|].writes, o) == WritesBy(s.writes, o)
  {
    if steps != [] {
      var n := |steps| - 1;
      assert Check(o) !in steps[..n];
      IdleStays(t, s, steps[..n], states[..n + 1], o);
      assert steps[n] in steps;
      StepKeepsIdle(t, states[n], steps[n], o);
    }
  }

  /** A step that writes makes its state one from which the publisher writes, and so does any
      step into such a state. */
  lemma {:induction false} WritesNow(t: Terms, s: System, step: Step, o: Owner)
    requires Enabled(s, step) && step != Check(o) && WritesBy(Apply(t, s, step).writes, o) > WritesBy(s.writes, o)
    ensures WritesLater(t, s, o, false)
  {
    var after := Apply(t, s, step);
    ContinuesOnce(t, s, step, after);
    assert [s, after][|[step]|] == after;
  }

  lemma {:induction false} ContinuesOnce(t: Terms, s: System, step: Step, after: System)
    requires Enabled(s, step) && after == Apply(t, s, step)
    ensures Continues(t, s, [step], [s, after])
  {
  }

  lemma {:induction false} WritesAfter(t: Terms, s: System, step: Step, o: Owner, restart: bool)
    requires Enabled(s, step) && WritesLater(t, Apply(t, s, step), o, restart) && (restart || step != Check(o))
    requires WritesBy(Apply(t, s, step).writes, o) == WritesBy(s.writes, o)
    ensures WritesLater(t, s, o, restart)
  {
    var after := Apply(t, s, step);
    var steps: seq<Step>, states: seq<System> :|
      && Continues(t, after, steps, states) && WritesBy(states[|steps|].writes, o) > WritesBy(after.writes, o)
      && (restart || Check(o) !in steps);
    ContinuesCons(t, s, step, steps, states);
  }

  lemma {:induction false} ContinuesCons(t: Terms, s: System, step: Step, steps: seq<Step>, states: seq<System>)
    requires Enabled(s, step) && Continues(t, Apply(t, s, step), steps, states)
    ensures Continues(t, s, [step] + steps, [s] + states)
    ensures ([s] + states)[|[step] + steps|] == states[|steps|]
  {
  }

  /** A continuation without a restart is one that may have one. */
  lemma {:induction false} RestartsAllowed(t: Terms, s: System, o: Owner)
    requires WritesLater(t, s, o, false)
    ensures WritesLater(t, s, o, true)
  {
  }

  /** A publisher about to call the script writes if no other record is shown. */
  predicate Active(p: Controller) {
    p.committed > 0 || p.phase == Beating || p.phase == Claiming
  }

  lemma {:induction false} ActiveWrites(t: Terms, s: System, o: Owner)
    requires o in s.publishers && Visible(s.record, s.now).None? && Active(s.publishers[o])
    ensures WritesLater(t, s, o, false)
  {
    var p := s.publishers[o];
    if p.committed > 0 {
      RefreshWrites(t, s, o, Flushed(s, o, p, Clean), o);
      WritesNow(t, s, Flush(o, Clean), o);
    } else if p.phase == Beating {
      RefreshWrites(t, s, o, Beaten(s, o, p, Clean), o);
      WritesNow(t, s, Beat(o, Clean), o);
    } else {
      RefreshWrites(t, s, o, Claimed(s, o, p, Clean), o);
      WritesNow(t, s, Claim(o, Clean), o);
    }
  }

  lemma {:induction false} PendingWrites(t: Terms, s: System, o: Owner)
    requires o in s.publishers && Visible(s.record, s.now).None? && s.publishers[o].pending > 0
    ensures WritesLater(t, s, o, false)
  {
    var step := Commit(o, Adapter(0, [], 0));
    ActiveWrites(t, Apply(t, s, step), o);
    WritesAfter(t, s, step, o, false);
  }

  /** Every publisher that is not idle has a way left to call the script. */
  lemma {:induction false} BusyWrites(t: Terms, s: System, o: Owner)
    requires o in s.publishers && Visible(s.record, s.now).None? && !Idle(s, o)
    ensures WritesLater(t, s, o, false)
  {
    var p := s.publishers[o];
    if Active(p) {
      ActiveWrites(t, s, o);
    } else if p.pending > 0 {
      PendingWrites(t, s, o);
    } else {
      PendingWrites(t, Apply(t, s, Begin(o)), o);
      WritesAfter(t, s, Begin(o), o, false);
    }
  }

  /** And an idle one can be started again. */
  lemma {:induction false} RestartWrites(t: Terms, s: System, o: Owner)
    requires o in s.publishers && Visible(s.record, s.now).None?
    ensures WritesLater(t, s, o, true)
  {
    if Idle(s, o) {
      ActiveWrites(t, Apply(t, s, Check(o)), o);
      RestartsAllowed(t, Apply(t, s, Check(o)), o);
      WritesAfter(t, s, Check(o), o, true);
    } else {
      BusyWrites(t, s, o);
      RestartsAllowed(t, s, o);
    }
  }

  /** Being fenced is not what stops a publisher from writing.  From any state it writes in some
      continuation without being started again exactly unless it is idle: fenced, neither beating
      nor starting up, and without a publication in flight.  Started again it can always write,
      for neither the start-up nor the script asks whether it was fenced. */
  lemma {:induction false} WritesAgainExactly(t: Terms, s: System, o: Owner)
    requires o in s.publishers
    ensures WritesLater(t, s, o, false) <==> !Idle(s, o)
    ensures WritesLater(t, s, o, true)
  {
    var wait := Tick(if Visible(s.record, s.now).Some? then s.record.value.expiry - s.now else 1.0);
    var after := Apply(t, s, wait);
    RestartWrites(t, after, o);
    WritesAfter(t, s, wait, o, true);
    if Idle(s, o) {
      forall steps: seq<Step>, states: seq<System> | Continues(t, s, steps, states) && Check(o) !in steps
        ensures WritesBy(states[|steps|].writes, o) == WritesBy(s.writes, o)
      {
        IdleStays(t, s, steps, states, o);
      }
    } else {
      BusyWrites(t, after, o);
      WritesAfter(t, s, wait, o, false);
    }
  }

  /** Publisher a publishes once while its lease lapses and b takes over; the refresh of that
      publication is refused, but a's heartbeats go on. */
  function TakeoverSteps(a: Owner, b: Owner, x: Adapter): seq<Step> {
    [Check(a), Claim(a, Clean), Begin(a), Commit(a, x), Tick(5.0), Check(b), Claim(b, Clean), Flush(a, Clean), Tick(5.0), Beat(a, Clean)]
  }

  lemma {:induction false} RunExtends(t: Terms, owners: set<Owner>, steps: seq<Step>, states: seq<System>, k: nat) returns (more: seq<System>)
    requires k < |steps| && IsRun(t, owners, steps[..k], states) && Enabled(states[k], steps[k])
    ensures more == states + [Apply(t, states[k], steps[k])] && IsRun(t, owners, steps[..k + 1], more)
  {
    more := states + [Apply(t, states[k], steps[k])];
  }

  lemma {:induction false} FirstClaim(a: Owner, b: Owner, x: Adapter, t: Terms) returns (states: seq<System>)
    requires a != b && t.ttl(a) == 5.0
    ensures IsRun(t, {a, b}, TakeoverSteps(a, b, x)[..2], states)
    ensures var s := states[2];
      && s.now == 0.0 && s.record.Some? && s.record.value.expiry == 5.0
      && a in s.publishers && s.publishers[a] == NewController().(phase := Beating)
      && b in s.publishers && s.publishers[b] == NewController()
  {
    var steps := TakeoverSteps(a, b, x);
    states := [Init({a, b})];
    states := RunExtends(t, {a, b}, steps, states, 0);
    states := RunExtends(t, {a, b}, steps, states, 1);
  }

  lemma {:induction false} Lapse(a: Owner, b: Owner, x: Adapter, t: Terms) returns (states: seq<System>)
    requires a != b && t.ttl(a) == 5.0
    ensures IsRun(t, {a, b}, TakeoverSteps(a, b, x)[..5], states)
    ensures var s := states[5];
      && s.now == 5.0 && s.record.Some? && s.record.value.expiry == 5.0
      && a in s.publishers && s.publishers[a].phase == Beating && s.publishers[a].committed == 1
      && b in s.publishers && s.publishers[b] == NewController()
  {
    var steps := TakeoverSteps(a, b, x);
    states := FirstClaim(a, b, x, t);
    states := RunExtends(t, {a, b}, steps, states, 2);
    states := RunExtends(t, {a, b}, steps, states, 3);
    states := RunExtends(t, {a, b}, steps, states, 4);
  }

  /** b holds the record and a, still beating, has a publication to flush. */
  lemma {:induction false} Takeover(a: Owner, b: Owner, x: Adapter, t: Terms) returns (states: seq<System>)
    requires a != b && t.ttl(a) == t.ttl(b) == 5.0
    ensures IsRun(t, {a, b}, TakeoverSteps(a, b, x)[..7], states)
    ensures var s := states[7];
      && s.now == 5.0 && s.record.Some? && s.record.value.owner == b && s.record.value.expiry == 10.0
      && a in s.publishers && s.publishers[a].phase == Beating && s.publishers[a].committed == 1
  {
    var steps := TakeoverSteps(a, b, x);
    states := Lapse(a, b, x, t);
    states := RunExtends(t, {a, b}, steps, states, 5);
    states := RunExtends(t, {a, b}, steps, states, 6);
  }

  /** The refusal fences a, and then b's lease runs out. */
  lemma {:induction false} Fencing(a: Owner, b: Owner, x: Adapter, t: Terms) returns (states: seq<System>)
    requires a != b && t.ttl(a) == t.ttl(b) == 5.0
    ensures IsRun(t, {a, b}, TakeoverSteps(a, b, x)[..9], states)
    ensures forall k :: 8 <= k <= 9 ==>
      && a in states[k].publishers && states[k].publishers[a].fenced && states[k].publishers[a].phase == Beating
      && states[k].writes == states[8].writes
    ensures states[9].now == 10.0 && Visible(states[9].record, states[9].now).None?
  {
    var steps := TakeoverSteps(a, b, x);
    states := Takeover(a, b, x, t);
    states := RunExtends(t, {a, b}, steps, states, 7);
    states := RunExtends(t, {a, b}, steps, states, 8);
  }

  /** A publisher fenced by a publication is not stopped: only a heartbeat that raises ends the
      heartbeats, so it renews its record once the replacement's has expired. */
  lemma {:induction false} FencedWritesAgain(a: Owner, b: Owner, x: Adapter)
    requires a != b
    ensures var steps := TakeoverSteps(a, b, x); var t := Terms((_: Owner) => 5.0, 1);
      exists states: seq<System> ::
        && IsRun(t, {a, b}, steps, states)
        && a in states[8].publishers && states[8].publishers[a].fenced
        && a in states[10].publishers && states[10].publishers[a].fenced && states[10].publishers[a].phase == Beating
        && WritesBy(states[10].writes, a) > WritesBy(states[8].writes, a)
        && Visible(states[10].record, states[10].now).Some?
        && Visible(states[10].record, states[10].now).value.owner == a
  {
    var steps, t := TakeoverSteps(a, b, x), Terms((_: Owner) => 5.0, 1);
    var states := Fencing(a, b, x, t);
    var before := states[9];
    states := RunExtends(t, {a, b}, steps, states, 9);
    RefreshWrites(t, before, a, Beaten(before, a, before.publishers[a], Clean), a);
    assert steps[..10] == steps;
  }
}
