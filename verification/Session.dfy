/** A middle's session with one publisher: each round reads the publisher's descriptor, starts
    its cache, and advertises the adapters that it holds and has verified. */
module Session {
  import opened Wrappers
  import opened Lease

  /** An adapter the publisher wants distributed. */
  datatype Wanted = Wanted(runId: string, digest: Digest, size: nat)

  datatype Descriptor = Descriptor(schema: int, owner: Owner, publications: seq<Wanted>)

  /** What the cache holds, fully processed, when an adapter is looked up, and what it serves. */
  datatype Look = Look(cached: set<string>, download: Option<Bytes>)

  /** What one round observes: the descriptor, the version each adapter's first origin names,
      one look for each publication, and the versions in the cache's store when it ends. */
  datatype Round = Round(raw: Option<Descriptor>, origins: map<Digest, string>, looks: nat -> Look, stored: set<string>)

  /** An advertised adapter: its version and the payload it was verified with. */
  datatype Registration = Registration(version: string, payload: Bytes)

  /** started tells whether the session has created its cache. */
  datatype State = State(owner: Option<Owner>, started: bool, registrations: map<Digest, Registration>)

  datatype Failure = UnsupportedSchema | PublisherChanged | LimitsExceeded | Corrupt

  datatype Limits = Limits(runId: string, maxBytes: nat, hash: Bytes -> Digest, wellFormed: Bytes -> bool)

  const FRESH := State(None, false, map[])

  predicate Verified(t: Limits, w: Wanted, payload: Option<Bytes>) {
    && payload.Some? && |payload.value| == w.size && t.hash(payload.value) == w.digest
    && t.wellFormed(payload.value)
  }

  /** The adapter's version is cached when it is looked at. */
  predicate Cached(round: Round, w: Wanted, i: nat) {
    w.digest in round.origins && round.origins[w.digest] in round.looks(i).cached
  }

  function SyncOne(t: Limits, s: State, w: Wanted, round: Round, i: nat): Result<State, Failure> {
    if w.runId != t.runId || w.size > t.maxBytes then Err(LimitsExceeded)
    else if w.digest !in round.origins then Ok(s)
    else
      var up := s.(started := true);
      if !Cached(round, w, i) || w.digest in s.registrations then Ok(up)
      else if !Verified(t, w, round.looks(i).download) then Err(Corrupt)
      else
        var r := Registration(round.origins[w.digest], round.looks(i).download.value);
        Ok(up.(registrations := s.registrations[w.digest := r]))
  }

  /** The state after the first n publications. */
  function Sync(t: Limits, s: State, publications: seq<Wanted>, round: Round, n: nat): Result<State, Failure>
    requires n <= |publications|
  {
    if n == 0 then Ok(s)
    else
      var before := Sync(t, s, publications, round, n - 1);
      if before.Err? then before else SyncOne(t, before.value, publications[n - 1], round, n - 1)
  }

  function Digests(publications: seq<Wanted>): set<Digest> {
    set w | w in publications :: w.digest
  }

  /** The adapter is still wanted and its recorded version is still stored. */
  predicate Keeps(s: State, keep: set<Digest>, stored: set<string>, d: Digest) {
    d in s.registrations && d in keep && s.started && s.registrations[d].version in stored
  }

  function Reconciled(s: State, keep: set<Digest>, stored: set<string>): map<Digest, Registration> {
    map d | d in s.registrations && Keeps(s, keep, stored, d) :: s.registrations[d]
  }

  /** The descriptor comes from another publisher than the one whose versions are cached. */
  predicate OtherPublisher(s: State, d: Descriptor) {
    s.owner.Some? && s.owner.value != d.owner && (s.started || s.registrations != map[])
  }

  function Iterate(t: Limits, s: State, round: Round): Result<State, Failure> {
    if round.raw.None? then Ok(s.(registrations := map[]))
    else
      var d := round.raw.value;
      if d.schema != 1 then Err(UnsupportedSchema)
      else if OtherPublisher(s, d) then Err(PublisherChanged)
      else
        var synced := Sync(t, s.(owner := Some(d.owner)), d.publications, round, |d.publications|);
        if synced.Err? then synced
        else Ok(synced.value.(registrations := Reconciled(synced.value, Digests(d.publications), round.stored)))
  }

  // ---------------------------------------------------------------- the session object

  class MiddleSession {
    const limits: Limits
    var owner: Option<Owner>
    var started: bool
    var registrations: map<Digest, Registration>
    var ended: bool

    function Value(): State
      reads this
    {
      State(owner, started, registrations)
    }

    constructor (limits: Limits)
      ensures this.limits == limits && Value() == FRESH && !ended
    {
      this.limits := limits;
      owner, started, registrations, ended := None, false, map[], false;
    }

    /** One turn of the loop; a failure ends the session and withdraws everything. */
    method Turn(round: Round) returns (failure: Option<Failure>)
      requires !ended
      modifies this
      ensures match Iterate(limits, old(Value()), round)
        case Ok(next) => failure == None && !ended && Value() == next
        case Err(f) => failure == Some(f) && ended && registrations == map[] && !started
    {
      failure := None;
      if round.raw.None? {
        registrations := map[];
        return;
      }
      var desired := round.raw.value;
      if desired.schema != 1 {
        failure := Some(UnsupportedSchema);
      } else if owner.Some? && owner.value != desired.owner && (started || registrations != map[]) {
        failure := Some(PublisherChanged);
      } else {
        owner := Some(desired.owner);
        failure := Advance(desired.publications, round);
      }
      if failure.Some? {
        registrations, started, ended := map[], false, true;
        return;
      }
      Withdraw(Digests(desired.publications), round.stored);
    }

    /** Goes through the publications in order, up to the first failure. */
    method Advance(publications: seq<Wanted>, round: Round) returns (failure: Option<Failure>)
      modifies this`started, this`registrations
      ensures match Sync(limits, old(Value()), publications, round, |publications|)
        case Ok(next) => failure == None && Value() == next
        case Err(f) => failure == Some(f)
    {
      for i := 0 to |publications|
        invariant Sync(limits, old(Value()), publications, round, i) == Ok(Value())
      {
        var w := publications[i];
        if w.runId != limits.runId || w.size > limits.maxBytes {
          FailureStays(limits, old(Value()), publications, round, i + 1, |publications|);
          return Some(LimitsExceeded);
        }
        if w.digest !in round.origins {
          continue;
        }
        started := true;
        var version := round.origins[w.digest];
        if version !in round.looks(i).cached {
          continue;
        }
        if w.digest !in registrations {
          var payload := round.looks(i).download;
          if !Verified(limits, w, payload) {
            FailureStays(limits, old(Value()), publications, round, i + 1, |publications|);
            return Some(Corrupt);
          }
          registrations := registrations[w.digest := Registration(version, payload.value)];
        }
      }
      return None;
    }

    /** Withdraws what is no longer wanted or no longer in the store. */
    method Withdraw(keep: set<Digest>, stored: set<string>)
      modifies this`registrations
      ensures registrations == Reconciled(old(Value()), keep, stored)
    {
      var left := registrations.Keys;
      while left != {}
        invariant left <= old(registrations).Keys
        invariant forall d :: d in registrations <==>
          d in old(registrations) && (d in left || Keeps(old(Value()), keep, stored, d))
        invariant forall d :: d in registrations ==> registrations[d] == old(registrations)[d]
        decreases left
      {
        var d :| d in left;
        left := left - {d};
        var version := registrations[d].version;
        if d !in keep || !started || version !in stored {
          registrations := registrations - {d};
        }
      }
    }
  }

  lemma {:induction false} FailureStays(t: Limits, s: State, publications: seq<Wanted>, round: Round, k: nat, n: nat)
    requires k <= n <= |publications| && Sync(t, s, publications, round, k).Err?
    ensures Sync(t, s, publications, round, n) == Sync(t, s, publications, round, k)
  {
    if k < n {
      FailureStays(t, s, publications, round, k, n - 1);
    }
  }

  // ---------------------------------------------------------------- what a round leaves advertised

  /** The i-th publication can be newly advertised: its version is cached and verifies. */
  predicate Ready(t: Limits, round: Round, publications: seq<Wanted>, i: nat) {
    && i < |publications| && Cached(round, publications[i], i)
    && Verified(t, publications[i], round.looks(i).download)
  }

  ghost predicate ReadyBefore(t: Limits, round: Round, publications: seq<Wanted>, d: Digest, n: nat) {
    exists i: nat :: i < n && Ready(t, round, publications, i) && publications[i].digest == d
  }

  /** The registration is one that the round made from a verified download. */
  ghost predicate Fresh(t: Limits, round: Round, publications: seq<Wanted>, d: Digest, r: Registration, n: nat) {
    exists i: nat :: i < n && Ready(t, round, publications, i) && publications[i].digest == d
      && r == Registration(round.origins[d], round.looks(i).download.value)
  }

  lemma {:induction false} SyncAdds(t: Limits, s: State, publications: seq<Wanted>, round: Round, n: nat, d: Digest)
    requires n <= |publications| && Sync(t, s, publications, round, n).Ok?
    ensures var after := Sync(t, s, publications, round, n).value;
      && after.owner == s.owner && (s.started ==> after.started)
      && (d in after.registrations <==> d in s.registrations || ReadyBefore(t, round, publications, d, n))
      && (d in s.registrations ==> after.registrations[d] == s.registrations[d])
      && (d in after.registrations && d !in s.registrations ==>
            after.started && Fresh(t, round, publications, d, after.registrations[d], n))
  {
    if n > 0 {
      var before := Sync(t, s, publications, round, n - 1).value;
      SyncAdds(t, s, publications, round, n - 1, d);
      var w := publications[n - 1];
      if w.digest == d && Cached(round, w, n - 1) && d !in before.registrations {
        assert Ready(t, round, publications, n - 1);
      }
    }
  }

  /** A completed round leaves exactly those adapters advertised that the descriptor wants and
      that were either advertised before under a version that is still stored, or have a cached
      and still stored version that was downloaded and verified in this round.  An adapter
      advertised before keeps its recorded version, whatever its origins name now. */
  lemma {:induction false} RoundAdvertises(t: Limits, s: State, round: Round, d: Digest)
    requires round.raw.Some? && Iterate(t, s, round).Ok? && (s.registrations != map[] ==> s.started)
    ensures var after := Iterate(t, s, round).value; var wanted := round.raw.value.publications;
      && (d in after.registrations <==>
            && d in Digests(wanted)
            && (if d in s.registrations then s.registrations[d].version in round.stored
                else ReadyBefore(t, round, wanted, d, |wanted|) && round.origins[d] in round.stored))
      && (d in after.registrations ==>
            if d in s.registrations then after.registrations[d] == s.registrations[d]
            else Fresh(t, round, wanted, d, after.registrations[d], |wanted|))
  {
    SyncAdds(t, s.(owner := Some(round.raw.value.owner)), round.raw.value.publications, round,
             |round.raw.value.publications|, d);
  }

  /** An adapter that is wanted, with the version its origins name now cached, verified and
      stored, is advertised after the round exactly if it was not before, or the version it was
      advertised under is still stored.  So bytes published again under a new version are
      withdrawn when the old one leaves the store, and the next round advertises the new one. */
  lemma {:induction false} RepublishedIsWithdrawn(t: Limits, s: State, round: Round, next: Round, i: nat, j: nat)
    requires round.raw.Some? && Iterate(t, s, round).Ok? && (s.registrations != map[] ==> s.started)
    requires Ready(t, round, round.raw.value.publications, i)
    requires var d := round.raw.value.publications[i].digest; round.origins[d] in round.stored
    ensures var d := round.raw.value.publications[i].digest; var after := Iterate(t, s, round).value;
      && (d in after.registrations <==> d !in s.registrations || s.registrations[d].version in round.stored)
      && (d !in after.registrations && next.raw.Some? && Iterate(t, after, next).Ok?
          && Ready(t, next, next.raw.value.publications, j) && next.raw.value.publications[j].digest == d
          && next.origins[d] in next.stored ==>
            var later := Iterate(t, after, next).value;
            d in later.registrations && later.registrations[d].version == next.origins[d])
  {
    var wanted := round.raw.value.publications;
    var d := wanted[i].digest;
    assert wanted[i] in wanted;
    RoundAdvertises(t, s, round, d);
    RoundStarted(t, s, round);
    var after := Iterate(t, s, round).value;
    if next.raw.Some? && Iterate(t, after, next).Ok? && Ready(t, next, next.raw.value.publications, j) {
      assert next.raw.value.publications[j] in next.raw.value.publications;
      RoundAdvertises(t, after, next, d);
    }
  }

  lemma {:induction false} RoundStarted(t: Limits, s: State, round: Round)
    requires round.raw.Some? && Iterate(t, s, round).Ok? && (s.registrations != map[] ==> s.started)
    ensures Iterate(t, s, round).value.registrations != map[] ==> Iterate(t, s, round).value.started
  {
    var wanted := round.raw.value.publications;
    forall d | d in Iterate(t, s, round).value.registrations ensures Iterate(t, s, round).value.started {
      SyncAdds(t, s.(owner := Some(round.raw.value.owner)), wanted, round, |wanted|, d);
    }
  }

  // ---------------------------------------------------------------- when a round fails

  /** The publication is of another run or beyond the size limit. */
  predicate Unacceptable(t: Limits, w: Wanted) {
    w.runId != t.runId || w.size > t.maxBytes
  }

  /** Its version is named by an origin and in the cache when it is looked at. */
  predicate InCache(round: Round, w: Wanted, i: nat) {
    w.digest in round.origins && round.origins[w.digest] in round.looks(i).cached
  }

  /** What its download must be. */
  predicate Faithful(t: Limits, w: Wanted, payload: Option<Bytes>) {
    payload.Some? && |payload.value| == w.size && t.hash(payload.value) == w.digest && t.wellFormed(payload.value)
  }

  /** The i-th publication is cached, not advertised before or by an earlier one of the round,
      and its download is not what the publisher announced. */
  ghost predicate Corrupted(t: Limits, s: State, round: Round, wanted: seq<Wanted>, i: nat)
    requires i < |wanted|
  {
    var w := wanted[i];
    && InCache(round, w, i) && !Faithful(t, w, round.looks(i).download) && w.digest !in s.registrations
    && (forall j: nat :: j < i && wanted[j].digest == w.digest ==>
          !(InCache(round, wanted[j], j) && Faithful(t, wanted[j], round.looks(j).download)))
  }

  ghost predicate Fails(t: Limits, s: State, round: Round, wanted: seq<Wanted>, i: nat)
    requires i < |wanted|
  {
    Unacceptable(t, wanted[i]) || Corrupted(t, s, round, wanted, i)
  }

  ghost predicate FirstFails(t: Limits, s: State, round: Round, wanted: seq<Wanted>, i: nat) {
    i < |wanted| && Fails(t, s, round, wanted, i) && forall j: nat :: j < i ==> !Fails(t, s, round, wanted, j)
  }

  /** The publications are gone through up to the first that fails. */
  lemma {:induction false} SyncFails(t: Limits, s: State, wanted: seq<Wanted>, round: Round, n: nat)
    requires n <= |wanted|
    ensures Sync(t, s, wanted, round, n).Ok? <==> forall i :: 0 <= i < n ==> !Fails(t, s, round, wanted, i)
    ensures forall i: nat :: i < n && FirstFails(t, s, round, wanted, i) ==>
      Sync(t, s, wanted, round, n) == Err(if Unacceptable(t, wanted[i]) then LimitsExceeded else Corrupt)
  {
    if n > 0 {
      SyncFails(t, s, wanted, round, n - 1);
      if Sync(t, s, wanted, round, n - 1).Ok? {
        SyncAdds(t, s, wanted, round, n - 1, wanted[n - 1].digest);
        NextFails(t, s, wanted, round, n);
      }
    }
  }

  lemma {:induction false} NextFails(t: Limits, s: State, wanted: seq<Wanted>, round: Round, n: nat)
    requires 0 < n <= |wanted| && Sync(t, s, wanted, round, n - 1).Ok?
    requires var d := wanted[n - 1].digest; d in Sync(t, s, wanted, round, n - 1).value.registrations <==>
      d in s.registrations || ReadyBefore(t, round, wanted, d, n - 1)
    ensures Sync(t, s, wanted, round, n)
         == if Unacceptable(t, wanted[n - 1]) then Err(LimitsExceeded)
            else if Corrupted(t, s, round, wanted, n - 1) then Err(Corrupt)
            else Sync(t, s, wanted, round, n)
    ensures Sync(t, s, wanted, round, n).Err? <==> Fails(t, s, round, wanted, n - 1)
  {
    var w := wanted[n - 1];
    if j: nat :| j < n - 1 && wanted[j].digest == w.digest && InCache(round, wanted[j], j)
                 && Faithful(t, wanted[j], round.looks(j).download) {
      assert Ready(t, round, wanted, j);
    }
  }

  /** A round with a descriptor fails exactly if its schema is unknown; or its publisher is
      another than the one the cache was started for; or some publication is of another run or
      beyond the limit; or some publication is in the cache, not yet advertised, and not what
      was announced.  The first of these that applies, in this order and the publications'
      order, is reported.  A round without a descriptor never fails. */
  lemma {:induction false} RoundFailsExactly(t: Limits, s: State, round: Round)
    requires Honest(t, s)
    ensures round.raw.None? ==> Iterate(t, s, round) == Ok(s.(registrations := map[]))
    ensures round.raw.Some? ==>
      var d := round.raw.value; var wanted := d.publications; var changed := s.started && s.owner != Some(d.owner);
      && (Iterate(t, s, round).Err? <==>
            d.schema != 1 || changed || exists i: nat :: i < |wanted| && Fails(t, s, round, wanted, i))
      && (d.schema != 1 ==> Iterate(t, s, round) == Err(UnsupportedSchema))
      && (d.schema == 1 && changed ==> Iterate(t, s, round) == Err(PublisherChanged))
      && (forall i: nat :: d.schema == 1 && !changed && FirstFails(t, s, round, wanted, i) ==>
            Iterate(t, s, round) == Err(if Unacceptable(t, wanted[i]) then LimitsExceeded else Corrupt))
  {
    if round.raw.Some? {
      var d := round.raw.value;
      var known := s.(owner := Some(d.owner));
      SyncFails(t, known, d.publications, round, |d.publications|);
      SameFailures(t, s, known, round, d.publications);
    }
  }

  /** Who publishes makes no difference to the publications. */
  lemma {:induction false} SameFailures(t: Limits, s: State, known: State, round: Round, wanted: seq<Wanted>)
    requires known.registrations == s.registrations
    ensures forall i: nat :: i < |wanted| ==> (Fails(t, known, round, wanted, i) <==> Fails(t, s, round, wanted, i))
  {
  }

  lemma {:induction false} SyncStarts(t: Limits, s: State, wanted: seq<Wanted>, round: Round, n: nat)
    requires n <= |wanted| && Sync(t, s, wanted, round, n).Ok?
    ensures var after := Sync(t, s, wanted, round, n).value;
      && after.owner == s.owner
      && (after.started <==> s.started || exists i: nat :: i < n && wanted[i].digest in round.origins)
  {
    if n > 0 {
      SyncStarts(t, s, wanted, round, n - 1);
    }
  }

  /** A round that completes takes over the publisher and has started the cache exactly if it
      was started before or an origin offers some publication, cached or not. */
  lemma {:induction false} RoundStartsCache(t: Limits, s: State, round: Round)
    requires round.raw.Some? && Iterate(t, s, round).Ok?
    ensures var after := Iterate(t, s, round).value; var wanted := round.raw.value.publications;
      && after.owner == Some(round.raw.value.owner)
      && (after.started <==> s.started || exists i: nat :: i < |wanted| && wanted[i].digest in round.origins)
  {
    var d := round.raw.value;
    SyncStarts(t, s.(owner := Some(d.owner)), d.publications, round, |d.publications|);
  }

  // ---------------------------------------------------------------- whole sessions

  ghost predicate IsSession(t: Limits, rounds: seq<Round>, states: seq<State>) {
    && |states| == |rounds| + 1 && states[0] == FRESH
    && (forall k :: 0 <= k < |rounds| ==> Iterate(t, states[k], rounds[k]) == Ok(states[k + 1]))
  }

  /** Every advertised adapter was verified, and only a started session advertises any. */
  ghost predicate Honest(t: Limits, s: State) {
    && (s.registrations != map[] ==> s.started)
    && (s.started ==> s.owner.Some?)
    && (forall d :: d in s.registrations ==>
          t.hash(s.registrations[d].payload) == d && t.wellFormed(s.registrations[d].payload)
          && |s.registrations[d].payload| <= t.maxBytes)
  }

  lemma {:induction false} SyncHonest(t: Limits, s: State, publications: seq<Wanted>, round: Round, n: nat)
    requires n <= |publications| && Sync(t, s, publications, round, n).Ok? && Honest(t, s) && s.owner.Some?
    ensures var after := Sync(t, s, publications, round, n).value;
      Honest(t, after) && after.owner == s.owner && (s.started ==> after.started)
  {
    if n > 0 {
      SyncHonest(t, s, publications, round, n - 1);
    }
  }

  lemma {:induction false} RoundHonest(t: Limits, s: State, round: Round)
    requires Honest(t, s) && Iterate(t, s, round).Ok?
    ensures var after := Iterate(t, s, round).value;
      && Honest(t, after) && (s.started ==> after.started && after.owner == s.owner)
      && (round.raw.Some? ==> after.owner == Some(round.raw.value.owner))
      && (s.started && round.raw.Some? ==> s.owner == Some(round.raw.value.owner))
  {
    if round.raw.Some? {
      var d := round.raw.value;
      SyncHonest(t, s.(owner := Some(d.owner)), d.publications, round, |d.publications|);
    }
  }

  lemma {:induction false} SessionHonest(t: Limits, rounds: seq<Round>, states: seq<State>)
    requires IsSession(t, rounds, states)
    ensures Honest(t, states[|rounds|])
  {
    if rounds != [] {
      var n := |rounds| - 1;
      SessionHonest(t, rounds[..n], states[..n + 1]);
      assert Iterate(t, states[n], rounds[n]) == Ok(states[n + 1]);
      RoundHonest(t, states[n], rounds[n]);
    }
  }

  /** Whatever the registry and the network do: an adapter is only ever advertised after its
      own bytes were verified, it is one of the newest descriptor, and the version it was
      advertised under is still in the store. */
  lemma {:induction false} AdvertisedIsVerified(t: Limits, rounds: seq<Round>, states: seq<State>, d: Digest)
    requires IsSession(t, rounds, states) && rounds != [] && d in states[|rounds|].registrations
    ensures var last := rounds[|rounds| - 1]; var r := states[|rounds|].registrations[d];
      && t.hash(r.payload) == d && t.wellFormed(r.payload) && |r.payload| <= t.maxBytes
      && last.raw.Some? && d in Digests(last.raw.value.publications) && r.version in last.stored
  {
    var n := |rounds| - 1;
    SessionHonest(t, rounds, states);
    SessionHonest(t, rounds[..n], states[..n + 1]);
    assert Iterate(t, states[n], rounds[n]) == Ok(states[n + 1]);
    if rounds[n].raw.Some? {
      RoundAdvertises(t, states[n], rounds[n], d);
    }
  }

  /** Once the cache exists, every later descriptor comes from the same publisher, so the cache
      never mixes the version names of two; a round with another owner ends the session. */
  lemma {:induction false} OnePublisherPerCache(t: Limits, rounds: seq<Round>, states: seq<State>, i: nat, j: nat)
    requires IsSession(t, rounds, states) && i <= j < |rounds| && states[i].started
    ensures states[j].started && states[j].owner == states[i].owner
    ensures rounds[j].raw.Some? ==> states[i].owner == Some(rounds[j].raw.value.owner)
    decreases j
  {
    SessionHonest(t, rounds[..j], states[..j + 1]);
    assert Iterate(t, states[j], rounds[j]) == Ok(states[j + 1]);
    RoundHonest(t, states[j], rounds[j]);
    if i < j {
      OnePublisherPerCache(t, rounds, states, i, j - 1);
      SessionHonest(t, rounds[..j - 1], states[..j]);
      assert Iterate(t, states[j - 1], rounds[j - 1]) == Ok(states[j]);
      RoundHonest(t, states[j - 1], rounds[j - 1]);
    }
  }

  /** Before that, a change of publisher is accepted; and a missing descriptor withdraws all
      registrations but keeps the cache, and with it the publisher. */
  lemma {:induction false} ChangeRefusedExactly(t: Limits, s: State, round: Round)
    requires Honest(t, s) && round.raw.Some? && round.raw.value.schema == 1
    ensures Iterate(t, s, round) == Err(PublisherChanged) <==> s.started && s.owner != Some(round.raw.value.owner)
  {
    var d := round.raw.value;
    NeverChanged(t, s.(owner := Some(d.owner)), d.publications, round, |d.publications|);
  }

  lemma {:induction false} NeverChanged(t: Limits, s: State, publications: seq<Wanted>, round: Round, n: nat)
    requires n <= |publications|
    ensures Sync(t, s, publications, round, n) != Err(PublisherChanged)
  {
    if n > 0 {
      NeverChanged(t, s, publications, round, n - 1);
    }
  }

  // ---------------------------------------------------------------- bytes published twice

  /** A round in which the publications are these, their origins name the version, and the
      cache holds it, serves the payload and stores nothing else. */
  function Holding(owner: Owner, publications: seq<Wanted>, d: Digest, version: string, payload: Bytes): Round {
    Round(Some(Descriptor(1, owner, publications)), map[d := version],
          (i: nat) => Look({version}, Some(payload)), {version})
  }

  /** Any adapter that can be advertised at all, published under "v1" and then twice seen under
      "v2": advertised after the first and the third round and not after the second, although its
      new version is cached, stored and verifies then too. */
  lemma {:induction false} RepublicationGap(t: Limits, owner: Owner, w: Wanted, payload: Bytes) returns (rounds: seq<Round>, states: seq<State>)
    requires w.runId == t.runId && w.size <= t.maxBytes && Verified(t, w, Some(payload))
    ensures |rounds| == 3 && IsSession(t, rounds, states)
    ensures forall k :: 0 <= k < 3 ==>
      && rounds[k].raw == Some(Descriptor(1, owner, [w])) && Ready(t, rounds[k], [w], 0)
      && rounds[k].origins[w.digest] == ["v1", "v2", "v2"][k] && rounds[k].origins[w.digest] in rounds[k].stored
    ensures states[1].registrations == map[w.digest := Registration("v1", payload)]
    ensures states[2].registrations == map[]
    ensures states[3].registrations == map[w.digest := Registration("v2", payload)]
  {
    var first := Holding(owner, [w], w.digest, "v1", payload);
    var again := Holding(owner, [w], w.digest, "v2", payload);
    var held := State(Some(owner), true, map[w.digest := Registration("v1", payload)]);
    var renewed := State(Some(owner), true, map[w.digest := Registration("v2", payload)]);
    rounds := [first, again, again];
    states := [FRESH, held, State(Some(owner), true, map[]), renewed];
    OnlyWanted(t, FRESH, owner, w, "v1", payload);
    OnlyWanted(t, held, owner, w, "v2", payload);
    OnlyWanted(t, states[2], owner, w, "v2", payload);
  }

  /** One round over one adapter. */
  lemma {:induction false} OnlyWanted(t: Limits, s: State, owner: Owner, w: Wanted, version: string, payload: Bytes)
    requires w.runId == t.runId && w.size <= t.maxBytes && Verified(t, w, Some(payload))
    requires s.registrations.Keys <= {w.digest} && !OtherPublisher(s, Descriptor(1, owner, [w]))
    ensures Iterate(t, s, Holding(owner, [w], w.digest, version, payload)) == Ok(State(Some(owner), true,
      if w.digest !in s.registrations then map[w.digest := Registration(version, payload)]
      else if s.registrations[w.digest].version == version then s.registrations
      else map[]))
  {
    var round := Holding(owner, [w], w.digest, version, payload);
    var s0 := s.(owner := Some(owner));
    assert Sync(t, s0, [w], round, 0) == Ok(s0);
    assert Sync(t, s0, [w], round, 1) == SyncOne(t, s0, w, round, 0);
    var synced := SyncOne(t, s0, w, round, 0).value;
    assert Digests([w]) == {w.digest};
    if w.digest in s.registrations && s.registrations[w.digest].version != version {
      assert Reconciled(synced, {w.digest}, round.stored) == map[];
    } else {
      assert synced.registrations.Keys == {w.digest};
      assert Reconciled(synced, {w.digest}, round.stored) == synced.registrations;
    }
  }

  // ---------------------------------------------------------------- the reported phase

  /** The round is reported as ready. */
  predicate ReportsReady(after: State, publications: seq<Wanted>) {
    publications != [] && |after.registrations| == |publications|
  }

  /** Counting is exact unless a digest is published twice: a session reports ready exactly if
      every wanted adapter is advertised and no two publications have the same bytes. */
  lemma {:induction false} ReadyMeansAll(after: State, publications: seq<Wanted>)
    requires publications != [] && after.registrations.Keys <= Digests(publications)
    ensures ReportsReady(after, publications) <==>
      && (forall w :: w in publications ==> w.digest in after.registrations)
      && (forall i, j :: 0 <= i < j < |publications| ==> publications[i].digest != publications[j].digest)
  {
    var names := seq(|publications|, i requires 0 <= i < |publications| => publications[i].digest);
    assert Elements(names) == Digests(publications) by {
      forall d ensures d in Elements(names) <==> d in Digests(publications) {
        if d in Digests(publications) {
          var i :| 0 <= i < |publications| && publications[i].digest == d;
          assert names[i] == d;
        }
      }
    }
    ElementsAtMost(names);
    SubsetCount(after.registrations.Keys, Elements(names));
    assert |after.registrations| == |after.registrations.Keys|;
    if ReportsReady(after, publications) {
      SetSizeDistinct(names);
      assert after.registrations.Keys == Digests(publications);
      forall i, j | 0 <= i < j < |publications| ensures publications[i].digest != publications[j].digest {
        assert names[i] != names[j];
      }
    } else if Distinct(names) {
      DistinctCount(names);
      assert after.registrations.Keys != Digests(publications);
    } else {
      var i, j :| 0 <= i < j < |names| && names[i] == names[j];
      assert publications[i].digest == publications[j].digest;
    }
  }

  /** A completed round whose descriptor lists the same bytes twice is never reported as ready,
      even when it leaves every wanted adapter advertised. */
  lemma {:induction false} RepeatedIsNeverReady(t: Limits, s: State, round: Round, i: nat, j: nat)
    requires round.raw.Some? && Iterate(t, s, round).Ok? && (s.registrations != map[] ==> s.started)
    requires var wanted := round.raw.value.publications;
      i < j < |wanted| && wanted[i].digest == wanted[j].digest
    ensures !ReportsReady(Iterate(t, s, round).value, round.raw.value.publications)
  {
    var wanted := round.raw.value.publications;
    var after := Iterate(t, s, round).value;
    forall d | d in after.registrations ensures d in Digests(wanted) {
      RoundAdvertises(t, s, round, d);
    }
    ReadyMeansAll(after, wanted);
  }

  /** Such a session: its one round advertises all it is asked for and does not report it. */
  lemma {:induction false} RepeatedAdapterSession(t: Limits, owner: Owner, w: Wanted, payload: Bytes) returns (round: Round, after: State)
    requires w.runId == t.runId && w.size <= t.maxBytes && Verified(t, w, Some(payload))
    ensures round.raw == Some(Descriptor(1, owner, [w, w])) && IsSession(t, [round], [FRESH, after])
    ensures forall i :: 0 <= i < 2 ==> [w, w][i].digest in after.registrations
    ensures !ReportsReady(after, [w, w])
  {
    round := Holding(owner, [w, w], w.digest, "v1", payload);
    after := State(Some(owner), true, map[w.digest := Registration("v1", payload)]);
    var s0 := FRESH.(owner := Some(owner));
    assert Sync(t, s0, [w, w], round, 0) == Ok(s0);
    assert Sync(t, s0, [w, w], round, 1) == Ok(after);
    assert Sync(t, s0, [w, w], round, 2) == Ok(after);
    assert Digests([w, w]) == {w.digest};
    assert Reconciled(after, {w.digest}, round.stored) == after.registrations;
    RepeatedIsNeverReady(t, FRESH, round, 0, 1);
  }
}
