/** The publisher of a run as an object: it claims and renews the shared lease record, adds
    publications to its descriptor and keeps the list of what its origin still serves. */
module RunPublisher {
  import opened Wrappers
  import opened Lease

  // ---------------------------------------------------------------- which publications are taken

  datatype Decision = Repeat(previous: Adapter) | Refuse | Accept

  /** Steps must increase; only the very last publication may be offered again. */
  function Decide(publications: seq<Adapter>, step: int, digest: Digest): Decision {
    if publications == [] then Accept
    else
      var last := publications[|publications| - 1];
      if step > last.step then Accept
      else if step == last.step && digest == last.digest then Repeat(last)
      else Refuse
  }

  ghost predicate Increasing(publications: seq<Adapter>) {
    forall i, j :: 0 <= i < j < |publications| ==> publications[i].step < publications[j].step
  }

  /** The publications taken from a series of offers, none forgotten. */
  function Taken(offers: seq<Adapter>): seq<Adapter> {
    if offers == [] then []
    else
      var before, x := Taken(offers[..|offers| - 1]), offers[|offers| - 1];
      if Decide(before, x.step, x.digest) == Accept then before + [x] else before
  }

  /** The list kept along the same offers, cut to the retained number each time. */
  function Kept(offers: seq<Adapter>, retain: nat): seq<Adapter> {
    if offers == [] then []
    else
      var before, x := Kept(offers[..|offers| - 1], retain), offers[|offers| - 1];
      if Decide(before, x.step, x.digest) == Accept then KeepLast(before + [x], retain) else before
  }

  /** A publication is taken exactly if its step is beyond every listed one; it is answered with
      an earlier one exactly if that is the newest and has its step and its bytes. */
  lemma {:induction false} DecisionExact(publications: seq<Adapter>, step: int, digest: Digest, previous: Adapter)
    requires Increasing(publications)
    ensures Decide(publications, step, digest) == Accept <==> forall p :: p in publications ==> p.step < step
    ensures Decide(publications, step, digest) == Repeat(previous) <==>
      && previous in publications && (forall p :: p in publications ==> p.step <= previous.step)
      && previous.step == step && previous.digest == digest
  {
    if publications != [] {
      var last := |publications| - 1;
      assert publications[last] in publications;
      forall p | p in publications ensures p.step < publications[last].step || p == publications[last] {
        var i :| 0 <= i < |publications| && publications[i] == p;
      }
    }
  }

  lemma {:induction false} KeepLastAppend(all: seq<Adapter>, x: Adapter, n: nat)
    requires n >= 1
    ensures KeepLast(KeepLast(all, n) + [x], n) == KeepLast(all + [x], n)
    ensures all != [] ==> KeepLast(all, n) != [] && KeepLast(all, n)[|KeepLast(all, n)| - 1] == all[|all| - 1]
    ensures all == [] ==> KeepLast(all, n) == []
  {
  }

  lemma {:induction false} AcceptKeepsIncreasing(publications: seq<Adapter>, x: Adapter, n: nat)
    requires Increasing(publications) && Decide(publications, x.step, x.digest) == Accept
    ensures Increasing(publications + [x]) && Increasing(KeepLast(publications + [x], n))
    ensures |KeepLast(publications + [x], n)| <= n
  {
    var all := publications + [x];
    forall i, j | 0 <= i < j < |all| ensures all[i].step < all[j].step {
      assert publications != [] ==> publications[|publications| - 1].step < x.step;
    }
  }

  lemma {:induction false} OfferKept(all: seq<Adapter>, x: Adapter, n: nat)
    requires n >= 1 && Increasing(all) && Increasing(KeepLast(all, n))
    ensures Decide(KeepLast(all, n), x.step, x.digest) == Decide(all, x.step, x.digest)
    ensures Decide(all, x.step, x.digest) == Accept ==>
      && KeepLast(KeepLast(all, n) + [x], n) == KeepLast(all + [x], n)
      && Increasing(all + [x]) && Increasing(KeepLast(all + [x], n))
  {
    KeepLastAppend(all, x, n);
    if Decide(all, x.step, x.digest) == Accept {
      AcceptKeepsIncreasing(all, x, n);
    }
  }

  /** Forgetting old publications changes no decision: the list is always the last ones of all
      that were taken, and their steps increase. */
  lemma {:induction false} KeptIsLastTaken(offers: seq<Adapter>, retain: nat)
    requires retain >= 1
    ensures Kept(offers, retain) == KeepLast(Taken(offers), retain)
    ensures Increasing(Taken(offers)) && Increasing(Kept(offers, retain))
  {
    if offers != [] {
      var n := |offers| - 1;
      KeptIsLastTaken(offers[..n], retain);
      var all, kept, x := Taken(offers[..n]), Kept(offers[..n], retain), offers[n];
      OfferKept(all, x, retain);
      assert kept == KeepLast(all, retain);
    }
  }

  // ---------------------------------------------------------------- objects

  datatype LeaseError = LiveElsewhere | Replaced | StepsMustIncrease | Unreachable

  /** What goes wrong with the registry during one refresh: nothing; the script is not reached;
      the script runs but its reply is lost; or, after that many sources, a registration call
      fails. */
  datatype Fault = NoFault | Unreached | ReplyLost | SourceFails(handled: nat)

  /** The registry as time and other publishers have left it when a refresh is tried. */
  datatype Moment = Moment(now: real, record: Option<Record>, fault: Fault)

  /** The registry server: its clock and the one record of the run. */
  class Registry {
    var now: real
    var record: Option<Record>

    constructor ()
      ensures record == None
    {
      now, record := 0.0, None;
    }

    method Get() returns (r: Option<Record>)
      ensures r == Visible(record, now)
    {
      if record.Some? && now < record.value.expiry {
        return record;
      }
      return None;
    }

    /** Time passes and others write. */
    method Become(now: real, record: Option<Record>)
      modifies this
      ensures this.now == now && this.record == record
    {
      this.now, this.record := now, record;
    }

    /** The claim-or-renew script, executed without interruption. */
    method Eval(owner: Owner, publications: seq<Adapter>, ttl: real) returns (written: bool)
      modifies this`record
      ensures (record, written) == Script(old(record), now, owner, publications, ttl)
      ensures written <==> !HeldByOther(old(record), now, owner)
      ensures record == if written then Some(Record(owner, publications, now + ttl)) else old(record)
    {
      var current := Get();
      if current.Some? && current.value.owner != owner {
        return false;
      }
      record := Some(Record(owner, publications, now + ttl));
      return true;
    }
  }

  /** The sources whose version is still in the origin's store. */
  function StillStored(sources: map<Digest, string>, stored: set<string>): map<Digest, string> {
    map d | d in sources && sources[d] in stored :: sources[d]
  }

  /** Some of the sources no longer stored are gone, and nothing else. */
  ghost predicate PartlyDropped(before: map<Digest, string>, after: map<Digest, string>, stored: set<string>) {
    && (forall d :: d in after ==> d in before && after[d] == before[d])
    && (forall d :: d in before && before[d] in stored ==> d in after)
  }

  lemma {:induction false} DroppedTwice(before: map<Digest, string>, middle: map<Digest, string>, stored: set<string>)
    requires PartlyDropped(before, middle, stored)
    ensures StillStored(middle, stored) == StillStored(before, stored)
  {
  }

  class Publisher {
    const registry: Registry
    const owner: Owner
    const ttl: real
    const retain: nat
    var publications: seq<Adapter>
    var sources: map<Digest, string>
    var fenced: bool
    var beating: bool

    constructor (registry: Registry, owner: Owner, lease: real, retain: nat)
      requires retain >= 1
      ensures this.registry == registry && this.owner == owner && this.retain == retain
      ensures ttl == ExpiryMillis(lease) && Valid() && publications == [] && sources == map[] && !fenced && !beating
    {
      this.registry, this.owner, this.retain := registry, owner, retain;
      ttl := ExpiryMillis(lease);
      publications, sources, fenced, beating := [], map[], false, false;
    }

    ghost predicate Valid()
      reads this
    {
      retain >= 1 && ttl >= 1.0 && |publications| <= retain && Increasing(publications)
    }

    /** Claims the run unless any record of it is live. */
    method Start(stored: set<string>, fault: Fault) returns (r: Result<(), LeaseError>)
      requires Valid()
      modifies this, registry`record
      ensures Valid() && publications == old(publications)
      ensures Visible(old(registry.record), registry.now).Some? ==>
        && r == Err(LiveElsewhere) && registry.record == old(registry.record)
        && beating == old(beating) && fenced == old(fenced) && sources == old(sources)
      ensures r.Ok? ==>
        && beating && fenced == old(fenced) && sources == StillStored(old(sources), stored)
        && Visible(registry.record, registry.now) == Some(Record(owner, publications, registry.now + ttl))
      ensures Visible(old(registry.record), registry.now).None? && fault == NoFault ==> r.Ok?
      ensures r.Err? ==> beating == old(beating) && fenced == old(fenced)
      ensures r == Err(LiveElsewhere) <==> old(registry.record).Some? && registry.now < old(registry.record).value.expiry
      ensures registry.record == old(registry.record)
           || registry.record == Some(Record(owner, publications, registry.now + ttl))
    {
      var current := registry.Get();
      if current.Some? {
        return Err(LiveElsewhere);
      }
      r := Refresh(stored, fault);
      if r.Ok? {
        beating := true;
      }
    }

    /** Renews the record with the current list.  A refusal fences the publisher; any other
        failure does not, though the record may have been written. */
    method Refresh(stored: set<string>, fault: Fault) returns (r: Result<(), LeaseError>)
      requires Valid()
      modifies this`fenced, this`sources, registry`record
      ensures Valid()
      ensures registry.record == if fault == Unreached || HeldByOther(old(registry.record), registry.now, owner)
                                 then old(registry.record)
                                 else Some(Record(owner, publications, registry.now + ttl))
      ensures PartlyDropped(old(sources), sources, stored)
      ensures var written := !HeldByOther(old(registry.record), registry.now, owner);
        && (r == Err(Replaced) <==> !written && fault != Unreached && fault != ReplyLost)
        && fenced == (old(fenced) || r == Err(Replaced))
        && (r.Ok? ==> written && sources == StillStored(old(sources), stored) && !fault.Unreached? && !fault.ReplyLost?)
        && (r.Err? ==> r == Err(Replaced) || (r == Err(Unreachable) && fault != NoFault))
      ensures r.Ok? ==> forall d :: d in sources <==> d in old(sources) && old(sources)[d] in stored
    {
      if fault.Unreached? {
        return Err(Unreachable);
      }
      var written := registry.Eval(owner, publications, ttl);
      if fault.ReplyLost? {
        return Err(Unreachable);
      }
      if !written {
        fenced := true;
        return Err(Replaced);
      }
      var left, handled := sources.Keys, 0;
      while left != {}
        invariant left <= old(sources).Keys
        invariant forall d :: d in sources <==> d in old(sources) && (d in left || old(sources)[d] in stored)
        invariant forall d :: d in sources ==> sources[d] == old(sources)[d]
        decreases left
        modifies this`sources
      {
        if fault.SourceFails? && handled == fault.handled {
          return Err(Unreachable);
        }
        var d :| d in left;
        left := left - {d};
        if sources[d] !in stored {
          sources := sources - {d};
        }
        handled := handled + 1;
      }
      assert sources == StillStored(old(sources), stored);
      return Ok(());
    }

    /** One round of the heartbeat: whatever a refresh raises stops it if the publisher is
        fenced by then, and only then. */
    method Beat(stored: set<string>, fault: Fault)
      requires Valid() && beating
      modifies this, registry`record
      ensures Valid() && publications == old(publications)
      ensures registry.record == if fault == Unreached || HeldByOther(old(registry.record), registry.now, owner)
                                 then old(registry.record)
                                 else Some(Record(owner, publications, registry.now + ttl))
      ensures var written := !HeldByOther(old(registry.record), registry.now, owner);
        && fenced == (old(fenced) || (!written && fault != Unreached && fault != ReplyLost))
        && (!beating ==> fenced)
        && (fault == NoFault ==> beating == written)
        && (fault == Unreached || fault == ReplyLost ==> beating == !old(fenced))
    {
      var r := Refresh(stored, fault);
      if r.Err? && fenced {
        beating := false;
      }
    }

    /** Refreshes until it succeeds or is refused, or the moments run out. */
    method RetryRefresh(stored: set<string>, moments: seq<Moment>) returns (r: Result<(), LeaseError>, ghost k: nat)
      requires Valid() && !fenced
      modifies this`fenced, this`sources, registry
      ensures Valid() && k <= |moments|
      ensures forall j :: 0 <= j < k && j < |moments| ==> moments[j].fault != NoFault
      ensures fenced <==> r == Err(Replaced)
      ensures k < |moments| ==>
        && registry.now == moments[k].now
        && (r.Ok? <==> !HeldByOther(moments[k].record, moments[k].now, owner))
        && registry.record == (if r.Ok? then Some(Record(owner, publications, moments[k].now + ttl)) else moments[k].record)
        && (r.Err? ==> r == Err(Replaced))
        && (r.Ok? ==> sources == StillStored(old(sources), stored))
      ensures k == |moments| ==> r == Err(Unreachable)
      ensures PartlyDropped(old(sources), sources, stored)
    {
      var i := 0;
      while i < |moments|
        invariant i <= |moments| && !fenced && Valid()
        invariant forall j :: 0 <= j < i ==> moments[j].fault != NoFault
        invariant PartlyDropped(old(sources), sources, stored)
      {
        registry.Become(moments[i].now, moments[i].record);
        ghost var before := sources;
        r := Refresh(stored, moments[i].fault);
        DroppedTwice(old(sources), before, stored);
        if r.Ok? || fenced {
          return r, i;
        }
        i := i + 1;
      }
      return Err(Unreachable), i;
    }

    /** Adds an adapter, already broadcast under the given version name, to the descriptor, and
        refreshes until that succeeds, is refused or runs out of time.  If the version could not
        be registered as a source before, the adapter stays out of the list; otherwise it has
        joined the list whatever comes of the refresh. */
    method Publish(x: Adapter, version: string, registered: bool, stored: set<string>, moments: seq<Moment>)
      returns (r: Result<Adapter, LeaseError>)
      requires Valid()
      modifies this, registry
      ensures Valid() && beating == old(beating)
      ensures var decision := Decide(old(publications), x.step, x.digest);
        if old(fenced) || decision != Accept || !registered then
          && publications == old(publications) && sources == old(sources) && fenced == old(fenced)
          && registry.record == old(registry.record) && registry.now == old(registry.now)
          && r == (if old(fenced) then Err(Replaced)
                   else if decision == Refuse then Err(StepsMustIncrease)
                   else if decision == Accept then Err(Unreachable)
                   else Ok(decision.previous))
        else
          && publications == KeepLast(old(publications) + [x], retain)
          && (fenced <==> r == Err(Replaced))
          && (r.Ok? ==> r == Ok(x) && sources == StillStored(old(sources)[x.digest := version], stored))
          && (r.Err? ==> r == Err(Replaced) || r == Err(Unreachable))
          && (r == Err(Unreachable) ==> forall j :: 0 <= j < |moments| ==> moments[j].fault != NoFault)
          && (r != Err(Unreachable) ==>
                exists k ::
                  && 0 <= k < |moments| && registry.now == moments[k].now
                  && (r.Ok? <==> !HeldByOther(moments[k].record, moments[k].now, owner))
                  && registry.record == (if r.Ok? then Some(Record(owner, publications, moments[k].now + ttl)) else moments[k].record)
                  && (forall j :: 0 <= j < k ==> moments[j].fault != NoFault))
    {
      if fenced {
        return Err(Replaced);
      }
      if publications != [] && x.step <= publications[|publications| - 1].step {
        var previous := publications[|publications| - 1];
        if x.step == previous.step && x.digest == previous.digest {
          return Ok(previous);
        }
        return Err(StepsMustIncrease);
      }
      if !registered {
        return Err(Unreachable);
      }
      sources := sources[x.digest := version];
      AcceptKeepsIncreasing(publications, x, retain);
      publications := KeepLast(publications + [x], retain);
      var refreshed, k := RetryRefresh(stored, moments);
      return if refreshed.Ok? then Ok(x) else Err(refreshed.error);
    }
  }
}
