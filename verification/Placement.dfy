/** Which middles own a shard: a weighted ranking followed by a two-phase pick that
    spreads the owners over failure domains. */
module Placement {
  import opened Wrappers
  import opened StableSort

  /** A middle, by its canonical URL. */
  datatype Member = Member(url: string)

  /** A profile as supplied; absent fields take defaults. */
  datatype RawProfile = RawProfile(
    bandwidth: Option<real>, capacity: Option<real>, load: Option<real>,
    failureDomain: Option<string>, locality: Option<string>)

  datatype Profile = Profile(bandwidth: real, capacity: real, load: real, domain: string, locality: string)

  datatype PlacementError = BadMembership | BadFactor | UnknownProfile | BadProfile

  // ---------------------------------------------------------------- membership

  function StripSlashes(s: string): (r: string)
    ensures r == "" || r[|r| - 1] != '/'
    ensures r <= s && forall i :: |r| <= i < |s| ==> s[i] == '/'
  {
    if s != "" && s[|s| - 1] == '/' then StripSlashes(s[..|s| - 1]) else s
  }

  function Stripped(urls: seq<string>): (r: seq<Member>)
    ensures |r| == |urls| && forall i :: 0 <= i < |urls| ==> r[i] == Member(StripSlashes(urls[i]))
  {
    seq(|urls|, i requires 0 <= i < |urls| => Member(StripSlashes(urls[i])))
  }

  function CanonicalMembers(urls: seq<string>): Result<seq<Member>, PlacementError> {
    var result := Stripped(urls);
    if result == [] || Member("") in result || |Elements(result)| != |result| then Err(BadMembership)
    else Ok(result)
  }

  function Urls(members: seq<Member>): (r: seq<string>)
    ensures |r| == |members| && forall i :: 0 <= i < |members| ==> r[i] == members[i].url
  {
    seq(|members|, i requires 0 <= i < |members| => members[i].url)
  }

  /** A canonical membership is non-empty and without repeats, and canonical already. */
  lemma {:induction false} CanonicalMembersSound(urls: seq<string>)
    requires CanonicalMembers(urls).Ok?
    ensures var c := CanonicalMembers(urls).value;
      |c| == |urls| > 0 && Distinct(c) && Member("") !in c && Stripped(Urls(c)) == c
  {
    SetSizeDistinct(CanonicalMembers(urls).value);
  }

  lemma {:induction false} CanonicalFrom(urls: seq<string>, c: seq<Member>)
    requires Stripped(urls) == c && c != [] && Distinct(c) && Member("") !in c
    ensures CanonicalMembers(urls) == Ok(c)
  {
    DistinctCount(c);
  }

  lemma {:induction false} CanonicalMembersIdempotent(urls: seq<string>)
    requires CanonicalMembers(urls).Ok?
    ensures CanonicalMembers(Urls(CanonicalMembers(urls).value)) == CanonicalMembers(urls)
  {
    CanonicalMembersSound(urls);
  }

  // ---------------------------------------------------------------- profiles

  function OrElse<T>(o: Option<T>, default: T): T {
    if o.Some? then o.value else default
  }

  function RawFor(profiles: map<string, RawProfile>, m: Member): RawProfile {
    if m.url in profiles then profiles[m.url] else RawProfile(None, None, None, None, None)
  }

  function ProfileFor(profiles: map<string, RawProfile>, m: Member): Profile {
    var raw := RawFor(profiles, m);
    Profile(OrElse(raw.bandwidth, 1.0), OrElse(raw.capacity, 1.0), OrElse(raw.load, 0.0),
            OrElse(raw.failureDomain, m.url), OrElse(raw.locality, ""))
  }

  predicate ValidProfile(p: Profile) {
    p.bandwidth > 0.0 && p.capacity > 0.0 && p.load >= 0.0
  }

  /** One valid profile per member, in membership order, or the reason there is none. */
  function ProfilesOf(urls: seq<string>, profiles: map<string, RawProfile>)
    : Result<seq<(Member, Profile)>, PlacementError>
  {
    match CanonicalMembers(urls)
    case Err(e) => Err(e)
    case Ok(c) => ProfilesWithin(c, profiles)
  }

  function ProfilesWithin(c: seq<Member>, profiles: map<string, RawProfile>)
    : Result<seq<(Member, Profile)>, PlacementError>
  {
    if exists name :: name in profiles && Member(name) !in c then Err(UnknownProfile)
    else if exists m :: m in c && !ValidProfile(ProfileFor(profiles, m)) then Err(BadProfile)
    else Ok(seq(|c|, i requires 0 <= i < |c| => (c[i], ProfileFor(profiles, c[i]))))
  }

  method CanonicalMemberProfiles(urls: seq<string>, profiles: map<string, RawProfile>)
    returns (r: Result<seq<(Member, Profile)>, PlacementError>)
    ensures r == ProfilesOf(urls, profiles)
  {
    var canonical := CanonicalMembers(urls);
    if canonical.Err? {
      return Err(canonical.error);
    }
    var c := canonical.value;
    var unknown := set name | name in profiles && Member(name) !in c;
    if unknown != {} {
      assert exists name :: name in unknown;
      return Err(UnknownProfile);
    }
    assert forall name :: name in profiles && Member(name) !in c ==> name in unknown;
    var collected := CollectProfiles(c, profiles);
    return if collected.Some? then Ok(collected.value) else Err(BadProfile);
  }

  method CollectProfiles(c: seq<Member>, profiles: map<string, RawProfile>)
    returns (r: Option<seq<(Member, Profile)>>)
    ensures r.None? <==> exists m :: m in c && !ValidProfile(ProfileFor(profiles, m))
    ensures r.Some? ==> r.value == seq(|c|, i requires 0 <= i < |c| => (c[i], ProfileFor(profiles, c[i])))
  {
    var result: seq<(Member, Profile)> := [];
    for i := 0 to |c|
      invariant |result| == i
      invariant forall j :: 0 <= j < i ==> result[j] == (c[j], ProfileFor(profiles, c[j]))
      invariant forall j :: 0 <= j < i ==> ValidProfile(ProfileFor(profiles, c[j]))
    {
      var p := ProfileFor(profiles, c[i]);
      if !ValidProfile(p) {
        assert c[i] in c;
        return None;
      }
      result := result + [(c[i], p)];
    }
    assert forall m :: m in c ==> exists j :: 0 <= j < |c| && c[j] == m;
    return Some(result);
  }

  // ---------------------------------------------------------------- the two-phase pick

  predicate Repeats(d: string, seen: set<string>) {
    d != "" && d in seen
  }

  function Note(d: string, seen: set<string>): set<string> {
    if d == "" then seen else seen + {d}
  }

  /** The domains seen once all of r has been passed over. */
  function After(r: seq<Member>, domain: Member -> string, seen: set<string>): set<string> {
    if r == [] then seen else After(r[1..], domain, Note(domain(r[0]), seen))
  }

  /** The members that open a new failure domain (one without a domain always does). */
  function Leaders(r: seq<Member>, domain: Member -> string, seen: set<string>): seq<Member> {
    if r == [] then []
    else (if Repeats(domain(r[0]), seen) then [] else [r[0]])
         + Leaders(r[1..], domain, Note(domain(r[0]), seen))
  }

  /** The members whose failure domain was opened before. */
  function Others(r: seq<Member>, domain: Member -> string, seen: set<string>): seq<Member> {
    if r == [] then []
    else (if Repeats(domain(r[0]), seen) then [r[0]] else [])
         + Others(r[1..], domain, Note(domain(r[0]), seen))
  }

  /** The order in which members are picked: each domain's best first, then the rest. */
  function Diversified(r: seq<Member>, domain: Member -> string): seq<Member> {
    Leaders(r, domain, {}) + Others(r, domain, {})
  }

  lemma {:induction false} DiversifiedPermutes(r: seq<Member>, domain: Member -> string, seen: set<string>)
    ensures multiset(Leaders(r, domain, seen)) + multiset(Others(r, domain, seen)) == multiset(r)
  {
    if r != [] {
      DiversifiedPermutes(r[1..], domain, Note(domain(r[0]), seen));
      assert r == [r[0]] + r[1..];
    }
  }

  lemma {:induction false} DiversifiedElements(r: seq<Member>, domain: Member -> string)
    ensures |Diversified(r, domain)| == |r|
    ensures forall x :: x in Diversified(r, domain) <==> x in r
    ensures Distinct(r) ==> Distinct(Diversified(r, domain))
  {
    var d := Diversified(r, domain);
    DiversifiedPermutes(r, domain, {});
    assert multiset(d) == multiset(r);
    assert |multiset(d)| == |multiset(r)|;
    forall x ensures x in d <==> x in r {
      assert x in d <==> x in multiset(d);
      assert x in r <==> x in multiset(r);
    }
    if Distinct(r) {
      DistinctCount(r);
      assert Elements(d) == Elements(r);
      SetSizeDistinct(d);
    }
  }

  /** The owners of a shard among valid members, given its scores and failure domains. */
  function Owners(members: seq<Member>, score: Member -> int, domain: Member -> string, rf: nat): seq<Member> {
    var ranked := Sort(members, score);
    var picked := Diversified(ranked, domain);
    picked[..Min(Min(rf, |members|), |picked|)]
  }

  /** What a caller gets back, including the refusals. */
  function OwnersFor(urls: seq<string>, rf: int, profiles: map<string, RawProfile>, score: (Member, Profile) -> int)
    : Result<seq<Member>, PlacementError>
  {
    match CanonicalMembers(urls)
    case Err(e) => Err(e)
    case Ok(c) =>
      if rf < 1 then Err(BadFactor)
      else match ProfilesWithin(c, profiles)
        case Err(e) => Err(e)
        case Ok(_) => Ok(Owners(c, ScoreIn(profiles, score), DomainIn(profiles), rf))
  }

  function ScoreIn(profiles: map<string, RawProfile>, score: (Member, Profile) -> int): Member -> int {
    (m: Member) => score(m, ProfileFor(profiles, m))
  }

  function DomainIn(profiles: map<string, RawProfile>): Member -> string {
    (m: Member) => ProfileFor(profiles, m).domain
  }

  lemma {:induction false} AfterAppended(a: seq<Member>, b: seq<Member>, domain: Member -> string, seen: set<string>)
    ensures After(a + b, domain, seen) == After(b, domain, After(a, domain, seen))
  {
    if a == [] {
      assert a + b == b;
    } else {
      assert (a + b)[1..] == a[1..] + b;
      AfterAppended(a[1..], b, domain, Note(domain(a[0]), seen));
    }
  }

  lemma {:induction false} LeadersAppended(a: seq<Member>, b: seq<Member>, domain: Member -> string, seen: set<string>)
    ensures Leaders(a + b, domain, seen) == Leaders(a, domain, seen) + Leaders(b, domain, After(a, domain, seen))
  {
    if a == [] {
      assert a + b == b;
    } else {
      var next := Note(domain(a[0]), seen);
      var here := if Repeats(domain(a[0]), seen) then [] else [a[0]];
      assert (a + b)[1..] == a[1..] + b;
      LeadersAppended(a[1..], b, domain, next);
      assert Leaders(a, domain, seen) == here + Leaders(a[1..], domain, next);
      assert Leaders(a + b, domain, seen) == here + Leaders(a[1..] + b, domain, next);
    }
  }

  lemma {:induction false} OthersAppended(a: seq<Member>, b: seq<Member>, domain: Member -> string, seen: set<string>)
    ensures Others(a + b, domain, seen) == Others(a, domain, seen) + Others(b, domain, After(a, domain, seen))
  {
    if a == [] {
      assert a + b == b;
    } else {
      var next := Note(domain(a[0]), seen);
      var here := if Repeats(domain(a[0]), seen) then [a[0]] else [];
      assert (a + b)[1..] == a[1..] + b;
      OthersAppended(a[1..], b, domain, next);
      assert Others(a, domain, seen) == here + Others(a[1..], domain, next);
      assert Others(a + b, domain, seen) == here + Others(a[1..] + b, domain, next);
    }
  }

  lemma {:induction false} Appended(a: seq<Member>, b: seq<Member>, domain: Member -> string, seen: set<string>)
    ensures After(a + b, domain, seen) == After(b, domain, After(a, domain, seen))
    ensures Leaders(a + b, domain, seen) == Leaders(a, domain, seen) + Leaders(b, domain, After(a, domain, seen))
    ensures Others(a + b, domain, seen) == Others(a, domain, seen) + Others(b, domain, After(a, domain, seen))
  {
    AfterAppended(a, b, domain, seen);
    LeadersAppended(a, b, domain, seen);
    OthersAppended(a, b, domain, seen);
  }

  lemma {:induction false} One(x: Member, domain: Member -> string, seen: set<string>)
    ensures After([x], domain, seen) == Note(domain(x), seen)
    ensures Leaders([x], domain, seen) == if Repeats(domain(x), seen) then [] else [x]
    ensures Others([x], domain, seen) == if Repeats(domain(x), seen) then [x] else []
  {
  }

  /** The ranking splits at k: the part passed over, the member at k, and the part to come. */
  lemma {:induction false} SplitAt(r: seq<Member>, k: nat, domain: Member -> string, seen: set<string>)
    requires k < |r|
    ensures var here := After(r[..k], domain, seen); var next := Note(domain(r[k]), here);
      && After(r[..k + 1], domain, seen) == next
      && Leaders(r[..k + 1], domain, seen)
         == Leaders(r[..k], domain, seen) + (if Repeats(domain(r[k]), here) then [] else [r[k]])
      && Others(r[..k + 1], domain, seen)
         == Others(r[..k], domain, seen) + (if Repeats(domain(r[k]), here) then [r[k]] else [])
      && Leaders(r, domain, seen) == Leaders(r[..k + 1], domain, seen) + Leaders(r[k + 1..], domain, next)
      && Others(r, domain, seen) == Others(r[..k + 1], domain, seen) + Others(r[k + 1..], domain, next)
  {
    assert r[..k + 1] == r[..k] + [r[k]];
    assert r == r[..k + 1] + r[k + 1..];
    Appended(r[..k], [r[k]], domain, seen);
    One(r[k], domain, After(r[..k], domain, seen));
    Appended(r[..k + 1], r[k + 1..], domain, seen);
  }

  lemma {:induction false} DisjointParts(r: seq<Member>, domain: Member -> string, x: Member)
    requires Distinct(r)
    ensures !(x in Leaders(r, domain, {}) && x in Others(r, domain, {}))
  {
    DiversifiedElements(r, domain);
    var l, o := Leaders(r, domain, {}), Others(r, domain, {});
    forall i, j | 0 <= i < |l| && 0 <= j < |o| ensures l[i] != o[j] {
      assert Diversified(r, domain)[i] == l[i];
      assert Diversified(r, domain)[|l| + j] == o[j];
    }
  }

  lemma {:induction false} OthersWithin(r: seq<Member>, domain: Member -> string, seen: set<string>)
    ensures forall x :: x in Leaders(r, domain, seen) || x in Others(r, domain, seen) ==> x in r
  {
    DiversifiedPermutes(r, domain, seen);
    forall x | x in Leaders(r, domain, seen) || x in Others(r, domain, seen) ensures x in r {
      assert x in multiset(Leaders(r, domain, seen)) + multiset(Others(r, domain, seen));
      assert x in multiset(r);
    }
  }

  /** Among distinct members, the member at k is a leader exactly when it opens its domain. */
  lemma {:induction false} LeaderAt(r: seq<Member>, k: nat, domain: Member -> string)
    requires k < |r| && Distinct(r)
    ensures r[k] in Leaders(r, domain, {}) <==> !Repeats(domain(r[k]), After(r[..k], domain, {}))
    ensures r[k] !in Others(r[..k], domain, {})
  {
    SplitAt(r, k, domain, {});
    DisjointParts(r, domain, r[k]);
    OthersWithin(r[..k], domain, {});
  }

  /** The next of the others is the next member not yet picked. */
  lemma {:induction false} OtherAt(r: seq<Member>, k: nat, domain: Member -> string)
    requires k < |r| && Distinct(r)
    ensures var picked := Leaders(r, domain, {}) + Others(r[..k], domain, {});
      && Leaders(r, domain, {}) + Others(r[..k + 1], domain, {}) == picked + (if r[k] in picked then [] else [r[k]])
      && Leaders(r, domain, {}) + Others(r[..k + 1], domain, {}) <= Diversified(r, domain)
  {
    SplitAt(r, k, domain, {});
    LeaderAt(r, k, domain);
  }

  lemma {:induction false} RankedShape(members: seq<Member>, score: Member -> int, domain: Member -> string)
    requires Distinct(members)
    ensures var ranked := Sort(members, score);
      Distinct(ranked) && |ranked| == |members| == |Diversified(ranked, domain)|
  {
    SortElements(members, score);
    SortDistinct(members, score);
    DiversifiedElements(Sort(members, score), domain);
  }

  method ShardOwners(urls: seq<string>, rf: int, profiles: map<string, RawProfile>, score: (Member, Profile) -> int)
    returns (r: Result<seq<Member>, PlacementError>)
    ensures r == OwnersFor(urls, rf, profiles, score)
  {
    var canonical := CanonicalMembers(urls);
    if canonical.Err? {
      return Err(canonical.error);
    }
    if rf < 1 {
      return Err(BadFactor);
    }
    CanonicalMembersIdempotent(urls);
    var checked := CanonicalMemberProfiles(Urls(canonical.value), profiles);
    if checked.Err? {
      return Err(checked.error);
    }
    CanonicalMembersSound(urls);
    var selected := RankAndPick(canonical.value, rf, ScoreIn(profiles, score), DomainIn(profiles));
    return Ok(selected);
  }

  method RankAndPick(members: seq<Member>, rf: nat, score: Member -> int, domain: Member -> string)
    returns (selected: seq<Member>)
    requires Distinct(members) && members != [] && rf >= 1
    ensures selected == Owners(members, score, domain, rf)
  {
    RankedShape(members, score, domain);
    selected := PickOwners(Sort(members, score), domain, Min(rf, |members|));
  }

  /** The two loops of the pick: leaders until the count is reached, then fill up. */
  method PickOwners(ranked: seq<Member>, domain: Member -> string, count: nat) returns (selected: seq<Member>)
    requires Distinct(ranked) && 0 < count <= |ranked|
    ensures count <= |Diversified(ranked, domain)| && selected == Diversified(ranked, domain)[..count]
  {
    DiversifiedElements(ranked, domain);
    selected := [];
    var domains: set<string> := {};
    for k := 0 to |ranked|
      invariant selected == Leaders(ranked[..k], domain, {})
      invariant domains == After(ranked[..k], domain, {})
      invariant |selected| < count
    {
      SplitAt(ranked, k, domain, {});
      var d := domain(ranked[k]);
      if d != "" && d in domains {
        continue;
      }
      selected := selected + [ranked[k]];
      if d != "" {
        domains := domains + {d};
      }
      if |selected| == count {
        assert selected <= Leaders(ranked, domain, {}) <= Diversified(ranked, domain);
        return;
      }
    }
    assert ranked[..|ranked|] == ranked;
    selected := FillOwners(ranked, domain, count, selected);
  }

  method FillOwners(ranked: seq<Member>, domain: Member -> string, count: nat, leaders: seq<Member>)
    returns (selected: seq<Member>)
    requires Distinct(ranked) && count <= |ranked| && |leaders| < count
    requires leaders == Leaders(ranked, domain, {})
    ensures count <= |Diversified(ranked, domain)| && selected == Diversified(ranked, domain)[..count]
  {
    DiversifiedElements(ranked, domain);
    selected := leaders;
    for k := 0 to |ranked|
      invariant selected == leaders + Others(ranked[..k], domain, {})
      invariant |selected| < count
    {
      OtherAt(ranked, k, domain);
      if ranked[k] !in selected {
        selected := selected + [ranked[k]];
      }
      if |selected| == count {
        break;
      }
    }
    assert ranked[..|ranked|] == ranked;
  }

  // ---------------------------------------------------------------- diversity

  /** What a failure is expected to take out together; a member without a domain stands alone. */
  datatype Class = Domain(name: string) | Alone(member: Member)

  function ClassOf(m: Member, domain: Member -> string): Class {
    if domain(m) == "" then Alone(m) else Domain(domain(m))
  }

  function Classes(s: seq<Member>, domain: Member -> string): set<Class> {
    set m | m in s :: ClassOf(m, domain)
  }

  function Opened(seen: set<string>): set<Class> {
    set d | d in seen :: Domain(d)
  }

  lemma {:induction false} ClassesCons(x: Member, s: seq<Member>, domain: Member -> string)
    ensures Classes([x] + s, domain) == {ClassOf(x, domain)} + Classes(s, domain)
  {
  }

  lemma {:induction false} ClassesAtMost(s: seq<Member>, domain: Member -> string)
    ensures |Classes(s, domain)| <= |s|
  {
    if s != [] {
      assert s == [s[0]] + s[1..];
      ClassesCons(s[0], s[1..], domain);
      ClassesAtMost(s[1..], domain);
    }
  }

  /** The leaders stand one for each class that was not open before. */
  lemma {:induction false} LeadersClasses(r: seq<Member>, domain: Member -> string, seen: set<string>)
    requires Distinct(r) && "" !in seen
    ensures Classes(Leaders(r, domain, seen), domain) == Classes(r, domain) - Opened(seen)
    ensures |Classes(Leaders(r, domain, seen), domain)| == |Leaders(r, domain, seen)|
  {
    if r != [] {
      var x, rest, next := r[0], r[1..], Note(domain(r[0]), seen);
      assert r == [x] + rest;
      LeadersClasses(rest, domain, next);
      OthersWithin(rest, domain, next);
      var l := Leaders(rest, domain, next);
      LeadersClassesStep(x, rest, l, domain, seen);
      if Repeats(domain(x), seen) {
        assert Leaders(r, domain, seen) == l;
      } else {
        assert Leaders(r, domain, seen) == [x] + l;
      }
    }
  }

  lemma {:induction false} LeadersClassesStep(x: Member, rest: seq<Member>, l: seq<Member>, domain: Member -> string, seen: set<string>)
    requires x !in rest && (forall m :: m in l ==> m in rest) && "" !in seen
    requires Classes(l, domain) == Classes(rest, domain) - Opened(Note(domain(x), seen))
    ensures Repeats(domain(x), seen) ==> Classes(l, domain) == Classes([x] + rest, domain) - Opened(seen)
    ensures !Repeats(domain(x), seen) ==>
      && ClassOf(x, domain) !in Classes(l, domain)
      && Classes([x] + l, domain) == Classes(l, domain) + {ClassOf(x, domain)}
      && Classes([x] + l, domain) == Classes([x] + rest, domain) - Opened(seen)
  {
    ClassesCons(x, rest, domain);
    ClassesCons(x, l, domain);
    if Repeats(domain(x), seen) {
      assert Note(domain(x), seen) == seen;
    } else if domain(x) != "" {
      assert Opened(seen + {domain(x)}) == Opened(seen) + {ClassOf(x, domain)};
    }
  }

  lemma {:induction false} OwnersShape(members: seq<Member>, score: Member -> int, domain: Member -> string, rf: nat)
    requires Distinct(members)
    ensures var o := Owners(members, score, domain, rf);
      |o| == Min(rf, |members|) && Distinct(o) && (forall x :: x in o ==> x in members)
  {
    RankedShape(members, score, domain);
    var ranked := Sort(members, score);
    SortElements(members, score);
    DiversifiedElements(ranked, domain);
  }

  lemma {:induction false} TopRankedLeads(members: seq<Member>, score: Member -> int, domain: Member -> string, rf: nat)
    requires Distinct(members) && members != [] && rf >= 1
    ensures Owners(members, score, domain, rf) != []
    ensures forall x :: x in members ==> score(Owners(members, score, domain, rf)[0]) >= score(x)
  {
    OwnersShape(members, score, domain, rf);
    SortElements(members, score);
    FirstIsTopRanked(members, score, domain, rf);
    SortedFirst(members, score);
  }

  lemma {:induction false} FirstIsTopRanked(members: seq<Member>, score: Member -> int, domain: Member -> string, rf: nat)
    requires Owners(members, score, domain, rf) != [] && |Sort(members, score)| > 0
    ensures Owners(members, score, domain, rf)[0] == Sort(members, score)[0]
  {
    assert Leaders(Sort(members, score), domain, {})[0] == Sort(members, score)[0];
  }

  lemma {:induction false} SortedFirst(members: seq<Member>, score: Member -> int)
    requires members != []
    ensures |Sort(members, score)| > 0 && forall x :: x in members ==> score(Sort(members, score)[0]) >= score(x)
  {
    SortElements(members, score);
    SortDescending(members, score);
    var r := Sort(members, score);
    forall x | x in members ensures score(r[0]) >= score(x) {
      var i :| 0 <= i < |r| && r[i] == x;
    }
  }

  /** The owners are the required number of distinct members led by a top-scored one; they
      reach as many failure classes as any choice of that many members could. */
  lemma {:induction false} OwnersSpreadOverDomains(members: seq<Member>, score: Member -> int, domain: Member -> string, rf: nat)
    requires Distinct(members) && members != [] && rf >= 1
    ensures var o := Owners(members, score, domain, rf);
      && |o| == Min(rf, |members|) && Distinct(o) && (forall x :: x in o ==> x in members)
      && (forall x :: x in members ==> score(o[0]) >= score(x))
      && |Classes(o, domain)| == Min(|o|, |Classes(members, domain)|)
      && (forall other: seq<Member> :: |other| <= |o| && (forall x :: x in other ==> x in members)
            ==> |Classes(other, domain)| <= |Classes(o, domain)|)
  {
    OwnersShape(members, score, domain, rf);
    TopRankedLeads(members, score, domain, rf);
    var o := Owners(members, score, domain, rf);
    OwnersClassCount(members, score, domain, rf);
    forall other: seq<Member> | |other| <= |o| && forall x :: x in other ==> x in members
      ensures |Classes(other, domain)| <= |Classes(o, domain)|
    {
      ClassesAtMost(other, domain);
      SubsetCount(Classes(other, domain), Classes(members, domain));
    }
  }

  lemma {:induction false} OwnersClassCount(members: seq<Member>, score: Member -> int, domain: Member -> string, rf: nat)
    requires Distinct(members)
    ensures var o := Owners(members, score, domain, rf);
      |Classes(o, domain)| == Min(|o|, |Classes(members, domain)|)
  {
    var ranked := Sort(members, score);
    RankedShape(members, score, domain);
    SortElements(members, score);
    assert Classes(ranked, domain) == Classes(members, domain);
    OwnersClasses(ranked, domain, Min(rf, |members|));
  }

  lemma {:induction false} OwnersClasses(ranked: seq<Member>, domain: Member -> string, count: nat)
    requires Distinct(ranked) && count <= |ranked| == |Diversified(ranked, domain)|
    ensures |Classes(Diversified(ranked, domain)[..count], domain)| == Min(count, |Classes(ranked, domain)|)
  {
    var l, d := Leaders(ranked, domain, {}), Diversified(ranked, domain);
    LeadersClasses(ranked, domain, {});
    assert Classes(l, domain) == Classes(ranked, domain);
    if count <= |l| {
      assert d[..count] == l[..count];
      PrefixClasses(l, domain, count);
    } else {
      DiversifiedElements(ranked, domain);
      assert l == d[..|l|];
      forall c | c in Classes(l, domain) ensures c in Classes(d[..count], domain) {
        var m :| m in l && ClassOf(m, domain) == c;
        assert m in d[..count];
      }
      assert Classes(d[..count], domain) == Classes(ranked, domain);
    }
  }

  /** If a list has a class for every element, so has each prefix. */
  lemma {:induction false} PrefixClasses(l: seq<Member>, domain: Member -> string, count: nat)
    requires count <= |l| == |Classes(l, domain)|
    ensures |Classes(l[..count], domain)| == count
    decreases |l| - count
  {
    if count == |l| {
      assert l[..count] == l;
    } else {
      PrefixClasses(l, domain, count + 1);
      var p := l[..count];
      assert l[..count + 1] == p + [l[count]];
      assert Classes(l[..count + 1], domain) == Classes(p, domain) + {ClassOf(l[count], domain)};
      ClassesAtMost(p, domain);
    }
  }

  // ---------------------------------------------------------------- placement from the tables

  /** The URLs, trailing slashes aside, are a membership: some, none empty, all different. */
  ghost predicate GoodUrls(urls: seq<string>) {
    && urls != [] && (forall i :: 0 <= i < |urls| ==> StripSlashes(urls[i]) != "")
    && (forall i, j :: 0 <= i < j < |urls| ==> StripSlashes(urls[i]) != StripSlashes(urls[j]))
  }

  lemma {:induction false} MembershipExactly(urls: seq<string>)
    ensures CanonicalMembers(urls) == if GoodUrls(urls) then Ok(Stripped(urls)) else Err(BadMembership)
  {
    var c := Stripped(urls);
    if Distinct(c) {
      DistinctCount(c);
    }
    if |Elements(c)| == |c| {
      SetSizeDistinct(c);
    }
    forall i | 0 <= i < |urls| ensures c[i] in c && (StripSlashes(urls[i]) == "" <==> c[i] == Member("")) {
    }
    assert (forall i, j :: 0 <= i < j < |urls| ==> StripSlashes(urls[i]) != StripSlashes(urls[j])) <==> Distinct(c);
  }

  /** The profile is the one the table gives the member, with the defaults for what is absent:
      bandwidth and capacity one, no load, the member's own URL as failure domain, and no
      locality. */
  predicate Describes(profiles: map<string, RawProfile>, m: Member, p: Profile) {
    var given := m.url in profiles;
    && p.bandwidth == (if given && profiles[m.url].bandwidth.Some? then profiles[m.url].bandwidth.value else 1.0)
    && p.capacity == (if given && profiles[m.url].capacity.Some? then profiles[m.url].capacity.value else 1.0)
    && p.load == (if given && profiles[m.url].load.Some? then profiles[m.url].load.value else 0.0)
    && p.domain == (if given && profiles[m.url].failureDomain.Some? then profiles[m.url].failureDomain.value else m.url)
    && p.locality == (if given && profiles[m.url].locality.Some? then profiles[m.url].locality.value else "")
  }

  /** A table is accepted for a membership exactly if it names members only and describes each
      of them with positive bandwidth and capacity and without negative load; the accepted
      profiles are those it describes, in the members' order. */
  lemma {:induction false} ProfilesExactly(urls: seq<string>, profiles: map<string, RawProfile>)
    requires GoodUrls(urls)
    ensures var c, r := Stripped(urls), ProfilesOf(urls, profiles);
      && (r == Err(UnknownProfile) <==> exists name :: name in profiles && Member(name) !in c)
      && (r.Ok? <==>
            && (forall name :: name in profiles ==> Member(name) in c)
            && (forall m, p :: m in c && Describes(profiles, m, p) ==> p.bandwidth > 0.0 && p.capacity > 0.0 && p.load >= 0.0))
      && (r.Err? ==> r.error == UnknownProfile || r.error == BadProfile)
      && (r.Ok? ==>
            && |r.value| == |c|
            && forall i :: 0 <= i < |c| ==> r.value[i].0 == c[i] && Describes(profiles, c[i], r.value[i].1))
  {
    MembershipExactly(urls);
    var c := Stripped(urls);
    forall m | m in c ensures Describes(profiles, m, ProfileFor(profiles, m)) {
    }
  }

  /** The placement refuses exactly a bad membership, a replication factor below one, or a
      table that is not accepted, in this order. */
  lemma {:induction false} PlacementRefuses(urls: seq<string>, rf: int, profiles: map<string, RawProfile>,
                                            score: (Member, Profile) -> int)
    ensures var r := OwnersFor(urls, rf, profiles, score);
      if !GoodUrls(urls) then r == Err(BadMembership)
      else if rf < 1 then r == Err(BadFactor)
      else r.Ok? == ProfilesOf(urls, profiles).Ok? && (r.Err? ==> r.error == ProfilesOf(urls, profiles).error)
  {
    MembershipExactly(urls);
  }

  /** What takes the member out, by the table: the failure domain it gives, the member's own
      URL if it gives none; a member with an empty domain stands alone. */
  function GivenClass(profiles: map<string, RawProfile>, m: Member): Class {
    var domain := if m.url in profiles && profiles[m.url].failureDomain.Some? then profiles[m.url].failureDomain.value else m.url;
    if domain == "" then Alone(m) else Domain(domain)
  }

  function GivenClasses(profiles: map<string, RawProfile>, s: seq<Member>): set<Class> {
    set m | m in s :: GivenClass(profiles, m)
  }

  lemma {:induction false} ClassesGiven(profiles: map<string, RawProfile>, s: seq<Member>)
    ensures Classes(s, DomainIn(profiles)) == GivenClasses(profiles, s)
  {
    forall m: Member ensures ClassOf(m, DomainIn(profiles)) == GivenClass(profiles, m) {
    }
  }

  lemma {:induction false} AcceptedOwners(urls: seq<string>, rf: int, profiles: map<string, RawProfile>,
                                          score: (Member, Profile) -> int)
    requires OwnersFor(urls, rf, profiles, score).Ok?
    ensures var c := Stripped(urls);
      && c != [] && Distinct(c) && rf >= 1
      && OwnersFor(urls, rf, profiles, score).value == Owners(c, ScoreIn(profiles, score), DomainIn(profiles), rf)
  {
    PlacementRefuses(urls, rf, profiles, score);
    MembershipExactly(urls);
    CanonicalMembersSound(urls);
  }

  /** No choice of as many members reaches more of the given failure domains. */
  ghost predicate SpreadsBest(profiles: map<string, RawProfile>, c: seq<Member>, o: seq<Member>) {
    && |GivenClasses(profiles, o)| == Min(|o|, |GivenClasses(profiles, c)|)
    && (forall other: seq<Member> :: |other| <= |o| && (forall x :: x in other ==> x in c)
          ==> |GivenClasses(profiles, other)| <= |GivenClasses(profiles, o)|)
  }

  lemma {:induction false} TableSpreads(c: seq<Member>, rf: nat, profiles: map<string, RawProfile>, score: Member -> int)
    requires Distinct(c) && c != [] && rf >= 1
    ensures SpreadsBest(profiles, c, Owners(c, score, DomainIn(profiles), rf))
  {
    var o := Owners(c, score, DomainIn(profiles), rf);
    OwnersSpreadOverDomains(c, score, DomainIn(profiles), rf);
    ClassesGiven(profiles, o);
    ClassesGiven(profiles, c);
    forall other: seq<Member> | |other| <= |o| && forall x :: x in other ==> x in c
      ensures |GivenClasses(profiles, other)| <= |GivenClasses(profiles, o)|
    {
      ClassesGiven(profiles, other);
    }
  }

  /** The member's score under its own described profile is exceeded by nobody's. */
  ghost predicate ScoresBest(profiles: map<string, RawProfile>, c: seq<Member>, first: Member, score: (Member, Profile) -> int) {
    forall m, p, q :: m in c && Describes(profiles, first, p) && Describes(profiles, m, q) ==> score(first, p) >= score(m, q)
  }

  lemma {:induction false} TableLeads(c: seq<Member>, first: Member, profiles: map<string, RawProfile>, score: (Member, Profile) -> int)
    requires forall x :: x in c ==> ScoreIn(profiles, score)(first) >= ScoreIn(profiles, score)(x)
    ensures ScoresBest(profiles, c, first, score)
  {
    forall m, p, q | m in c && Describes(profiles, first, p) && Describes(profiles, m, q) ensures score(first, p) >= score(m, q) {
      assert p == ProfileFor(profiles, first) && q == ProfileFor(profiles, m);
      assert ScoreIn(profiles, score)(first) == score(first, p) && ScoreIn(profiles, score)(m) == score(m, q);
    }
  }

  /** An accepted placement, by the tables as supplied: min(replication factor, members)
      distinct members, led by one whose score under its own described profile nobody's
      exceeds, and no choice of as many members reaches more of the given failure domains. */
  lemma {:induction false} TablePlacement(urls: seq<string>, rf: int, profiles: map<string, RawProfile>,
                                          score: (Member, Profile) -> int)
    requires OwnersFor(urls, rf, profiles, score).Ok?
    ensures var c, o := Stripped(urls), OwnersFor(urls, rf, profiles, score).value;
      && |o| == Min(rf, |c|) > 0 && Distinct(o) && (forall x :: x in o ==> x in c)
      && ScoresBest(profiles, c, o[0], score) && SpreadsBest(profiles, c, o)
  {
    var c := Stripped(urls);
    AcceptedOwners(urls, rf, profiles, score);
    OwnersShape(c, ScoreIn(profiles, score), DomainIn(profiles), rf);
    TopRankedLeads(c, ScoreIn(profiles, score), DomainIn(profiles), rf);
    TableLeads(c, Owners(c, ScoreIn(profiles, score), DomainIn(profiles), rf)[0], profiles, score);
    TableSpreads(c, rf, profiles, ScoreIn(profiles, score));
  }
}
