/** Placement under change: removing a middle moves no shard it did not hold, and at most
    one new owner per shard steps in.  Also the order in which a client asks the owners. */
module Disruption {
  import opened Wrappers
  import opened StableSort
  import opened Placement

  function Except(m: Member): Member -> bool {
    (x: Member) => x != m
  }

  function Without(s: seq<Member>, m: Member): seq<Member> {
    Filter(s, Except(m))
  }

  lemma {:induction false} FilterAppended(a: seq<Member>, b: seq<Member>, p: Member -> bool)
    ensures Filter(a + b, p) == Filter(a, p) + Filter(b, p)
  {
    if a == [] {
      assert a + b == b;
    } else {
      assert (a + b)[0] == a[0] && (a + b)[1..] == a[1..] + b;
      FilterAppended(a[1..], b, p);
    }
  }

  lemma {:induction false} FilterAll(s: seq<Member>, p: Member -> bool)
    requires forall x :: x in s ==> p(x)
    ensures Filter(s, p) == s
  {
    if s != [] {
      FilterAll(s[1..], p);
      assert s == [s[0]] + s[1..];
      FilterCons(s[0], s[1..], p);
    }
  }

  lemma {:induction false} WithoutSplit(pre: seq<Member>, m: Member, post: seq<Member>)
    requires m !in pre && m !in post
    ensures Without(pre + [m] + post, m) == pre + post
  {
    FilterAppended(pre + [m], post, Except(m));
    FilterAppended(pre, [m], Except(m));
    FilterAll(pre, Except(m));
    FilterAll(post, Except(m));
    assert Filter([m], Except(m)) == [];
  }

  // ---------------------------------------------------------------- one member fewer

  /** A later list in which every survivor stands no later than before, and whatever stood
      before the removed member stands exactly where it did. */
  ghost predicate MovesUp(before: seq<Member>, after: seq<Member>, m: Member) {
    && |after| == |before| - 1
    && (forall i :: 0 <= i < |before| && before[i] != m ==>
          exists j :: 0 <= j <= i && j < |after| && after[j] == before[i])
    && (forall i :: 0 <= i < |before| && before[i] == m ==> before[..i] <= after)
  }

  lemma {:induction false} Prepend(x: Member, a: seq<Member>, p: seq<Member>, b: seq<Member>)
    ensures [x] + (a + p + b) == ([x] + a) + p + b
    ensures [x] + (a + b) == ([x] + a) + b
  {
  }

  /** Forgetting that domain d is open promotes d's next member, if there is one, from the
      rest to the leaders, and changes nothing else. */
  lemma {:induction false} Promote(t: seq<Member>, domain: Member -> string, seen: set<string>, d: string)
    returns (a: seq<Member>, b: seq<Member>, c: seq<Member>, p: seq<Member>, e: seq<Member>)
    requires d != "" && d !in seen
    ensures |p| <= 1
    ensures Leaders(t, domain, seen + {d}) == a + b && Leaders(t, domain, seen) == a + p + b
    ensures Others(t, domain, seen + {d}) == c + p + e && Others(t, domain, seen) == c + e
  {
    if t == [] {
      a, b, c, p, e := [], [], [], [], [];
    } else if domain(t[0]) == d {
      var next := seen + {d};
      assert Note(d, seen) == next && Note(d, next) == next;
      a, b, c, p, e := [], Leaders(t[1..], domain, next), [], [t[0]], Others(t[1..], domain, next);
    } else {
      OtherDomain(t[0], domain, seen, d);
      a, b, c, p, e := Promote(t[1..], domain, Note(domain(t[0]), seen), d);
      Prepend(t[0], a, p, b);
      Prepend(t[0], c, p, e);
      if Repeats(domain(t[0]), seen) {
        c := [t[0]] + c;
      } else {
        a := [t[0]] + a;
      }
    }
  }

  /** A member of another domain is treated alike whether d is open or not. */
  lemma {:induction false} OtherDomain(x: Member, domain: Member -> string, seen: set<string>, d: string)
    requires d != "" && domain(x) != d
    ensures Note(domain(x), seen + {d}) == Note(domain(x), seen) + {d}
    ensures Repeats(domain(x), seen + {d}) == Repeats(domain(x), seen)
  {
  }

  lemma {:induction false} Shift(x: seq<Member>, m: Member, a: seq<Member>, b: seq<Member>, c: seq<Member>, p: seq<Member>, e: seq<Member>)
    requires |p| <= 1 && Distinct(x + [m] + a + b + c + p + e)
    ensures MovesUp(x + [m] + a + b + c + p + e, x + a + p + b + c + e, m)
  {
    var before, after := x + [m] + a + b + c + p + e, x + a + p + b + c + e;
    var n := |x| + 1 + |a|;
    assert before[|x|] == m;
    forall i | 0 <= i < |before| && before[i] != m
      ensures exists j :: 0 <= j <= i && j < |after| && after[j] == before[i]
    {
      if i < |x| {
        assert after[i] == before[i];
      } else if i < n {
        assert after[i - 1] == before[i];
      } else if i < n + |b| + |c| {
        assert after[i - 1 + |p|] == before[i];
      } else if i < n + |b| + |c| + |p| {
        assert after[n - 1] == before[i];
      } else {
        assert after[i - 1] == before[i];
      }
    }
    forall i | 0 <= i < |before| && before[i] == m ensures before[..i] <= after {
      assert i == |x|;
    }
  }

  /** Leaders and the rest around one member of the ranking, and with it taken out. */
  lemma {:induction false} AroundMember(pre: seq<Member>, m: Member, post: seq<Member>, domain: Member -> string)
    ensures var here := After(pre, domain, {}); var next := Note(domain(m), here);
      var l, o := Leaders(pre, domain, {}), Others(pre, domain, {});
      && Leaders(pre + [m] + post, domain, {})
         == l + (if Repeats(domain(m), here) then [] else [m]) + Leaders(post, domain, next)
      && Others(pre + [m] + post, domain, {})
         == o + (if Repeats(domain(m), here) then [m] else []) + Others(post, domain, next)
      && Leaders(pre + post, domain, {}) == l + Leaders(post, domain, here)
      && Others(pre + post, domain, {}) == o + Others(post, domain, here)
  {
    Appended(pre, post, domain, {});
    Appended(pre, [m], domain, {});
    One(m, domain, After(pre, domain, {}));
    Appended(pre + [m], post, domain, {});
  }

  lemma {:induction false} Regroup(l: seq<Member>, m: seq<Member>, a: seq<Member>, b: seq<Member>,
                o: seq<Member>, c: seq<Member>, p: seq<Member>, e: seq<Member>)
    ensures (l + m + (a + b)) + (o + [] + (c + p + e)) == l + m + a + b + (o + c) + p + e
    ensures (l + (a + p + b)) + (o + (c + e)) == l + a + p + b + (o + c) + e
  {
    assert l + m + (a + b) == l + m + a + b;
    assert o + [] + (c + p + e) == (o + c) + p + e;
    var h := l + m + a + b;
    assert h + ((o + c) + p + e) == h + (o + c) + p + e;
    assert l + (a + p + b) == l + a + p + b;
    assert o + (c + e) == (o + c) + e;
    var g := l + a + p + b;
    assert g + ((o + c) + e) == g + (o + c) + e;
  }

  lemma {:induction false} WithoutRepeated(pre: seq<Member>, m: Member, post: seq<Member>, domain: Member -> string)
    requires Distinct(Diversified(pre + [m] + post, domain))
    requires Repeats(domain(m), After(pre, domain, {}))
    ensures MovesUp(Diversified(pre + [m] + post, domain), Diversified(pre + post, domain), m)
  {
    AroundMember(pre, m, post, domain);
    var here := After(pre, domain, {});
    var l, lp, o := Leaders(pre, domain, {}), Leaders(post, domain, here), Others(pre, domain, {});
    var e := Others(post, domain, here);
    assert Note(domain(m), here) == here;
    RegroupRepeated(l, lp, o, [m], e);
    ShiftOne(l + lp + o, m, e);
  }

  lemma {:induction false} RegroupRepeated(l: seq<Member>, lp: seq<Member>, o: seq<Member>, m: seq<Member>, e: seq<Member>)
    ensures (l + [] + lp) + (o + m + e) == (l + lp + o) + m + e
    ensures (l + lp) + (o + e) == (l + lp + o) + e
  {
    assert l + [] + lp == l + lp;
  }

  lemma {:induction false} ShiftOne(x: seq<Member>, m: Member, e: seq<Member>)
    requires Distinct(x + [m] + e)
    ensures MovesUp(x + [m] + e, x + e, m)
  {
    assert x + [m] + [] + [] + [] + [] + e == x + [m] + e;
    assert x + [] + [] + [] + [] + e == x + e;
    Shift(x, m, [], [], [], [], e);
  }

  lemma {:induction false} WithoutOpening(pre: seq<Member>, m: Member, post: seq<Member>, domain: Member -> string)
    requires Distinct(Diversified(pre + [m] + post, domain))
    requires !Repeats(domain(m), After(pre, domain, {}))
    ensures MovesUp(Diversified(pre + [m] + post, domain), Diversified(pre + post, domain), m)
  {
    AroundMember(pre, m, post, domain);
    var here := After(pre, domain, {});
    var l, o := Leaders(pre, domain, {}), Others(pre, domain, {});
    var a, b, c, p, e := Leaders(post, domain, here), [], Others(post, domain, here), [], [];
    if domain(m) != "" {
      a, b, c, p, e := Promote(post, domain, here, domain(m));
    } else {
      assert a == a + b == a + p + b && c == c + e == c + p + e;
    }
    Regroup(l, [m], a, b, o, c, p, e);
    Shift(l, m, a, b, o + c, p, e);
  }

  lemma {:induction false} SplitDistinct(s: seq<Member>, k: nat)
    requires Distinct(s) && k < |s|
    ensures s == s[..k] + [s[k]] + s[k + 1..] && s[k] !in s[..k] && s[k] !in s[k + 1..]
  {
  }

  lemma {:induction false} RankedWithout(members: seq<Member>, score: Member -> int, m: Member)
    returns (pre: seq<Member>, post: seq<Member>)
    requires Distinct(members) && m in members
    ensures Sort(members, score) == pre + [m] + post
    ensures Sort(Without(members, m), score) == pre + post
  {
    SortElements(members, score);
    SortDistinct(members, score);
    var ranked := Sort(members, score);
    var k :| 0 <= k < |ranked| && ranked[k] == m;
    pre, post := ranked[..k], ranked[k + 1..];
    SplitDistinct(ranked, k);
    WithoutSplit(pre, m, post);
    SortFilter(members, score, Except(m));
  }

  lemma {:induction false} OwnersWithout(members: seq<Member>, score: Member -> int, domain: Member -> string, m: Member)
    requires Distinct(members) && m in members
    ensures MovesUp(Diversified(Sort(members, score), domain),
                    Diversified(Sort(Without(members, m), score), domain), m)
  {
    var pre, post := RankedWithout(members, score, m);
    SortDistinct(members, score);
    DiversifiedElements(Sort(members, score), domain);
    if Repeats(domain(m), After(pre, domain, {})) {
      WithoutRepeated(pre, m, post, domain);
    } else {
      WithoutOpening(pre, m, post, domain);
    }
  }

  lemma {:induction false} WithoutOne(s: seq<Member>, m: Member)
    requires Distinct(s) && m in s
    ensures |Without(s, m)| == |s| - 1 && Distinct(Without(s, m))
  {
    var k :| 0 <= k < |s| && s[k] == m;
    SplitDistinct(s, k);
    WithoutSplit(s[..k], m, s[k + 1..]);
  }

  /** Every other owner stays an owner, at most one member becomes an owner, and if the
      removed member owned nothing the owners are the same in the same order. */
  ghost predicate Undisturbed(before: seq<Member>, after: seq<Member>, m: Member) {
    && (forall x :: x in before && x != m ==> x in after)
    && |Elements(after) - Elements(before)| <= 1
    && (m !in before ==> after == before)
  }

  /** Removing any one member disturbs no other owner. */
  lemma {:induction false} MinimalDisruption(members: seq<Member>, score: Member -> int, domain: Member -> string, rf: nat, m: Member)
    requires Distinct(members) && m in members && rf >= 1
    ensures Undisturbed(Owners(members, score, domain, rf), Owners(Without(members, m), score, domain, rf), m)
  {
    var before := Owners(members, score, domain, rf);
    var after := Owners(Without(members, m), score, domain, rf);
    WithoutOne(members, m);
    OwnersShape(members, score, domain, rf);
    OwnersShape(Without(members, m), score, domain, rf);
    OwnersTake(members, score, domain, rf, m);
    OneNewOwner(before, after, m);
  }

  lemma {:induction false} OwnersTake(members: seq<Member>, score: Member -> int, domain: Member -> string, rf: nat, m: Member)
    requires Distinct(members) && m in members && rf >= 1
    requires Distinct(Without(members, m)) && |Without(members, m)| == |members| - 1
    ensures var before := Owners(members, score, domain, rf);
      var after := Owners(Without(members, m), score, domain, rf);
      && (forall x :: x in before && x != m ==> x in after)
      && (m !in before ==> after == before)
  {
    OwnersWithout(members, score, domain, m);
    RankedShape(members, score, domain);
    RankedShape(Without(members, m), score, domain);
    SortElements(members, score);
    DiversifiedElements(Sort(members, score), domain);
    TakeMovesUp(Diversified(Sort(members, score), domain),
                Diversified(Sort(Without(members, m), score), domain), m,
                Min(rf, |members|), Min(rf, |members| - 1));
  }

  lemma {:induction false} OneNewOwner(before: seq<Member>, after: seq<Member>, m: Member)
    requires Distinct(before) && Distinct(after) && |after| <= |before|
    requires forall x :: x in before && x != m ==> x in after
    requires m !in before ==> after == before
    ensures |Elements(after) - Elements(before)| <= 1
  {
    DistinctCount(before);
    DistinctCount(after);
    var kept := Elements(before) - {m};
    assert |kept| >= |Elements(before)| - 1;
    assert kept <= Elements(after);
    SubsetCount(kept, Elements(after));
    assert |Elements(after) - kept| == |Elements(after)| - |kept|;
    SubsetCount(Elements(after) - Elements(before), Elements(after) - kept);
  }

  lemma {:induction false} TakeMovesUp(before: seq<Member>, after: seq<Member>, m: Member, k: nat, k': nat)
    requires MovesUp(before, after, m) && m in before
    requires k <= |before| && k' <= |after| && (k' == k || k' == k - 1 == |after|)
    ensures forall x :: x in before[..k] && x != m ==> x in after[..k']
    ensures m !in before[..k] ==> after[..k'] == before[..k]
  {
    forall x | x in before[..k] && x != m ensures x in after[..k'] {
      var i :| 0 <= i < k && before[i] == x;
      var j :| 0 <= j <= i && j < |after| && after[j] == x;
    }
    if m !in before[..k] {
      UpToMember(before, after, m, k);
    }
  }

  lemma {:induction false} UpToMember(before: seq<Member>, after: seq<Member>, m: Member, k: nat)
    requires MovesUp(before, after, m) && m in before && k <= |before| && m !in before[..k]
    ensures k <= |after| && after[..k] == before[..k]
  {
    var at :| 0 <= at < |before| && before[at] == m;
    assert at >= k by {
      assert forall i :: 0 <= i < k ==> before[i] in before[..k];
    }
    assert before[..at] <= after;
  }

  lemma {:induction false} PickCongruence(r: seq<Member>, d: Member -> string, d': Member -> string, seen: set<string>)
    requires forall x :: x in r ==> d(x) == d'(x)
    ensures Leaders(r, d, seen) == Leaders(r, d', seen) && Others(r, d, seen) == Others(r, d', seen)
  {
    if r != [] {
      PickCongruence(r[1..], d, d', Note(d(r[0]), seen));
    }
  }

  /** The same, for the placement call itself: the member leaves together with its profile. */
  lemma {:induction false} RemovingAMiddle(urls: seq<string>, k: nat, rf: int, profiles: map<string, RawProfile>,
                        score: (Member, Profile) -> int)
    requires k < |urls| && |urls| > 1 && OwnersFor(urls, rf, profiles, score).Ok?
    ensures var m := Member(StripSlashes(urls[k]));
      var after := OwnersFor(urls[..k] + urls[k + 1..], rf, profiles - {m.url}, score);
      after.Ok? && Undisturbed(OwnersFor(urls, rf, profiles, score).value, after.value, m)
  {
    var c := CanonicalMembers(urls).value;
    var m := c[k];
    CanonicalMembersSound(urls);
    StillCanonical(urls, k);
    ProfilesWithout(c, profiles, m);
    OwnersIgnoreProfile(c, profiles, score, m, rf);
    MinimalDisruption(c, ScoreIn(profiles, score), DomainIn(profiles), rf, m);
  }

  lemma {:induction false} ProfilesWithout(members: seq<Member>, profiles: map<string, RawProfile>, m: Member)
    requires ProfilesWithin(members, profiles).Ok?
    ensures ProfilesWithin(Without(members, m), profiles - {m.url}).Ok?
  {
    FilterElements(members, Except(m));
    assert forall x :: x in Without(members, m) ==> ProfileFor(profiles, x) == ProfileFor(profiles - {m.url}, x);
  }

  lemma {:induction false} OwnersIgnoreProfile(members: seq<Member>, profiles: map<string, RawProfile>,
                            score: (Member, Profile) -> int, m: Member, rf: nat)
    ensures var fewer, left := Without(members, m), profiles - {m.url};
      Owners(fewer, ScoreIn(left, score), DomainIn(left), rf)
      == Owners(fewer, ScoreIn(profiles, score), DomainIn(profiles), rf)
  {
    var fewer, left := Without(members, m), profiles - {m.url};
    FilterElements(members, Except(m));
    assert forall x :: x in fewer ==> ProfileFor(profiles, x) == ProfileFor(left, x);
    SortCongruence(fewer, ScoreIn(profiles, score), ScoreIn(left, score));
    var ranked := Sort(fewer, ScoreIn(profiles, score));
    SortElements(fewer, ScoreIn(profiles, score));
    PickCongruence(ranked, DomainIn(profiles), DomainIn(left), {});
  }

  lemma {:induction false} StrippedWithout(urls: seq<string>, k: nat)
    requires k < |urls|
    ensures Stripped(urls[..k] + urls[k + 1..]) == Stripped(urls)[..k] + Stripped(urls)[k + 1..]
  {
  }

  lemma {:induction false} StillCanonical(urls: seq<string>, k: nat)
    requires CanonicalMembers(urls).Ok? && k < |urls| && |urls| > 1
    ensures var c := CanonicalMembers(urls).value;
      CanonicalMembers(urls[..k] + urls[k + 1..]) == Ok(Without(c, c[k]))
  {
    CanonicalMembersSound(urls);
    var c := CanonicalMembers(urls).value;
    SplitDistinct(c, k);
    WithoutSplit(c[..k], c[k], c[k + 1..]);
    WithoutOne(c, c[k]);
    StrippedWithout(urls, k);
    assert forall x :: x in c[..k] + c[k + 1..] ==> x in c;
    CanonicalFrom(urls[..k] + urls[k + 1..], Without(c, c[k]));
  }

  // ---------------------------------------------------------------- asking the owners

  function LocalTo(locality: Member -> Option<string>, client: string): Member -> bool {
    (m: Member) => locality(m) == Some(client)
  }

  function RemoteTo(locality: Member -> Option<string>, client: string): Member -> bool {
    (m: Member) => locality(m) != Some(client)
  }

  function LocalityKey(locality: Member -> Option<string>, client: string): Member -> int {
    (m: Member) => if locality(m) == Some(client) then 1 else 0
  }

  /** The order in which a client at the given locality asks the owners. */
  function OrderForClient(owners: seq<Member>, locality: Member -> Option<string>, client: string): seq<Member> {
    if client == "" then owners else Sort(owners, LocalityKey(locality, client))
  }

  /** Local owners first, both groups in their original order, nobody lost or added. */
  lemma {:induction false} LocalOwnersFirst(owners: seq<Member>, locality: Member -> Option<string>, client: string)
    ensures OrderForClient(owners, locality, client)
         == if client == "" then owners
            else Filter(owners, LocalTo(locality, client)) + Filter(owners, RemoteTo(locality, client))
    ensures multiset(OrderForClient(owners, locality, client)) == multiset(owners)
  {
    if client != "" {
      var local, remote, key := LocalTo(locality, client), RemoteTo(locality, client), LocalityKey(locality, client);
      SortDescending(owners, key);
      TwoGroups(Sort(owners, key), locality, client);
      SortFilter(owners, key, local);
      SortFilter(owners, key, remote);
      FilterElements(owners, local);
      FilterElements(owners, remote);
      SortConstant(Filter(owners, local), key);
      SortConstant(Filter(owners, remote), key);
    }
  }

  lemma {:induction false} SortConstant(s: seq<Member>, key: Member -> int)
    requires forall x, y :: x in s && y in s ==> key(x) == key(y)
    ensures Sort(s, key) == s
  {
    if s != [] {
      SortConstant(s[1..], key);
      InsertFirst(s[0], s[1..], key);
    }
  }

  lemma {:induction false} TwoGroups(s: seq<Member>, locality: Member -> Option<string>, client: string)
    requires Descending(s, LocalityKey(locality, client))
    ensures s == Filter(s, LocalTo(locality, client)) + Filter(s, RemoteTo(locality, client))
  {
    if s == [] {
    } else if locality(s[0]) == Some(client) {
      var x, rest := s[0], s[1..];
      assert s == [x] + rest;
      TwoGroups(rest, locality, client);
      FilterCons(x, rest, LocalTo(locality, client));
      FilterCons(x, rest, RemoteTo(locality, client));
      assert [x] + (Filter(rest, LocalTo(locality, client)) + Filter(rest, RemoteTo(locality, client)))
          == ([x] + Filter(rest, LocalTo(locality, client))) + Filter(rest, RemoteTo(locality, client));
    } else {
      forall i | 0 <= i < |s| ensures locality(s[i]) != Some(client) {
        assert LocalityKey(locality, client)(s[0]) >= LocalityKey(locality, client)(s[i]);
      }
      FilterNone(s, LocalTo(locality, client));
      FilterAll(s, RemoteTo(locality, client));
    }
  }

  lemma {:induction false} FilterNone(s: seq<Member>, p: Member -> bool)
    requires forall x :: x in s ==> !p(x)
    ensures Filter(s, p) == []
  {
    if s != [] {
      FilterNone(s[1..], p);
    }
  }
}
