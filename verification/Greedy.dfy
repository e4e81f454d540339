/** What the two-phase pick amounts to, member by member: each owner in turn is the best of those
    left, a new failure class counting more than any score. */
module Greedy {
  import opened Wrappers
  import opened StableSort
  import opened Placement

  // ---------------------------------------------------------------- the ranking

  /** x comes before y in the list. */
  ghost predicate Earlier(s: seq<Member>, x: Member, y: Member) {
    exists i, j :: 0 <= i < j < |s| && s[i] == x && s[j] == y
  }

  /** x ranks before y: by score, and among equals by the membership's order. */
  ghost predicate Outranks(members: seq<Member>, score: Member -> int, x: Member, y: Member) {
    score(x) > score(y) || (score(x) == score(y) && Earlier(members, x, y))
  }

  lemma {:induction false} EarlierCons(s: seq<Member>, x: Member, y: Member)
    requires s != [] && Earlier(s[1..], x, y)
    ensures Earlier(s, x, y)
  {
    var i, j :| 0 <= i < j < |s[1..]| && s[1..][i] == x && s[1..][j] == y;
    assert s[i + 1] == x && s[j + 1] == y;
  }

  lemma {:induction false} FirstIsEarlier(s: seq<Member>, y: Member)
    requires s != [] && y in s[1..]
    ensures Earlier(s, s[0], y)
  {
    var j :| 0 <= j < |s[1..]| && s[1..][j] == y;
    assert s[j + 1] == y;
  }

  ghost predicate Ranked(r: seq<Member>, members: seq<Member>, score: Member -> int) {
    forall i, j :: 0 <= i < j < |r| ==> Outranks(members, score, r[i], r[j])
  }

  /** Putting the first member of a list into the ranking of the others. */
  lemma {:induction false} InsertRanked(members: seq<Member>, r: seq<Member>, score: Member -> int)
    requires members != [] && Ranked(r, members, score) && (forall y :: y in r ==> y in members[1..])
    requires Descending(r, score)
    ensures Ranked(Insert(members[0], r, score), members, score)
  {
    var x := members[0];
    if r != [] && score(x) < score(r[0]) {
      assert r == [r[0]] + r[1..];
      InsertRanked(members, r[1..], score);
      var rest := Insert(x, r[1..], score);
      forall j | 0 <= j < |rest| ensures Outranks(members, score, r[0], rest[j]) {
        InsertMembers(x, r[1..], score, rest[j]);
      }
    } else {
      forall y | y in r ensures Outranks(members, score, x, y) {
        FirstIsEarlier(members, y);
      }
    }
  }

  lemma {:induction false} InsertMembers(x: Member, s: seq<Member>, score: Member -> int, y: Member)
    requires y in Insert(x, s, score)
    ensures y == x || y in s
  {
    assert y in multiset(Insert(x, s, score));
  }

  lemma {:induction false} SortRanked(members: seq<Member>, score: Member -> int)
    ensures Ranked(Sort(members, score), members, score)
  {
    if members != [] {
      var rest := members[1..];
      SortRanked(rest, score);
      SortElements(rest, score);
      SortDescending(rest, score);
      var r := Sort(rest, score);
      forall i, j | 0 <= i < j < |r| ensures Outranks(members, score, r[i], r[j]) {
        if score(r[i]) == score(r[j]) {
          EarlierCons(members, r[i], r[j]);
        }
      }
      InsertRanked(members, r, score);
    }
  }

  // ---------------------------------------------------------------- the pick

  /** The k-th leader in the ranking: the members before it hold the leaders before it. */
  lemma {:induction false} LeaderPosition(r: seq<Member>, domain: Member -> string, k: nat) returns (a: nat)
    requires k < |Leaders(r, domain, {})|
    ensures a < |r| && r[a] == Leaders(r, domain, {})[k] && Leaders(r[..a], domain, {}) == Leaders(r, domain, {})[..k]
    decreases |r|
  {
    var n := |r| - 1;
    SplitAt(r, n, domain, {});
    assert r[..n + 1] == r;
    if k < |Leaders(r[..n], domain, {})| {
      a := LeaderPosition(r[..n], domain, k);
      assert r[..n][..a] == r[..a];
    } else {
      a := n;
    }
  }

  lemma {:induction false} OtherPosition(r: seq<Member>, domain: Member -> string, k: nat) returns (a: nat)
    requires k < |Others(r, domain, {})|
    ensures a < |r| && r[a] == Others(r, domain, {})[k] && Others(r[..a], domain, {}) == Others(r, domain, {})[..k]
    decreases |r|
  {
    var n := |r| - 1;
    SplitAt(r, n, domain, {});
    assert r[..n + 1] == r;
    if k < |Others(r[..n], domain, {})| {
      a := OtherPosition(r[..n], domain, k);
      assert r[..n][..a] == r[..a];
    } else {
      a := n;
    }
  }

  /** The member belongs to no failure class of those picked. */
  predicate Fresh(picked: seq<Member>, domain: Member -> string, x: Member) {
    ClassOf(x, domain) !in Classes(picked, domain)
  }

  lemma {:induction false} PrefixDistinct(r: seq<Member>, a: nat)
    requires Distinct(r) && a < |r|
    ensures Distinct(r[..a]) && r[a] !in r[..a]
  {
  }

  lemma {:induction false} ClassesSnoc(s: seq<Member>, x: Member, domain: Member -> string)
    ensures Classes(s + [x], domain) == Classes(s, domain) + {ClassOf(x, domain)}
  {
  }

  /** Where every member has its own class, the next one opens a class. */
  lemma {:induction false} NextIsFresh(l: seq<Member>, domain: Member -> string, k: nat)
    requires k < |l| == |Classes(l, domain)|
    ensures Fresh(l[..k], domain, l[k])
  {
    PrefixClasses(l, domain, k);
    PrefixClasses(l, domain, k + 1);
    assert l[..k + 1] == l[..k] + [l[k]];
    ClassesSnoc(l[..k], l[k], domain);
  }

  /** The leaders of a list leave no class of it. */
  lemma {:induction false} LeadersTakeAll(r: seq<Member>, domain: Member -> string, more: seq<Member>)
    requires Distinct(r)
    ensures forall x :: x in r ==> !Fresh(Leaders(r, domain, {}) + more, domain, x)
  {
    var l := Leaders(r, domain, {});
    LeadersClasses(r, domain, {});
    assert Opened({}) == {};
    forall x | x in r ensures !Fresh(l + more, domain, x) {
      assert ClassOf(x, domain) in Classes(l, domain);
      var m :| m in l && ClassOf(m, domain) == ClassOf(x, domain);
      assert m in l + more;
    }
  }

  /** A leader opens a class, and whatever ranks before it does not. */
  lemma {:induction false} LeaderIsFresh(r: seq<Member>, domain: Member -> string, k: nat) returns (a: nat)
    requires Distinct(r) && k < |Leaders(r, domain, {})|
    ensures a < |r| && r[a] == Leaders(r, domain, {})[k]
    ensures Fresh(Leaders(r, domain, {})[..k], domain, r[a])
    ensures forall b :: 0 <= b < a ==> !Fresh(Leaders(r, domain, {})[..k], domain, r[b])
  {
    a := LeaderPosition(r, domain, k);
    LeadersClasses(r, domain, {});
    NextIsFresh(Leaders(r, domain, {}), domain, k);
    PrefixDistinct(r, a);
    LeadersTakeAll(r[..a], domain, []);
    assert Leaders(r[..a], domain, {}) + [] == Leaders(r, domain, {})[..k];
    forall b | 0 <= b < a ensures !Fresh(Leaders(r, domain, {})[..k], domain, r[b]) {
      assert r[b] in r[..a];
    }
  }

  /** Whatever ranks before one of the others is a leader or one of the others before it. */
  lemma {:induction false} BeforePicked(r: seq<Member>, domain: Member -> string, a: nat, b: nat)
    requires b < a <= |r|
    ensures r[b] in Leaders(r, domain, {}) + Others(r[..a], domain, {})
  {
    assert r[b] in r[..a];
    DiversifiedElements(r[..a], domain);
    if a < |r| {
      SplitAt(r, a, domain, {});
    } else {
      assert r[..a] == r;
    }
  }

  /** After the leaders no class is left, and whatever ranks before the next is picked. */
  lemma {:induction false} OtherIsNext(r: seq<Member>, domain: Member -> string, k: nat) returns (a: nat)
    requires Distinct(r) && k < |Others(r, domain, {})|
    ensures a < |r| && r[a] == Others(r, domain, {})[k]
    ensures var picked := Leaders(r, domain, {}) + Others(r, domain, {})[..k];
      && (forall x :: x in r ==> !Fresh(picked, domain, x))
      && (forall b :: 0 <= b < a ==> r[b] in picked)
  {
    a := OtherPosition(r, domain, k);
    LeadersTakeAll(r, domain, Others(r, domain, {})[..k]);
    forall b | 0 <= b < a ensures r[b] in Leaders(r, domain, {}) + Others(r, domain, {})[..k] {
      BeforePicked(r, domain, a, b);
    }
  }

  /** The k-th pick of a ranking against any member that is left. */
  lemma {:induction false} PickIsBest(r: seq<Member>, domain: Member -> string, k: nat, c: nat) returns (a: nat)
    requires Distinct(r) && k < |Diversified(r, domain)| && c < |r| && r[c] !in Diversified(r, domain)[..k + 1]
    ensures a < |r| && r[a] == Diversified(r, domain)[k]
    ensures var picked := Diversified(r, domain)[..k];
      && (Fresh(picked, domain, r[c]) ==> Fresh(picked, domain, r[a]))
      && (Fresh(picked, domain, r[c]) == Fresh(picked, domain, r[a]) ==> a < c)
  {
    var l, d := Leaders(r, domain, {}), Diversified(r, domain);
    assert d[..k + 1] == d[..k] + [d[k]];
    if k < |l| {
      a := LeaderIsFresh(r, domain, k);
      assert d[..k] == l[..k];
    } else {
      a := OtherIsNext(r, domain, k - |l|);
      assert d[..k] == l + Others(r, domain, {})[..k - |l|];
      assert r[c] in r && r[a] in r;
    }
  }

  /** The owners in order: each is the best of the members not picked before, where one of a
      failure class that is not represented yet comes before one that is, whatever their
      scores, then the higher score counts, then the membership's order. */
  lemma {:induction false} OwnersAreGreedy(members: seq<Member>, score: Member -> int, domain: Member -> string, rf: nat,
                                           k: nat, x: Member)
    requires Distinct(members) && k < |Owners(members, score, domain, rf)|
    requires x in members && x !in Owners(members, score, domain, rf)[..k + 1]
    ensures var o := Owners(members, score, domain, rf); var picked := o[..k];
      && o[k] in members && o[k] !in picked
      && (Fresh(picked, domain, x) ==> Fresh(picked, domain, o[k]))
      && (Fresh(picked, domain, x) == Fresh(picked, domain, o[k]) ==> Outranks(members, score, o[k], x))
  {
    var r, o := Sort(members, score), Owners(members, score, domain, rf);
    RankedShape(members, score, domain);
    SortElements(members, score);
    SortRanked(members, score);
    OwnersShape(members, score, domain, rf);
    PrefixDistinct(o, k);
    var c :| 0 <= c < |r| && r[c] == x;
    assert o[..k + 1] == Diversified(r, domain)[..k + 1] && o[..k] == Diversified(r, domain)[..k];
    var a := PickIsBest(r, domain, k, c);
  }

  /** The member's failure class, by the tables, is not among those of the picked. */
  predicate NewClass(profiles: map<string, RawProfile>, picked: seq<Member>, x: Member) {
    GivenClass(profiles, x) !in GivenClasses(profiles, picked)
  }

  /** x scores more than y, or as much and is named earlier, each under the profile the tables
      describe for it. */
  ghost predicate Prefers(profiles: map<string, RawProfile>, score: (Member, Profile) -> int, members: seq<Member>,
                          x: Member, y: Member) {
    forall p, q :: Describes(profiles, x, p) && Describes(profiles, y, q) ==>
      score(x, p) > score(y, q) || (score(x, p) == score(y, q) && Earlier(members, x, y))
  }

  lemma {:induction false} OutranksByTable(profiles: map<string, RawProfile>, score: (Member, Profile) -> int, members: seq<Member>,
                                           x: Member, y: Member)
    requires Outranks(members, ScoreIn(profiles, score), x, y)
    ensures Prefers(profiles, score, members, x, y)
  {
    forall p, q | Describes(profiles, x, p) && Describes(profiles, y, q)
      ensures score(x, p) > score(y, q) || (score(x, p) == score(y, q) && Earlier(members, x, y))
    {
      assert p == ProfileFor(profiles, x) && q == ProfileFor(profiles, y);
    }
  }

  lemma {:induction false} FreshByTable(profiles: map<string, RawProfile>, picked: seq<Member>, x: Member)
    ensures Fresh(picked, DomainIn(profiles), x) <==> NewClass(profiles, picked, x)
  {
    ClassesGiven(profiles, picked);
  }

  /** The whole placement call, by what it is given: its k-th owner is preferred to every member
      not picked up to there, first for a failure class of its own, then for its score, then
      for its place among the URLs. */
  lemma {:induction false} PlacementIsGreedy(urls: seq<string>, rf: int, profiles: map<string, RawProfile>,
                                             score: (Member, Profile) -> int, k: nat, x: Member)
    requires OwnersFor(urls, rf, profiles, score).Ok? && k < |OwnersFor(urls, rf, profiles, score).value|
    requires x in Stripped(urls) && x !in OwnersFor(urls, rf, profiles, score).value[..k + 1]
    ensures var o := OwnersFor(urls, rf, profiles, score).value; var picked := o[..k];
      && o[k] in Stripped(urls) && o[k] !in picked
      && (NewClass(profiles, picked, x) ==> NewClass(profiles, picked, o[k]))
      && (NewClass(profiles, picked, x) == NewClass(profiles, picked, o[k]) ==> Prefers(profiles, score, Stripped(urls), o[k], x))
  {
    AcceptedOwners(urls, rf, profiles, score);
    var c, o := Stripped(urls), OwnersFor(urls, rf, profiles, score).value;
    OwnersAreGreedy(c, ScoreIn(profiles, score), DomainIn(profiles), rf, k, x);
    FreshByTable(profiles, o[..k], x);
    FreshByTable(profiles, o[..k], o[k]);
    if NewClass(profiles, o[..k], x) == NewClass(profiles, o[..k], o[k]) {
      OutranksByTable(profiles, score, c, o[k], x);
    }
  }
}
