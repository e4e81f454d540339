/** The ordered Merkle root over shard digests, in which an odd level repeats its last node. */
module Merkle {
  import opened Wrappers

  // The three domain tags, each ending in a zero byte.
  const LEAF_TAG: Bytes := [108, 105, 116, 101, 99, 97, 115, 116, 45, 108, 101, 97, 102, 0]
  const NODE_TAG: Bytes := [108, 105, 116, 101, 99, 97, 115, 116, 45, 110, 111, 100, 101, 0]
  const EMPTY_TAG: Bytes := [108, 105, 116, 101, 99, 97, 115, 116, 45, 101, 109, 112, 116, 121, 0]

  function Leaves(hash: Bytes -> Digest, digests: seq<Digest>): (r: seq<Digest>)
    ensures |r| == |digests| && forall i :: 0 <= i < |r| ==> r[i] == hash(LEAF_TAG + digests[i])
  {
    seq(|digests|, i requires 0 <= i < |digests| => hash(LEAF_TAG + digests[i]))
  }

  function Padded(level: seq<Digest>): (r: seq<Digest>)
    ensures |r| % 2 == 0 && level <= r && |r| <= |level| + 1
  {
    if |level| % 2 == 1 then level + [level[|level| - 1]] else level
  }

  /** What is hashed to make the nodes above a level. */
  function Pairs(level: seq<Digest>): (r: seq<Bytes>)
    ensures |r| == (|level| + 1) / 2
    ensures forall i :: 0 <= i < |r| ==> r[i] == NODE_TAG + Padded(level)[2 * i] + Padded(level)[2 * i + 1]
  {
    var p := Padded(level);
    seq(|p| / 2, i requires 0 <= i < |p| / 2 => NODE_TAG + p[2 * i] + p[2 * i + 1])
  }

  function Above(hash: Bytes -> Digest, level: seq<Digest>): (r: seq<Digest>)
    ensures |r| == (|level| + 1) / 2
    ensures forall i :: 0 <= i < |r| ==> r[i] == hash(Pairs(level)[i])
  {
    seq(|Pairs(level)|, i requires 0 <= i < |Pairs(level)| => hash(Pairs(level)[i]))
  }

  function Climb(hash: Bytes -> Digest, level: seq<Digest>): Digest
    requires level != []
    decreases |level|
  {
    if |level| == 1 then level[0] else Climb(hash, Above(hash, level))
  }

  function Root(hash: Bytes -> Digest, digests: seq<Digest>): Digest {
    if digests == [] then hash(EMPTY_TAG) else Climb(hash, Leaves(hash, digests))
  }

  method MerkleRoot(hash: Bytes -> Digest, digests: seq<Digest>) returns (root: Digest)
    ensures root == Root(hash, digests)
  {
    var level := Leaves(hash, digests);
    if level == [] {
      return hash(EMPTY_TAG);
    }
    while |level| > 1
      invariant level != []
      invariant Climb(hash, level) == Root(hash, digests)
      decreases |level|
    {
      ghost var below := level;
      if |level| % 2 != 0 {
        level := level + [level[|level| - 1]];
      }
      level := seq(|level| / 2, i requires 0 <= i < |level| / 2 =>
        hash(NODE_TAG + level[2 * i] + level[2 * i + 1]));
      assert level == Above(hash, below);
    }
    return level[0];
  }

  // ---------------------------------------------------------------- the tree, from the top

  /** The number of nodes on a level of the tree over n leaves, the leaves being level zero. */
  function LevelSize(n: nat, level: nat): (r: nat)
    ensures n >= 1 ==> r >= 1
  {
    if level == 0 then n else (LevelSize(n, level - 1) + 1) / 2
  }

  /** The level of the root. */
  function Height(n: nat): nat {
    if n <= 1 then 0 else 1 + Height((n + 1) / 2)
  }

  /** A node of the tree: a tagged leaf, or the tagged pair of the two nodes below it, of which
      the right one is the left one again where the level below ends. */
  function Node(hash: Bytes -> Digest, digests: seq<Digest>, level: nat, i: nat): Digest
    requires i < LevelSize(|digests|, level)
    decreases level
  {
    if level == 0 then hash(LEAF_TAG + digests[i])
    else
      var right := if 2 * i + 1 < LevelSize(|digests|, level - 1) then 2 * i + 1 else 2 * i;
      hash(NODE_TAG + Node(hash, digests, level - 1, 2 * i) + Node(hash, digests, level - 1, right))
  }

  lemma {:induction false} ClimbIsNode(hash: Bytes -> Digest, digests: seq<Digest>, k: nat, level: seq<Digest>, top: nat)
    requires |level| == LevelSize(|digests|, k) >= 1 && digests != [] && top == k + Height(|level|)
    requires forall i :: 0 <= i < |level| ==> level[i] == Node(hash, digests, k, i)
    ensures Climb(hash, level) == Node(hash, digests, top, 0)
    decreases |level|
  {
    if |level| > 1 {
      var above := NextLevel(hash, digests, k, level);
      ClimbIsNode(hash, digests, k + 1, above, top);
    }
  }

  lemma {:induction false} NextLevel(hash: Bytes -> Digest, digests: seq<Digest>, k: nat, level: seq<Digest>) returns (above: seq<Digest>)
    requires |level| == LevelSize(|digests|, k) > 1
    requires forall i :: 0 <= i < |level| ==> level[i] == Node(hash, digests, k, i)
    ensures above == Above(hash, level) && |above| == LevelSize(|digests|, k + 1) == (|level| + 1) / 2
    ensures forall i :: 0 <= i < |above| ==> above[i] == Node(hash, digests, k + 1, i)
  {
    above := Above(hash, level);
    forall i | 0 <= i < |above| ensures above[i] == Node(hash, digests, k + 1, i) {
      AboveIsNode(hash, digests, k, level, i);
    }
  }

  lemma {:induction false} AboveIsNode(hash: Bytes -> Digest, digests: seq<Digest>, k: nat, level: seq<Digest>, i: nat)
    requires |level| == LevelSize(|digests|, k) && i < |Above(hash, level)|
    requires forall j :: 0 <= j < |level| ==> level[j] == Node(hash, digests, k, j)
    ensures i < LevelSize(|digests|, k + 1) && Above(hash, level)[i] == Node(hash, digests, k + 1, i)
  {
    assert Above(hash, level)[i] == hash(Pairs(level)[i]);
    PaddedAt(level, 2 * i);
    PaddedAt(level, 2 * i + 1);
  }

  lemma {:induction false} PaddedAt(level: seq<Digest>, i: nat)
    requires i < |Padded(level)|
    ensures i > 0 || level != []
    ensures Padded(level)[i] == if i < |level| then level[i] else level[i - 1]
  {
  }

  /** The root is the top node of the tree; that of no digests is the tagged empty string. */
  lemma {:induction false} RootIsTopNode(hash: Bytes -> Digest, digests: seq<Digest>)
    ensures LevelSize(|digests|, Height(|digests|)) == if digests == [] then 0 else 1
    ensures Root(hash, digests) == if digests == [] then hash(EMPTY_TAG) else Node(hash, digests, Height(|digests|), 0)
  {
    HeightReached(|digests|, 0);
    if digests != [] {
      ClimbIsNode(hash, digests, 0, Leaves(hash, digests), Height(|digests|));
    }
  }

  lemma {:induction false} HeightReached(n: nat, k: nat)
    ensures LevelSize(n, k + Height(LevelSize(n, k))) == if n == 0 then 0 else 1
    decreases LevelSize(n, k)
  {
    if n == 0 {
      EmptyLevel(k);
    } else if LevelSize(n, k) > 1 {
      HeightReached(n, k + 1);
    }
  }

  lemma {:induction false} EmptyLevel(k: nat)
    ensures LevelSize(0, k) == 0
  {
    if k > 0 {
      EmptyLevel(k - 1);
    }
  }

  // ---------------------------------------------------------------- binding

  /** Everything hashed on the way up from a level. */
  function HashedAbove(hash: Bytes -> Digest, level: seq<Digest>): set<Bytes>
    decreases |level|
  {
    if |level| <= 1 then {} else Elements(Pairs(level)) + HashedAbove(hash, Above(hash, level))
  }

  /** Everything hashed to compute a root. */
  function Hashed(hash: Bytes -> Digest, digests: seq<Digest>): set<Bytes> {
    (set d | d in digests :: LEAF_TAG + d) + HashedAbove(hash, Leaves(hash, digests))
  }

  ghost predicate FixedLength(hash: Bytes -> Digest) {
    forall x :: |hash(x)| == 32
  }

  lemma {:induction false} ClimbBinds(hash: Bytes -> Digest, a: seq<Digest>, b: seq<Digest>)
    requires |a| == |b| > 0 && Climb(hash, a) == Climb(hash, b) && FixedLength(hash)
    requires forall i :: 0 <= i < |a| ==> |a[i]| == 32 && |b[i]| == 32
    requires CollisionFree(hash, HashedAbove(hash, a) + HashedAbove(hash, b))
    ensures a == b
    decreases |a|
  {
    if |a| > 1 {
      ClimbBinds(hash, Above(hash, a), Above(hash, b));
      forall i | 0 <= i < |Pairs(a)| ensures Pairs(a)[i] == Pairs(b)[i] {
        assert Above(hash, a)[i] == Above(hash, b)[i];
        assert Pairs(a)[i] in HashedAbove(hash, a) && Pairs(b)[i] in HashedAbove(hash, b);
      }
      forall k | 0 <= k < |a| ensures a[k] == b[k] {
        PairsBind(a, b, k);
      }
    }
  }

  lemma {:induction false} PairsBind(a: seq<Digest>, b: seq<Digest>, k: nat)
    requires |a| == |b| && k < |a| && Pairs(a)[k / 2] == Pairs(b)[k / 2]
    requires forall i :: 0 <= i < |a| ==> |a[i]| == 32 && |b[i]| == 32
    ensures a[k] == b[k]
  {
    var i := k / 2;
    var pa, pb := Padded(a), Padded(b);
    assert |pa| == |pb| && forall j :: 0 <= j < |pa| ==> |pa[j]| == 32 && |pb[j]| == 32;
    Halves(pa[2 * i], pa[2 * i + 1], pb[2 * i], pb[2 * i + 1]);
    assert pa[k] == a[k] && pb[k] == b[k];
  }

  lemma {:induction false} Halves(l: Digest, r: Digest, l': Digest, r': Digest)
    requires |l| == |l'| == 32 && |r| == |r'| == 32 && NODE_TAG + l + r == NODE_TAG + l' + r'
    ensures l == l' && r == r'
  {
    var n := |NODE_TAG|;
    var s, s' := NODE_TAG + l + r, NODE_TAG + l' + r';
    assert s[n..n + 32] == l && s'[n..n + 32] == l';
    assert s[n + 32..] == r && s'[n + 32..] == r';
  }

  /** For lists of one length, the root determines every digest: two lists with equal roots
      are equal unless two of the inputs hashed for them collide. */
  lemma {:induction false} RootBinds(hash: Bytes -> Digest, a: seq<Digest>, b: seq<Digest>)
    requires |a| == |b| && Root(hash, a) == Root(hash, b) && FixedLength(hash)
    requires CollisionFree(hash, Hashed(hash, a) + Hashed(hash, b))
    ensures a == b
  {
    if a != [] {
      ClimbBinds(hash, Leaves(hash, a), Leaves(hash, b));
      forall i | 0 <= i < |a| ensures a[i] == b[i] {
        assert Leaves(hash, a)[i] == Leaves(hash, b)[i];
        assert LEAF_TAG + a[i] in Hashed(hash, a) && LEAF_TAG + b[i] in Hashed(hash, b);
        var x, y := LEAF_TAG + a[i], LEAF_TAG + b[i];
        assert x[|LEAF_TAG|..] == a[i] && y[|LEAF_TAG|..] == b[i];
      }
    }
  }

  /** The length has to be fixed elsewhere: with any hash, repeating the last digest of an odd
      list of more than one leaves the root as it was. */
  lemma {:induction false} OddListExtends(hash: Bytes -> Digest, a: seq<Digest>)
    requires |a| % 2 == 1 && |a| > 1
    ensures Root(hash, a + [a[|a| - 1]]) == Root(hash, a)
  {
    var b := a + [a[|a| - 1]];
    var la, lb := Leaves(hash, a), Leaves(hash, b);
    assert Padded(la) == lb == Padded(lb);
    assert Pairs(la) == Pairs(lb);
    assert Above(hash, la) == Above(hash, lb);
  }
}
