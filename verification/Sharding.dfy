/** Cutting a buffer of a given size into shards: counts, lengths, spans, and how a middle
    that only knows the count chooses its own shard size. */
module Sharding {
  import opened Wrappers

  function CeilDiv(n: nat, d: nat): nat
    requires d > 0
  {
    (n + d - 1) / d
  }

  function ShardCount(total: nat, size: nat): nat
    requires size > 0
  {
    if total == 0 then 0 else CeilDiv(total, size)
  }

  function ShardLength(total: int, size: int, index: int): int {
    Min(size, total - index * size)
  }

  /** The end of the first k shards. */
  function SpanEnd(total: nat, size: nat, k: nat): nat {
    Min(k * size, total)
  }

  function Shard(data: Bytes, size: nat, index: nat): Bytes
    requires size > 0 && index < ShardCount(|data|, size)
  {
    ShardSpan(|data|, size, index);
    data[index * size..SpanEnd(|data|, size, index + 1)]
  }

  function Shards(data: Bytes, size: nat): (r: seq<Bytes>)
    requires size > 0
    ensures |r| == ShardCount(|data|, size)
    ensures forall i :: 0 <= i < |r| ==> r[i] == Shard(data, size, i)
  {
    seq(ShardCount(|data|, size), i requires 0 <= i < ShardCount(|data|, size) => Shard(data, size, i))
  }

  function Join(parts: seq<Bytes>): Bytes {
    if parts == [] then [] else Join(parts[..|parts| - 1]) + parts[|parts| - 1]
  }

  lemma {:induction false} TimesMonotone(a: nat, b: nat, d: nat)
    ensures a <= b ==> a * d <= b * d
    ensures a < b ==> a * d + d <= b * d
  {
    if a < b {
      TimesMonotone(a, b - 1, d);
      assert b * d == (b - 1) * d + d;
    }
  }

  /** A quotient rounded up is the least count of pieces of that size that covers n. */
  lemma {:induction false} CeilDivLeast(n: nat, d: nat, q: nat)
    requires d > 0
    ensures CeilDiv(n, d) <= q <==> n <= q * d
  {
    var c := CeilDiv(n, d);
    Quotient(n + d - 1, d);
    TimesMonotone(c, q, d);
    TimesMonotone(q, c, d);
  }

  lemma {:induction false} Quotient(n: nat, d: nat)
    requires d > 0
    ensures (n / d) * d <= n < (n / d) * d + d
  {
  }

  /** Every shard is a non-empty span inside the buffer, of the length the manifest names. */
  lemma {:induction false} ShardSpan(total: nat, size: nat, index: nat)
    requires size > 0 && index < ShardCount(total, size)
    ensures index * size < SpanEnd(total, size, index + 1) <= total
    ensures 1 <= ShardLength(total, size, index) <= size
    ensures SpanEnd(total, size, index + 1) - index * size == ShardLength(total, size, index)
  {
    CeilDivLeast(total, size, index);
    assert (index + 1) * size == index * size + size;
  }

  lemma {:induction false} JoinPrefix(data: Bytes, size: nat, k: nat)
    requires size > 0 && k <= ShardCount(|data|, size)
    ensures Join(Shards(data, size)[..k]) == data[..SpanEnd(|data|, size, k)]
  {
    if k > 0 {
      var s := Shards(data, size);
      JoinPrefix(data, size, k - 1);
      ShardSpan(|data|, size, k - 1);
      assert s[..k][..k - 1] == s[..k - 1];
      assert SpanEnd(|data|, size, k - 1) == (k - 1) * size;
    }
  }

  /** The shards put back together are the buffer. */
  lemma {:induction false} JoinShards(data: Bytes, size: nat)
    requires size > 0
    ensures Join(Shards(data, size)) == data
  {
    var n := ShardCount(|data|, size);
    JoinPrefix(data, size, n);
    CeilDivLeast(|data|, size, n);
    assert Shards(data, size)[..n] == Shards(data, size);
  }

  // ---------------------------------------------------------------- re-sharding

  /** The shard size a middle picks when it knows the buffer and the published count only. */
  function InferredSize(total: nat, count: nat): (r: nat)
    ensures r >= 1
  {
    if count == 0 then 1 else Max(1, CeilDiv(total, count))
  }

  /** An honest count is reproduced, with shards no larger than the publisher's. */
  lemma {:induction false} InferredSizeReproduces(total: nat, size: nat)
    requires size > 0
    ensures var s := InferredSize(total, ShardCount(total, size));
      ShardCount(total, s) == ShardCount(total, size) && (total > 0 ==> s <= size)
  {
    if total > 0 {
      var k := ShardCount(total, size);
      var s := InferredSize(total, k);
      CeilDivLeast(total, size, k);
      CeilDivLeast(total, size, 0);
      CeilDivLeast(total, k, s);
      CeilDivLeast(total, k, size);
      CeilDivLeast(total, s, k);
      var fewer := CeilDiv(total, s);
      CeilDivLeast(total, s, fewer);
      CeilDivLeast(total, size, fewer);
      assert fewer * s <= fewer * size;
      assert k * s == s * k;
    }
  }

  /** The count check after caching rejects exactly the counts no shard size could produce. */
  lemma {:induction false} CountCheckExact(total: nat, count: nat)
    ensures ShardCount(total, InferredSize(total, count)) == count
       <==> exists size: nat :: size > 0 && ShardCount(total, size) == count
  {
    if size: nat :| size > 0 && ShardCount(total, size) == count {
      InferredSizeReproduces(total, size);
    }
  }
}
