/** The names of published versions: a prefix and a decimal number. */
module VersionNames {
  import opened Wrappers

  const PREFIX := 'v'

  function Digit(d: nat): char
    requires d < 10
  {
    '0' + d as char
  }

  function Decimal(n: nat): (s: string)
    ensures s != []
  {
    if n < 10 then [Digit(n)] else Decimal(n / 10) + [Digit(n % 10)]
  }

  /** The number some digits denote; leading zeros are read like any other digit. */
  function Read(s: string): Option<nat>
    decreases |s|
  {
    if s == [] then None
    else
      var n := |s| - 1;
      if !('0' <= s[n] <= '9') then None
      else
        var last := (s[n] - '0') as nat;
        if n == 0 then Some(last)
        else if Read(s[..n]).None? then None
        else Some(10 * Read(s[..n]).value + last)
  }

  function Name(n: nat): string {
    [PREFIX] + Decimal(n)
  }

  /** The number of a version name; other names have none. */
  function Number(name: string): Option<nat> {
    if name == [] || name[0] != PREFIX then None else Read(name[1..])
  }

  lemma {:induction false} ReadDecimal(n: nat)
    ensures Read(Decimal(n)) == Some(n)
  {
    if n >= 10 {
      ReadDecimal(n / 10);
      assert Decimal(n)[..|Decimal(n)| - 1] == Decimal(n / 10);
    }
  }

  /** A version's name gives back its number, so different versions have different names. */
  lemma {:induction false} NameRoundTrip(n: nat)
    ensures Number(Name(n)) == Some(n)
  {
    ReadDecimal(n);
    assert Name(n)[1..] == Decimal(n);
  }

  function Zeros(k: nat): (s: string)
    ensures |s| == k && forall i :: 0 <= i < k ==> s[i] == '0'
  {
    seq(k, i => '0')
  }

  /** A name has a number exactly if it is the prefix and the number in decimal, with any leading
      zeros; nothing else is a version. */
  lemma {:induction false} NumberExactly(name: string, n: nat)
    ensures Number(name) == Some(n) <==> exists k: nat :: name == [PREFIX] + (Zeros(k) + Decimal(n))
  {
    if Number(name) == Some(n) {
      var k := DigitsRead(name[1..], n);
      assert name == [PREFIX] + (Zeros(k) + Decimal(n));
    }
    if k: nat :| name == [PREFIX] + (Zeros(k) + Decimal(n)) {
      ZerosRead(k, n);
      assert name[1..] == Zeros(k) + Decimal(n);
    }
  }

  /** Reading one more digit. */
  lemma {:induction false} ReadSnoc(s: string, d: nat)
    requires d < 10
    ensures Read(s + [Digit(d)])
         == if s == [] then Some(d) else if Read(s).None? then None else Some(10 * Read(s).value + d)
  {
    assert (s + [Digit(d)])[..|s|] == s;
  }

  lemma {:induction false} ZerosSnoc(k: nat)
    ensures Zeros(k + 1) == Zeros(k) + [Digit(0)]
  {
  }

  lemma {:induction false} AllZeros(k: nat)
    requires k > 0
    ensures Read(Zeros(k)) == Some(0)
  {
    ZerosSnoc(k - 1);
    ReadSnoc(Zeros(k - 1), 0);
    if k > 1 {
      AllZeros(k - 1);
    }
  }

  lemma {:induction false} ZerosRead(k: nat, n: nat)
    ensures Read(Zeros(k) + Decimal(n)) == Some(n)
  {
    if n >= 10 {
      var before := Zeros(k) + Decimal(n / 10);
      ZerosRead(k, n / 10);
      ReadSnoc(before, n % 10);
      LastDigit(k, n, before);
    } else {
      ReadSnoc(Zeros(k), n);
      if k > 0 {
        AllZeros(k);
      }
    }
  }

  lemma {:induction false} LastDigit(k: nat, n: nat, before: string)
    requires n >= 10 && before == Zeros(k) + Decimal(n / 10)
    ensures before != [] && before + [Digit(n % 10)] == Zeros(k) + Decimal(n)
  {
  }

  lemma {:induction false} DigitsRead(s: string, n: nat) returns (k: nat)
    requires Read(s) == Some(n)
    ensures s == Zeros(k) + Decimal(n)
    decreases |s|
  {
    var e := |s| - 1;
    var d := (s[e] - '0') as nat;
    var first := s[..e];
    assert s == first + [Digit(d)];
    ReadSnoc(first, d);
    if first == [] {
      k := 0;
    } else {
      k := DigitsRead(first, Read(first).value);
      k := OneMoreDigit(first, k, Read(first).value, d);
    }
  }

  lemma {:induction false} OneMoreDigit(first: string, k: nat, m: nat, d: nat) returns (zeros: nat)
    requires first == Zeros(k) + Decimal(m) && d < 10
    ensures first + [Digit(d)] == Zeros(zeros) + Decimal(10 * m + d)
  {
    if m == 0 {
      zeros := k + 1;
      ZerosSnoc(k);
      assert first == Zeros(k + 1);
    } else {
      zeros := k;
      assert Decimal(10 * m + d) == Decimal(m) + [Digit(d)];
    }
  }

  /** The largest number among the names, zero if none has one. */
  function Largest(names: seq<string>): nat {
    if names == [] then 0 else Max(Largest(names[..|names| - 1]), Rank(names[|names| - 1]))
  }

  /** The sort key of a name: its number, or zero. */
  function Rank(name: string): nat {
    if Number(name).None? then 0 else Number(name).value
  }

  lemma {:induction false} LargestBounds(names: seq<string>)
    ensures forall x :: x in names ==> Rank(x) <= Largest(names)
    ensures Largest(names) == 0 || exists x :: x in names && Rank(x) == Largest(names)
  {
    if names != [] {
      var n := |names| - 1;
      LargestBounds(names[..n]);
      assert names == names[..n] + [names[n]];
      assert names[n] in names;
    }
  }

  /** The name after the largest is new. */
  lemma {:induction false} NextIsFresh(names: seq<string>)
    ensures Name(Largest(names) + 1) !in names && Rank(Name(Largest(names) + 1)) == Largest(names) + 1
  {
    LargestBounds(names);
    NameRoundTrip(Largest(names) + 1);
  }
}
