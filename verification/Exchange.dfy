/** The batched shard exchange: one control message in each direction, then the bulk bytes of
    every available shard in the order announced. */
module Exchange {
  import opened Wrappers
  import opened StableSort
  import opened StoreModel
  import CheckpointStore

  const MAX_BATCH_SHARDS := 64

  /** The keys of the control objects; any other key is OtherKey. */
  datatype Field = KeyIndex | KeySize | KeyChecksum | KeyVersion | KeyShards | KeyUnavailable | OtherKey(name: string)

  datatype Json =
    | JNull | JBool(b: bool) | JInt(i: int) | JFloat(r: real) | JText(s: string)
    | JList(items: seq<Json>) | JObject(fields: map<Field, Json>)

  /** What comes back on the control channel. */
  datatype ControlReply = Silence | Malformed | Refusal | Message(fields: map<Field, Json>)

  datatype ExchangeError = BadRequest | Refused | Protocol | Transport | Integrity

  // ---------------------------------------------------------------- digests as text

  const HEX_DIGITS := "0123456789abcdef"

  function Hex(d: Bytes): (r: string)
    ensures |r| == 2 * |d|
  {
    if d == [] then "" else Hex(d[..|d| - 1]) + [HEX_DIGITS[d[|d| - 1] / 16], HEX_DIGITS[d[|d| - 1] % 16]]
  }

  predicate IsHexDigest(s: string) {
    |s| == 64 && forall c :: c in s ==> c in HEX_DIGITS
  }

  /** The value of a lower-case hexadecimal digit. */
  function DigitValue(c: char): int {
    if '0' <= c <= '9' then c as int - '0' as int
    else if 'a' <= c <= 'f' then c as int - 'a' as int + 10
    else -1
  }

  /** Two lower-case digits a byte, the high one first. */
  lemma {:induction false} HexIsExact(d: Bytes, k: nat)
    requires k < |d|
    ensures d[k] == 16 * DigitValue(Hex(d)[2 * k]) + DigitValue(Hex(d)[2 * k + 1])
    ensures 0 <= DigitValue(Hex(d)[2 * k]) < 16 && 0 <= DigitValue(Hex(d)[2 * k + 1]) < 16
  {
    var n := |d| - 1;
    if k < n {
      HexIsExact(d[..n], k);
      assert Hex(d)[2 * k] == Hex(d[..n])[2 * k] && Hex(d)[2 * k + 1] == Hex(d[..n])[2 * k + 1];
    } else {
      HexDigit(d[n] / 16);
      HexDigit(d[n] % 16);
    }
  }

  lemma {:induction false} HexDigit(n: nat)
    requires n < 16
    ensures DigitValue(HEX_DIGITS[n]) == n
  {
  }

  lemma {:induction false} HexIsLowercase(d: Bytes)
    ensures forall c :: c in Hex(d) ==> c in HEX_DIGITS
  {
    if d != [] {
      HexIsLowercase(d[..|d| - 1]);
    }
  }

  // ---------------------------------------------------------------- reading the reply

  datatype Item = Item(index: nat, checksum: string)

  /** The integer a JSON value equals when used as a key or compared with one. */
  function Key(j: Json): Option<int> {
    match j
    case JInt(i) => Some(i)
    case JBool(b) => Some(if b then 1 else 0)
    case JFloat(r) => if r == r.Floor as real then Some(r.Floor) else None
    case _ => None
  }

  function ReadItem(j: Json, sizes: map<nat, nat>): Option<Item> {
    if !j.JObject? || j.fields.Keys != {KeyIndex, KeySize, KeyChecksum} then None
    else
      var key := Key(j.fields[KeyIndex]);
      if key.None? || key.value < 0 || key.value !in sizes
         || Key(j.fields[KeySize]) != Some(sizes[key.value])
         || !j.fields[KeyChecksum].JText? || !IsHexDigest(j.fields[KeyChecksum].s)
      then None
      else Some(Item(key.value, j.fields[KeyChecksum].s))
  }

  function Indices(items: seq<Item>): (r: seq<nat>)
    ensures |r| == |items| && forall k :: 0 <= k < |r| ==> r[k] == items[k].index
  {
    seq(|items|, k requires 0 <= k < |items| => items[k].index)
  }

  /** The announced shards, if every entry is well formed and none is announced twice. */
  function ReadItems(list: seq<Json>, sizes: map<nat, nat>): (r: Option<seq<Item>>)
    ensures r.Some? ==> |r.value| == |list|
  {
    if list == [] then Some([])
    else
      var before := ReadItems(list[..|list| - 1], sizes);
      var item := ReadItem(list[|list| - 1], sizes);
      if before.None? || item.None? || item.value.index in Indices(before.value) then None
      else Some(before.value + [item.value])
  }

  /** The unavailable indices, if every entry is a plain integer that was asked for. */
  function ReadUnavailable(list: seq<Json>, sizes: map<nat, nat>): Option<seq<nat>> {
    if exists j :: j in list && (!j.JInt? || j.i < 0 || j.i !in sizes) then None
    else Some(seq(|list|, k requires 0 <= k < |list| => if list[k].JInt? && list[k].i >= 0 then list[k].i else 0))
  }

  function ReadReply(version: string, sizes: map<nat, nat>, fields: map<Field, Json>): Option<(seq<Item>, seq<nat>)> {
    if fields.Keys != {KeyVersion, KeyShards, KeyUnavailable} || fields[KeyVersion] != JText(version)
       || !fields[KeyShards].JList? || !fields[KeyUnavailable].JList?
    then None
    else
      var items := ReadItems(fields[KeyShards].items, sizes);
      var missing := ReadUnavailable(fields[KeyUnavailable].items, sizes);
      if items.None? || missing.None? then None
      else
        var seen, unavailable := Elements(Indices(items.value)), Elements(missing.value);
        if |unavailable| != |missing.value| || seen + unavailable != sizes.Keys || seen * unavailable != {} then None
        else Some((items.value, missing.value))
  }

  // ---------------------------------------------------------------- receiving the bulk

  /** What the first k announced shards leave in their targets, and how many bulk messages
      they took; an empty shard takes none. */
  datatype Received = Broken(error: ExchangeError) | Received(contents: map<nat, Bytes>, used: nat)

  /** One announced shard: nothing is received for an empty one, otherwise the next message. */
  function TakeOne(hash: Bytes -> Digest, item: Item, size: nat, expected: Digest, bulk: seq<Bytes>, used: nat)
    : Result<(Bytes, nat), ExchangeError>
  {
    if size > 0 && (used >= |bulk| || |bulk[used]| != size) then Err(Transport)
    else
      var bytes := if size == 0 then [] else bulk[used];
      if Hex(hash(bytes)) != item.checksum || hash(bytes) != expected then Err(Integrity)
      else Ok((bytes, if size == 0 then used else used + 1))
  }

  function Receive(hash: Bytes -> Digest, items: seq<Item>, sizes: map<nat, nat>, expected: map<nat, Digest>,
                   bulk: seq<Bytes>): Received
    requires forall k :: 0 <= k < |items| ==> items[k].index in sizes && items[k].index in expected
  {
    if items == [] then Received(map[], 0)
    else
      var item := items[|items| - 1];
      match Receive(hash, items[..|items| - 1], sizes, expected, bulk)
      case Broken(e) => Broken(e)
      case Received(contents, used) =>
        match TakeOne(hash, item, sizes[item.index], expected[item.index], bulk, used)
        case Err(e) => Broken(e)
        case Ok(taken) => Received(contents[item.index := taken.0], taken.1)
  }

  function ValidRequest(requested: seq<nat>): bool {
    && requested != [] && |requested| <= MAX_BATCH_SHARDS && |Elements(requested)| == |requested|
    && forall i :: i in requested ==> i <= 0xFFFF_FFFF
  }

  datatype Outcome = Failure(error: ExchangeError) | Exchanged(completed: seq<nat>, unavailable: seq<nat>, contents: map<nat, Bytes>, used: nat)

  /** What the client makes of the control reply. */
  function Control(version: string, requested: seq<nat>, sizes: map<nat, nat>, reply: ControlReply)
    : Result<(seq<Item>, seq<nat>), ExchangeError>
  {
    if !ValidRequest(requested) then Err(BadRequest)
    else match reply
      case Silence => Err(Transport)
      case Malformed => Err(Protocol)
      case Refusal => Err(Refused)
      case Message(fields) =>
        var read := ReadReply(version, sizes, fields);
        if read.None? then Err(Protocol) else Ok(read.value)
  }

  predicate Within(items: seq<Item>, sizes: map<nat, nat>) {
    forall k :: 0 <= k < |items| ==> items[k].index in sizes
  }

  function Finish(hash: Bytes -> Digest, items: seq<Item>, unavailable: seq<nat>, sizes: map<nat, nat>,
                  expected: map<nat, Digest>, bulk: seq<Bytes>): Outcome
    requires sizes.Keys == expected.Keys && Within(items, sizes)
  {
    match Receive(hash, items, sizes, expected, bulk)
    case Broken(e) => Failure(e)
    case Received(contents, used) => Exchanged(Indices(items), unavailable, contents, used)
  }

  /** The client's side of the exchange as a function of what the peer sends. */
  function ClientOutcome(hash: Bytes -> Digest, version: string, requested: seq<nat>, sizes: map<nat, nat>,
                         expected: map<nat, Digest>, reply: ControlReply, bulk: seq<Bytes>): Outcome
    requires sizes.Keys == expected.Keys
  {
    var read := Control(version, requested, sizes, reply);
    if read.Err? then Failure(read.error)
    else
      ItemsInRequest(version, sizes, reply.fields);
      Finish(hash, read.value.0, read.value.1, sizes, expected, bulk)
  }

  lemma {:induction false} ReadItemsShape(list: seq<Json>, sizes: map<nat, nat>)
    requires ReadItems(list, sizes).Some?
    ensures forall k :: 0 <= k < |list| ==> ReadItem(list[k], sizes) == Some(ReadItems(list, sizes).value[k])
    ensures Distinct(Indices(ReadItems(list, sizes).value))
  {
    if list != [] {
      var n := |list| - 1;
      ReadItemsShape(list[..n], sizes);
      var before := ReadItems(list[..n], sizes).value;
      forall i | 0 <= i < n ensures Indices(ReadItems(list, sizes).value)[i] == Indices(before)[i] {}
    }
  }

  lemma {:induction false} ItemsInRequest(version: string, sizes: map<nat, nat>, fields: map<Field, Json>)
    requires ReadReply(version, sizes, fields).Some?
    ensures var (items, missing) := ReadReply(version, sizes, fields).value;
      && (forall k :: 0 <= k < |items| ==> items[k].index in sizes)
      && (forall k :: 0 <= k < |missing| ==> missing[k] in sizes)
      && Distinct(Indices(items)) && |Elements(missing)| == |missing|
      && Elements(Indices(items)) + Elements(missing) == sizes.Keys
      && Elements(Indices(items)) * Elements(missing) == {}
  {
    ReadItemsShape(fields[KeyShards].items, sizes);
    var list := fields[KeyUnavailable].items;
    assert forall k :: 0 <= k < |list| ==> list[k] in list;
  }

  // ---------------------------------------------------------------- the client

  function SizesOf(targets: map<nat, array<Byte>>): map<nat, nat> {
    map i | i in targets :: targets[i].Length
  }

  lemma {:induction false} ReadItemsStep(list: seq<Json>, sizes: map<nat, nat>, k: nat)
    requires k < |list| && ReadItems(list[..k], sizes).Some?
    ensures var before, item := ReadItems(list[..k], sizes).value, ReadItem(list[k], sizes);
      ReadItems(list[..k + 1], sizes)
      == if item.None? || item.value.index in Indices(before) then None else Some(before + [item.value])
  {
    assert list[..k + 1][..k] == list[..k];
  }

  lemma {:induction false} IndicesGrow(items: seq<Item>, item: Item)
    ensures Indices(items + [item]) == Indices(items) + [item.index]
    ensures Elements(Indices(items + [item])) == Elements(Indices(items)) + {item.index}
  {
  }

  method CheckItems(list: seq<Json>, sizes: map<nat, nat>) returns (r: Option<seq<Item>>)
    ensures r == ReadItems(list, sizes)
  {
    var available: seq<Item> := [];
    var seen: set<nat> := {};
    for k := 0 to |list|
      invariant ReadItems(list[..k], sizes) == Some(available)
      invariant seen == Elements(Indices(available))
    {
      ReadItemsStep(list, sizes, k);
      var item := ReadItem(list[k], sizes);
      if item.None? || item.value.index in seen {
        FirstFault(list, sizes, k + 1);
        return None;
      }
      IndicesGrow(available, item.value);
      seen := seen + {item.value.index};
      available := available + [item.value];
    }
    assert list[..|list|] == list;
    return Some(available);
  }

  lemma {:induction false} FirstFault(list: seq<Json>, sizes: map<nat, nat>, k: nat)
    requires k <= |list| && ReadItems(list[..k], sizes).None?
    ensures ReadItems(list, sizes).None?
    decreases |list|
  {
    if k == |list| {
      assert list[..k] == list;
    } else {
      assert list[..|list| - 1][..k] == list[..k];
      FirstFault(list[..|list| - 1], sizes, k);
    }
  }

  lemma {:induction false} ReceiveStep(hash: Bytes -> Digest, items: seq<Item>, sizes: map<nat, nat>,
                                       expected: map<nat, Digest>, bulk: seq<Bytes>, k: nat)
    requires forall k :: 0 <= k < |items| ==> items[k].index in sizes && items[k].index in expected
    requires k < |items| && Receive(hash, items[..k], sizes, expected, bulk).Received?
    ensures var so := Receive(hash, items[..k], sizes, expected, bulk); var index := items[k].index;
      Receive(hash, items[..k + 1], sizes, expected, bulk)
      == match TakeOne(hash, items[k], sizes[index], expected[index], bulk, so.used)
         case Err(e) => Broken(e)
         case Ok(taken) => Received(so.contents[index := taken.0], taken.1)
    ensures Indices(items[..k + 1]) == Indices(items[..k]) + [items[k].index]
  {
    assert items[..k + 1][..k] == items[..k];
  }

  /** Every buffer holds what was received for it, or else what it held before. */
  ghost predicate Placed(targets: map<nat, array<Byte>>, contents: map<nat, Bytes>, before: map<nat, Bytes>)
    requires before.Keys == targets.Keys
    reads set i | i in targets :: targets[i]
  {
    forall i :: i in targets ==> targets[i][..] == if i in contents then contents[i] else before[i]
  }

  /** The caller learns the outcome and finds in every buffer what the outcome says. */
  ghost predicate Delivered(o: Outcome, r: Result<(seq<nat>, seq<nat>), ExchangeError>,
                            targets: map<nat, array<Byte>>, before: map<nat, Bytes>)
    requires before.Keys == targets.Keys
    reads set i | i in targets :: targets[i]
  {
    match o
    case Failure(e) => r == Err(e)
    case Exchanged(completed, unavailable, contents, _) =>
      r == Ok((completed, unavailable)) && Placed(targets, contents, before)
  }

  /** Receives the announced shards into their buffers, stopping at the first fault. */
  method ReceiveAll(hash: Bytes -> Digest, items: seq<Item>, targets: map<nat, array<Byte>>,
                    expected: map<nat, Digest>, bulk: seq<Bytes>)
    returns (r: Result<seq<nat>, ExchangeError>)
    requires forall k :: 0 <= k < |items| ==> items[k].index in targets && items[k].index in expected
    requires forall i, j :: i in targets && j in targets && i != j ==> targets[i] != targets[j]
    modifies set i | i in targets :: targets[i]
    ensures match Receive(hash, items, SizesOf(targets), expected, bulk)
      case Broken(e) => r == Err(e)
      case Received(contents, _) =>
        && r == Ok(Indices(items))
        && Placed(targets, contents, old(map i | i in targets :: targets[i][..]))
  {
    var completed: seq<nat> := [];
    var used := 0;
    ghost var contents: map<nat, Bytes> := map[];
    ghost var before := map i | i in targets :: targets[i][..];
    for k := 0 to |items|
      invariant Receive(hash, items[..k], SizesOf(targets), expected, bulk) == Received(contents, used)
      invariant completed == Indices(items[..k])
      invariant Placed(targets, contents, before)
    {
      ReceiveStep(hash, items, SizesOf(targets), expected, bulk, k);
      var index := items[k].index;
      var taken := ReceiveOne(hash, items[k], targets[index], expected[index], bulk, used);
      if taken.Err? {
        BrokenStays(hash, items, SizesOf(targets), expected, bulk, k + 1);
        return Err(taken.error);
      }
      contents := contents[index := targets[index][..]];
      used := taken.value;
      completed := completed + [index];
    }
    assert items[..|items|] == items;
    return Ok(completed);
  }

  method ReceiveOne(hash: Bytes -> Digest, item: Item, target: array<Byte>, expected: Digest, bulk: seq<Bytes>, used: nat)
    returns (r: Result<nat, ExchangeError>)
    modifies target
    ensures match TakeOne(hash, item, target.Length, expected, bulk, used)
      case Err(e) => r == Err(e)
      case Ok(taken) => r == Ok(taken.1) && target[..] == taken.0
  {
    var after := used;
    if target.Length > 0 {
      if used >= |bulk| || |bulk[used]| != target.Length {
        return Err(Transport);
      }
      forall j | 0 <= j < target.Length {
        target[j] := bulk[used][j];
      }
      after := used + 1;
    }
    assert target[..] == if target.Length == 0 then [] else bulk[used];
    var digest := hash(target[..]);
    if Hex(digest) != item.checksum || digest != expected {
      return Err(Integrity);
    }
    return Ok(after);
  }

  lemma {:induction false} BrokenStays(hash: Bytes -> Digest, items: seq<Item>, sizes: map<nat, nat>,
                                       expected: map<nat, Digest>, bulk: seq<Bytes>, k: nat)
    requires forall k :: 0 <= k < |items| ==> items[k].index in sizes && items[k].index in expected
    requires k <= |items| && Receive(hash, items[..k], sizes, expected, bulk).Broken?
    ensures Receive(hash, items, sizes, expected, bulk) == Receive(hash, items[..k], sizes, expected, bulk)
    decreases |items|
  {
    if k == |items| {
      assert items[..k] == items;
    } else {
      assert items[..|items| - 1][..k] == items[..k];
      BrokenStays(hash, items[..|items| - 1], sizes, expected, bulk, k);
    }
  }

  method ExchangeShards(hash: Bytes -> Digest, version: string, requested: seq<nat>, targets: map<nat, array<Byte>>,
                        expected: map<nat, Digest>, reply: ControlReply, bulk: seq<Bytes>)
    returns (r: Result<(seq<nat>, seq<nat>), ExchangeError>)
    requires targets.Keys == expected.Keys == Elements(requested)
    requires forall i, j :: i in targets && j in targets && i != j ==> targets[i] != targets[j]
    modifies set i | i in targets :: targets[i]
    ensures Delivered(ClientOutcome(hash, version, requested, SizesOf(targets), expected, reply, bulk), r, targets,
                      old(map i | i in targets :: targets[i][..]))
  {
    var sizes := SizesOf(targets);
    var control := ReadControl(version, requested, sizes, reply);
    if control.Err? {
      return Err(control.error);
    }
    assert Within(control.value.0, sizes) by {
      ItemsInRequest(version, sizes, reply.fields);
    }
    r := ReceiveBulk(hash, control.value.0, control.value.1, targets, expected, bulk);
  }

  method ReceiveBulk(hash: Bytes -> Digest, items: seq<Item>, unavailable: seq<nat>, targets: map<nat, array<Byte>>,
                     expected: map<nat, Digest>, bulk: seq<Bytes>)
    returns (r: Result<(seq<nat>, seq<nat>), ExchangeError>)
    requires targets.Keys == expected.Keys && Within(items, SizesOf(targets))
    requires forall i, j :: i in targets && j in targets && i != j ==> targets[i] != targets[j]
    modifies set i | i in targets :: targets[i]
    ensures Delivered(Finish(hash, items, unavailable, SizesOf(targets), expected, bulk), r, targets,
                      old(map i | i in targets :: targets[i][..]))
  {
    var completed := ReceiveAll(hash, items, targets, expected, bulk);
    if completed.Err? {
      return Err(completed.error);
    }
    return Ok((completed.value, unavailable));
  }

  /** Sends the request and judges the control reply. */
  method ReadControl(version: string, requested: seq<nat>, sizes: map<nat, nat>, reply: ControlReply)
    returns (r: Result<(seq<Item>, seq<nat>), ExchangeError>)
    requires sizes.Keys == Elements(requested)
    ensures r == Control(version, requested, sizes, reply)
  {
    if !ValidRequest(requested) {
      return Err(BadRequest);
    }
    match reply
    case Silence => return Err(Transport);
    case Malformed => return Err(Protocol);
    case Refusal => return Err(Refused);
    case Message(fields) =>
      if fields.Keys != {KeyVersion, KeyShards, KeyUnavailable} || fields[KeyVersion] != JText(version)
         || !fields[KeyShards].JList? || !fields[KeyUnavailable].JList? {
        return Err(Protocol);
      }
      var available := CheckItems(fields[KeyShards].items, sizes);
      if available.None? {
        return Err(Protocol);
      }
      var unavailable := ReadUnavailable(fields[KeyUnavailable].items, sizes);
      if unavailable.None? {
        return Err(Protocol);
      }
      var seen, missing := Elements(Indices(available.value)), Elements(unavailable.value);
      if |missing| != |unavailable.value| || seen + missing != Elements(requested) || seen * missing != {} {
        return Err(Protocol);
      }
      return Ok((available.value, unavailable.value));
  }

  // ---------------------------------------------------------------- what any peer can make of it

  lemma {:induction false} ReceiveSound(hash: Bytes -> Digest, items: seq<Item>, sizes: map<nat, nat>,
                                        expected: map<nat, Digest>, bulk: seq<Bytes>)
    requires forall k :: 0 <= k < |items| ==> items[k].index in sizes && items[k].index in expected
    requires Distinct(Indices(items))
    requires Receive(hash, items, sizes, expected, bulk).Received?
    ensures var contents := Receive(hash, items, sizes, expected, bulk).contents;
      && contents.Keys == Elements(Indices(items))
      && (forall i :: i in contents ==> |contents[i]| == sizes[i] && hash(contents[i]) == expected[i])
  {
    if items == [] {
      assert Elements(Indices(items)) == {};
    } else {
      var n := |items| - 1;
      IndicesSplit(items);
      ReceiveSound(hash, items[..n], sizes, expected, bulk);
    }
  }

  lemma {:induction false} IndicesSplit(items: seq<Item>)
    requires items != [] && Distinct(Indices(items))
    ensures var before, last := Indices(items[..|items| - 1]), items[|items| - 1].index;
      Distinct(before) && Elements(Indices(items)) == Elements(before) + {last}
  {
    var n := |items| - 1;
    assert Indices(items) == Indices(items[..n]) + [items[n].index];
  }

  /** The JSON value equals the number. */
  predicate Equals(j: Json, n: int) {
    || j == JInt(n) || (j.JFloat? && j.r == n as real)
    || (n == 1 && j == JBool(true)) || (n == 0 && j == JBool(false))
  }

  /** The entry announces the item: nothing but its index, its target's size and a digest in 64
      lower-case digits. */
  predicate Announces(j: Json, sizes: map<nat, nat>, item: Item) {
    && j.JObject? && j.fields.Keys == {KeyIndex, KeySize, KeyChecksum}
    && item.index in sizes && Equals(j.fields[KeyIndex], item.index) && Equals(j.fields[KeySize], sizes[item.index])
    && j.fields[KeyChecksum] == JText(item.checksum)
    && |item.checksum| == 64 && forall c :: c in item.checksum ==> 0 <= DigitValue(c)
  }

  lemma {:induction false} HexCharacters(c: char)
    ensures c in HEX_DIGITS <==> 0 <= DigitValue(c)
  {
    if 0 <= DigitValue(c) {
      assert HEX_DIGITS[DigitValue(c)] == c;
    }
  }

  lemma {:induction false} ItemReadExactly(j: Json, sizes: map<nat, nat>, item: Item)
    ensures ReadItem(j, sizes) == Some(item) <==> Announces(j, sizes, item)
  {
    forall c: char ensures c in HEX_DIGITS <==> 0 <= DigitValue(c) {
      HexCharacters(c);
    }
  }

  lemma {:induction false} ItemsReadExactly(list: seq<Json>, sizes: map<nat, nat>, items: seq<Item>)
    ensures ReadItems(list, sizes) == Some(items) <==>
      && |items| == |list| && Distinct(Indices(items))
      && (forall k :: 0 <= k < |list| ==> Announces(list[k], sizes, items[k]))
  {
    if list != [] && |items| == |list| {
      var n := |list| - 1;
      ItemsReadExactly(list[..n], sizes, items[..n]);
      ItemReadExactly(list[n], sizes, items[n]);
      IndicesGrow(items[..n], items[n]);
      assert items == items[..n] + [items[n]];
      DistinctSnoc(Indices(items[..n]), items[n].index);
    }
  }

  lemma {:induction false} DistinctSnoc(s: seq<nat>, x: nat)
    ensures Distinct(s + [x]) <==> Distinct(s) && x !in s
  {
    if Distinct(s + [x]) {
      forall i, j | 0 <= i < j < |s| ensures s[i] != s[j] {
        assert (s + [x])[i] != (s + [x])[j];
      }
      forall i | 0 <= i < |s| ensures s[i] != x {
        assert (s + [x])[i] != (s + [x])[|s|];
      }
    }
  }

  /** The fields of a control reply in the right shape. */
  predicate Shaped(version: string, fields: map<Field, Json>) {
    && fields.Keys == {KeyVersion, KeyShards, KeyUnavailable} && fields[KeyVersion] == JText(version)
    && fields[KeyShards].JList? && fields[KeyUnavailable].JList?
  }

  /** Together the two lists name every requested index once. */
  ghost predicate Partitions(sizes: map<nat, nat>, items: seq<Item>, missing: seq<nat>) {
    && Distinct(Indices(items)) && Distinct(missing)
    && (forall i :: i in sizes <==> i in Indices(items) || i in missing)
    && (forall i :: i in missing ==> i !in Indices(items))
  }

  /** A reply is read exactly if it has the three fields and the right version, announces
      distinct requested shards, and lists as unavailable, each once and as plain integers, all
      the other requested ones. */
  lemma {:induction false} ReplyReadExactly(version: string, sizes: map<nat, nat>, fields: map<Field, Json>,
                                            items: seq<Item>, missing: seq<nat>)
    ensures ReadReply(version, sizes, fields) == Some((items, missing)) <==>
      && Shaped(version, fields) && Partitions(sizes, items, missing)
      && var shards, rest := fields[KeyShards].items, fields[KeyUnavailable].items;
      && |items| == |shards| && (forall k :: 0 <= k < |shards| ==> Announces(shards[k], sizes, items[k]))
      && |missing| == |rest| && (forall k :: 0 <= k < |rest| ==> rest[k] == JInt(missing[k]))
  {
    if Shaped(version, fields) {
      ItemsReadExactly(fields[KeyShards].items, sizes, items);
      RestReadExactly(fields[KeyUnavailable].items, sizes, missing);
      PartitionsExactly(sizes, items, missing);
    }
  }

  lemma {:induction false} PartitionsExactly(sizes: map<nat, nat>, items: seq<Item>, missing: seq<nat>)
    ensures var seen, rest := Elements(Indices(items)), Elements(missing);
      && (Distinct(Indices(items)) && |rest| == |missing| && seen + rest == sizes.Keys && seen * rest == {}
          <==> Partitions(sizes, items, missing))
      && (Partitions(sizes, items, missing) ==> forall k :: 0 <= k < |missing| ==> missing[k] in sizes)
  {
    SetSizeExactly(missing);
    UnionIs(sizes.Keys, Indices(items), missing);
  }

  lemma {:induction false} UnionIs(all: set<nat>, a: seq<nat>, b: seq<nat>)
    ensures Elements(a) + Elements(b) == all <==> forall i :: i in all <==> i in a || i in b
    ensures Elements(a) * Elements(b) == {} <==> forall i :: i in b ==> i !in a
  {
    if forall i :: i in all <==> i in a || i in b {
      assert Elements(a) + Elements(b) == all;
    }
    if Elements(a) + Elements(b) == all {
      forall i: nat ensures i in all <==> i in a || i in b {
        assert i in all <==> i in Elements(a) + Elements(b);
      }
    }
    if Elements(a) * Elements(b) == {} {
      forall i | i in b ensures i !in a {
        assert i !in Elements(a) * Elements(b);
      }
    }
  }

  lemma {:induction false} SetSizeExactly(s: seq<nat>)
    ensures |Elements(s)| == |s| <==> Distinct(s)
  {
    if Distinct(s) {
      DistinctCount(s);
    }
    if |Elements(s)| == |s| {
      SetSizeDistinct(s);
    }
  }

  lemma {:induction false} RestReadExactly(list: seq<Json>, sizes: map<nat, nat>, missing: seq<nat>)
    ensures ReadUnavailable(list, sizes) == Some(missing) <==>
      && |missing| == |list|
      && (forall k :: 0 <= k < |list| ==> list[k] == JInt(missing[k]) && missing[k] in sizes)
  {
    assert forall k :: 0 <= k < |list| ==> list[k] in list;
    var read := seq(|list|, k requires 0 <= k < |list| => if list[k].JInt? && list[k].i >= 0 then list[k].i else 0);
    if |missing| == |list| && forall k :: 0 <= k < |list| ==> list[k] == JInt(missing[k]) && missing[k] in sizes {
      assert read == missing;
    }
  }

  /** What the client makes of every control reply: an unreadable request is not sent; silence,
      a broken message and an error message each have their error; a reply that does not read
      is a protocol error. */
  lemma {:induction false} ControlExactly(version: string, requested: seq<nat>, sizes: map<nat, nat>, reply: ControlReply)
    ensures Control(version, requested, sizes, reply) == Err(BadRequest) <==>
      !(0 < |requested| <= 64 && Distinct(requested) && forall i :: i in requested ==> i < 0x1_0000_0000)
    ensures Control(version, requested, sizes, reply) != Err(BadRequest) ==>
      && (reply.Silence? <==> Control(version, requested, sizes, reply) == Err(Transport))
      && (reply.Refusal? <==> Control(version, requested, sizes, reply) == Err(Refused))
      && (reply.Malformed? || (reply.Message? && ReadReply(version, sizes, reply.fields).None?)
          <==> Control(version, requested, sizes, reply) == Err(Protocol))
  {
    SetSizeExactly(requested);
  }

  /** How many of the announced shards are not empty, each of which takes one bulk message. */
  function Messages(items: seq<Item>, sizes: map<nat, nat>): nat
    requires Within(items, sizes)
  {
    if items == [] then 0
    else Messages(items[..|items| - 1], sizes) + (if sizes[items[|items| - 1].index] > 0 then 1 else 0)
  }

  /** The bytes that arrive for the k-th announced shard, if any do. */
  function Arriving(items: seq<Item>, sizes: map<nat, nat>, bulk: seq<Bytes>, k: nat): Option<Bytes>
    requires k < |items| && Within(items, sizes)
  {
    var p := Messages(items[..k], sizes);
    if sizes[items[k].index] == 0 then Some([])
    else if p < |bulk| && |bulk[p]| == sizes[items[k].index] then Some(bulk[p])
    else None
  }

  predicate Arrives(hash: Bytes -> Digest, items: seq<Item>, sizes: map<nat, nat>, expected: map<nat, Digest>,
                    bulk: seq<Bytes>, k: nat)
    requires k < |items| && sizes.Keys == expected.Keys && Within(items, sizes)
  {
    var bytes := Arriving(items, sizes, bulk, k);
    bytes.Some? && hash(bytes.value) == expected[items[k].index] && Hex(hash(bytes.value)) == items[k].checksum
  }

  /** Every announced shard arrives. */
  ghost predicate AllArrive(hash: Bytes -> Digest, items: seq<Item>, sizes: map<nat, nat>, expected: map<nat, Digest>,
                            bulk: seq<Bytes>)
    requires sizes.Keys == expected.Keys && Within(items, sizes)
  {
    forall k :: 0 <= k < |items| ==> Arrives(hash, items, sizes, expected, bulk, k)
  }

  /** Every target holds what arrived for it. */
  ghost predicate HoldArrived(contents: map<nat, Bytes>, items: seq<Item>, sizes: map<nat, nat>, bulk: seq<Bytes>)
    requires Within(items, sizes)
  {
    forall k :: 0 <= k < |items| ==>
      items[k].index in contents && Arriving(items, sizes, bulk, k) == Some(contents[items[k].index])
  }

  /** Reception succeeds exactly if for every announced shard its own message arrives, of the
      announced size, with the announced digest and the expected one; an empty shard takes no
      message.  Then each target's bytes are those. */
  lemma {:induction false} ReceivedExactly(hash: Bytes -> Digest, items: seq<Item>, sizes: map<nat, nat>,
                                           expected: map<nat, Digest>, bulk: seq<Bytes>)
    requires sizes.Keys == expected.Keys && Within(items, sizes) && Distinct(Indices(items))
    ensures var r := Receive(hash, items, sizes, expected, bulk);
      && (r.Received? <==> AllArrive(hash, items, sizes, expected, bulk))
      && (r.Received? ==> r.used == Messages(items, sizes) && HoldArrived(r.contents, items, sizes, bulk))
  {
    if items != [] {
      var n := |items| - 1;
      IndicesSplit(items);
      ReceivedExactly(hash, items[..n], sizes, expected, bulk);
      LastArrives(hash, items, sizes, expected, bulk);
      AllArriveNext(hash, items, sizes, expected, bulk);
      var before := Receive(hash, items[..n], sizes, expected, bulk);
      if before.Received? && Arriving(items, sizes, bulk, n).Some? {
        HoldArrivedNext(before.contents, items, sizes, bulk);
      }
    }
  }

  lemma {:induction false} AllArriveNext(hash: Bytes -> Digest, items: seq<Item>, sizes: map<nat, nat>, expected: map<nat, Digest>,
                                         bulk: seq<Bytes>)
    requires items != [] && sizes.Keys == expected.Keys && Within(items, sizes)
    ensures AllArrive(hash, items, sizes, expected, bulk) <==>
      AllArrive(hash, items[..|items| - 1], sizes, expected, bulk) && Arrives(hash, items, sizes, expected, bulk, |items| - 1)
  {
    var n := |items| - 1;
    forall k: nat | k < n
      ensures Arrives(hash, items, sizes, expected, bulk, k) == Arrives(hash, items[..n], sizes, expected, bulk, k)
    {
      ArrivingPrefix(items, sizes, bulk, n, k);
    }
  }

  lemma {:induction false} HoldArrivedNext(contents: map<nat, Bytes>, items: seq<Item>, sizes: map<nat, nat>, bulk: seq<Bytes>)
    requires items != [] && Within(items, sizes) && Distinct(Indices(items))
    requires HoldArrived(contents, items[..|items| - 1], sizes, bulk) && Arriving(items, sizes, bulk, |items| - 1).Some?
    ensures HoldArrived(contents[items[|items| - 1].index := Arriving(items, sizes, bulk, |items| - 1).value], items, sizes, bulk)
  {
    var n := |items| - 1;
    forall k: nat | k < n
      ensures Arriving(items, sizes, bulk, k) == Arriving(items[..n], sizes, bulk, k) && items[k].index != items[n].index
    {
      ArrivingPrefix(items, sizes, bulk, n, k);
      assert Indices(items)[k] != Indices(items)[n];
    }
  }

  lemma {:induction false} ArrivingPrefix(items: seq<Item>, sizes: map<nat, nat>, bulk: seq<Bytes>, n: nat, k: nat)
    requires k < n <= |items| && Within(items, sizes)
    ensures Arriving(items, sizes, bulk, k) == Arriving(items[..n], sizes, bulk, k) && items[..n][k] == items[k]
  {
    assert items[..n][..k] == items[..k];
  }

  lemma {:induction false} LastArrives(hash: Bytes -> Digest, items: seq<Item>, sizes: map<nat, nat>,
                                       expected: map<nat, Digest>, bulk: seq<Bytes>)
    requires items != [] && sizes.Keys == expected.Keys && Within(items, sizes)
    requires var before := Receive(hash, items[..|items| - 1], sizes, expected, bulk);
      before.Received? ==> before.used == Messages(items[..|items| - 1], sizes)
    ensures var n := |items| - 1; var before := Receive(hash, items[..n], sizes, expected, bulk);
      var r := Receive(hash, items, sizes, expected, bulk);
      && (r.Received? <==> before.Received? && Arrives(hash, items, sizes, expected, bulk, n))
      && (r.Received? ==>
            && r.used == Messages(items, sizes) && Arriving(items, sizes, bulk, n).Some?
            && r.contents == before.contents[items[n].index := Arriving(items, sizes, bulk, n).value])
  {
  }

  /** Up to the k-th announced shard everything arrives, and that one does not. */
  ghost predicate FailsAt(hash: Bytes -> Digest, items: seq<Item>, sizes: map<nat, nat>, expected: map<nat, Digest>,
                          bulk: seq<Bytes>, k: nat)
    requires sizes.Keys == expected.Keys && Within(items, sizes)
  {
    && k < |items| && !Arrives(hash, items, sizes, expected, bulk, k)
    && forall j :: 0 <= j < k ==> Arrives(hash, items, sizes, expected, bulk, j)
  }

  /** A reception that fails says why the first shard that did not arrive did not: no message of
      its size came, or its bytes were not the announced and expected ones. */
  lemma {:induction false} BrokenReason(hash: Bytes -> Digest, items: seq<Item>, sizes: map<nat, nat>,
                                        expected: map<nat, Digest>, bulk: seq<Bytes>) returns (k: nat)
    requires sizes.Keys == expected.Keys && Within(items, sizes) && Distinct(Indices(items))
    requires Receive(hash, items, sizes, expected, bulk).Broken?
    ensures FailsAt(hash, items, sizes, expected, bulk, k)
    ensures Receive(hash, items, sizes, expected, bulk)
         == Broken(if Arriving(items, sizes, bulk, k).None? then Transport else Integrity)
  {
    var n := |items| - 1;
    IndicesSplit(items);
    if Receive(hash, items[..n], sizes, expected, bulk).Broken? {
      k := BrokenReason(hash, items[..n], sizes, expected, bulk);
      FailsAtLater(hash, items, sizes, expected, bulk, n, k);
    } else {
      k := n;
      ReceivedExactly(hash, items[..n], sizes, expected, bulk);
      LastArrives(hash, items, sizes, expected, bulk);
      AllArriveEarlier(hash, items, sizes, expected, bulk, n);
    }
  }

  lemma {:induction false} AllArriveEarlier(hash: Bytes -> Digest, items: seq<Item>, sizes: map<nat, nat>,
                                            expected: map<nat, Digest>, bulk: seq<Bytes>, n: nat)
    requires n <= |items| && sizes.Keys == expected.Keys && Within(items, sizes)
    requires AllArrive(hash, items[..n], sizes, expected, bulk)
    ensures forall k :: 0 <= k < n ==> Arrives(hash, items, sizes, expected, bulk, k)
  {
    forall k: nat | k < n ensures Arrives(hash, items, sizes, expected, bulk, k) {
      assert Arrives(hash, items[..n], sizes, expected, bulk, k);
      ArrivingPrefix(items, sizes, bulk, n, k);
    }
  }

  lemma {:induction false} FailsAtLater(hash: Bytes -> Digest, items: seq<Item>, sizes: map<nat, nat>,
                                        expected: map<nat, Digest>, bulk: seq<Bytes>, n: nat, k: nat)
    requires n <= |items| && sizes.Keys == expected.Keys && Within(items, sizes)
    requires FailsAt(hash, items[..n], sizes, expected, bulk, k)
    ensures FailsAt(hash, items, sizes, expected, bulk, k)
    ensures Arriving(items[..n], sizes, bulk, k) == Arriving(items, sizes, bulk, k)
  {
    forall j: nat | j <= k
      ensures Arrives(hash, items, sizes, expected, bulk, j) == Arrives(hash, items[..n], sizes, expected, bulk, j)
    {
      ArrivingPrefix(items, sizes, bulk, n, j);
    }
    ArrivingPrefix(items, sizes, bulk, n, k);
  }

  /** Against any reply and any bulk bytes, an exchange that does not fail accounts for every
      requested shard exactly once, and each completed one has its expected digest. */
  lemma {:induction false} EveryIndexAccountedFor(hash: Bytes -> Digest, version: string, requested: seq<nat>,
                                                  sizes: map<nat, nat>, expected: map<nat, Digest>,
                                                  reply: ControlReply, bulk: seq<Bytes>)
    requires sizes.Keys == expected.Keys == Elements(requested)
    requires ClientOutcome(hash, version, requested, sizes, expected, reply, bulk).Exchanged?
    ensures var o := ClientOutcome(hash, version, requested, sizes, expected, reply, bulk);
      && Distinct(o.completed) && |Elements(o.unavailable)| == |o.unavailable|
      && Elements(o.completed) + Elements(o.unavailable) == Elements(requested)
      && Elements(o.completed) * Elements(o.unavailable) == {}
      && o.contents.Keys == Elements(o.completed)
      && (forall i :: i in o.contents ==> |o.contents[i]| == sizes[i] && hash(o.contents[i]) == expected[i])
  {
    var items, missing := ExchangedFrom(hash, version, requested, sizes, expected, reply, bulk);
    ReceiveSound(hash, items, sizes, expected, bulk);
  }

  /** A successful exchange is the reception of a well-formed reply's announcements. */
  lemma {:induction false} ExchangedFrom(hash: Bytes -> Digest, version: string, requested: seq<nat>, sizes: map<nat, nat>,
                                         expected: map<nat, Digest>, reply: ControlReply, bulk: seq<Bytes>)
    returns (items: seq<Item>, missing: seq<nat>)
    requires sizes.Keys == expected.Keys
    requires ClientOutcome(hash, version, requested, sizes, expected, reply, bulk).Exchanged?
    ensures Within(items, sizes) && Distinct(Indices(items)) && |Elements(missing)| == |missing|
    ensures Elements(Indices(items)) + Elements(missing) == sizes.Keys && Elements(Indices(items)) * Elements(missing) == {}
    ensures Receive(hash, items, sizes, expected, bulk).Received?
    ensures var o := ClientOutcome(hash, version, requested, sizes, expected, reply, bulk);
      && o.completed == Indices(items) && o.unavailable == missing
      && o.contents == Receive(hash, items, sizes, expected, bulk).contents
  {
    var read := Control(version, requested, sizes, reply).value;
    items, missing := read.0, read.1;
    ItemsInRequest(version, sizes, reply.fields);
  }

  // ---------------------------------------------------------------- the repository's own server

  datatype Entry = Entry(index: nat, shard: Bytes, digest: Digest)

  /** The requested shards the store can serve, in request order. */
  function Available(hash: Bytes -> Digest, l: Ledger, version: string, indices: seq<nat>): seq<Entry> {
    if indices == [] then []
    else
      var n := |indices| - 1;
      var before := Available(hash, l, version, indices[..n]);
      match ReadShard(hash, l, version, indices[n])
      case Err(_) => before
      case Ok(read) => before + [Entry(indices[n], read.0, read.1)]
  }

  function Unavailable(hash: Bytes -> Digest, l: Ledger, version: string, indices: seq<nat>): seq<nat> {
    if indices == [] then []
    else
      var n := |indices| - 1;
      Unavailable(hash, l, version, indices[..n]) + (if ReadShard(hash, l, version, indices[n]).Err? then [indices[n]] else [])
  }

  function Announced(e: Entry): Json {
    JObject(map[KeyIndex := JInt(e.index), KeySize := JInt(|e.shard|), KeyChecksum := JText(Hex(e.digest))])
  }

  function AnnouncedAll(entries: seq<Entry>): (r: seq<Json>)
    ensures |r| == |entries| && forall k :: 0 <= k < |r| ==> r[k] == Announced(entries[k])
  {
    seq(|entries|, k requires 0 <= k < |entries| => Announced(entries[k]))
  }

  function Numbers(indices: seq<nat>): (r: seq<Json>)
    ensures |r| == |indices| && forall k :: 0 <= k < |r| ==> r[k] == JInt(indices[k])
  {
    seq(|indices|, k requires 0 <= k < |indices| => JInt(indices[k]))
  }

  function ServerReply(version: string, available: seq<Entry>, unavailable: seq<nat>): ControlReply {
    Message(map[KeyVersion := JText(version), KeyShards := JList(AnnouncedAll(available)),
                 KeyUnavailable := JList(Numbers(unavailable))])
  }

  /** The bulk messages: every non-empty shard, in the order announced. */
  function Sends(entries: seq<Entry>): seq<Bytes> {
    if entries == [] then []
    else Sends(entries[..|entries| - 1])
         + (if entries[|entries| - 1].shard == [] then [] else [entries[|entries| - 1].shard])
  }

  /** What the server answers and sends to a request. */
  function Served(hash: Bytes -> Digest, l: Ledger, version: string, indices: seq<nat>): (ControlReply, seq<Bytes>) {
    var available := Available(hash, l, version, indices);
    (ServerReply(version, available, Unavailable(hash, l, version, indices)), Sends(available))
  }

  method ServeShards(store: CheckpointStore.Store, version: string, indices: seq<nat>)
    returns (reply: ControlReply, sent: seq<Bytes>)
    ensures (reply, sent) == Served(store.hash, store.State(), version, indices)
  {
    var available: seq<Entry> := [];
    var unavailable: seq<nat> := [];
    for k := 0 to |indices|
      invariant available == Available(store.hash, store.State(), version, indices[..k])
      invariant unavailable == Unavailable(store.hash, store.State(), version, indices[..k])
    {
      assert indices[..k + 1][..k] == indices[..k];
      var read := store.GetShardWithChecksum(version, indices[k]);
      match read
      case Err(_) => unavailable := unavailable + [indices[k]];
      case Ok(found) => available := available + [Entry(indices[k], found.0, found.1)];
    }
    assert indices[..|indices|] == indices;
    reply := ServerReply(version, available, unavailable);
    sent := SendBulk(available);
  }

  /** Sends every shard that is not empty. */
  method SendBulk(available: seq<Entry>) returns (sent: seq<Bytes>)
    ensures sent == Sends(available)
  {
    sent := [];
    for k := 0 to |available|
      invariant sent == Sends(available[..k])
    {
      assert available[..k + 1][..k] == available[..k];
      if available[k].shard != [] {
        sent := sent + [available[k].shard];
      }
    }
    assert available[..|available|] == available;
  }

  /** The store can read the shard. */
  function Readable(hash: Bytes -> Digest, l: Ledger, version: string): nat -> bool {
    (i: nat) => ReadShard(hash, l, version, i).Ok?
  }

  function Unreadable(hash: Bytes -> Digest, l: Ledger, version: string): nat -> bool {
    (i: nat) => ReadShard(hash, l, version, i).Err?
  }

  /** The announced shards are the readable ones of the request, in its order, each with its
      stored bytes and the digest reported for them; the others are unavailable, in its order. */
  lemma {:induction false} AnnouncesWhatIsStored(hash: Bytes -> Digest, l: Ledger, version: string, indices: seq<nat>)
    ensures var available := Available(hash, l, version, indices);
      && EntryIndices(available) == Filter(indices, Readable(hash, l, version))
      && Unavailable(hash, l, version, indices) == Filter(indices, Unreadable(hash, l, version))
      && (forall e :: e in available ==> ReadShard(hash, l, version, e.index) == Ok((e.shard, e.digest)))
  {
    AvailableIndices(hash, l, version, indices);
    AvailableContents(hash, l, version, indices);
    UnavailableIs(hash, l, version, indices);
    ChosenIsFilter(indices, Readable(hash, l, version));
    ChosenIsFilter(indices, Unreadable(hash, l, version));
  }

  /** Choosing from the back is filtering. */
  function Chosen(s: seq<nat>, p: nat -> bool): seq<nat> {
    if s == [] then [] else Chosen(s[..|s| - 1], p) + (if p(s[|s| - 1]) then [s[|s| - 1]] else [])
  }

  lemma {:induction false} ChosenIsFilter(s: seq<nat>, p: nat -> bool)
    ensures Chosen(s, p) == Filter(s, p)
  {
    if s != [] {
      var first, x := s[..|s| - 1], s[|s| - 1];
      ChosenIsFilter(first, p);
      FilterSnoc(first, x, p);
      assert s == first + [x];
    }
  }

  lemma {:induction false} UnavailableIs(hash: Bytes -> Digest, l: Ledger, version: string, indices: seq<nat>)
    ensures Unavailable(hash, l, version, indices) == Chosen(indices, Unreadable(hash, l, version))
  {
    if indices != [] {
      UnavailableIs(hash, l, version, indices[..|indices| - 1]);
    }
  }

  lemma {:induction false} AvailableIndices(hash: Bytes -> Digest, l: Ledger, version: string, indices: seq<nat>)
    ensures EntryIndices(Available(hash, l, version, indices)) == Chosen(indices, Readable(hash, l, version))
  {
    if indices != [] {
      var n := |indices| - 1;
      AvailableIndices(hash, l, version, indices[..n]);
      var read := ReadShard(hash, l, version, indices[n]);
      if read.Ok? {
        EntryIndicesSnoc(Available(hash, l, version, indices[..n]), Entry(indices[n], read.value.0, read.value.1));
      }
    }
  }

  lemma {:induction false} EntryIndicesSnoc(entries: seq<Entry>, e: Entry)
    ensures EntryIndices(entries + [e]) == EntryIndices(entries) + [e.index]
  {
  }

  /** The entry is what the store answers for its index. */
  predicate AsStored(hash: Bytes -> Digest, l: Ledger, version: string, e: Entry) {
    ReadShard(hash, l, version, e.index) == Ok((e.shard, e.digest))
  }

  lemma {:induction false} AvailableContents(hash: Bytes -> Digest, l: Ledger, version: string, indices: seq<nat>)
    ensures forall e :: e in Available(hash, l, version, indices) ==> AsStored(hash, l, version, e)
  {
    if indices != [] {
      var n := |indices| - 1;
      var before := Available(hash, l, version, indices[..n]);
      AvailableContents(hash, l, version, indices[..n]);
      var read := ReadShard(hash, l, version, indices[n]);
      if read.Ok? {
        var e := Entry(indices[n], read.value.0, read.value.1);
        assert AsStored(hash, l, version, e) && Available(hash, l, version, indices) == before + [e];
      }
    }
  }

  // ---------------------------------------------------------------- lockstep

  function EntryIndices(entries: seq<Entry>): (r: seq<nat>)
    ensures |r| == |entries| && forall k :: 0 <= k < |r| ==> r[k] == entries[k].index
  {
    seq(|entries|, k requires 0 <= k < |entries| => entries[k].index)
  }

  function ShardMap(entries: seq<Entry>): map<nat, Bytes> {
    if entries == [] then map[]
    else ShardMap(entries[..|entries| - 1])[entries[|entries| - 1].index := entries[|entries| - 1].shard]
  }

  function ItemsOf(entries: seq<Entry>): (r: seq<Item>)
    ensures |r| == |entries| && forall k :: 0 <= k < |r| ==> r[k] == Item(entries[k].index, Hex(entries[k].digest))
  {
    seq(|entries|, k requires 0 <= k < |entries| => Item(entries[k].index, Hex(entries[k].digest)))
  }

  /** What the client expects of a shard is what the server holds. */
  ghost predicate Agreed(hash: Bytes -> Digest, entries: seq<Entry>, sizes: map<nat, nat>, expected: map<nat, Digest>) {
    forall k :: 0 <= k < |entries| ==> var e := entries[k];
      && e.index in sizes && e.index in expected && |e.shard| == sizes[e.index]
      && e.digest == hash(e.shard) == expected[e.index] && |e.digest| == 32
  }

  /** The two lists split the request without repeating or losing an index. */
  lemma {:induction false} ServerSplits(hash: Bytes -> Digest, l: Ledger, version: string, indices: seq<nat>)
    requires Distinct(indices)
    ensures var a, u := EntryIndices(Available(hash, l, version, indices)), Unavailable(hash, l, version, indices);
      && Distinct(a) && Distinct(u)
      && Elements(a) + Elements(u) == Elements(indices) && Elements(a) * Elements(u) == {}
  {
    if indices != [] {
      var n := |indices| - 1;
      var first := indices[..n];
      ServerSplits(hash, l, version, first);
      var before := Available(hash, l, version, first);
      var a, u := EntryIndices(before), Unavailable(hash, l, version, first);
      match ReadShard(hash, l, version, indices[n])
      case Err(_) =>
        SplitGrows(u, a, indices, n);
      case Ok(read) =>
        EntryIndicesSnoc(before, Entry(indices[n], read.0, read.1));
        SplitGrows(a, u, indices, n);
    }
  }

  /** Adding the next index to one of two lists that split the indices before it. */
  lemma {:induction false} SplitGrows(a: seq<nat>, b: seq<nat>, indices: seq<nat>, n: nat)
    requires n == |indices| - 1 && Distinct(indices) && Distinct(a)
    requires Elements(a) + Elements(b) == Elements(indices[..n]) && Elements(a) * Elements(b) == {}
    ensures Distinct(a + [indices[n]])
    ensures Elements(a + [indices[n]]) + Elements(b) == Elements(indices) && Elements(a + [indices[n]]) * Elements(b) == {}
  {
    var x := indices[n];
    assert Elements(a + [x]) == Elements(a) + {x} && Elements(indices) == Elements(indices[..n]) + {x};
    assert x !in Elements(indices[..n]);
    forall i | 0 <= i < |a| ensures a[i] != x {
      assert a[i] in Elements(a);
    }
  }

  lemma {:induction false} AnnouncedRead(e: Entry, sizes: map<nat, nat>)
    requires e.index in sizes && |e.shard| == sizes[e.index] && |e.digest| == 32
    ensures ReadItem(Announced(e), sizes) == Some(Item(e.index, Hex(e.digest)))
  {
    HexIsLowercase(e.digest);
    assert Announced(e).fields.Keys == {KeyIndex, KeySize, KeyChecksum};
  }

  lemma {:induction false} AnnouncementStep(before: seq<Entry>, e: Entry, sizes: map<nat, nat>)
    requires e.index in sizes && |e.shard| == sizes[e.index] && |e.digest| == 32
    requires e.index !in EntryIndices(before)
    requires ReadItems(AnnouncedAll(before), sizes) == Some(ItemsOf(before))
    ensures ReadItems(AnnouncedAll(before + [e]), sizes) == Some(ItemsOf(before + [e]))
  {
    AnnouncedRead(e, sizes);
    var list := AnnouncedAll(before + [e]);
    assert list[..|before|] == AnnouncedAll(before) && list[|before|] == Announced(e);
    assert Indices(ItemsOf(before)) == EntryIndices(before);
    assert ItemsOf(before + [e]) == ItemsOf(before) + [Item(e.index, Hex(e.digest))];
  }

  lemma {:induction false} AnnouncementRead(hash: Bytes -> Digest, entries: seq<Entry>, sizes: map<nat, nat>, expected: map<nat, Digest>)
    requires Agreed(hash, entries, sizes, expected) && Distinct(EntryIndices(entries))
    ensures ReadItems(AnnouncedAll(entries), sizes) == Some(ItemsOf(entries))
  {
    if entries != [] {
      var n := |entries| - 1;
      var before, indices := entries[..n], EntryIndices(entries);
      assert indices[..n] == EntryIndices(before);
      AnnouncementRead(hash, before, sizes, expected);
      assert forall k :: 0 <= k < n ==> indices[k] != indices[n];
      assert before + [entries[n]] == entries;
      AnnouncementStep(before, entries[n], sizes);
    }
  }

  /** Reception of the entries consumes exactly the messages sent for them. */
  lemma {:induction false} ReceivesWhatIsSent(hash: Bytes -> Digest, entries: seq<Entry>, sizes: map<nat, nat>,
                                              expected: map<nat, Digest>, bulk: seq<Bytes>)
    requires Agreed(hash, entries, sizes, expected) && Sends(entries) <= bulk
    ensures Receive(hash, ItemsOf(entries), sizes, expected, bulk) == Received(ShardMap(entries), |Sends(entries)|)
  {
    if entries != [] {
      var before, e := entries[..|entries| - 1], entries[|entries| - 1];
      assert entries == before + [e];
      ReceivesWhatIsSent(hash, before, sizes, expected, bulk);
      EntriesNext(before, e);
      NextTaken(hash, before, e, sizes, expected, bulk);
    }
  }

  lemma {:induction false} NextTaken(hash: Bytes -> Digest, before: seq<Entry>, e: Entry, sizes: map<nat, nat>,
                                     expected: map<nat, Digest>, bulk: seq<Bytes>)
    requires Agreed(hash, before, sizes, expected) && Agreed(hash, [e], sizes, expected)
    requires e.shard == [] || (|Sends(before)| < |bulk| && bulk[|Sends(before)|] == e.shard)
    requires Receive(hash, ItemsOf(before), sizes, expected, bulk) == Received(ShardMap(before), |Sends(before)|)
    ensures Receive(hash, ItemsOf(before) + ItemsOf([e]), sizes, expected, bulk)
         == Received(ShardMap(before)[e.index := e.shard], |Sends(before)| + if e.shard == [] then 0 else 1)
  {
    var used := |Sends(before)|;
    assert [e][0] == e;
    TakesSent(hash, e, sizes[e.index], expected[e.index], bulk, used);
    var items := ItemsOf(before) + ItemsOf([e]);
    assert items[..|items| - 1] == ItemsOf(before) && items[|items| - 1] == Item(e.index, Hex(e.digest));
    ReceiveNext(hash, items, sizes, expected, bulk, ShardMap(before), used, e.shard, if e.shard == [] then used else used + 1);
  }

  lemma {:induction false} EntriesNext(before: seq<Entry>, e: Entry)
    ensures ItemsOf(before + [e]) == ItemsOf(before) + ItemsOf([e])
    ensures ShardMap(before + [e]) == ShardMap(before)[e.index := e.shard]
    ensures |Sends(before + [e])| == |Sends(before)| + if e.shard == [] then 0 else 1
  {
    assert (before + [e])[..|before|] == before;
  }

  lemma {:induction false} ReceiveNext(hash: Bytes -> Digest, items: seq<Item>, sizes: map<nat, nat>, expected: map<nat, Digest>,
                                       bulk: seq<Bytes>, contents: map<nat, Bytes>, used: nat, bytes: Bytes, after: nat)
    requires items != [] && forall k :: 0 <= k < |items| ==> items[k].index in sizes && items[k].index in expected
    requires Receive(hash, items[..|items| - 1], sizes, expected, bulk) == Received(contents, used)
    requires var item := items[|items| - 1];
      TakeOne(hash, item, sizes[item.index], expected[item.index], bulk, used) == Ok((bytes, after))
    ensures Receive(hash, items, sizes, expected, bulk) == Received(contents[items[|items| - 1].index := bytes], after)
  {
  }

  lemma {:induction false} TakesSent(hash: Bytes -> Digest, e: Entry, size: nat, digest: Digest, bulk: seq<Bytes>, used: nat)
    requires |e.shard| == size && e.digest == hash(e.shard) == digest && |digest| == 32
    requires e.shard == [] || (used < |bulk| && bulk[used] == e.shard)
    ensures TakeOne(hash, Item(e.index, Hex(e.digest)), size, digest, bulk, used)
         == Ok((e.shard, if e.shard == [] then used else used + 1))
  {
  }

  /** The client expects of each requested shard what the store would read for it. */
  ghost predicate ExpectsStored(hash: Bytes -> Digest, l: Ledger, version: string, requested: seq<nat>, sizes: map<nat, nat>,
                                expected: map<nat, Digest>)
    requires sizes.Keys == expected.Keys == Elements(requested)
  {
    forall i :: i in sizes && ReadShard(hash, l, version, i).Ok? ==>
      var (bytes, digest) := ReadShard(hash, l, version, i).value;
      |bytes| == sizes[i] && digest == hash(bytes) == expected[i] && |digest| == 32
  }

  /** Between this server and this client, when sizes and digests are those of the stored shards:
      every requested shard the store can read is completed and arrives with its stored bytes,
      the others are reported unavailable, and the bulk messages sent are exactly those
      received. */
  lemma {:induction false} Lockstep(hash: Bytes -> Digest, l: Ledger, version: string, requested: seq<nat>,
                                    sizes: map<nat, nat>, expected: map<nat, Digest>)
    requires ValidRequest(requested) && sizes.Keys == expected.Keys == Elements(requested)
    requires ExpectsStored(hash, l, version, requested, sizes, expected)
    ensures var (reply, sent) := Served(hash, l, version, requested);
      var o := ClientOutcome(hash, version, requested, sizes, expected, reply, sent);
      && o.Exchanged? && o.used == |sent|
      && (forall i :: i in requested ==>
            if ReadShard(hash, l, version, i).Ok?
            then i in o.completed && i in o.contents && o.contents[i] == ReadShard(hash, l, version, i).value.0
            else i in o.unavailable && i !in o.completed && i !in o.contents)
  {
    StoredAgrees(hash, l, version, requested, sizes, expected);
    ExchangedIs(hash, l, version, requested, sizes, expected);
    forall i | i in requested
      ensures var available := Available(hash, l, version, requested);
        if ReadShard(hash, l, version, i).Ok?
        then i in EntryIndices(available) && i in ShardMap(available)
             && ShardMap(available)[i] == ReadShard(hash, l, version, i).value.0
        else i in Unavailable(hash, l, version, requested) && i !in EntryIndices(available) && i !in ShardMap(available)
    {
      ServedShard(hash, l, version, requested, i);
    }
  }

  lemma {:induction false} ServedShard(hash: Bytes -> Digest, l: Ledger, version: string, requested: seq<nat>, i: nat)
    requires i in requested
    ensures var available := Available(hash, l, version, requested);
      if ReadShard(hash, l, version, i).Ok?
      then i in EntryIndices(available) && i in ShardMap(available)
           && ShardMap(available)[i] == ReadShard(hash, l, version, i).value.0
      else i in Unavailable(hash, l, version, requested) && i !in EntryIndices(available) && i !in ShardMap(available)
  {
    AnnouncesWhatIsStored(hash, l, version, requested);
    FilterElements(requested, Readable(hash, l, version));
    FilterElements(requested, Unreadable(hash, l, version));
    ShardMapHolds(Available(hash, l, version, requested));
  }

  lemma {:induction false} ExchangedIs(hash: Bytes -> Digest, l: Ledger, version: string, requested: seq<nat>,
                                       sizes: map<nat, nat>, expected: map<nat, Digest>)
    requires ValidRequest(requested) && sizes.Keys == expected.Keys == Elements(requested)
    requires Agreed(hash, Available(hash, l, version, requested), sizes, expected)
    ensures var available := Available(hash, l, version, requested);
      var unavailable := Unavailable(hash, l, version, requested);
      ClientOutcome(hash, version, requested, sizes, expected, ServerReply(version, available, unavailable), Sends(available))
      == Exchanged(EntryIndices(available), unavailable, ShardMap(available), |Sends(available)|)
  {
    var available := Available(hash, l, version, requested);
    ServerControl(hash, l, version, requested, sizes, expected);
    ReceivesWhatIsSent(hash, available, sizes, expected, Sends(available));
    assert Indices(ItemsOf(available)) == EntryIndices(available);
  }

  lemma {:induction false} StoredAgrees(hash: Bytes -> Digest, l: Ledger, version: string, requested: seq<nat>,
                                        sizes: map<nat, nat>, expected: map<nat, Digest>)
    requires sizes.Keys == expected.Keys == Elements(requested)
    requires ExpectsStored(hash, l, version, requested, sizes, expected)
    ensures Agreed(hash, Available(hash, l, version, requested), sizes, expected)
  {
    var available := Available(hash, l, version, requested);
    AnnouncesWhatIsStored(hash, l, version, requested);
    FilterElements(requested, Readable(hash, l, version));
    forall k | 0 <= k < |available|
      ensures available[k].index in sizes
    {
      assert EntryIndices(available)[k] in Filter(requested, Readable(hash, l, version));
    }
  }

  /** Whatever is announced is in the map under its index, with bytes that were announced for it. */
  lemma {:induction false} ShardMapHolds(entries: seq<Entry>)
    ensures ShardMap(entries).Keys == Elements(EntryIndices(entries))
    ensures forall i :: i in ShardMap(entries) ==>
      exists k :: 0 <= k < |entries| && entries[k].index == i && entries[k].shard == ShardMap(entries)[i]
  {
    if entries != [] {
      var n := |entries| - 1;
      ShardMapHolds(entries[..n]);
      assert EntryIndices(entries) == EntryIndices(entries[..n]) + [entries[n].index];
    }
  }

  lemma {:induction false} ServerControl(hash: Bytes -> Digest, l: Ledger, version: string, requested: seq<nat>,
                                         sizes: map<nat, nat>, expected: map<nat, Digest>)
    requires ValidRequest(requested) && sizes.Keys == expected.Keys == Elements(requested)
    requires Agreed(hash, Available(hash, l, version, requested), sizes, expected)
    ensures var available := Available(hash, l, version, requested);
      var unavailable := Unavailable(hash, l, version, requested);
      Control(version, requested, sizes, ServerReply(version, available, unavailable))
      == Ok((ItemsOf(available), unavailable))
  {
    var available, unavailable := Available(hash, l, version, requested), Unavailable(hash, l, version, requested);
    SetSizeDistinct(requested);
    ServerSplits(hash, l, version, requested);
    ReplyAccepted(hash, version, requested, sizes, expected, available, unavailable);
  }

  lemma {:induction false} ReplyAccepted(hash: Bytes -> Digest, version: string, requested: seq<nat>, sizes: map<nat, nat>,
                                         expected: map<nat, Digest>, available: seq<Entry>, unavailable: seq<nat>)
    requires ValidRequest(requested) && sizes.Keys == Elements(requested)
    requires Agreed(hash, available, sizes, expected)
    requires var a := EntryIndices(available);
      && Distinct(a) && Distinct(unavailable)
      && Elements(a) + Elements(unavailable) == Elements(requested) && Elements(a) * Elements(unavailable) == {}
    ensures Control(version, requested, sizes, ServerReply(version, available, unavailable))
         == Ok((ItemsOf(available), unavailable))
  {
    AnnouncementRead(hash, available, sizes, expected);
    ServerReplyRead(version, available, unavailable, sizes);
    ReadIsControl(version, requested, sizes, ServerReply(version, available, unavailable), (ItemsOf(available), unavailable));
  }

  lemma {:induction false} ReadIsControl(version: string, requested: seq<nat>, sizes: map<nat, nat>, reply: ControlReply,
                                         read: (seq<Item>, seq<nat>))
    requires ValidRequest(requested) && reply.Message? && ReadReply(version, sizes, reply.fields) == Some(read)
    ensures Control(version, requested, sizes, reply) == Ok(read)
  {
  }

  lemma {:induction false} ServerReplyRead(version: string, available: seq<Entry>, unavailable: seq<nat>, sizes: map<nat, nat>)
    requires ReadItems(AnnouncedAll(available), sizes) == Some(ItemsOf(available))
    requires Distinct(unavailable) && Elements(EntryIndices(available)) * Elements(unavailable) == {}
    requires Elements(EntryIndices(available)) + Elements(unavailable) == sizes.Keys
    ensures ReadReply(version, sizes, ServerReply(version, available, unavailable).fields)
         == Some((ItemsOf(available), unavailable))
  {
    DistinctCount(unavailable);
    assert Indices(ItemsOf(available)) == EntryIndices(available);
    forall i | i in unavailable ensures i in sizes {
      assert i in Elements(unavailable);
    }
    UnavailableRead(unavailable, sizes);
    ReplyFields(version, available, unavailable);
  }

  lemma {:induction false} ReplyFields(version: string, available: seq<Entry>, unavailable: seq<nat>)
    ensures var reply := ServerReply(version, available, unavailable);
      && reply.Message? && reply.fields.Keys == {KeyVersion, KeyShards, KeyUnavailable}
      && reply.fields[KeyVersion] == JText(version)
      && reply.fields[KeyShards] == JList(AnnouncedAll(available)) && reply.fields[KeyUnavailable] == JList(Numbers(unavailable))
  {
  }

  lemma {:induction false} UnavailableRead(unavailable: seq<nat>, sizes: map<nat, nat>)
    requires forall i :: i in unavailable ==> i in sizes
    ensures ReadUnavailable(Numbers(unavailable), sizes) == Some(unavailable)
  {
    var list := Numbers(unavailable);
    forall j | j in list ensures j.JInt? && j.i >= 0 && j.i in sizes {
      var k :| 0 <= k < |list| && list[k] == j;
      assert unavailable[k] in unavailable;
    }
    forall k | 0 <= k < |list| ensures list[k].JInt? && list[k].i == unavailable[k] {}
    assert seq(|list|, k requires 0 <= k < |list| => if list[k].JInt? && list[k].i >= 0 then list[k].i else 0) == unavailable;
  }
}
