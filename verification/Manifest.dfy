/** The shard manifest: what a publisher writes and which documents a reader accepts. */
module Manifest {
  import opened Wrappers
  import opened Sharding
  import opened Merkle
  import opened Placement
  import opened VersionNames

  const LEGACY_SCHEMA := 1
  const SCHEMA := 2

  datatype ShardManifest = ShardManifest(
    name: string, totalSize: nat, shardSize: nat, shardCount: nat, checksum: Digest,
    shardChecksums: seq<Digest>, members: seq<Member>, replicationFactor: int,
    root: Option<Digest>, profiles: seq<(Member, Profile)>, schema: int)

  /** The JSON object of a manifest, its fields read as values of their types. */
  datatype Document = Document(
    schema: int, name: string, totalSize: int, shardSize: int, shardCount: int, checksum: Digest,
    shardChecksums: seq<Digest>, members: seq<string>, replicationFactor: int,
    root: Option<Digest>, profiles: Option<map<string, RawProfile>>)

  datatype ManifestError = Unsupported | Inconsistent | BadArgument | TooLong

  predicate IsDigest(d: Digest) {
    |d| == 32
  }

  function WrittenProfile(p: Profile): RawProfile {
    RawProfile(Some(p.bandwidth), Some(p.capacity), Some(p.load), Some(p.domain), Some(p.locality))
  }

  /** The profile table written for a list of members and their profiles. */
  function WrittenProfiles(profiles: seq<(Member, Profile)>): map<string, RawProfile> {
    if profiles == [] then map[]
    else var n := |profiles| - 1;
      WrittenProfiles(profiles[..n])[profiles[n].0.url := WrittenProfile(profiles[n].1)]
  }

  function ToDocument(m: ShardManifest): Document {
    Document(m.schema, m.name, m.totalSize, m.shardSize, m.shardCount, m.checksum, m.shardChecksums,
             Urls(m.members), m.replicationFactor,
             if m.schema >= SCHEMA then m.root else None,
             if m.schema >= SCHEMA then Some(WrittenProfiles(m.profiles)) else None)
  }

  predicate KnownSchema(d: Document) {
    && (d.schema == LEGACY_SCHEMA || d.schema == SCHEMA)
    && d.root.Some? == (d.schema == SCHEMA)
    && d.profiles.Some? == (d.schema == SCHEMA)
  }

  function GivenProfiles(d: Document): map<string, RawProfile> {
    if d.profiles.Some? then d.profiles.value else map[]
  }

  function DocumentProfiles(d: Document): Result<seq<(Member, Profile)>, PlacementError> {
    if d.members == [] then Ok([]) else ProfilesOf(d.members, GivenProfiles(d))
  }

  predicate SizesAgree(d: Document) {
    && d.totalSize >= 0 && d.shardSize >= 1
    && d.shardCount == ShardCount(d.totalSize, d.shardSize) == |d.shardChecksums|
    && IsDigest(d.checksum) && (forall c :: c in d.shardChecksums ==> IsDigest(c))
  }

  predicate MembersAgree(d: Document) {
    && Urls(Stripped(d.members)) == d.members
    && d.replicationFactor >= 1
    && (d.members != [] ==> d.replicationFactor <= |d.members|)
  }

  predicate RootAgrees(hash: Bytes -> Digest, d: Document) {
    d.schema == SCHEMA ==>
      && d.root == Some(Root(hash, d.shardChecksums))
      && GivenProfiles(d).Keys == Elements(d.members)
  }

  function FromDocument(hash: Bytes -> Digest, d: Document): Result<ShardManifest, ManifestError> {
    if !KnownSchema(d) then Err(Unsupported)
    else if DocumentProfiles(d).Err? || d.name == "" || !SizesAgree(d) || !MembersAgree(d) || !RootAgrees(hash, d)
    then Err(Inconsistent)
    else Ok(ShardManifest(d.name, d.totalSize, d.shardSize, d.shardCount, d.checksum, d.shardChecksums,
                          Stripped(d.members), d.replicationFactor, d.root, DocumentProfiles(d).value, d.schema))
  }

  function BuildManifest(hash: Bytes -> Digest, name: string, data: Bytes, shardSize: int)
    : Result<ShardManifest, ManifestError>
  {
    if name == "" || shardSize <= 0 then Err(BadArgument)
    else
      var checksums := DigestsOf(hash, Shards(data, shardSize));
      Ok(ShardManifest(name, |data|, shardSize, ShardCount(|data|, shardSize), hash(data), checksums,
                       [], 1, Some(Root(hash, checksums)), [], SCHEMA))
  }

  function DigestsOf(hash: Bytes -> Digest, parts: seq<Bytes>): (r: seq<Digest>)
    ensures |r| == |parts| && forall i :: 0 <= i < |r| ==> r[i] == hash(parts[i])
  {
    seq(|parts|, i requires 0 <= i < |parts| => hash(parts[i]))
  }

  // ---------------------------------------------------------------- the written form

  const MAX_MANIFEST_BYTES := 16 * 1024 * 1024

  /** The bytes of a character in a JSON string: as it is, as a two-character escape, or as one
      or two Unicode escapes (sections 7 and 8 of RFC 8259). */
  function QuotedChar(c: char): nat {
    if c == '\"' || c == '\\' || c as int in {8, 9, 10, 12, 13} then 2
    else if ' ' <= c <= '~' then 1
    else if c as int <= 0xFFFF then 6
    else 12
  }

  function Quoted(s: string): nat {
    if s == [] then 2 else Quoted(s[..|s| - 1]) + QuotedChar(s[|s| - 1])
  }

  function NumberText(n: int): nat {
    if n < 0 then 1 + |Decimal(0 - n)| else |Decimal(n)|
  }

  /** A list of that many texts of the given total size, with brackets and commas. */
  function ListText(count: nat, total: nat): nat {
    2 + total + (if count == 0 then 0 else count - 1)
  }

  function QuotedAll(list: seq<string>): nat {
    if list == [] then 0 else QuotedAll(list[..|list| - 1]) + Quoted(list[|list| - 1])
  }

  /** A digest's 64 digits and their quotes. */
  const DIGEST_TEXT := 66

  /** The text of a profile table; that of its floating-point numbers is a parameter. */
  function TableText(tableSize: map<string, RawProfile> -> nat, table: map<string, RawProfile>): nat {
    if table == map[] then 2 else tableSize(table)
  }

  /** What the second schema adds: the root and the profile table. */
  function SecondSchemaText(tableSize: map<string, RawProfile> -> nat, d: Document): nat {
    if d.schema < SCHEMA then 0
    else 34 + (if d.root.Some? then DIGEST_TEXT else 4) + TableText(tableSize, GivenProfiles(d))
  }

  /** The size of a document written compactly: 126 bytes of keys and punctuation, and its
      values. */
  function DocumentSize(tableSize: map<string, RawProfile> -> nat, d: Document): nat {
    126 + DIGEST_TEXT + ListText(|d.members|, QuotedAll(d.members)) + Quoted(d.name)
    + NumberText(d.replicationFactor) + NumberText(d.schema)
    + ListText(|d.shardChecksums|, DIGEST_TEXT * |d.shardChecksums|)
    + NumberText(d.shardCount) + NumberText(d.shardSize) + NumberText(d.totalSize)
    + SecondSchemaText(tableSize, d)
  }

  /** The document of a manifest and its size, unless that is beyond the limit. */
  function Write(tableSize: map<string, RawProfile> -> nat, m: ShardManifest): Result<(Document, nat), ManifestError> {
    var n := DocumentSize(tableSize, ToDocument(m));
    if n > MAX_MANIFEST_BYTES then Err(TooLong) else Ok((ToDocument(m), n))
  }

  /** A document of the given size is read only within the same limit. */
  function Read(hash: Bytes -> Digest, size: nat, d: Document): Result<ShardManifest, ManifestError> {
    if size > MAX_MANIFEST_BYTES then Err(TooLong) else FromDocument(hash, d)
  }

  /** The size of a manifest built from a buffer, from the numbers alone. */
  function BuiltSize(name: string, total: nat, shardSize: nat): nat
    requires shardSize > 0
  {
    var count := ShardCount(total, shardSize);
    298 + Quoted(name) + ListText(count, DIGEST_TEXT * count)
    + NumberText(count) + NumberText(shardSize) + NumberText(total)
  }

  /** The manifest of such a buffer can be written and read. */
  predicate ManifestFits(name: string, total: nat, shardSize: nat)
    requires shardSize > 0
  {
    BuiltSize(name, total, shardSize) <= MAX_MANIFEST_BYTES
  }

  // ---------------------------------------------------------------- round trips

  /** The root and the profiles are those of the schema: the first has no root, and every
      member has the default profile. */
  ghost predicate SchemaAgrees(hash: Bytes -> Digest, m: ShardManifest)
    requires |m.profiles| == |m.members|
  {
    if m.schema == SCHEMA then m.root == Some(Root(hash, m.shardChecksums))
    else
      && m.schema == LEGACY_SCHEMA && m.root == None
      && (forall i :: 0 <= i < |m.members| ==> m.profiles[i].1 == ProfileFor(map[], m.members[i]))
  }

  /** What a reader relies on in a manifest it holds. */
  ghost predicate Consistent(hash: Bytes -> Digest, m: ShardManifest) {
    && m.name != "" && m.shardSize >= 1
    && m.shardCount == ShardCount(m.totalSize, m.shardSize) == |m.shardChecksums|
    && IsDigest(m.checksum) && (forall c :: c in m.shardChecksums ==> IsDigest(c))
    && m.replicationFactor >= 1
    && |m.profiles| == |m.members| && SchemaAgrees(hash, m)
    && (forall i :: 0 <= i < |m.members| ==> m.profiles[i].0 == m.members[i] && ValidProfile(m.profiles[i].1))
    && (m.members != [] ==> CanonicalMembers(Urls(m.members)) == Ok(m.members)
                            && m.replicationFactor <= |m.members|)
  }

  lemma {:induction false} WrittenProfilesAt(profiles: seq<(Member, Profile)>, i: nat)
    requires forall i, j :: 0 <= i < j < |profiles| ==> profiles[i].0 != profiles[j].0
    requires i < |profiles|
    ensures profiles[i].0.url in WrittenProfiles(profiles)
    ensures WrittenProfiles(profiles)[profiles[i].0.url] == WrittenProfile(profiles[i].1)
  {
    var n := |profiles| - 1;
    if i < n {
      assert profiles[i].0 != profiles[n].0;
      assert profiles[..n][i] == profiles[i];
      WrittenProfilesAt(profiles[..n], i);
    }
  }

  lemma {:induction false} WrittenFrom(profiles: seq<(Member, Profile)>, u: string) returns (i: nat)
    requires u in WrittenProfiles(profiles)
    ensures i < |profiles| && profiles[i].0.url == u
  {
    var n := |profiles| - 1;
    if u == profiles[n].0.url {
      i := n;
    } else {
      i := WrittenFrom(profiles[..n], u);
    }
  }

  lemma {:induction false} MembersRoundTrip(hash: Bytes -> Digest, m: ShardManifest)
    requires Consistent(hash, m)
    ensures var d := ToDocument(m);
      && Stripped(d.members) == m.members && DocumentProfiles(d) == Ok(m.profiles)
      && (m.schema == SCHEMA ==> GivenProfiles(d).Keys == Elements(d.members))
  {
    var d := ToDocument(m);
    if m.members == [] {
      assert m.profiles == [];
      assert Elements(d.members) == {};
    } else if m.schema == SCHEMA {
      CanonicalMembersSound(Urls(m.members));
      ProfilesRead(m.members, m.profiles);
      WrittenKeys(m.members, m.profiles);
    } else {
      CanonicalMembersSound(Urls(m.members));
      DefaultProfiles(m.members, m.profiles);
    }
  }

  lemma {:induction false} DefaultProfiles(members: seq<Member>, profiles: seq<(Member, Profile)>)
    requires |profiles| == |members|
    requires forall i :: 0 <= i < |members| ==> profiles[i] == (members[i], ProfileFor(map[], members[i]))
    ensures ProfilesWithin(members, map[]) == Ok(profiles)
  {
    assert seq(|members|, i requires 0 <= i < |members| => (members[i], ProfileFor(map[], members[i]))) == profiles;
  }

  lemma {:induction false} DocumentRoundTrip(hash: Bytes -> Digest, m: ShardManifest)
    requires Consistent(hash, m)
    ensures FromDocument(hash, ToDocument(m)) == Ok(m)
  {
    MembersRoundTrip(hash, m);
    var d := ToDocument(m);
    assert KnownSchema(d) && SizesAgree(d);
    assert MembersAgree(d) && RootAgrees(hash, d);
  }

  /** A consistent manifest, members and profiles included, survives being written and read, in
      either schema, exactly if its document is within the limit; otherwise it is refused. */
  lemma {:induction false} ManifestRoundTrip(hash: Bytes -> Digest, tableSize: map<string, RawProfile> -> nat, m: ShardManifest)
    requires Consistent(hash, m)
    ensures var written := Write(tableSize, m);
      if DocumentSize(tableSize, ToDocument(m)) <= MAX_MANIFEST_BYTES
      then written.Ok? && Read(hash, written.value.1, written.value.0) == Ok(m)
      else written == Err(TooLong)
  {
    DocumentRoundTrip(hash, m);
  }

  lemma {:induction false} WrittenKeys(members: seq<Member>, profiles: seq<(Member, Profile)>)
    requires Distinct(members) && |profiles| == |members|
    requires forall i :: 0 <= i < |members| ==> profiles[i].0 == members[i]
    ensures forall u :: u in WrittenProfiles(profiles) <==> Member(u) in members
    ensures WrittenProfiles(profiles).Keys == Elements(Urls(members))
  {
    var table := WrittenProfiles(profiles);
    forall u ensures u in table <==> Member(u) in members {
      if u in table {
        var i := WrittenFrom(profiles, u);
        assert members[i] == Member(u);
      }
      if Member(u) in members {
        var i :| 0 <= i < |members| && members[i] == Member(u);
        WrittenProfilesAt(profiles, i);
      }
    }
    UrlsElements(members);
  }

  lemma {:induction false} UrlsElements(members: seq<Member>)
    ensures forall u :: u in Elements(Urls(members)) <==> Member(u) in members
  {
    forall u ensures u in Urls(members) <==> Member(u) in members {
      if Member(u) in members {
        var i :| 0 <= i < |members| && members[i] == Member(u);
        assert Urls(members)[i] == u;
      }
    }
  }

  lemma {:induction false} ProfilesRead(members: seq<Member>, profiles: seq<(Member, Profile)>)
    requires Distinct(members) && |profiles| == |members|
    requires forall i :: 0 <= i < |members| ==> profiles[i].0 == members[i] && ValidProfile(profiles[i].1)
    ensures ProfilesWithin(members, WrittenProfiles(profiles)) == Ok(profiles)
  {
    WrittenKeys(members, profiles);
    var table := WrittenProfiles(profiles);
    forall i | 0 <= i < |members| ensures ProfileFor(table, members[i]) == profiles[i].1 {
      WrittenProfilesAt(profiles, i);
    }
    assert seq(|members|, i requires 0 <= i < |members| => (members[i], ProfileFor(table, members[i]))) == profiles;
  }

  lemma {:induction false} AcceptedConsistent(hash: Bytes -> Digest, d: Document)
    requires FromDocument(hash, d).Ok?
    ensures Consistent(hash, FromDocument(hash, d).value)
  {
    if d.members != [] {
      CanonicalMembersSound(d.members);
      CanonicalMembersIdempotent(d.members);
    }
  }

  lemma {:induction false} AcceptedKeys(hash: Bytes -> Digest, d: Document)
    requires FromDocument(hash, d).Ok? && d.schema == SCHEMA && Consistent(hash, FromDocument(hash, d).value)
    ensures WrittenProfiles(FromDocument(hash, d).value.profiles).Keys == Elements(d.members)
  {
    var m := FromDocument(hash, d).value;
    if d.members != [] {
      CanonicalMembersSound(d.members);
      WrittenKeys(m.members, m.profiles);
    }
  }

  /** What a reader accepts, of either schema, is within the limit and consistent, and writes
      back to the fields it was read from; a document of the first schema writes back as it is. */
  lemma {:induction false} AcceptedIsConsistent(hash: Bytes -> Digest, size: nat, d: Document)
    requires Read(hash, size, d).Ok?
    ensures size <= MAX_MANIFEST_BYTES && Consistent(hash, Read(hash, size, d).value)
    ensures var back := ToDocument(Read(hash, size, d).value);
      && back.(profiles := d.profiles) == d
      && (if d.schema == SCHEMA then back.profiles.value.Keys == d.profiles.value.Keys else back == d)
  {
    AcceptedConsistent(hash, d);
    if d.schema == SCHEMA {
      AcceptedKeys(hash, d);
    }
  }

  /** The document describes the members and profiles of the manifest: in the second schema by
      a table naming exactly the members, whose absent fields take their defaults. */
  ghost predicate DescribesMembers(d: Document, m: ShardManifest) {
    && |m.profiles| == |m.members|
    && (d.schema == SCHEMA ==> d.profiles.Some? && forall u :: u in d.profiles.value <==> u in d.members)
    && (d.schema != SCHEMA ==> d.profiles.None?)
    && (forall i :: 0 <= i < |m.members| ==>
          m.profiles[i].0 == m.members[i] && Describes(GivenProfiles(d), m.members[i], m.profiles[i].1))
  }

  /** Which documents are accepted, and as what: exactly those within the limit that are
      written like some consistent manifest, profile tables aside, and whose table describes
      that manifest's members. */
  lemma {:induction false} AcceptedExactly(hash: Bytes -> Digest, size: nat, d: Document, m: ShardManifest)
    ensures Read(hash, size, d) == Ok(m) <==>
      && size <= MAX_MANIFEST_BYTES && Consistent(hash, m)
      && ToDocument(m).(profiles := d.profiles) == d && DescribesMembers(d, m)
  {
    if Read(hash, size, d) == Ok(m) {
      AcceptedIsConsistent(hash, size, d);
      AcceptedDescribes(hash, d);
    } else if size <= MAX_MANIFEST_BYTES && Consistent(hash, m) && ToDocument(m).(profiles := d.profiles) == d && DescribesMembers(d, m) {
      DescribedIsAccepted(hash, d, m);
    }
  }

  lemma {:induction false} AcceptedDescribes(hash: Bytes -> Digest, d: Document)
    requires FromDocument(hash, d).Ok?
    ensures DescribesMembers(d, FromDocument(hash, d).value)
  {
    var m := FromDocument(hash, d).value;
    if d.members != [] {
      MembershipExactly(d.members);
      ProfilesExactly(d.members, GivenProfiles(d));
    }
    if d.schema == SCHEMA {
      forall u ensures u in d.profiles.value <==> u in d.members {
        assert u in GivenProfiles(d).Keys <==> u in Elements(d.members);
      }
    }
  }

  lemma {:induction false} DescribedProfiles(members: seq<Member>, table: map<string, RawProfile>, profiles: seq<(Member, Profile)>)
    requires |profiles| == |members| && forall u :: u in table ==> Member(u) in members
    requires forall i :: 0 <= i < |members| ==>
      profiles[i].0 == members[i] && Describes(table, members[i], profiles[i].1) && ValidProfile(profiles[i].1)
    ensures ProfilesWithin(members, table) == Ok(profiles)
  {
    forall i | 0 <= i < |members| ensures ProfileFor(table, members[i]) == profiles[i].1 {
    }
    assert seq(|members|, i requires 0 <= i < |members| => (members[i], ProfileFor(table, members[i]))) == profiles;
  }

  lemma {:induction false} DescribedIsAccepted(hash: Bytes -> Digest, d: Document, m: ShardManifest)
    requires Consistent(hash, m) && ToDocument(m).(profiles := d.profiles) == d && DescribesMembers(d, m)
    ensures FromDocument(hash, d) == Ok(m)
  {
    if m.members == [] {
      assert m.profiles == [] && d.members == [];
    } else {
      CanonicalMembersSound(Urls(m.members));
      forall u | u in GivenProfiles(d) ensures Member(u) in m.members {
        var i :| 0 <= i < |d.members| && d.members[i] == u;
        assert m.members[i] == Member(u);
      }
      DescribedProfiles(m.members, GivenProfiles(d), m.profiles);
    }
    if d.schema == SCHEMA {
      assert GivenProfiles(d).Keys == Elements(d.members);
    }
    assert KnownSchema(d) && SizesAgree(d) && MembersAgree(d) && RootAgrees(hash, d);
  }

  /** The manifest tells the buffer's pieces apart: as few of the given size as cover it, each
      digest that of its bytes; it names no middles yet. */
  ghost predicate TellsPieces(hash: Bytes -> Digest, m: ShardManifest, name: string, data: Bytes, size: nat) {
    && m.name == name && m.totalSize == |data| && m.shardSize == size && m.checksum == hash(data)
    && m.members == [] && m.profiles == [] && m.replicationFactor == 1 && m.schema == SCHEMA
    && m.shardCount == |m.shardChecksums| && |data| <= m.shardCount * size
    && forall i: nat :: i < |m.shardChecksums| ==> PieceDigest(hash, data, size, i, m.shardChecksums[i])
  }

  predicate PieceDigest(hash: Bytes -> Digest, data: Bytes, size: nat, i: nat, digest: Digest) {
    i * size < |data| && digest == hash(data[i * size..Min(i * size + size, |data|)])
  }

  /** A manifest is built exactly for a name and a positive shard size, and is the buffer's. */
  lemma {:induction false} BuiltExactly(hash: Bytes -> Digest, name: string, data: Bytes, shardSize: int)
    ensures var built := BuildManifest(hash, name, data, shardSize);
      && (built.Ok? <==> name != "" && shardSize > 0)
      && (built.Err? ==> built.error == BadArgument)
      && (built.Ok? ==> TellsPieces(hash, built.value, name, data, shardSize))
  {
    if name != "" && shardSize > 0 {
      PiecesCover(hash, data, shardSize, DigestsOf(hash, Shards(data, shardSize)));
    }
  }

  lemma {:induction false} PiecesCover(hash: Bytes -> Digest, data: Bytes, size: nat, digests: seq<Digest>)
    requires size > 0 && digests == DigestsOf(hash, Shards(data, size))
    ensures |digests| == ShardCount(|data|, size) && |data| <= |digests| * size
    ensures forall i: nat :: i < |digests| ==> PieceDigest(hash, data, size, i, digests[i])
  {
    CeilDivLeast(|data|, size, ShardCount(|data|, size));
    forall i: nat | i < |digests| ensures PieceDigest(hash, data, size, i, digests[i]) {
      PieceIs(hash, data, size, i, Shard(data, size, i));
    }
  }

  lemma {:induction false} PieceIs(hash: Bytes -> Digest, data: Bytes, size: nat, i: nat, piece: Bytes)
    requires size > 0 && i < ShardCount(|data|, size) && piece == Shard(data, size, i)
    ensures PieceDigest(hash, data, size, i, hash(piece))
  {
    ShardSpan(|data|, size, i);
    assert (i + 1) * size == i * size + size;
  }

  /** The manifest of a buffer is consistent, and is read back by anyone as it was built exactly
      if it fits, which depends on the name and the numbers alone. */
  lemma {:induction false} BuiltManifestAccepted(hash: Bytes -> Digest, tableSize: map<string, RawProfile> -> nat,
                                                 name: string, data: Bytes, shardSize: int)
    requires BuildManifest(hash, name, data, shardSize).Ok? && FixedLength(hash)
    ensures var m := BuildManifest(hash, name, data, shardSize).value; var written := Write(tableSize, m);
      && Consistent(hash, m)
      && (written.Ok? <==> ManifestFits(name, |data|, shardSize))
      && (written.Ok? ==> Read(hash, written.value.1, written.value.0) == Ok(m))
  {
    var m := BuildManifest(hash, name, data, shardSize).value;
    BuiltSizeIs(hash, tableSize, name, data, shardSize);
    BuiltIsConsistent(hash, name, data, shardSize);
    DocumentRoundTrip(hash, m);
  }

  lemma {:induction false} BuiltIsConsistent(hash: Bytes -> Digest, name: string, data: Bytes, shardSize: int)
    requires BuildManifest(hash, name, data, shardSize).Ok? && FixedLength(hash)
    ensures Consistent(hash, BuildManifest(hash, name, data, shardSize).value)
  {
  }

  lemma {:induction false} BuiltSizeIs(hash: Bytes -> Digest, tableSize: map<string, RawProfile> -> nat,
                                       name: string, data: Bytes, shardSize: int)
    requires BuildManifest(hash, name, data, shardSize).Ok?
    ensures DocumentSize(tableSize, ToDocument(BuildManifest(hash, name, data, shardSize).value))
         == BuiltSize(name, |data|, shardSize)
  {
    assert NumberText(1) == 1 && NumberText(SCHEMA) == 1;
    assert WrittenProfiles([]) == map[];
  }

  lemma {:induction false} BuiltIsWritten(hash: Bytes -> Digest, tableSize: map<string, RawProfile> -> nat,
                                          name: string, data: Bytes, shardSize: int)
    requires BuildManifest(hash, name, data, shardSize).Ok?
    ensures Write(tableSize, BuildManifest(hash, name, data, shardSize).value).Ok? <==> ManifestFits(name, |data|, shardSize)
    ensures BuildManifest(hash, name, data, shardSize).value.name == name
  {
    BuiltSizeIs(hash, tableSize, name, data, shardSize);
  }

  /** Every shard takes 67 bytes: about a quarter of a million of them are too many. */
  lemma {:induction false} ManyShardsDoNotFit(name: string, total: nat, shardSize: nat)
    requires shardSize > 0 && 67 * ShardCount(total, shardSize) >= MAX_MANIFEST_BYTES
    ensures !ManifestFits(name, total, shardSize)
  {
  }

  /** An accepted document that agrees with a published buffer on size, shard size and root
      names the digest of every shard of that buffer. */
  lemma {:induction false} AcceptedFixesShards(hash: Bytes -> Digest, name: string, data: Bytes, shardSize: int, size: nat, d: Document)
    requires BuildManifest(hash, name, data, shardSize).Ok? && FixedLength(hash)
    requires Read(hash, size, d).Ok? && d.schema == SCHEMA
    requires var m := BuildManifest(hash, name, data, shardSize).value;
      && d.totalSize == m.totalSize && d.shardSize == m.shardSize && d.root == m.root
      && CollisionFree(hash, Hashed(hash, d.shardChecksums) + Hashed(hash, m.shardChecksums))
    ensures d.shardChecksums == DigestsOf(hash, Shards(data, shardSize))
  {
    var m := BuildManifest(hash, name, data, shardSize).value;
    RootBinds(hash, d.shardChecksums, m.shardChecksums);
  }
}
