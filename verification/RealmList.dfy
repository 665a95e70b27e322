/** The realm-list packet: which realms a client sees, how they are written in the two dialects, and
    a decoder that recovers them. */
module RealmList {
  import opened Wrappers
  import opened Bytes
  import opened ByteBuffers
  import opened RealmClient

  const CMD_REALMLIST: byte := 0x10

  datatype Expansion = Invalid | PreBc | PostBc

  const FLAG_OFFLINE: bv8 := 0x02
  const FLAG_SPECIFY_BUILD: bv8 := 0x04

  /** `address` is the text of the address chosen for the client, `population` the bytes of a float. */
  datatype Realm = Realm(
    id: nat, name: bytes, address: bytes, kind: byte, flags: bv8, category: byte, population: bytes, build: nat)

  datatype BuildInfo = BuildInfo(build: nat, major: nat, minor: nat, revision: nat)

  function FindBuild(builds: seq<BuildInfo>, build: nat): (r: Option<BuildInfo>)
    ensures r.Some? ==> r.value.build == build && r.value in builds
    ensures r.None? ==> forall b :: b in builds ==> b.build != build
    ensures r.Some? ==> exists k :: 0 <= k < |builds| && builds[k] == r.value && forall j :: 0 <= j < k ==> builds[j].build != build
  {
    if builds == [] then None
    else if builds[0].build == build then Some(builds[0])
    else FindBuild(builds[1..], build)
  }

  // ---------- what a client sees ----------

  predicate Visible(realm: Realm, builds: seq<BuildInfo>, clientBuild: nat) {
    clientBuild == realm.build || FindBuild(builds, realm.build).Some?
  }

  function ShownFlags(realm: Realm, builds: seq<BuildInfo>, clientBuild: nat): (f: bv8)
    ensures HasBuild(f) ==> FindBuild(builds, realm.build).Some? || clientBuild != realm.build
  {
    var f := if clientBuild != realm.build then realm.flags | FLAG_OFFLINE | FLAG_SPECIFY_BUILD else realm.flags;
    if FindBuild(builds, realm.build).None? then f & !FLAG_SPECIFY_BUILD else f
  }

  predicate HasBuild(flags: bv8) {
    flags & FLAG_SPECIFY_BUILD != 0
  }

  function FlagByte(flags: bv8): byte {
    flags as int
  }

  lemma FlagsRoundTrip(flags: bv8)
    ensures FlagByte(flags) as bv8 == flags
  {
  }

  function Decimal(n: nat): bytes {
    if n < 10 then [0x30 + n] else Decimal(n / 10) + [0x30 + n % 10]
  }

  function Versioned(name: bytes, b: BuildInfo): bytes {
    name + [0x20, 0x28] + Decimal(b.major) + [0x2E] + Decimal(b.minor) + [0x2E] + Decimal(b.revision) + [0x29]
  }

  /** A realm that is shown with its build flag set has its build in the table. */
  lemma ShownBuildIsKnown(realm: Realm, builds: seq<BuildInfo>, clientBuild: nat)
    requires HasBuild(ShownFlags(realm, builds, clientBuild))
    ensures FindBuild(builds, realm.build).Some?
  {
    var f := if clientBuild != realm.build then realm.flags | FLAG_OFFLINE | FLAG_SPECIFY_BUILD else realm.flags;
    assert (f & !FLAG_SPECIFY_BUILD) & FLAG_SPECIFY_BUILD == 0;
  }

  /** What the flags of a shown realm say: nothing but the build flag is ever cleared, a realm of another
      build is offline and carries its build, and the build flag of an unknown build is cleared. */
  lemma FlagsMeaning(realm: Realm, builds: seq<BuildInfo>, clientBuild: nat)
    requires Visible(realm, builds, clientBuild)
    ensures var f := ShownFlags(realm, builds, clientBuild);
            && (clientBuild != realm.build ==> f & 0x04 != 0 && f & 0x02 != 0)
            && (clientBuild == realm.build ==> f & 0x02 == realm.flags & 0x02)
            && (clientBuild == realm.build ==> (f & 0x04 != 0 <==> realm.flags & 0x04 != 0 && FindBuild(builds, realm.build).Some?))
            && f & 0xF9 == realm.flags & 0xF9
  {
    assert ((realm.flags | FLAG_OFFLINE | FLAG_SPECIFY_BUILD) & FLAG_SPECIFY_BUILD) != 0;
    assert ((realm.flags | FLAG_OFFLINE | FLAG_SPECIFY_BUILD) & FLAG_OFFLINE) != 0;
    assert (realm.flags | FLAG_OFFLINE | FLAG_SPECIFY_BUILD) & 0xF9 == realm.flags & 0xF9;
    assert (realm.flags & !FLAG_SPECIFY_BUILD) & FLAG_SPECIFY_BUILD == 0;
    assert (realm.flags & !FLAG_SPECIFY_BUILD) & FLAG_OFFLINE == realm.flags & FLAG_OFFLINE;
    assert (realm.flags & !FLAG_SPECIFY_BUILD) & 0xF9 == realm.flags & 0xF9;
  }

  datatype View = View(builds: seq<BuildInfo>, clientBuild: nat, expansion: Expansion, characters: map<nat, byte>)

  function CountFor(v: View, id: nat): byte {
    if id in v.characters then v.characters[id] else 0
  }

  function ShownName(realm: Realm, v: View): bytes {
    var info := FindBuild(v.builds, realm.build);
    if v.expansion == PreBc && HasBuild(ShownFlags(realm, v.builds, v.clientBuild)) && info.Some?
    then Versioned(realm.name, info.value)
    else realm.name
  }

  function ShownTail(realm: Realm, v: View): Option<BuildTail> {
    var info := FindBuild(v.builds, realm.build);
    if v.expansion == PostBc && HasBuild(ShownFlags(realm, v.builds, v.clientBuild)) && info.Some?
    then Some(BuildTail(info.value.major % 256, info.value.minor % 256, info.value.revision % 256, info.value.build % 65536))
    else None
  }

  function EntryOf(realm: Realm, v: View): Entry {
    Entry(realm.kind, ShownFlags(realm, v.builds, v.clientBuild), ShownName(realm, v), realm.address, realm.population,
          CountFor(v, realm.id), realm.category, if v.expansion == PostBc then realm.id % 256 else 0,
          ShownTail(realm, v))
  }

  /** The entries of the visible realms, in the order of the realms. */
  function Entries(realms: seq<Realm>, v: View): seq<Entry> {
    if realms == [] then []
    else
      var last := realms[|realms| - 1];
      Entries(realms[..|realms| - 1], v) + (if Visible(last, v.builds, v.clientBuild) then [EntryOf(last, v)] else [])
  }

  // ---------- the format ----------

  function EncodeFront(post: bool, e: Entry): bytes {
    (if post then [e.kind, 0x01] else LeBytes(e.kind, 4))
    + [FlagByte(e.flags)]
    + e.name + [0]
    + e.address + [0]
    + e.population
    + [e.characters, e.category, e.id]
  }

  function EncodeEntry(post: bool, e: Entry): bytes {
    EncodeFront(post, e) + EncodeTail(e.build)
  }

  function EncodeTail(t: Option<BuildTail>): bytes {
    if t.None? then [] else [t.value.major, t.value.minor, t.value.revision] + LeBytes(t.value.build, 2)
  }

  function EncodeEntries(post: bool, es: seq<Entry>): bytes {
    if es == [] then [] else EncodeEntry(post, es[0]) + EncodeEntries(post, es[1..])
  }

  function Footer(post: bool): bytes {
    if post then [0x10, 0x00] else [0x00, 0x02]
  }

  function SizePart(post: bool, count: nat): (part: bytes)
    ensures |part| == if post then 6 else 5
  {
    LeBytes(0, 4) + (if post then LeBytes(count, 2) else [count % 256])
  }

  /** What follows the three header bytes. */
  function Body(post: bool, es: seq<Entry>): bytes {
    SizePart(post, |es|) + (EncodeEntries(post, es) + Footer(post))
  }

  function Packet(post: bool, es: seq<Entry>): bytes {
    [CMD_REALMLIST] + LeBytes(|Body(post, es)|, 2) + Body(post, es)
  }

  // ---------- round trip ----------

  predicate NoZero(s: bytes) {
    forall i :: 0 <= i < |s| ==> s[i] != 0
  }

  /** The entries the server builds, as far as their strings are free of zeros. */
  predicate Writable(post: bool, e: Entry) {
    && NoZero(e.name) && NoZero(e.address) && |e.population| == 4
    && (e.build.Some? <==> post && HasBuild(e.flags))
    && (e.build.Some? ==> e.build.value.build < 65536)
  }

  lemma {:induction false} StringRoundTrip(s: bytes, rest: bytes)
    requires NoZero(s)
    ensures TakeString(s + [0] + rest) == Some(Parsed(s, rest))
  {
    var bs := s + [0] + rest;
    if s == [] {
      assert bs[1..] == rest;
    } else {
      StringRoundTrip(s[1..], rest);
      assert bs[1..] == s[1..] + [0] + rest;
      assert [s[0]] + s[1..] == s;
    }
  }

  lemma TailRoundTrip(post: bool, e: Entry, rest: bytes)
    requires Writable(post, e)
    ensures TakeTail(post, e.flags, EncodeTail(e.build) + rest) == Some(Parsed(e.build, rest))
  {
    var bs := EncodeTail(e.build) + rest;
    if e.build.None? {
      assert bs == rest;
    } else {
      assert bs[3..5] == LeBytes(e.build.value.build, 2) && bs[5..] == rest;
      LeRoundTrip(e.build.value.build, 2);
      assert Power256(2) == 65536;
      TwoBytesValue(bs[3..5]);
    }
  }

  lemma SmallWord(kind: byte)
    ensures LeBytes(kind, 4) == [kind, 0, 0, 0]
  {
    assert LeBytes(0, 3) == [0] + LeBytes(0, 2) && LeBytes(0, 2) == [0] + LeBytes(0, 1) && LeBytes(0, 1) == [0];
  }

  lemma HeadRoundTrip(post: bool, kind: byte, rest: bytes)
    ensures TakeHead(post, (if post then [kind, 0x01] else LeBytes(kind, 4)) + rest) == Some(Parsed(kind, rest))
  {
    if post {
      assert ([kind, 0x01] + rest)[2..] == rest;
    } else {
      SmallWord(kind);
      assert ([kind, 0, 0, 0] + rest)[4..] == rest;
    }
  }

  lemma EncodedShape(post: bool, e: Entry, rest: bytes)
    ensures var r5 := EncodeTail(e.build) + rest;
            var r4 := e.population + [e.characters, e.category, e.id] + r5;
            var r3 := e.address + [0] + r4;
            var r2 := e.name + [0] + r3;
            EncodeEntry(post, e) + rest == (if post then [e.kind, 0x01] else LeBytes(e.kind, 4)) + ([FlagByte(e.flags)] + r2)
  {
    hide EncodeTail, LeBytes, FlagByte;
  }

  lemma EntryRoundTrip(post: bool, e: Entry, rest: bytes)
    requires Writable(post, e)
    ensures DecodeEntry(post, EncodeEntry(post, e) + rest) == Some(Parsed(e, rest))
  {
    hide EncodeEntry, TakeTail, EncodeTail, TakeHead, TakeString, HasBuild, LeBytes, FlagByte;
    var r5 := EncodeTail(e.build) + rest;
    var r4 := e.population + [e.characters, e.category, e.id] + r5;
    var r3 := e.address + [0] + r4;
    var r2 := e.name + [0] + r3;
    var r1 := [FlagByte(e.flags)] + r2;
    EncodedShape(post, e, rest);
    HeadRoundTrip(post, e.kind, r1);
    FlagsRoundTrip(e.flags);
    assert r1[1..] == r2;
    StringRoundTrip(e.name, r3);
    StringRoundTrip(e.address, r4);
    assert r4[..4] == e.population && r4[7..] == r5;
    TailRoundTrip(post, e, rest);
  }

  lemma {:induction false} EntriesRoundTrip(post: bool, es: seq<Entry>, rest: bytes)
    requires forall i :: 0 <= i < |es| ==> Writable(post, es[i])
    ensures DecodeEntries(post, |es|, EncodeEntries(post, es) + rest) == Some(Parsed(es, rest))
  {
    hide DecodeEntry, EncodeEntry, Writable;
    if es == [] {
      assert EncodeEntries(post, es) + rest == rest;
    } else {
      var tail := EncodeEntries(post, es[1..]) + rest;
      assert EncodeEntries(post, es) + rest == EncodeEntry(post, es[0]) + tail;
      EntryRoundTrip(post, es[0], tail);
      EntriesRoundTrip(post, es[1..], rest);
      assert [es[0]] + es[1..] == es;
    }
  }

  lemma {:induction false} DecodedCount(post: bool, count: nat, bs: bytes)
    ensures DecodeEntries(post, count, bs).Some? ==> |DecodeEntries(post, count, bs).value.value| == count
  {
    if count > 0 && DecodeEntry(post, bs).Some? {
      DecodedCount(post, count - 1, DecodeEntry(post, bs).value.rest);
    }
  }

  /** The two limits of the format: the length has 16 bits, the count 16 or 8. */
  predicate InRange(post: bool, es: seq<Entry>) {
    |Body(post, es)| < 65536 && |es| < (if post then 65536 else 256)
  }

  lemma FieldsOfSize(post: bool, count: nat, rest: bytes)
    ensures var width := if post then 2 else 1;
            var body := SizePart(post, count) + rest;
            && body[..4] == LeBytes(0, 4)
            && LeValue(body[4..4 + width]) == count % (if post then 65536 else 256)
            && body[4 + width..] == rest
  {
    var part := SizePart(post, count);
    var width := if post then 2 else 1;
    assert part[4..4 + width] == if post then LeBytes(count, 2) else [count % 256];
    assert (part + rest)[4..4 + width] == part[4..4 + width];
    LeRoundTrip(count, 2);
    assert Power256(2) == 65536;
  }

  lemma FieldsOfPacket(post: bool, es: seq<Entry>)
    ensures var p := Packet(post, es);
            var width := if post then 2 else 1;
            && |p| == 3 + |Body(post, es)| && |p| >= 7 + width && p[0] == CMD_REALMLIST
            && LeValue(p[1..3]) == |Body(post, es)| % 65536
            && p[3..7] == LeBytes(0, 4)
            && LeValue(p[7..7 + width]) == |es| % (if post then 65536 else 256)
            && p[7 + width..] == EncodeEntries(post, es) + Footer(post)
  {
    hide LeBytes, LeValue, EncodeEntries;
    var p, body := Packet(post, es), Body(post, es);
    var width := if post then 2 else 1;
    FieldsOfSize(post, |es|, EncodeEntries(post, es) + Footer(post));
    assert p[1..3] == LeBytes(|body|, 2);
    LeRoundTrip(|body|, 2);
    TwoBytes();
    assert p[3..7] == body[..4];
    assert p[7..7 + width] == body[4..4 + width];
    assert p[7 + width..] == body[4 + width..];
  }

  lemma TwoBytes()
    ensures Power256(2) == 65536
  {
  }

  /** What the decoder looks at before the entries. */
  lemma HeaderAsRead(post: bool, es: seq<Entry>)
    ensures var p := Packet(post, es);
            && |p| == 3 + |Body(post, es)| && |p| >= (if post then 9 else 8) && p[0] == 16
            && p[1] as int + 256 * (p[2] as int) == |Body(post, es)| % 65536
            && p[3..7] == [0, 0, 0, 0]
            && (if post then p[7] as int + 256 * (p[8] as int) else p[7]) == |es| % (if post then 65536 else 256)
            && p[if post then 9 else 8..] == EncodeEntries(post, es) + (if post then [16, 0] else [0, 2])
  {
    hide LeBytes, LeValue, EncodeEntries, Packet, Body;
    var p := Packet(post, es);
    FieldsOfPacket(post, es);
    TwoBytesValue(p[1..3]);
    SmallWord(0);
    if post {
      TwoBytesValue(p[7..9]);
    } else {
      OneByteValue(p[7..8]);
    }
  }

  lemma OneByteValue(bs: bytes)
    requires |bs| == 1
    ensures LeValue(bs) == bs[0]
  {
    assert bs[1..] == [];
  }

  /** The packet decodes to exactly the entries it was made from if and only if the length and the
      count fit their fields. */
  lemma RoundTripExactly(post: bool, es: seq<Entry>)
    requires forall i :: 0 <= i < |es| ==> Writable(post, es[i])
    ensures Decode(post, Packet(post, es)) == Some(es) <==> InRange(post, es)
    ensures InRange(post, es) <==> |Packet(post, es)| < 65539 && |es| < (if post then 65536 else 256)
    ensures !InRange(post, es) ==> Decode(post, Packet(post, es)).None? || |Decode(post, Packet(post, es)).value| != |es|
  {
    hide EncodeEntries, DecodeEntries, Body, Packet, Writable, LeBytes, LeValue;
    HeaderAsRead(post, es);
    EntriesRoundTrip(post, es, if post then [16, 0] else [0, 2]);
    DecodedCount(post, |es| % (if post then 65536 else 256), EncodeEntries(post, es) + (if post then [16, 0] else [0, 2]));
  }

  // ---------- the entries of the server are writable ----------

  predicate CleanRealm(r: Realm) {
    NoZero(r.name) && NoZero(r.address) && |r.population| == 4
  }

  lemma {:induction false} DecimalHasNoZero(n: nat)
    ensures NoZero(Decimal(n))
  {
    if n >= 10 {
      DecimalHasNoZero(n / 10);
    }
  }

  lemma VersionedHasNoZero(name: bytes, b: BuildInfo)
    requires NoZero(name)
    ensures NoZero(Versioned(name, b))
  {
    hide Decimal;
    DecimalHasNoZero(b.major);
    DecimalHasNoZero(b.minor);
    DecimalHasNoZero(b.revision);
  }

  lemma EntryIsWritable(r: Realm, v: View)
    requires CleanRealm(r) && Visible(r, v.builds, v.clientBuild)
    ensures Writable(v.expansion == PostBc, EntryOf(r, v))
  {
    hide HasBuild, ShownFlags, Versioned, FindBuild, NoZero;
    if HasBuild(ShownFlags(r, v.builds, v.clientBuild)) {
      ShownBuildIsKnown(r, v.builds, v.clientBuild);
      VersionedHasNoZero(r.name, FindBuild(v.builds, r.build).value);
    }
  }

  lemma {:induction false} EntriesAreWritable(realms: seq<Realm>, v: View)
    requires forall i :: 0 <= i < |realms| ==> CleanRealm(realms[i])
    ensures forall i :: 0 <= i < |Entries(realms, v)| ==> Writable(v.expansion == PostBc, Entries(realms, v)[i])
  {
    hide CleanRealm, Writable, EntryOf, Visible;
    if realms != [] {
      var last := realms[|realms| - 1];
      EntriesAreWritable(realms[..|realms| - 1], v);
      if Visible(last, v.builds, v.clientBuild) {
        EntryIsWritable(last, v);
      }
    }
  }

  /** For every realm map, build table, client build and dialect with clean strings, a client recovers
      exactly the visible realms if and only if length and count fit their fields. */
  lemma ClientSeesVisibleRealms(realms: seq<Realm>, v: View)
    requires forall i :: 0 <= i < |realms| ==> CleanRealm(realms[i])
    ensures var post := v.expansion == PostBc;
            var es := Entries(realms, v);
            Decode(post, Packet(post, es)) == Some(es) <==> InRange(post, es)
  {
    EntriesAreWritable(realms, v);
    RoundTripExactly(v.expansion == PostBc, Entries(realms, v));
  }

  // ---------- packets that cannot be read ----------

  function Plain(id: nat, build: nat): Realm {
    Realm(id, [], [], 0, 0, 0, [0, 0, 0, 0], build)
  }

  function PlainRealms(n: nat, build: nat): (realms: seq<Realm>)
    ensures |realms| == n && forall i :: 0 <= i < n ==> realms[i] == Plain(i, build) && CleanRealm(realms[i])
  {
    seq(n, (i: int) => if i >= 0 then Plain(i, build) else Plain(0, build))
  }

  lemma {:induction false} AllShown(n: nat, v: View)
    ensures |Entries(PlainRealms(n, v.clientBuild), v)| == n
  {
    if n > 0 {
      var realms := PlainRealms(n, v.clientBuild);
      assert realms[..n - 1] == PlainRealms(n - 1, v.clientBuild);
      AllShown(n - 1, v);
    }
  }

  /** A client of the older dialect and 256 realms of its build: the count byte is zero, and the client does not
      recover them. */
  lemma CountWraps(builds: seq<BuildInfo>, build: nat, characters: map<nat, byte>)
    ensures var es := Entries(PlainRealms(256, build), View(builds, build, PreBc, characters));
            |es| == 256 && Packet(false, es)[7] == 0 && Decode(false, Packet(false, es)) != Some(es)
  {
    hide Packet, Body, Decode, LeBytes, Entries;
    var realms := PlainRealms(256, build);
    var v := View(builds, build, PreBc, characters);
    AllShown(256, v);
    ClientSeesVisibleRealms(realms, v);
    FieldsOfPacket(false, Entries(realms, v));
    var p := Packet(false, Entries(realms, v));
    assert p[7..8][1..] == [];
    assert LeValue(p[7..8]) == p[7];
  }

  lemma {:induction false} EveryEntryTakesRoom(post: bool, es: seq<Entry>)
    ensures |EncodeEntries(post, es)| >= 8 * |es|
  {
    if es != [] {
      EveryEntryTakesRoom(post, es[1..]);
    }
  }

  /** A client of the newer dialect and ten thousand realms of its build: the count fits, the length wraps, and the
      client does not recover them. */
  lemma LengthWraps(builds: seq<BuildInfo>, build: nat, characters: map<nat, byte>)
    ensures var es := Entries(PlainRealms(10000, build), View(builds, build, PostBc, characters));
            |es| == 10000 && Decode(true, Packet(true, es)) != Some(es)
  {
    hide Packet, Decode, LeBytes, Entries, EncodeEntries;
    var realms := PlainRealms(10000, build);
    var v := View(builds, build, PostBc, characters);
    AllShown(10000, v);
    EveryEntryTakesRoom(true, Entries(realms, v));
    ClientSeesVisibleRealms(realms, v);
  }

  // ---------- the handler ----------

  lemma {:induction false} EncodeEntriesAppend(post: bool, es: seq<Entry>, e: Entry)
    ensures EncodeEntries(post, es + [e]) == EncodeEntries(post, es) + EncodeEntry(post, e)
  {
    hide EncodeEntry;
    if es == [] {
      assert es + [e] == [e];
      assert EncodeEntries(post, [e][1..]) == [];
    } else {
      assert (es + [e])[1..] == es[1..] + [e];
      EncodeEntriesAppend(post, es[1..], e);
    }
  }

  /** The entries of the first realms take no more room than those of all realms. */
  lemma {:induction false} PrefixIsShorter(post: bool, realms: seq<Realm>, v: View, i: nat)
    requires i <= |realms|
    ensures |EncodeEntries(post, Entries(realms[..i], v))| <= |EncodeEntries(post, Entries(realms, v))|
    decreases |realms| - i
  {
    hide EncodeEntry, EncodeEntries, Visible, EntryOf;
    if i < |realms| {
      NextEntry(post, realms, v, i);
      PrefixIsShorter(post, realms, v, i + 1);
    } else {
      assert realms[..i] == realms;
    }
  }

  function EncodeIfVisible(post: bool, r: Realm, v: View): bytes {
    if Visible(r, v.builds, v.clientBuild) then EncodeEntry(post, EntryOf(r, v)) else []
  }

  lemma NextEntry(post: bool, realms: seq<Realm>, v: View, i: nat)
    requires i < |realms|
    ensures EncodeEntries(post, Entries(realms[..i + 1], v))
         == EncodeEntries(post, Entries(realms[..i], v)) + EncodeIfVisible(post, realms[i], v)
    ensures |Entries(realms[..i + 1], v)| == |Entries(realms[..i], v)| + (if Visible(realms[i], v.builds, v.clientBuild) then 1 else 0)
  {
    hide EncodeEntry, EncodeEntries, Visible, EntryOf;
    assert realms[..i + 1][..i] == realms[..i];
    var before := Entries(realms[..i], v);
    if Visible(realms[i], v.builds, v.clientBuild) {
      EncodeEntriesAppend(post, before, EntryOf(realms[i], v));
    } else {
      assert before + [] == before;
      assert EncodeEntries(post, before) + [] == EncodeEntries(post, before);
    }
  }

  method WriteKind(buffer: ByteBuffer, post: bool, kind: byte)
    requires buffer.Valid() && |buffer.data| + 4 < SIZE_LIMIT
    modifies buffer
    ensures buffer.Valid() && buffer.data == old(buffer.data) + (if post then [kind, 0x01] else LeBytes(kind, 4))
  {
    if post {
      buffer.Put8(kind);
      buffer.Put8(0x01);
    } else {
      buffer.Put32(kind);
    }
  }

  method WriteCounts(buffer: ByteBuffer, characters: byte, category: byte, id: byte)
    requires buffer.Valid() && |buffer.data| + 3 < SIZE_LIMIT
    modifies buffer
    ensures buffer.Valid() && buffer.data == old(buffer.data) + [characters, category, id]
  {
    buffer.Put8(characters);
    buffer.Put8(category);
    buffer.Put8(id);
  }

  /** The fields that every entry has, in the order of the format. */
  method WriteFront(buffer: ByteBuffer, post: bool, e: Entry, flags: bv8, name: bytes)
    requires buffer.Valid() && |e.population| == 4
    requires flags == e.flags && name == e.name
    requires |buffer.data| + |EncodeFront(post, e)| < SIZE_LIMIT
    modifies buffer
    ensures buffer.Valid() && buffer.data == old(buffer.data) + EncodeFront(post, e)
  {
    hide LeBytes, FlagByte;
    ghost var start := buffer.data;
    ghost var head := if post then [e.kind, 0x01] else LeBytes(e.kind, 4);
    WriteKind(buffer, post, e.kind);
    buffer.Put8(FlagByte(flags));
    buffer.PutString(name);
    ghost var named := head + [FlagByte(e.flags)] + e.name + [0];
    assert buffer.data == start + named;
    buffer.PutString(e.address);
    buffer.Append(e.population);
    ghost var located := named + e.address + [0] + e.population;
    assert buffer.data == start + located;
    WriteCounts(buffer, e.characters, e.category, e.id);
    assert buffer.data == start + (located + [e.characters, e.category, e.id]);
  }

  /** Adjusts the flags of a realm for the client: the result is what the client is to be shown. */
  method AdjustFlags(realm: Realm, v: View) returns (flags: bv8)
    ensures flags == ShownFlags(realm, v.builds, v.clientBuild)
    ensures HasBuild(flags) ==> FindBuild(v.builds, realm.build).Some?
  {
    hide FindBuild;
    flags := realm.flags;
    if v.clientBuild != realm.build {
      flags := flags | FLAG_OFFLINE | FLAG_SPECIFY_BUILD;
    }
    if FindBuild(v.builds, realm.build).None? {
      flags := flags & !FLAG_SPECIFY_BUILD;
    }
    if HasBuild(flags) {
      ShownBuildIsKnown(realm, v.builds, v.clientBuild);
    }
  }

  /** Writes one visible realm. */
  method WriteRealm(buffer: ByteBuffer, realm: Realm, v: View)
    requires buffer.Valid() && |realm.population| == 4
    requires Visible(realm, v.builds, v.clientBuild)
    requires |buffer.data| + |EncodeEntry(v.expansion == PostBc, EntryOf(realm, v))| < SIZE_LIMIT
    modifies buffer
    ensures buffer.Valid()
    ensures buffer.data == old(buffer.data) + EncodeEntry(v.expansion == PostBc, EntryOf(realm, v))
  {
    hide HasBuild, ShownFlags, FindBuild, Versioned, LeBytes, EncodeFront;
    ghost var start := buffer.data;
    var post := v.expansion == PostBc;
    var e := EntryOf(realm, v);
    var flags := AdjustFlags(realm, v);
    var buildInfo := FindBuild(v.builds, realm.build);
    var name := realm.name;
    if v.expansion == PreBc && HasBuild(flags) {
      name := Versioned(name, buildInfo.value);
    }
    WriteFront(buffer, post, e, flags, name);
    if post && HasBuild(flags) {
      buffer.Put8(buildInfo.value.major);
      buffer.Put8(buildInfo.value.minor);
      buffer.Put8(buildInfo.value.revision);
      Low16(buildInfo.value.build);
      buffer.Put16(buildInfo.value.build);
    }
    assert buffer.data == start + (EncodeFront(post, e) + EncodeTail(e.build));
  }

  lemma LowBytes(n: nat)
    ensures n % 65536 % 256 == n % 256 && n % 65536 / 256 % 256 == n / 256 % 256
  {
    var q, r := n / 65536, n % 65536;
    assert n == 256 * (256 * q + r / 256) + r % 256;
    assert n / 256 == 256 * q + r / 256;
  }

  /** Only the low 16 bits of a number reach a 16-bit field. */
  lemma Low16(n: nat)
    ensures LeBytes(n, 2) == LeBytes(n % 65536, 2)
  {
    LowBytes(n);
    assert LeBytes(n, 2) == [n % 256] + LeBytes(n / 256, 1);
    assert LeBytes(n / 256, 1) == [n / 256 % 256] + LeBytes(n / 256 / 256, 0);
    var m := n % 65536;
    assert LeBytes(m, 2) == [m % 256] + LeBytes(m / 256, 1);
    assert LeBytes(m / 256, 1) == [m / 256 % 256] + LeBytes(m / 256 / 256, 0);
  }

  /** The loop over the realms. */
  method WriteRealms(realms: seq<Realm>, v: View) returns (buffer: ByteBuffer, count: nat)
    requires forall i :: 0 <= i < |realms| ==> |realms[i].population| == 4
    requires |EncodeEntries(v.expansion == PostBc, Entries(realms, v))| + 2 < SIZE_LIMIT
    ensures fresh(buffer) && buffer.Valid()
    ensures buffer.data == EncodeEntries(v.expansion == PostBc, Entries(realms, v))
    ensures count == |Entries(realms, v)|
  {
    hide EncodeEntries, EncodeEntry, EntryOf, Visible;
    ghost var post := v.expansion == PostBc;
    buffer := new ByteBuffer();
    count := 0;
    EncodeNone(post);
    assert realms[..0] == [];
    for i := 0 to |realms|
      invariant fresh(buffer) && buffer.Valid()
      invariant buffer.data == EncodeEntries(post, Entries(realms[..i], v))
      invariant count == |Entries(realms[..i], v)|
    {
      NextEntry(post, realms, v, i);
      PrefixIsShorter(post, realms, v, i + 1);
      if Shows(realms[i], v) {
        WriteRealm(buffer, realms[i], v);
        count := count + 1;
      } else {
        assert buffer.data + [] == buffer.data;
      }
    }
    assert realms[..|realms|] == realms;
  }

  /** Builds the whole packet, as long as the buffer limit is respected. */
  method WritePacket(realms: seq<Realm>, v: View) returns (packet: ByteBuffer)
    requires forall i :: 0 <= i < |realms| ==> |realms[i].population| == 4
    requires |EncodeEntries(v.expansion == PostBc, Entries(realms, v))| + 2 < SIZE_LIMIT
    ensures fresh(packet) && packet.Valid()
    ensures packet.data == Packet(v.expansion == PostBc, Entries(realms, v))
  {
    hide EncodeEntries, Entries, LeBytes, SizePart;
    ghost var post := v.expansion == PostBc;
    ghost var es := Entries(realms, v);
    var buffer, count := WriteRealms(realms, v);
    if v.expansion == PostBc {
      buffer.Put8(0x10);
      buffer.Put8(0x00);
    } else {
      buffer.Put8(0x00);
      buffer.Put8(0x02);
    }
    assert buffer.data == EncodeEntries(post, es) + Footer(post);
    var sizes := WriteSizes(v.expansion, count);
    ghost var listed := buffer.data;
    packet := new ByteBuffer();
    packet.Put8(CMD_REALMLIST);
    packet.Put16(|buffer.data| + |sizes.data|);
    packet.AppendBuffer(sizes);
    packet.AppendBuffer(buffer);
    ghost var part := SizePart(post, |es|);
    assert packet.data == [CMD_REALMLIST] + LeBytes(|part + listed|, 2) + (part + listed);
  }

  method WriteSizes(expansion: Expansion, count: nat) returns (sizes: ByteBuffer)
    ensures fresh(sizes) && sizes.Valid() && sizes.data == SizePart(expansion == PostBc, count)
  {
    sizes := new ByteBuffer();
    sizes.Put32(0x00);
    if expansion == PostBc {
      sizes.Put16(count);
    } else {
      sizes.Put8(count);
    }
  }

  lemma EncodeNone(post: bool)
    ensures EncodeEntries(post, []) == []
  {
  }

  /** The condition of the loop: the realm is skipped when it is of another build and that build is unknown. */
  predicate Shows(realm: Realm, v: View)
    ensures Shows(realm, v) == Visible(realm, v.builds, v.clientBuild)
  {
    if v.clientBuild != realm.build then FindBuild(v.builds, realm.build).Some? else true
  }
}
