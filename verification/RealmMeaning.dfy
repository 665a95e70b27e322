/** What a decoded realm list says about the realms: one description for each realm that the client may see, in
    order, with every field of the realm where the client looks for it.  None of the functions that build the
    packet occur in the statements. */
module RealmMeaning {
  import opened Wrappers
  import opened Bytes
  import opened RealmClient
  import opened RealmList

  /** The first row of the build table with that number. */
  ghost predicate FirstRow(builds: seq<BuildInfo>, build: nat, b: BuildInfo) {
    b.build == build && exists k :: 0 <= k < |builds| && builds[k] == b && forall j :: 0 <= j < k ==> builds[j].build != build
  }

  ghost predicate InTable(builds: seq<BuildInfo>, build: nat) {
    exists b :: b in builds && b.build == build
  }

  /** The realms of the client's own build and those of other known builds. */
  ghost function Shown(realms: seq<Realm>, builds: seq<BuildInfo>, clientBuild: nat): seq<Realm> {
    if realms == [] then []
    else
      var n := |realms| - 1;
      if realms[n].build == clientBuild || InTable(builds, realms[n].build)
      then Shown(realms[..n], builds, clientBuild) + [realms[n]]
      else Shown(realms[..n], builds, clientBuild)
  }

  // ---------- decimal numbers ----------

  function NumberOfText(text: bytes): int {
    if text == [] then 0 else NumberOfText(text[..|text| - 1]) * 10 + (text[|text| - 1] as int - 48)
  }

  /** A decimal number without leading zeros, in ASCII. */
  predicate ReadsAs(text: bytes, n: nat) {
    && text != [] && (forall i :: 0 <= i < |text| ==> 48 <= text[i] <= 57)
    && (text[0] == 48 ==> |text| == 1)
    && NumberOfText(text) == n
  }

  lemma {:induction false} DecimalReads(n: nat)
    ensures ReadsAs(Decimal(n), n) && (n > 0 ==> Decimal(n)[0] != 48)
  {
    var t := Decimal(n);
    assert t[..|t| - 1] == if n < 10 then [] else Decimal(n / 10);
    if n >= 10 {
      DecimalReads(n / 10);
    }
  }

  /** The name, then in parentheses major, minor and revision with points between them. */
  ghost predicate NameWithVersion(shown: bytes, name: bytes, b: BuildInfo) {
    exists major, minor, revision ::
      && ReadsAs(major, b.major) && ReadsAs(minor, b.minor) && ReadsAs(revision, b.revision)
      && shown == name + [32, 40] + major + [46] + minor + [46] + revision + [41]
  }

  lemma VersionedIs(name: bytes, b: BuildInfo)
    ensures NameWithVersion(Versioned(name, b), name, b)
  {
    hide Decimal, ReadsAs;
    DecimalReads(b.major);
    DecimalReads(b.minor);
    DecimalReads(b.revision);
  }

  // ---------- descriptions ----------

  /** The numbers of the four fields, each as far as it fits. */
  predicate NumbersOf(t: BuildTail, b: BuildInfo) {
    t.major == b.major % 256 && t.minor == b.minor % 256 && t.revision == b.revision % 256 && t.build == b.build % 65536
  }

  ghost predicate Describes(e: Entry, r: Realm, builds: seq<BuildInfo>, clientBuild: nat, dialect: Expansion, counts: map<nat, byte>) {
    && e.kind == r.kind && e.address == r.address && e.population == r.population && e.category == r.category
    && e.characters == (if r.id in counts then counts[r.id] else 0)
    && e.id == (if dialect == PostBc then r.id % 256 else 0)
    && DescribesFlags(e.flags, r, builds, clientBuild)
    && DescribesBuild(e, r, builds, dialect)
  }

  /** Bit 1 marks realms that are offline or of another build, bit 2 says that a known build follows; all other
      bits are the realm's. */
  ghost predicate DescribesFlags(flags: bv8, r: Realm, builds: seq<BuildInfo>, clientBuild: nat) {
    && flags & 0xF9 == r.flags & 0xF9
    && (flags & 0x02 != 0 <==> r.build != clientBuild || r.flags & 0x02 != 0)
    && (flags & 0x04 != 0 <==> (r.build != clientBuild || r.flags & 0x04 != 0) && InTable(builds, r.build))
  }

  /** Where the build is: behind the entry in the newer dialect and in the name in the older. */
  ghost predicate DescribesBuild(e: Entry, r: Realm, builds: seq<BuildInfo>, dialect: Expansion) {
    var follows := e.flags & 0x04 != 0;
    && (e.build.Some? <==> dialect == PostBc && follows)
    && (e.build.Some? ==> exists b :: FirstRow(builds, r.build, b) && NumbersOf(e.build.value, b))
    && (!(dialect == PreBc && follows) ==> e.name == r.name)
    && (dialect == PreBc && follows ==> exists b :: FirstRow(builds, r.build, b) && NameWithVersion(e.name, r.name, b))
  }

  lemma TableIs(builds: seq<BuildInfo>, build: nat)
    ensures InTable(builds, build) <==> FindBuild(builds, build).Some?
    ensures FindBuild(builds, build).Some? ==> FirstRow(builds, build, FindBuild(builds, build).value)
  {
  }

  lemma FlagsDescribe(r: Realm, v: View)
    requires Visible(r, v.builds, v.clientBuild)
    ensures DescribesFlags(ShownFlags(r, v.builds, v.clientBuild), r, v.builds, v.clientBuild)
  {
    hide ShownFlags, FindBuild, InTable;
    FlagsMeaning(r, v.builds, v.clientBuild);
    TableIs(v.builds, r.build);
  }

  lemma EntryDescribes(r: Realm, v: View)
    requires Visible(r, v.builds, v.clientBuild)
    ensures Describes(EntryOf(r, v), r, v.builds, v.clientBuild, v.expansion, v.characters)
  {
    hide ShownFlags, FindBuild, InTable, NameWithVersion, Versioned, DescribesFlags, FirstRow, Decimal;
    FlagsDescribe(r, v);
    TableIs(v.builds, r.build);
    var f := ShownFlags(r, v.builds, v.clientBuild);
    if HasBuild(f) {
      ShownBuildIsKnown(r, v.builds, v.clientBuild);
      VersionedIs(r.name, FindBuild(v.builds, r.build).value);
    }
  }

  lemma {:induction false} EntriesDescribe(realms: seq<Realm>, v: View)
    ensures var es, shown := Entries(realms, v), Shown(realms, v.builds, v.clientBuild);
            && |es| == |shown|
            && forall i :: 0 <= i < |es| ==> Describes(es[i], shown[i], v.builds, v.clientBuild, v.expansion, v.characters)
  {
    hide Describes, EntryOf, InTable, FindBuild;
    if realms != [] {
      var n := |realms| - 1;
      EntriesDescribe(realms[..n], v);
      TableIs(v.builds, realms[n].build);
      if Visible(realms[n], v.builds, v.clientBuild) {
        EntryDescribes(realms[n], v);
      }
    }
  }

  /** The client reads one description of each realm it may see, in order. */
  ghost predicate Tells(packet: bytes, realms: seq<Realm>, builds: seq<BuildInfo>, clientBuild: nat, dialect: Expansion, counts: map<nat, byte>) {
    var shown, read := Shown(realms, builds, clientBuild), Decode(dialect == PostBc, packet);
    && read.Some? && |read.value| == |shown|
    && forall i :: 0 <= i < |shown| ==> Describes(read.value[i], shown[i], builds, clientBuild, dialect, counts)
  }

  /** The length behind the header has 16 bits, the count 16 or 8. */
  ghost predicate Fitting(packet: bytes, realms: seq<Realm>, builds: seq<BuildInfo>, clientBuild: nat, dialect: Expansion) {
    |packet| - 3 < 65536 && |Shown(realms, builds, clientBuild)| < (if dialect == PostBc then 65536 else 256)
  }

  /** For every realm table, build table, client and account: the packet tells the client about the realms it may
      see if and only if length and count fit their fields. */
  lemma PacketTellsIff(realms: seq<Realm>, v: View)
    requires forall i :: 0 <= i < |realms| ==> CleanRealm(realms[i])
    ensures var p := Packet(v.expansion == PostBc, Entries(realms, v));
            Tells(p, realms, v.builds, v.clientBuild, v.expansion, v.characters) <==> Fitting(p, realms, v.builds, v.clientBuild, v.expansion)
  {
    hide Packet, Decode, Entries, Shown, Describes, CleanRealm, Writable, InRange;
    EntriesAreWritable(realms, v);
    EntriesDescribe(realms, v);
    RoundTripExactly(v.expansion == PostBc, Entries(realms, v));
  }
}
