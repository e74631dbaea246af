/** Questions and cache contents on which an answer is not what one might expect. */
module AnswerExamples {
  import opened DnsConstants
  import opened Names
  import opened NameCodec
  import opened NameCompression
  import opened CompressionRoundTrip
  import opened RecordData
  import opened RecordCodec
  import opened RecordRoundTrip
  import opened RRTypes
  import opened AnswerRun
  import opened AnswerPlan
  import opened AnswerOnce
  import opened AnswerMessage

  // ---- A name error that does not fit

  function Filled(n: nat, b: byte): (l: Label)
    ensures |l| == n && forall i :: 0 <= i < n ==> l[i] == b
  {
    seq(n, i => b)
  }

  /** Three long labels and a last one. */
  function LongName(last: nat, b: byte): (n: Name)
    ensures |n| == 4 && |n[3]| == last
  {
    [Filled(63, b), Filled(63, b), Filled(63, b), Filled(last, b)]
  }

  lemma LongNameSize(last: nat, b: byte)
    requires 1 <= last <= 62
    ensures ValidName(LongName(last, b)) && |Wire(LongName(last, b))| == 194 + last
  {
    var n := LongName(last, b);
    var l := Filled(63, b);
    WireCons(Filled(last, b), []);
    WireCons(l, [Filled(last, b)]);
    WireCons(l, [l, Filled(last, b)]);
    WireCons(l, [l, l, Filled(last, b)]);
    assert [Filled(last, b)] + [] == [Filled(last, b)];
    assert [l] + [Filled(last, b)] == [l, Filled(last, b)];
    assert [l] + [l, Filled(last, b)] == [l, l, Filled(last, b)];
    assert [l] + [l, l, Filled(last, b)] == n;
    hide Filled;
  }

  /** The name that is asked for, and the name server of the root zone. */
  function QName(): Name { LongName(50, 97) }

  function MName(): Name { LongName(20, 98) }

  /** The data of an SOA record: two names and five numbers. */
  function SoaParts(): seq<Part> { [Dom(MName()), Dom([]), Raw(seq(20, i => 0))] }

  lemma RootName()
    ensures ValidName([]) && |Wire([])| == 1
  {
    var n: Name := [];
    assert WirePrefix(n) == [];
  }

  lemma SoaFits(ps: seq<Part>)
    requires |ps| == 3 && ps[0].Dom? && ps[1].Dom? && ps[2].Raw? && |ps[2].bytes| == 20
    requires ValidName(ps[0].name) && ValidName(ps[1].name)
    ensures Fits(WriteLayout(T_SOA), ps)
  {
    var l := [DomainName, DomainName, Fixed(20)];
    hide ValidName;
    assert l[1..] == [DomainName, Fixed(20)] && l[1..][1..] == [Fixed(20)] && l[1..][1..][1..] == [];
    assert ps[1..] == [ps[1], ps[2]] && ps[1..][1..] == [ps[2]] && ps[1..][1..][1..] == [];
    assert Fits(l[1..][1..][1..], ps[1..][1..][1..]);
    assert Fits(l[1..][1..], ps[1..][1..]);
    assert Fits(l[1..], ps[1..]);
  }

  /** A record of the root zone, put together from parts. */
  lemma RootRecord(tp: int, ps: seq<Part>)
    requires (tp == T_SOA || tp == T_NS) && Fits(WriteLayout(tp), ps)
    ensures ValidParts(ps) && ValidRecord(Record([], tp, 0, Flat(ps))) && Parts(Record([], tp, 0, Flat(ps))) == ps
  {
    RootName();
    FlatParse(WriteLayout(tp), ps);
    RootType(tp);
    hide Fits;
    hide Flat;
    hide Parse;
    hide ValidName;
    hide WriteLayout;
    hide CachedType;
    hide GatewayOk;
    hide Normal;
  }

  lemma RootType(tp: int)
    requires tp == T_SOA || tp == T_NS
    ensures CachedType(tp)
  {}

  function RootSoa(): (r: Record)
    ensures ValidRecord(r) && r.owner == [] && r.tp == T_SOA && Parts(r) == SoaParts()
  {
    LongNameSize(20, 98);
    RootName();
    SoaFits(SoaParts());
    RootRecord(T_SOA, SoaParts());
    hide *;
    Record([], T_SOA, 0, Flat(SoaParts()))
  }

  /** A name that shares nothing with the names on the list is written as it is. */
  lemma {:induction false} NothingShared(cb: Table, n: nat, name: Name)
    requires ValidTable(cb) && n <= |cb| && forall i :: 0 <= i < n ==> Match(name, cb[i].name) == 0
    ensures Choose(cb, n, name).longest == 0
  {
    if n > 0 { NothingShared(cb, n - 1, name); }
  }

  lemma LastDiffers(a: Name, b: Name)
    requires a == [] || b == [] || |a[|a| - 1]| != |b[|b| - 1]|
    ensures Match(a, b) == 0
  {
    if a != [] && b != [] {
      FoldLabelSize(a[|a| - 1]);
      FoldLabelSize(b[|b| - 1]);
    }
  }

  lemma {:induction false} FoldLabelSize(l: Label)
    ensures |FoldLabel(l)| == |l|
  {
    if l != [] { FoldLabelSize(l[1..]); }
  }

  lemma WrittenOut(cb: Table, offs: nat, name: Name)
    requires ValidTable(cb) && ValidName(name) && forall i :: 0 <= i < |cb| ==> Match(name, cb[i].name) == 0
    ensures Emitted(cb, name) == Wire(name) && Grown(cb, name, offs) == cb + [CompEl(offs, name)]
  {
    NothingShared(cb, |cb|, name);
    hide Choose;
  }

  lemma PartWrittenOut(cb: Table, offs: nat, n: Name)
    requires ValidTable(cb) && ValidName(n) && forall i :: 0 <= i < |cb| ==> Match(n, cb[i].name) == 0
    ensures |PartBytes(cb, Dom(n))| == |Wire(n)| && PartTable(cb, offs, Dom(n)) == cb + [CompEl(offs, n)]
  {
    WrittenOut(cb, offs, n);
    hide Emitted;
    hide Grown;
  }

  lemma PartsSize(cb: Table, offs: nat, p: Part, rest: seq<Part>)
    requires ValidTable(cb) && ValidParts(rest) && ValidParts([p] + rest) && (p.Dom? ==> ValidName(p.name))
    ensures |PartsBytes(cb, offs, [p] + rest)|
      == |PartBytes(cb, p)| + |PartsBytes(PartTable(cb, offs, p), offs + |PartBytes(cb, p)|, rest)|
  {
    hide *;
    assert ([p] + rest)[1..] == rest && ([p] + rest)[0] == p;
    PartsStep(cb, offs, [p] + rest);
  }

  /** The size of SOA data with a name server m, after the names of cb. */
  lemma SoaDataSize(cb: Table, offs: nat, m: Name, ps: seq<Part>)
    requires ValidTable(cb) && ValidName(m) && m != [] && forall i :: 0 <= i < |cb| ==> Match(m, cb[i].name) == 0
    requires ps == [Dom(m), Dom([]), Raw(seq(20, i => 0))]
    ensures ValidParts(ps) && |PartsBytes(cb, offs, ps)| == |Wire(m)| + 21
  {
    hide *;
    RootName();
    var cb1, raw := cb + [CompEl(offs, m)], [Raw(seq(20, i => 0))];
    OneMoreName(cb, offs, m);
    SoaShape(m, raw);
    var o1 := offs + |PartBytes(cb, Dom(m))|;
    PartWrittenOut(cb, offs, m);
    PartsSize(cb, offs, Dom(m), [Dom([])] + raw);
    PartWrittenOut(cb1, o1, []);
    PartsSize(cb1, o1, Dom([]), raw);
    RawSize(PartTable(cb1, o1, Dom([])), o1 + |PartBytes(cb1, Dom([]))|, raw);
  }

  lemma OneMoreName(cb: Table, offs: nat, m: Name)
    requires ValidTable(cb) && ValidName(m)
    ensures var cb1 := cb + [CompEl(offs, m)]; ValidTable(cb1) && forall i :: 0 <= i < |cb1| ==> Match([], cb1[i].name) == 0
    ensures ValidLabels(m)
  {
    var cb1 := cb + [CompEl(offs, m)];
    hide ValidName;
    forall i | 0 <= i < |cb1| ensures Match([], cb1[i].name) == 0 { LastDiffers([], cb1[i].name); }
    assert ValidName(m);
    NameLabels(m);
  }

  lemma NameLabels(m: Name)
    requires ValidName(m)
    ensures ValidLabels(m)
  {}

  lemma SoaShape(m: Name, raw: seq<Part>)
    requires ValidName(m) && |raw| == 1 && raw[0].Raw?
    ensures ValidParts(raw) && ValidParts([Dom([])] + raw) && ValidParts([Dom(m)] + ([Dom([])] + raw))
    ensures [Dom(m)] + ([Dom([])] + raw) == [Dom(m), Dom([]), raw[0]] && raw[0].Raw? && raw == [raw[0]]
  {
    RootName();
    hide ValidName;
  }

  lemma RawSize(cb: Table, offs: nat, ps: seq<Part>)
    requires ValidTable(cb) && |ps| == 1 && ps[0].Raw?
    ensures ValidParts(ps) && |PartsBytes(cb, offs, ps)| == |ps[0].bytes|
  {
    assert ps[1..] == [];
  }

  /** The size of the SOA record after a question for QName. */
  lemma SoaSize(offs: nat, at: nat)
    ensures ValidName(QName()) && ValidTable([CompEl(at, QName())])
    ensures |RecordBytes([CompEl(at, QName())], offs, RootSoa())| == 246
  {
    LongNameSize(50, 97);
    LongNameSize(20, 98);
    LastDiffers(MName(), QName());
    LastDiffers(MName(), []);
    SoaSizeAfter(offs, at, QName(), MName(), RootSoa());
  }

  lemma SoaSizeAfter(offs: nat, at: nat, q: Name, m: Name, r: Record)
    requires ValidName(q) && ValidName(m) && m != [] && Match(m, q) == 0 && Match(m, []) == 0
    requires ValidRecord(r) && r.owner == [] && Parts(r) == [Dom(m), Dom([]), Raw(seq(20, i => 0))]
    ensures ValidTable([CompEl(at, q)])
    ensures |RecordBytes([CompEl(at, q)], offs, r)| == 1 + HDR + |Wire(m)| + 21
  {
    RootName();
    var cb := [CompEl(at, q)];
    LastDiffers([], q);
    WrittenOut(cb, offs, []);
    hide ValidName;
    hide ValidRecord;
    hide Match;
    hide Emitted;
    hide Grown;
    hide PartsBytes;
    hide RecordBytes;
    hide Parts;
    hide Wire;
    SoaDataSize(cb + [CompEl(offs, [])], DataStart(cb, offs, r), m, Parts(r));
    RecordSize(cb, offs, r);
  }

  lemma RecordSize(cb: Table, offs: nat, r: Record)
    requires ValidTable(cb) && ValidRecord(r)
    ensures |RecordBytes(cb, offs, r)|
      == |Emitted(cb, r.owner)| + HDR + |PartsBytes(Grown(cb, r.owner, offs), DataStart(cb, offs, r), Parts(r))|
  {
    hide ValidRecord;
    hide Emitted;
    hide Grown;
    hide PartsBytes;
    hide Parts;
    hide RecordHeader;
  }

  /** A question for a name that does not exist, over UDP, by a resolver that takes 512 bytes
      and uses EDNS; the SOA record of the root zone is cached. Question and SOA record fill 506
      bytes, and the OPT record is added all the same. */
  method NameErrorTooLong(rcode: nat) returns (a: Answer)
    ensures a.udp == Some(512) && a.Size() > 512
  {
    a := new Answer(Some(512), true);
    QuestionSize();
    hide *;
    var ok := a.AddQuestion(QName(), T_A, C_IN);
    NameErrorSize(a.body, a.cb);
    ghost var log;
    ok, log := a.Compose([], NameError([RootSoa()]), n => [], Some(1024), rcode);
  }

  lemma QuestionSize()
    ensures ValidName(QName()) && |Emitted([], QName())| == 244 && Grown([], QName(), DNS_HDR) == [CompEl(DNS_HDR, QName())]
    ensures ValidTable([])
  {
    LongNameSize(50, 97);
    hide LongName;
    WrittenOut([], DNS_HDR, QName());
  }

  lemma NameErrorSize(body: seq<byte>, cb: Table)
    requires ValidName(QName()) && |body| == 248 && cb == [CompEl(DNS_HDR, QName())]
    ensures ValidFound([]) && ValidEnding(NameError([RootSoa()])) && AddressBook(n => []) && ValidTable(cb)
    ensures ValidSteps(FirstSections([], NameError([RootSoa()])))
    ensures Since(body, cb, FirstSections([], NameError([RootSoa()])), Some(512)) == 506
  {
    SoaSize(DNS_HDR + |body|, DNS_HDR);
    OneSoa(cb, DNS_HDR + |body|, RootSoa(), Some(512));
    hide RootSoa;
    hide QName;
    hide RunBytes;
    hide FirstSections;
    hide ValidFound;
    hide AddressBook;
  }

  lemma OneSoa(cb: Table, offs: nat, soa: Record, udp: Option<nat>)
    requires ValidTable(cb) && ValidRecord(soa)
    ensures ValidFound([]) && ValidEnding(NameError([soa])) && AddressBook(n => []) && ValidSteps(FirstSections([], NameError([soa])))
    ensures |RunBytes(cb, offs, FirstSections([], NameError([soa])), udp)| == |RecordBytes(cb, offs, soa)|
  {
    hide ValidRecord;
    hide RecordBytes;
    hide RecordTable;
    hide ValidTable;
    var s := [Rr(S_AUTHORITY, soa)];
    assert FirstSections([], NameError([soa])) == s;
    assert s[1..] == [];
  }

  // ---- Records that are there twice, or not at all

  /** An SOA record of the root zone. */
  function SmallSoa(): (r: Record)
    ensures ValidRecord(r) && r.tp == T_SOA
  {
    var ps := [Dom([]), Dom([]), Raw(seq(20, i => 0))];
    RootName();
    SoaFits(ps);
    RootRecord(T_SOA, ps);
    hide *;
    Record([], T_SOA, 0, Flat(ps))
  }

  /** Two questions, for the SOA record of a zone and for records of a type that it lacks: the
      answer to the first is repeated in the authority section for the second. */
  lemma SoaIsRepeated(cb: Table, offs: nat, addr: Name -> seq<Record>, edns: Option<nat>, rcode: nat, room: bool, udp: Option<nat>)
    requires ValidTable(cb) && AddressBook(addr)
    requires ValidSteps(Plan([InAnswer(SmallSoa()), ForAuthority(SmallSoa())], AllFound, addr, edns, rcode, room))
    ensures var found := [InAnswer(SmallSoa()), ForAuthority(SmallSoa())];
      Repeats(RecordsOf(Kept(cb, offs, Plan(found, AllFound, addr, edns, rcode, room), udp)))
  {
    var r := SmallSoa();
    var found := [InAnswer(r), ForAuthority(r)];
    hide SmallSoa;
    SoaFound(r);
    hide *;
    MessageRepeats(cb, offs, found, addr, edns, rcode, room, udp);
  }

  lemma SoaFound(r: Record)
    requires ValidRecord(r) && r.tp == T_SOA
    ensures var found := [InAnswer(r), ForAuthority(r)];
      ValidFound(found) && SoaTwice(found)
  {
    var found := [InAnswer(r), ForAuthority(r)];
    assert found[..1] == [InAnswer(r)] && found[..1][..0] == [];
    WantedSoa(r);
    AnswerSoa(r);
    hide *;
    AlikeLaws(r, r, r);
    ListsMember([r], r, r);
    TwiceWanted(found, r);
  }

  lemma TwiceWanted(found: seq<Found>, r: Record)
    requires ValidFound(found) && r in AuthorityRecords(Wanted(found)) && r.tp == T_SOA && Listed(AnswerRecords(found), r)
    ensures SoaTwice(found)
  {}

  lemma AnswerSoa(r: Record)
    ensures AnswerRecords([InAnswer(r), ForAuthority(r)]) == [r]
  {
    var found := [InAnswer(r), ForAuthority(r)];
    assert found[..1] == [InAnswer(r)] && [InAnswer(r)][..0] == [];
    assert AnswerRecords([InAnswer(r)]) == [] + [r];
    assert AnswerRecords(found) == AnswerRecords([InAnswer(r)]) + [];
  }

  lemma WantedSoa(r: Record)
    requires ValidRecord(r) && r.tp == T_SOA
    ensures ValidFound([InAnswer(r), ForAuthority(r)])
    ensures AuthorityRecords(Wanted([InAnswer(r), ForAuthority(r)])) == [r]
  {
    var found := [InAnswer(r), ForAuthority(r)];
    hide ValidRecord;
    hide Server;
    assert found[..1] == [InAnswer(r)] && found[..1][..0] == [];
    assert Wanted(found[..1]) == [];
    assert [ExtAuth(r)][..0] == [];
  }

  /** A name server record, and the address of the server. */
  function ServerRecord(): (r: Record)
    ensures ValidRecord(r) && r.tp == T_NS && Parts(r) == [Dom(SERVER)]
  {
    var n: Name := [[97]];
    var ps := [Dom(n)];
    WireCons([97], []);
    assert [[97]] + [] == n;
    assert [DomainName][1..] == [] && ps[1..] == [];
    assert Fits([DomainName], ps);
    RootRecord(T_NS, ps);
    hide *;
    Record([], T_NS, 0, Flat(ps))
  }

  function AddressRecord(n: Name): (r: Record)
    requires ValidName(n)
    ensures ValidRecord(r) && r.tp == T_A && r.owner == n && |r.data| == 4
  {
    RestParses([192, 0, 2, 1]);
    assert WriteLayout(T_A) == [Rest];
    Record(n, T_A, 0, [192, 0, 2, 1])
  }

  const SERVER: Name := [[97]]

  /** The answer names a server whose address is cached; an OPT record would fit into the
      message, the address does not: it is taken back. */
  lemma AddressIsTakenBack(cb: Table, offs: nat, addr: Name -> seq<Record>, rcode: nat, limit: nat)
    requires ValidTable(cb) && AddressBook(addr) && ValidName(SERVER) && addr(SERVER) == [AddressRecord(SERVER)]
    requires limit == offs + |RecordBytes(cb, offs, ServerRecord())| + OPT_SIZE
    ensures var found, r := [InAnswer(ServerRecord())], AddressRecord(SERVER);
      && ValidFound(found) && ValidSteps(Plan(found, AllFound, addr, None, rcode, true)) && r in Addresses(Wanted(found), addr)
      && !Listed(RecordsOf(Kept(cb, offs, Plan(found, AllFound, addr, None, rcode, true), Some(limit))), r)
  {
    var ns, r := ServerRecord(), AddressRecord(SERVER);
    var found := [InAnswer(ns)];
    OneServer(ns, r, SERVER, addr, found);
    AddressSize(RecordTable(cb, offs, ns), offs + |RecordBytes(cb, offs, ns)|, r);
    assert OPT_SIZE < 1 + HDR + 4;
    hide *;
    ServerPlan(ns, r, addr, rcode, found);
    LastIsTaken(cb, offs, ns, r, limit);
    MissingFrom(cb, offs, found, addr, rcode, Some(limit), r);
  }

  lemma MissingFrom(cb: Table, offs: nat, found: seq<Found>, addr: Name -> seq<Record>, rcode: nat, udp: Option<nat>, r: Record)
    requires ValidTable(cb) && AddressBook(addr) && ValidFound(found) && r in Addresses(Wanted(found), addr)
    requires ValidSteps(Plan(found, AllFound, addr, None, rcode, true))
    requires RecordsOf(Taken(cb, offs, Plan(found, AllFound, addr, None, rcode, true), udp)) == [r]
    ensures !Listed(RecordsOf(Kept(cb, offs, Plan(found, AllFound, addr, None, rcode, true), udp)), r)
  {
    hide *;
    AlikeLaws(r, r, r);
    ListsMember([r], r, r);
    MessageMissing(cb, offs, found, addr, None, rcode, true, udp, r);
  }

  lemma AddressSize(cb: Table, offs: nat, r: Record)
    requires ValidTable(cb) && ValidRecord(r) && r.tp == T_A && |r.data| == 4
    ensures |RecordBytes(cb, offs, r)| >= 1 + HDR + 4
  {
    assert ReadLayout(r.tp).None? && ValidName(r.owner);
    AddressParts(r);
    hide *;
    RecordSize(cb, offs, r);
    EmittedNotLonger(cb, r.owner);
    CopiedParts(Grown(cb, r.owner, offs), DataStart(cb, offs, r), r.tp, r.data);
  }

  lemma AddressParts(r: Record)
    requires ValidRecord(r) && r.tp == T_A
    ensures Parts(r) == [Raw(r.data)]
  {
    RestParses(r.data);
    assert WriteLayout(T_A) == [Rest];
    hide Parse;
  }

  /** A record that stays, and an address that is too much. */
  lemma LastIsTaken(cb: Table, offs: nat, ns: Record, r: Record, limit: nat)
    requires ValidTable(cb) && ValidRecord(ns) && ValidRecord(r)
    requires limit == offs + |RecordBytes(cb, offs, ns)| + OPT_SIZE
    requires |RecordBytes(RecordTable(cb, offs, ns), offs + |RecordBytes(cb, offs, ns)|, r)| > OPT_SIZE
    ensures ValidSteps([Rr(S_ANSWER, ns), Rr(S_ADDITIONAL, r)])
    ensures RecordsOf(Taken(cb, offs, [Rr(S_ANSWER, ns), Rr(S_ADDITIONAL, r)], Some(limit))) == [r]
  {
    var udp := Some(limit);
    var p := [Rr(S_ANSWER, ns), Rr(S_ADDITIONAL, r)];
    hide ValidRecord;
    hide RecordBytes;
    hide RecordTable;
    hide ValidTable;
    assert p[1..] == [p[1]] && p[1..][1..] == [];
    var cb1, o1 := StepTable(cb, offs, p[0]), offs + |OutBytes(cb, offs, p[0], udp)|;
    assert Taken(cb1, o1, p[1..], udp) == [p[1]];
    assert [p[1]][1..] == [];
    assert RecordsOf([p[1]]) == [r] + RecordsOf([]);
  }

  /** One name server, whose name is n, and its address. */
  ghost predicate ServerAndAddress(ns: Record, r: Record, addr: Name -> seq<Record>, found: seq<Found>)
  {
    && found == [InAnswer(ns)] && ValidFound(found) && r.tp == T_A && ns.tp == T_NS
    && AuthorityRecords(Wanted(found)) == [] && Addresses(Wanted(found), addr) == [r]
  }

  lemma OneServer(ns: Record, r: Record, n: Name, addr: Name -> seq<Record>, found: seq<Found>)
    requires ValidRecord(ns) && ns.tp == T_NS && Parts(ns) == [Dom(n)] && addr(n) == [r] && r.tp == T_A
    requires found == [InAnswer(ns)]
    ensures ServerAndAddress(ns, r, addr, found)
  {
    assert found[..0] == [];
    assert Server(ns) == n;
    hide ValidRecord;
    hide Server;
    var ar := [ExtAdd(n)];
    assert Wanted(found) == [] + ar;
    hide Wanted;
    assert ar[..0] == [];
    assert AuthorityRecords(ar) == [] + [];
    assert Addresses(ar, addr) == [] + [r];
  }

  /** The plan for them. */
  lemma ServerPlan(ns: Record, r: Record, addr: Name -> seq<Record>, rcode: nat, found: seq<Found>)
    requires ServerAndAddress(ns, r, addr, found)
    ensures ValidFound(found) && r in Addresses(Wanted(found), addr)
    ensures Plan(found, AllFound, addr, None, rcode, true) == [Rr(S_ANSWER, ns), Rr(S_ADDITIONAL, r)]
  {
    ServerSections(ns, r, addr, found);
    PlanParts(found, AllFound, addr, None, rcode, true);
    assert SecondSection(found, AllFound) == ForAuthoritySection(found);
    assert ThirdSection(found, AllFound, addr, true) == ForAdditionalSection(found, addr);
    hide *;
    OneEach(ns, r);
  }

  lemma ServerSections(ns: Record, r: Record, addr: Name -> seq<Record>, found: seq<Found>)
    requires ServerAndAddress(ns, r, addr, found)
    ensures ValidFound(found) && AnswerRecords(found) == [ns] && ForAuthoritySection(found) == []
    ensures ForAdditionalSection(found, addr) == [r]
  {
    assert found[..0] == [];
    assert AnswerRecords(found) == [] + [ns];
    assert Marked(found) == [] + [ns];
    hide Wanted;
    hide AnswerRecords;
    hide Marked;
    hide Addresses;
    hide AuthorityRecords;
    NoneYet(ns, r);
    assert ForAuthoritySection(found) == NewOnes([ns], []);
    assert Marked(found) + ForAuthoritySection(found) == [ns] + [];
    assert ForAdditionalSection(found, addr) == NewOnes([ns] + [], [r]);
  }

  lemma OneEach(ns: Record, r: Record)
    ensures InSect(S_ANSWER, [ns]) + InSect(S_AUTHORITY, []) + ([] + InSect(S_ADDITIONAL, [r]))
      == [Rr(S_ANSWER, ns), Rr(S_ADDITIONAL, r)]
  {}

  lemma NoneYet(ns: Record, r: Record)
    requires ns.tp == T_NS && r.tp == T_A
    ensures NewOnes([ns], []) == [] && NewOnes([ns] + [], [r]) == [r]
  {
    assert [r][..0] == [];
    assert NewOnes([ns] + [], []) == [];
    assert ([ns] + []) + [] == [ns];
    assert !Alike(ns, r);
    assert !Listed([ns], r);
  }
}
