/** A whole answer, written record by record (dns_answer.c): additional records that do not
    fit are taken back, and what remains reads back. */
module AnswerRun {
  import opened DnsConstants
  import opened Names
  import opened NameCodec
  import opened NameCompression
  import opened CompressionRoundTrip
  import opened RecordData
  import opened RecordCodec
  import opened RecordRoundTrip
  import opened RRTypes

  datatype Section = S_ANSWER | S_AUTHORITY | S_ADDITIONAL

  /** One thing that is added to the answer. */
  datatype Step =
    | Question(name: Name, qtype: int, qclass: int)
    | Rr(sect: Section, r: Record)
    | Opt(udpsize: int, rcode: int, version: int, zflags: int)

  predicate ValidStep(s: Step)
  {
    match s
    case Question(name, _, _) => ValidName(name)
    case Rr(_, r) => ValidRecord(r)
    case Opt(udpsize, rcode, version, zflags) => 0 <= udpsize < 0x1_0000 && rcode >= 0 && version >= 0
  }

  /** add_opt_pseudo_rr */
  function OptBytes(udpsize: int, rcode: nat, version: nat, zflags: int): (b: seq<byte>)
    ensures |b| == 11
  {
    [0] + Put16(T_OPT) + Put16(udpsize) + [rcode / 16 % 256, version % 256] + Put16(zflags) + Put16(0)
  }

  /** The bytes that are appended at offs, before it is known whether they fit. */
  function StepBytes(cb: Table, offs: nat, s: Step): (b: seq<byte>)
    requires ValidTable(cb) && ValidStep(s)
  {
    match s
    case Question(name, qtype, qclass) => Emitted(cb, name) + Put16(qtype) + Put16(qclass)
    case Rr(_, r) => RecordBytes(cb, offs, r)
    case Opt(udpsize, rcode, version, zflags) => OptBytes(udpsize, rcode, version, zflags)
  }

  function StepTable(cb: Table, offs: nat, s: Step): (cb': Table)
    requires ValidTable(cb) && ValidStep(s)
    ensures ValidTable(cb') && cb <= cb'
  {
    match s
    case Question(name, _, _) => Grown(cb, name, offs)
    case Rr(_, r) => RecordTable(cb, offs, r)
    case Opt(_, _, _, _) => cb
  }

  /** Additional records that would exceed the UDP limit are taken back; the compression list
      is not. */
  predicate TakenBack(cb: Table, offs: nat, s: Step, udp: Option<nat>)
    requires ValidTable(cb) && ValidStep(s)
  {
    s.Rr? && s.sect.S_ADDITIONAL? && udp.Some? && offs + |StepBytes(cb, offs, s)| > udp.value
  }

  function OutBytes(cb: Table, offs: nat, s: Step, udp: Option<nat>): (b: seq<byte>)
    requires ValidTable(cb) && ValidStep(s)
  {
    if TakenBack(cb, offs, s, udp) then [] else StepBytes(cb, offs, s)
  }

  predicate ValidSteps(steps: seq<Step>) { forall i :: 0 <= i < |steps| ==> ValidStep(steps[i]) }

  function RunBytes(cb: Table, offs: nat, steps: seq<Step>, udp: Option<nat>): (b: seq<byte>)
    requires ValidTable(cb) && ValidSteps(steps)
    decreases |steps|
  {
    if steps == [] then []
    else
      var b := OutBytes(cb, offs, steps[0], udp);
      b + RunBytes(StepTable(cb, offs, steps[0]), offs + |b|, steps[1..], udp)
  }

  function RunTable(cb: Table, offs: nat, steps: seq<Step>, udp: Option<nat>): (cb': Table)
    requires ValidTable(cb) && ValidSteps(steps)
    ensures ValidTable(cb')
    decreases |steps|
  {
    if steps == [] then cb
    else
      var b := OutBytes(cb, offs, steps[0], udp);
      RunTable(StepTable(cb, offs, steps[0]), offs + |b|, steps[1..], udp)
  }

  /** The steps that left something in the message. */
  function Kept(cb: Table, offs: nat, steps: seq<Step>, udp: Option<nat>): (k: seq<Step>)
    requires ValidTable(cb) && ValidSteps(steps)
    decreases |steps|
  {
    if steps == [] then []
    else
      var b := OutBytes(cb, offs, steps[0], udp);
      (if TakenBack(cb, offs, steps[0], udp) then [] else [steps[0]])
      + Kept(StepTable(cb, offs, steps[0]), offs + |b|, steps[1..], udp)
  }

  // ---- Taking a record back

  /** This name would be written as a bare pointer, or nothing can point to it any more. */
  predicate Known(cb: Table, offs: nat, name: Name)
    requires ValidTable(cb)
  {
    name == [] || Choose(cb, |cb|, name).longest == |name| || offs > MAXPTR
  }

  lemma NewElementLiteral(cb: Table, name: Name, offs: nat, m: nat)
    requires ValidTable(cb) && ValidName(name) && Grown(cb, name, offs) != cb
    ensures var cb' := Grown(cb, name, offs);
      && cb' == cb + [CompEl(offs, name)]
      && (Literal(cb', |cb|, m) <==> m <= |name| && m > Choose(cb, |cb|, name).longest)
      && (m <= |name| ==> SuffixPos(cb', |cb|, m) == offs + Offset(name, |name| - m))
  {
    hide Choose;
    hide Offset;
    ChoosePrefix(cb, [CompEl(offs, name)], |cb|, name);
  }

  /** An element for bytes that were taken back does no harm exactly when no pointer to them
      can be made. */
  lemma TakeBackConsistent(base: seq<byte>, cb: Table, name: Name)
    requires Consistent(base, cb) && ValidName(name)
    ensures Consistent(base, Grown(cb, name, |base|)) <==> Known(cb, |base|, name)
  {
    var cb' := Grown(cb, name, |base|);
    if cb' != cb {
      NewElementLiteral(cb, name, |base|, |name|);
      hide Grown;
      if Known(cb, |base|, name) {
        KnownConsistent(base, cb, name, cb');
      } else {
        OffsetStart(name);
        assert Literal(cb', |cb|, |name|);
        assert !Reads(base, |base|, Suffix(name, |name|), |name| - 1);
      }
    } else {
      assert Choose(cb, |cb|, name).longest == |name|;
    }
  }

  lemma OffsetStart(name: Name)
    requires ValidLabels(name)
    ensures Offset(name, 0) == 0
  {}

  lemma KnownConsistent(base: seq<byte>, cb: Table, name: Name, cb': Table)
    requires Consistent(base, cb) && ValidName(name) && cb' == cb + [CompEl(|base|, name)]
    requires name == [] || |base| > MAXPTR
    ensures Consistent(base, cb')
  {
    hide DecodeAt;
    hide Choose;
    hide Offset;
    hide FoldName;
    hide WirePrefix;
    var e := CompEl(|base|, name);
    forall i, m | 0 <= i < |cb'| && 0 <= m && Literal(cb', i, m)
      ensures i < |cb| || |base| > MAXPTR
      ensures SuffixPos(cb', i, m) <= MAXPTR ==> Reads(base, SuffixPos(cb', i, m), Suffix(cb'[i].name, m), m - 1)
      ensures SuffixPos(cb', i, m) > MAXPTR ==> |base| > MAXPTR
    {
      if i < |cb| { LiteralPrefix(cb, e, i, m); }
    }
    forall i, m, j | 0 <= i < j < |cb'| && 0 <= m && Literal(cb', i, m) && SuffixPos(cb', i, m) > MAXPTR
      ensures cb'[j].index > MAXPTR
    {
      LiteralPrefix(cb, e, i, m);
    }
  }

  // ---- Names that were written once stay known

  lemma {:induction false} ChooseMonotone(cb: Table, n: nat, m: nat, name: Name)
    requires ValidTable(cb) && n <= m <= |cb|
    ensures Choose(cb, n, name).longest <= Choose(cb, m, name).longest
    decreases m
  {
    hide Match;
    hide Offset;
    if n < m { ChooseMonotone(cb, n, m - 1, name); }
  }

  lemma KnownGrows(cb: Table, cb': Table, offs: nat, offs': nat, name: Name)
    requires ValidTable(cb) && ValidTable(cb') && cb <= cb' && offs <= offs' && Known(cb, offs, name)
    ensures Known(cb', offs', name)
  {
    assert cb' == cb + cb'[|cb|..];
    ChoosePrefix(cb, cb'[|cb|..], |cb|, name);
    ChooseMonotone(cb', |cb|, |cb'|, name);
  }

  /** A name is known once it has been written. */
  lemma WrittenKnown(cb: Table, offs: nat, name: Name)
    requires ValidTable(cb) && ValidName(name)
    ensures Known(Grown(cb, name, offs), offs, name)
  {
    var cb' := Grown(cb, name, offs);
    if cb' != cb && name != [] {
      NewElementLiteral(cb, name, offs, |name|);
      OffsetStart(name);
      MatchItself(name);
      Considered(cb', |cb'|, name, |cb|);
    }
  }

  lemma {:induction false} MatchItself(name: Name)
    ensures Match(name, name) == |name|
  {
    MatchAll(name, |name|);
  }

  lemma {:induction false} MatchAll(name: Name, m: nat)
    requires m <= |name|
    ensures Match(name, name) >= m
  {
    if m > 0 {
      MatchAll(name, m - 1);
      MatchExtends(name, name, m - 1);
    }
  }

  lemma PartWritten(cb: Table, offs: nat, p: Part)
    requires ValidTable(cb) && p.Dom? && ValidName(p.name)
    ensures Known(PartTable(cb, offs, p), offs, p.name)
  {
    WrittenKnown(cb, offs, p.name);
  }

  lemma {:induction false} PartsKnown(cb: Table, offs: nat, ps: seq<Part>, i: nat)
    requires ValidTable(cb) && ValidParts(ps) && i < |ps| && ps[i].Dom?
    ensures Known(PartsTable(cb, offs, ps), offs + |PartsBytes(cb, offs, ps)|, ps[i].name)
    decreases |ps|
  {
    hide Known;
    hide PartsTable;
    hide PartsBytes;
    hide Flat;
    hide PartBytes;
    hide PartTable;
    hide PartFlat;
    hide ValidTable;
    PartsStep(cb, offs, ps);
    var cb1, o1 := PartTable(cb, offs, ps[0]), offs + |PartBytes(cb, ps[0])|;
    if i == 0 {
      PartWritten(cb, offs, ps[0]);
      KnownGrows(cb1, PartsTable(cb1, o1, ps[1..]), offs, o1 + |PartsBytes(cb1, o1, ps[1..])|, ps[0].name);
    } else {
      PartsKnown(cb1, o1, ps[1..], i - 1);
    }
  }

  /** The record types whose data names a server: its addresses become additional records. */
  predicate NamesServer(tp: int) { tp in {T_NS, T_MD, T_MF, T_MB, T_MX, T_SRV} }

  /** Where the name stands in the data (ar_offs). */
  function ServerOffset(tp: int): nat { if tp == T_MX then 2 else if tp == T_SRV then 6 else 0 }

  /** The server that a record names. */
  function Server(r: Record): (n: Name)
    requires ValidRecord(r) && NamesServer(r.tp)
    ensures ValidName(n) && |Parts(r)| > 0 && Parts(r)[|Parts(r)| - 1] == Dom(n)
  {
    hide *;
    ServerPart(r);
    Parts(r)[|WriteLayout(r.tp)| - 1].name
  }

  lemma LastName(l: seq<Seg>, ps: seq<Part>)
    requires Fits(l, ps) && |l| > 0 && l[|l| - 1] == DomainName
    requires |l| == 1 || (|l| == 2 && l[0].Fixed?)
    ensures ValidParts(ps) && |ps| == |l| && ps[|l| - 1].Dom? && ValidName(ps[|l| - 1].name)
    ensures var k := if |l| == 1 then 0 else l[0].n;
      k <= |Flat(ps)| && Flat(ps)[k..] == Wire(ps[|l| - 1].name)
  {
    FitsValid(l, ps);
    assert Flat(ps) == PartFlat(ps[0]) + Flat(ps[1..]);
    if |l| == 1 {
      assert ps[1..] == [];
    } else {
      assert Fits(l[1..], ps[1..]);
      assert Flat(ps[1..]) == PartFlat(ps[1]) + Flat(ps[1..][1..]);
      assert ps[1..][1..] == [];
      assert Flat(ps[1..]) == Wire(ps[1].name);
    }
  }

  lemma ServerPart(r: Record)
    requires ValidRecord(r) && NamesServer(r.tp)
    ensures var ps, k := Parts(r), |WriteLayout(r.tp)| - 1;
      && |ps| == k + 1 && k >= 0 && ps[k].Dom? && ValidName(ps[k].name)
      && ServerOffset(r.tp) <= |r.data| && r.data[ServerOffset(r.tp)..] == Wire(ps[k].name)
  {
    hide Fits;
    hide Flat;
    hide Parse;
    ParseFlat(WriteLayout(r.tp), r.data);
    LastName(WriteLayout(r.tp), Parts(r));
  }

  /** The server of a record is known once the record has been written. */
  lemma ServerKnown(cb: Table, offs: nat, r: Record)
    requires ValidTable(cb) && ValidRecord(r) && NamesServer(r.tp)
    ensures Known(RecordTable(cb, offs, r), offs + |RecordBytes(cb, offs, r)|, Server(r))
  {
    hide *;
    RecordEnd(cb, offs, r);
    ServerPart(r);
    PartsKnown(Grown(cb, r.owner, offs), DataStart(cb, offs, r), Parts(r), |WriteLayout(r.tp)| - 1);
  }

  lemma RecordEnd(cb: Table, offs: nat, r: Record)
    requires ValidTable(cb) && ValidRecord(r)
    ensures ValidName(r.owner) && ValidData(r.tp, r.data)
    ensures var cb1, o := Grown(cb, r.owner, offs), DataStart(cb, offs, r);
      && RecordTable(cb, offs, r) == PartsTable(cb1, o, Parts(r))
      && offs + |RecordBytes(cb, offs, r)| == o + |PartsBytes(cb1, o, Parts(r))|
  {
    hide PartsTable;
    hide PartsBytes;
    hide Emitted;
    hide Grown;
    hide Parts;
    hide ValidData;
    hide RecordHeader;
  }

  // ---- What every step keeps

  predicate IsAddress(tp: int) { tp == T_A || tp == T_AAAA }

  /** Additional records are addresses of servers that are known by then. */
  predicate StepOk(cb: Table, offs: nat, s: Step)
    requires ValidTable(cb) && ValidStep(s)
  {
    s.Rr? && s.sect.S_ADDITIONAL? ==> IsAddress(s.r.tp) && Known(cb, offs, s.r.owner)
  }

  lemma AddressTable(cb: Table, offs: nat, r: Record)
    requires ValidTable(cb) && ValidRecord(r) && IsAddress(r.tp)
    ensures RecordTable(cb, offs, r) == Grown(cb, r.owner, offs)
  {
    hide Grown;
    hide Emitted;
    assert ReadLayout(r.tp).None?;
    CopiedParts(Grown(cb, r.owner, offs), DataStart(cb, offs, r), r.tp, r.data);
    hide PartsBytes;
    hide PartsTable;
  }

  /** Whatever is added, and whether or not it is taken back, the compression list agrees with
      the message. */
  lemma StepConsistent(base: seq<byte>, cb: Table, s: Step, udp: Option<nat>)
    requires Consistent(base, cb) && ValidStep(s) && ValidTable(cb) && StepOk(cb, |base|, s)
    ensures Consistent(base + OutBytes(cb, |base|, s, udp), StepTable(cb, |base|, s))
  {
    hide Consistent;
    hide ValidTable;
    hide Known;
    hide Emitted;
    hide Grown;
    hide RecordBytes;
    hide RecordTable;
    hide OptBytes;
    hide ValidRecord;
    hide ValidName;
    match s
    case Question(name, qtype, qclass) =>
      GrownConsistent(base, cb, name);
      ConsistentExtend(base + Emitted(cb, name), Put16(qtype) + Put16(qclass), Grown(cb, name, |base|));
      assert base + Emitted(cb, name) + (Put16(qtype) + Put16(qclass)) == base + (Emitted(cb, name) + Put16(qtype) + Put16(qclass));
    case Rr(sect, r) =>
      if TakenBack(cb, |base|, s, udp) {
        AddressTable(cb, |base|, r);
        OwnerValid(r);
        TakeBackConsistent(base, cb, r.owner);
        assert base + [] == base;
      } else {
        RecordReads(base, cb, r, []);
      }
    case Opt(udpsize, rcode, version, zflags) =>
      ConsistentExtend(base, OptBytes(udpsize, rcode, version, zflags), cb);
  }

  lemma OwnerValid(r: Record)
    requires ValidRecord(r)
    ensures ValidName(r.owner)
  {}

  // ---- Reading the whole answer

  /** The items that rrs2cent finds when it reads n of them. */
  function ReadItems(msg: seq<byte>, pos: nat, n: nat): (items: Option<seq<ReadResult>>)
    requires pos <= |msg|
    decreases n
  {
    if n == 0 then Some([])
    else
      var h := ReadRecord(msg, pos);
      if !(h.GotRecord? || h.GotOpt? || h.Ignored?) || h.next > |msg| then None
      else match ReadItems(msg, h.next, n - 1)
        case None => None
        case Some(t) => Some([h] + t)
  }

  /** What is read is what was written, names up to case. */
  predicate SameItem(s: Step, i: ReadResult)
  {
    match s
    case Question(_, _, _) => false
    case Rr(_, r) => i.GotRecord? && SameRecord(r, i.r)
    case Opt(udpsize, _, _, _) => i.GotOpt? && i.cls == udpsize
  }

  lemma OptReads(base: seq<byte>, s: Step, x: seq<byte>)
    requires s.Opt? && ValidStep(s)
    ensures var i := ReadRecord(base + OptBytes(s.udpsize, s.rcode, s.version, s.zflags) + x, |base|);
      SameItem(s, i) && i.next == |base| + 11
  {
    var o := OptBytes(s.udpsize, s.rcode, s.version, s.zflags);
    var msg := base + o + x;
    var p := |base| + 1;
    forall i | 0 <= i < 11 ensures msg[|base| + i] == o[i] {}
    assert DecodeAt(msg, |base|, 255) == Some([]) && Extent(msg, |base|) == 1;
    assert FieldName(msg, |base|, |msg| - |base|) == Some([]);
    hide DecodeAt;
    hide Extent;
    hide FieldName;
    GetPut16(msg, p, T_OPT);
    GetPut16(msg, p + 2, s.udpsize);
    GetPut16(msg, p + 8, 0);
    hide ReadData;
  }

  /** RDLENGTH can hold the size of the data, if there are any. */
  predicate StepFits(s: Step) { s.Rr? ==> FitsRdlength(s.r) }

  predicate AllFit(ks: seq<Step>) { forall i :: 0 <= i < |ks| ==> StepFits(ks[i]) }

  /** One step that was kept reads back, whatever follows, exactly if it fits. */
  lemma StepReads(base: seq<byte>, cb: Table, s: Step, x: seq<byte>)
    requires Consistent(base, cb) && ValidTable(cb) && ValidStep(s) && !s.Question?
    ensures var b := StepBytes(cb, |base|, s);
      var i := ReadRecord(base + b + x, |base|);
      && (SameItem(s, i) <==> StepFits(s))
      && (StepFits(s) ==> (i.GotRecord? || i.GotOpt?) && i.next == |base| + |b|)
  {
    hide Consistent;
    hide ValidTable;
    hide ReadRecord;
    hide RecordBytes;
    hide OptBytes;
    hide SameRecord;
    hide ValidRecord;
    hide FitsRdlength;
    if s.Rr? { RecordReads(base, cb, s.r, x); } else { OptReads(base, s, x); }
  }

  /** Every additional record is the address of a server that is known when it is added. */
  ghost predicate RunOk(cb: Table, offs: nat, steps: seq<Step>, udp: Option<nat>)
    requires ValidTable(cb) && ValidSteps(steps)
    decreases |steps|
  {
    steps == [] ||
    (StepOk(cb, offs, steps[0]) &&
     RunOk(StepTable(cb, offs, steps[0]), offs + |OutBytes(cb, offs, steps[0], udp)|, steps[1..], udp))
  }

  predicate SameItems(ks: seq<Step>, items: seq<ReadResult>)
  {
    |ks| == |items| && forall i :: 0 <= i < |ks| ==> SameItem(ks[i], items[i])
  }

  lemma RunStep(cb: Table, offs: nat, steps: seq<Step>, udp: Option<nat>)
    requires ValidTable(cb) && ValidSteps(steps) && steps != []
    ensures var b := OutBytes(cb, offs, steps[0], udp);
      var cb1 := StepTable(cb, offs, steps[0]);
      && RunBytes(cb, offs, steps, udp) == b + RunBytes(cb1, offs + |b|, steps[1..], udp)
      && RunTable(cb, offs, steps, udp) == RunTable(cb1, offs + |b|, steps[1..], udp)
      && Kept(cb, offs, steps, udp) ==
           (if TakenBack(cb, offs, steps[0], udp) then [] else [steps[0]]) + Kept(cb1, offs + |b|, steps[1..], udp)
      && (RunOk(cb, offs, steps, udp) <==> StepOk(cb, offs, steps[0]) && RunOk(cb1, offs + |b|, steps[1..], udp))
  {
    hide OutBytes;
    hide StepTable;
    hide TakenBack;
    hide StepOk;
    hide ValidStep;
    hide ValidTable;
  }

  /** Answer round trip: whatever records are added, and whichever of the additional ones are
      taken back for lack of space, reading the finished message finds exactly the records
      that were kept, in order, if and only if RDLENGTH can hold the size of the data of each
      of them. */
  lemma {:induction false} AnswerReads(base: seq<byte>, cb: Table, steps: seq<Step>, udp: Option<nat>)
    requires Consistent(base, cb) && ValidTable(cb) && ValidSteps(steps) && RunOk(cb, |base|, steps, udp)
    requires forall i :: 0 <= i < |steps| ==> !steps[i].Question?
    ensures var msg, ks := base + RunBytes(cb, |base|, steps, udp), Kept(cb, |base|, steps, udp);
      var items := ReadItems(msg, |base|, |ks|);
      && (items.Some? && SameItems(ks, items.value) <==> AllFit(ks))
      && Consistent(msg, RunTable(cb, |base|, steps, udp))
    decreases |steps|
  {
    hide ReadItems;
    hide StepFits;
    hide TakenBack;
    hide Consistent;
    hide ValidTable;
    hide ReadRecord;
    hide OutBytes;
    hide StepTable;
    hide SameItem;
    hide ValidStep;
    hide RunBytes;
    hide RunTable;
    hide RunOk;
    hide Kept;
    if steps == [] {
      RunNothing(base, cb, udp);
    } else {
      RunStep(cb, |base|, steps, udp);
      var s := steps[0];
      var b, cb1 := OutBytes(cb, |base|, s, udp), StepTable(cb, |base|, s);
      var t := RunBytes(cb1, |base| + |b|, steps[1..], udp);
      StepConsistent(base, cb, s, udp);
      AnswerReads(base + b, cb1, steps[1..], udp);
      assert base + b + t == base + (b + t);
      OutReads(base, cb, s, udp, t);
      var ks := Kept(cb1, |base| + |b|, steps[1..], udp);
      if TakenBack(cb, |base|, s, udp) {
        assert base + b == base;
        assert [] + ks == ks;
      } else {
        ItemsStep(base + (b + t), |base|, s, ks, |base + b|);
      }
    }
  }

  /** What was kept is among what was added. */
  lemma {:induction false} KeptFits(cb: Table, offs: nat, steps: seq<Step>, udp: Option<nat>)
    requires ValidTable(cb) && ValidSteps(steps) && AllFit(steps)
    ensures AllFit(Kept(cb, offs, steps, udp))
    decreases |steps|
  {
    hide OutBytes;
    hide StepTable;
    hide TakenBack;
    hide StepFits;
    hide ValidStep;
    hide ValidTable;
    if steps != [] {
      KeptFits(StepTable(cb, offs, steps[0]), offs + |OutBytes(cb, offs, steps[0], udp)|, steps[1..], udp);
    }
  }

  /** The first item and the others. */
  lemma ItemsStep(msg: seq<byte>, pos: nat, s: Step, ks: seq<Step>, next: nat)
    requires pos <= next <= |msg|
    requires var h := ReadRecord(msg, pos);
      && (SameItem(s, h) <==> StepFits(s))
      && (StepFits(s) ==> (h.GotRecord? || h.GotOpt?) && h.next == next)
    requires var t := ReadItems(msg, next, |ks|);
      t.Some? && SameItems(ks, t.value) <==> AllFit(ks)
    ensures var items := ReadItems(msg, pos, |[s] + ks|);
      items.Some? && SameItems([s] + ks, items.value) <==> AllFit([s] + ks)
  {
    hide ReadRecord;
    hide SameItem;
    hide StepFits;
    var items := ReadItems(msg, pos, |[s] + ks|);
    var t := ReadItems(msg, next, |ks|);
    if items.Some? && SameItems([s] + ks, items.value) {
      assert SameItem(([s] + ks)[0], items.value[0]);
      SameTail(s, ks, items.value[0], items.value[1..]);
      assert items == Some([ReadRecord(msg, pos)] + t.value);
      AllFitCons(s, ks);
    }
    if AllFit([s] + ks) {
      AllFitCons(s, ks);
      SameCons(s, ks, ReadRecord(msg, pos), t.value);
    }
  }

  lemma AllFitCons(s: Step, ks: seq<Step>)
    ensures AllFit([s] + ks) <==> StepFits(s) && AllFit(ks)
  {
    hide StepFits;
    if AllFit([s] + ks) {
      assert StepFits(([s] + ks)[0]);
      forall i | 0 <= i < |ks| ensures StepFits(ks[i]) { assert StepFits(([s] + ks)[i + 1]); }
    }
  }

  lemma SameCons(s: Step, ks: seq<Step>, h: ReadResult, t: seq<ReadResult>)
    requires SameItem(s, h) && SameItems(ks, t)
    ensures SameItems([s] + ks, [h] + t)
  {
    hide SameItem;
  }

  lemma SameTail(s: Step, ks: seq<Step>, h: ReadResult, t: seq<ReadResult>)
    requires SameItems([s] + ks, [h] + t)
    ensures SameItem(s, h) && SameItems(ks, t)
  {
    hide SameItem;
    assert SameItem(([s] + ks)[0], ([h] + t)[0]);
    forall i | 0 <= i < |ks| ensures SameItem(ks[i], t[i]) { assert SameItem(([s] + ks)[i + 1], ([h] + t)[i + 1]); }
  }

  lemma RunNothing(base: seq<byte>, cb: Table, udp: Option<nat>)
    requires ValidTable(cb)
    ensures base + RunBytes(cb, |base|, [], udp) == base && Kept(cb, |base|, [], udp) == []
    ensures RunTable(cb, |base|, [], udp) == cb
    ensures ReadItems(base, |base|, 0) == Some([]) && SameItems([], []) && AllFit([])
  {}

  lemma OutReads(base: seq<byte>, cb: Table, s: Step, udp: Option<nat>, x: seq<byte>)
    requires Consistent(base, cb) && ValidTable(cb) && ValidStep(s) && !s.Question?
    ensures var b := OutBytes(cb, |base|, s, udp);
      if TakenBack(cb, |base|, s, udp) then b == []
      else var i := ReadRecord(base + b + x, |base|);
        && (SameItem(s, i) <==> StepFits(s))
        && (StepFits(s) ==> (i.GotRecord? || i.GotOpt?) && i.next == |base| + |b|)
  {
    hide Consistent;
    hide ValidTable;
    hide ReadRecord;
    hide SameItem;
    hide StepFits;
    hide ValidStep;
    hide StepBytes;
    StepReads(base, cb, s, x);
  }

  /** One more step at the end of a run. */
  lemma {:induction false} RunSnoc(cb: Table, offs: nat, steps: seq<Step>, s: Step, udp: Option<nat>)
    requires ValidTable(cb) && ValidSteps(steps) && ValidStep(s)
    ensures ValidSteps(steps + [s])
    ensures var b, cb1 := RunBytes(cb, offs, steps, udp), RunTable(cb, offs, steps, udp);
      var all := steps + [s];
      && RunBytes(cb, offs, all, udp) == b + OutBytes(cb1, offs + |b|, s, udp)
      && RunTable(cb, offs, all, udp) == StepTable(cb1, offs + |b|, s)
      && Kept(cb, offs, all, udp) ==
           Kept(cb, offs, steps, udp) + (if TakenBack(cb1, offs + |b|, s, udp) then [] else [s])
      && (RunOk(cb, offs, all, udp) <==> RunOk(cb, offs, steps, udp) && StepOk(cb1, offs + |b|, s))
    decreases |steps|
  {
    hide OutBytes;
    hide StepTable;
    hide TakenBack;
    hide StepOk;
    hide ValidStep;
    hide ValidTable;
    var all := steps + [s];
    hide RunBytes;
    hide RunTable;
    hide Kept;
    hide RunOk;
    RunStep(cb, offs, all, udp);
    if steps == [] {
      assert all[1..] == [];
      RunEmpty(cb, offs, udp);
      RunEmpty(StepTable(cb, offs, s), offs + |OutBytes(cb, offs, s, udp)|, udp);
    } else {
      RunStep(cb, offs, steps, udp);
      var b, cb1 := OutBytes(cb, offs, steps[0], udp), StepTable(cb, offs, steps[0]);
      RunSnoc(cb1, offs + |b|, steps[1..], s, udp);
      assert all[1..] == steps[1..] + [s];
    }
  }

  lemma RunEmpty(cb: Table, offs: nat, udp: Option<nat>)
    requires ValidTable(cb)
    ensures RunBytes(cb, offs, [], udp) == [] && RunTable(cb, offs, [], udp) == cb && Kept(cb, offs, [], udp) == []
    ensures RunOk(cb, offs, [], udp)
  {}
}
