/** Records that add_rr has written are read back by rrs2cent. */
module RecordRoundTrip {
  import opened DnsConstants
  import opened Names
  import opened NameCodec
  import opened NameCompression
  import opened CompressionRoundTrip
  import opened RecordData
  import opened RecordCodec
  import opened RRTypes

  // ---- Data

  lemma NameReads(base: seq<byte>, cb: Table, n: Name, x: seq<byte>, sz: nat)
    requires Consistent(base, cb) && ValidName(n) && |Emitted(cb, n)| <= sz
    ensures FieldReads(base + Emitted(cb, n) + x, |base|, sz, n, |Emitted(cb, n)|)
  {
    hide Consistent;
    hide Emitted;
    hide Grown;
    hide FieldReads;
    var m, p := Message(base, cb), Placement([], n);
    ConsistentTable(base, cb);
    PutReads(m, p, x, sz);
    assert base + [] == base;
  }

  lemma ConsistentTable(base: seq<byte>, cb: Table)
    requires Consistent(base, cb)
    ensures ValidTable(cb) && ValidMessage(Message(base, cb))
  {}

  lemma PartConsistent(base: seq<byte>, cb: Table, p: Part)
    requires Consistent(base, cb) && (p.Dom? ==> ValidName(p.name))
    ensures Consistent(base + PartBytes(cb, p), PartTable(cb, |base|, p))
  {
    ConsistentTable(base, cb);
    hide Consistent;
    hide Emitted;
    hide Grown;
    match p
    case Raw(b) => ConsistentExtend(base, b, cb);
    case Dom(n) => GrownConsistent(base, cb, n);
  }

  lemma RawHeadReads(base: seq<byte>, s: Seg, b: seq<byte>, x: seq<byte>, sz: nat)
    requires PartFits(s, Raw(b)) && |b| <= sz <= |b| + |x| && (s.Rest? ==> sz == |b|)
    ensures ReadHead(base + b + x, |base|, sz, s) == Some(Chunk(Raw(b), |b|))
  {
    hide FieldName;
    hide Extent;
    var msg := base + b + x;
    assert msg[|base|..|base| + |b|] == b;
    if s.Strings? {
      StringsEndExtend(b, x[..sz - |b|], 4, 3);
      hide StringsEnd;
      assert msg[|base|..|base| + sz] == b + x[..sz - |b|];
    }
  }

  lemma NameHeadReads(base: seq<byte>, cb: Table, n: Name, x: seq<byte>, sz: nat)
    requires Consistent(base, cb) && ValidName(n) && |Emitted(cb, n)| <= sz <= |Emitted(cb, n)| + |x|
    ensures var h := ReadHead(base + Emitted(cb, n) + x, |base|, sz, DomainName);
      h.Some? && h.value.used == |Emitted(cb, n)| && SamePart(Dom(n), h.value.part)
  {
    NameReads(base, cb, n, x, sz);
    hide Consistent;
    hide Emitted;
    hide FieldName;
    hide Extent;
  }

  /** One part reads back, up to case, and takes exactly the bytes that were written. */
  lemma HeadReads(base: seq<byte>, cb: Table, s: Seg, p: Part, x: seq<byte>, sz: nat)
    requires Consistent(base, cb) && PartFits(s, p)
    requires |PartBytes(cb, p)| <= sz && sz <= |PartBytes(cb, p)| + |x| && (s.Rest? ==> sz == |PartBytes(cb, p)|)
    ensures var b := PartBytes(cb, p);
      var h := ReadHead(base + b + x, |base|, sz, s);
      h.Some? && h.value.used == |b| && SamePart(p, h.value.part)
  {
    hide Consistent;
    hide Emitted;
    hide ReadHead;
    if s.DomainName? { NameHeadReads(base, cb, p.name, x, sz); } else { RawHeadReads(base, s, p.bytes, x, sz); }
  }

  lemma Reorder(a: seq<byte>, b: seq<byte>, c: seq<byte>, d: seq<byte>)
    ensures a + (b + c) + d == (a + b) + c + d == a + b + (c + d)
  {}

  lemma NoPartsRead(base: seq<byte>, cb: Table, x: seq<byte>)
    requires Consistent(base, cb)
    ensures ValidTable(cb) && PartsBytes(cb, |base|, []) == [] && PartsTable(cb, |base|, []) == cb
    ensures base + [] == base && ReadParts(base + [] + x, |base|, 0, []) == Some([])
  {}

  lemma NothingAfterRest(l: seq<Seg>, ps: seq<Part>, cb: Table, offs: nat)
    requires ValidTable(cb) && Fits(l, ps) && ValidParts(ps) && ps != []
    ensures l != [] && PartFits(l[0], ps[0]) && Fits(l[1..], ps[1..])
    ensures l[0].Rest? ==> |l| == 1 && PartsBytes(cb, offs, ps[1..]) == []
  {}

  lemma {:induction false} PartsRead(base: seq<byte>, cb: Table, l: seq<Seg>, ps: seq<Part>, x: seq<byte>)
    requires Consistent(base, cb) && Fits(l, ps)
    ensures ValidTable(cb) && ValidParts(ps)
    ensures var b := PartsBytes(cb, |base|, ps);
      var r := ReadParts(base + b + x, |base|, |b|, l);
      && r.Some? && SameParts(ps, r.value)
      && Consistent(base + b, PartsTable(cb, |base|, ps))
    decreases |ps|, 1
  {
    hide Consistent;
    hide ReadParts;
    hide PartsBytes;
    hide PartsTable;
    ConsistentTable(base, cb);
    FitsValid(l, ps);
    if ps == [] {
      NoPartsRead(base, cb, x);
      assert l == [];
    } else {
      PartsStep(cb, |base|, ps);
      var b, cb1 := PartBytes(cb, ps[0]), PartTable(cb, |base|, ps[0]);
      PartsReadStep(base, cb, l, ps, x, b, cb1, PartsBytes(cb1, |base| + |b|, ps[1..]));
    }
  }

  lemma {:induction false} PartsReadStep(base: seq<byte>, cb: Table, l: seq<Seg>, ps: seq<Part>, x: seq<byte>,
                                         b: seq<byte>, cb1: Table, t: seq<byte>)
    requires Consistent(base, cb) && Fits(l, ps) && ps != [] && ValidTable(cb) && ValidParts(ps)
    requires b == PartBytes(cb, ps[0]) && cb1 == PartTable(cb, |base|, ps[0])
    requires t == PartsBytes(cb1, |base| + |b|, ps[1..])
    ensures var r := ReadParts(base + (b + t) + x, |base|, |b + t|, l);
      && r.Some? && SameParts(ps, r.value)
      && Consistent(base + (b + t), PartsTable(cb1, |base| + |b|, ps[1..]))
    decreases |ps|, 0
  {
    hide PartsBytes;
    hide PartsTable;
    hide PartBytes;
    hide PartTable;
    hide PartFits;
    hide Fits;
    hide Consistent;
    hide ReadHead;
    hide SamePart;
    NothingAfterRest(l, ps, cb1, |base| + |b|);
    PartConsistent(base, cb, ps[0]);
    HeadReads(base, cb, l[0], ps[0], t + x, |b + t|);
    Reorder(base, b, t, x);
    PartsRead(base + b, cb1, l[1..], ps[1..], x);
    assert base + b + t == base + (b + t);
  }

  lemma SameWireLength(a: Name, b: Name)
    requires ValidName(a) && ValidName(b) && SameName(a, b)
    ensures |Wire(a)| == |Wire(b)|
  {
    SameNameShape(a, b);
  }

  lemma {:induction false} SameFlatLength(ps: seq<Part>, qs: seq<Part>)
    requires ValidParts(ps) && ValidParts(qs) && SameParts(ps, qs)
    ensures |Flat(ps)| == |Flat(qs)|
  {
    if ps != [] {
      assert SamePart(ps[0], qs[0]);
      if ps[0].Dom? { SameWireLength(ps[0].name, qs[0].name); }
      SameFlatLength(ps[1..], qs[1..]);
    }
  }

  lemma ReadDataLaidOut(msg: seq<byte>, pos: nat, sz: nat, tp: int)
    requires pos + sz <= |msg| && ReadLayout(tp).Some?
    ensures ReadLayout(tp).value == WriteLayout(tp)
    ensures var d := FlatOf(ReadParts(msg, pos, sz, WriteLayout(tp)));
      ReadData(msg, pos, sz, tp) == if tp == T_NXT && d.Some? && |d.value| > 1040 then None else d
  {
    hide ReadParts;
    hide ReadEmbedded;
  }

  /** Types whose data is walked over. */
  lemma LaidOutDataReads(base: seq<byte>, cb: Table, tp: int, d: seq<byte>, x: seq<byte>)
    requires Consistent(base, cb) && ValidData(tp, d) && ReadLayout(tp).Some?
    ensures ValidTable(cb) && ValidParts(Parse(WriteLayout(tp), d).value)
    ensures var b := PartsBytes(cb, |base|, Parse(WriteLayout(tp), d).value);
      var r := ReadData(base + b + x, |base|, |b|, tp);
      r.Some? && SameData(tp, d, r.value)
  {
    ConsistentTable(base, cb);
    var l := WriteLayout(tp);
    hide Consistent;
    hide PartsBytes;
    hide ReadParts;
    hide Parse;
    hide Flat;
    hide WriteLayout;
    hide ReadLayout;
    hide ReadData;
    hide GatewayOk;
    hide Normal;
    hide SameParts;
    ParseFlat(l, d);
    var ps := Parse(l, d).value;
    PartsRead(base, cb, l, ps, x);
    var b := PartsBytes(cb, |base|, ps);
    var msg := base + b + x;
    ReadDataLaidOut(msg, |base|, |b|, tp);
    ReadFits(msg, |base|, |b|, l);
    var qs := ReadParts(msg, |base|, |b|, l).value;
    FlatParse(l, qs);
    SameFlatLength(ps, qs);
  }

  lemma SameDataItself(tp: int, d: seq<byte>)
    requires Parse(WriteLayout(tp), d).Some?
    ensures SameData(tp, d, d)
  {
    var ps := Parse(WriteLayout(tp), d).value;
    forall i | 0 <= i < |ps| ensures SamePart(ps[i], ps[i]) {}
  }

  /** Types whose data is copied. */
  lemma CopiedDataReads(base: seq<byte>, tp: int, d: seq<byte>, x: seq<byte>)
    requires ValidData(tp, d) && ReadLayout(tp).None?
    ensures ReadData(base + d + x, |base|, |d|, tp) == Some(d)
  {
    hide Normal;
    hide Parse;
    hide ReadParts;
    var msg := base + d + x;
    assert msg[|base|..|base| + |d|] == d;
    if tp == T_IPSECKEY {
      assert msg[|base| + 1] == d[1];
      assert msg[|base| + 3..|base| + |d|] == d[3..];
    } else if tp == T_RRSIG {
      assert msg[|base| + 18..|base| + |d|] == d[18..];
    } else if tp == T_NSEC {
      assert msg[|base| + 0..|base| + |d|] == d;
    }
  }

  lemma CopiedParts(cb: Table, offs: nat, tp: int, d: seq<byte>)
    requires ValidTable(cb) && ReadLayout(tp).None?
    ensures Parse(WriteLayout(tp), d) == Some([Raw(d)])
    ensures PartsBytes(cb, offs, [Raw(d)]) == d && PartsTable(cb, offs, [Raw(d)]) == cb
  {
    assert WriteLayout(tp) == [Rest];
    RestParses(d);
    assert d + [] == d;
    assert [Raw(d)][1..] == [];
  }

  /** The data of a record reads back, and the compression list stays consistent. */
  lemma DataReads(base: seq<byte>, cb: Table, r: Record, x: seq<byte>)
    requires Consistent(base, cb) && ValidRecord(r)
    ensures ValidTable(cb)
    ensures var b := PartsBytes(cb, |base|, Parts(r));
      var d := ReadData(base + b + x, |base|, |b|, r.tp);
      && d.Some? && SameData(r.tp, r.data, d.value)
      && Consistent(base + b, PartsTable(cb, |base|, Parts(r)))
  {
    ConsistentTable(base, cb);
    hide Consistent;
    hide PartsBytes;
    hide PartsTable;
    hide ReadData;
    hide SameData;
    hide Parse;
    hide ReadLayout;
    hide WriteLayout;
    ParseFlat(WriteLayout(r.tp), r.data);
    PartsRead(base, cb, WriteLayout(r.tp), Parts(r), x);
    if ReadLayout(r.tp).Some? {
      LaidOutDataReads(base, cb, r.tp, r.data, x);
    } else {
      CopiedParts(cb, |base|, r.tp, r.data);
      CopiedDataReads(base, r.tp, r.data, x);
      SameDataItself(r.tp, r.data);
    }
  }

  // ---- Records

  lemma HeaderReads(msg: seq<byte>, p: nat, tp: int, ttl: int, rdlen: int)
    requires p + HDR <= |msg| && msg[p..p + HDR] == RecordHeader(tp, ttl, rdlen)
    requires 0 <= tp < 0x1_0000 && 0 <= ttl < 0x1_0000_0000 && 0 <= rdlen
    ensures Get16(msg, p) == tp && Get16(msg, p + 2) == C_IN && Get32(msg, p + 4) == ttl
    ensures Get16(msg, p + 8) == rdlen % 0x1_0000
  {
    var w := msg[p..p + HDR];
    forall i | 0 <= i < HDR ensures msg[p + i] == w[i] {}
    assert msg[p + 4..p + 8] == w[4..8] == Put32(ttl);
    GetPut16(msg, p, tp);
    GetPut16(msg, p + 2, C_IN);
    GetPut32(msg, p + 4, ttl);
    GetPut16(msg, p + 8, rdlen);
  }

  lemma FixedFrom(msg: seq<byte>, p: nat, owner: Name, r: Record, rdlen: nat, d: seq<byte>)
    requires p + HDR + rdlen <= |msg| && msg[p..p + HDR] == RecordHeader(r.tp, r.ttl, rdlen)
    requires CachedType(r.tp) && 0 <= r.ttl < 0x1_0000_0000 && rdlen < 0x1_0000
    requires ReadData(msg, p + HDR, rdlen, r.tp) == Some(d)
    ensures ReadFixed(msg, p, owner) == GotRecord(Record(owner, r.tp, r.ttl, d), p + HDR + rdlen)
  {
    hide ReadData;
    hide RecordHeader;
    hide Get16;
    hide Get32;
    NoOpt(r.tp);
    HeaderReads(msg, p, r.tp, r.ttl, rdlen);
    hide CachedType;
  }

  lemma HeaderInPlace(base: seq<byte>, h: seq<byte>, d: seq<byte>, x: seq<byte>)
    requires |h| == HDR
    ensures var msg := base + h + d + x; |base| + HDR + |d| <= |msg| && msg[|base|..|base| + HDR] == h
  {}

  lemma DataFits(cb: Table, offs: nat, r: Record)
    requires ValidTable(cb) && ValidRecord(r) && FitsRdlength(r)
    ensures |PartsBytes(cb, offs, Parts(r))| <= |r.data| < 0x1_0000
  {
    ParseFlat(WriteLayout(r.tp), r.data);
    PartsNotLonger(cb, offs, Parts(r));
  }

  /** The fixed fields and the data, after the owner name. */
  lemma FixedReads(base: seq<byte>, cb: Table, r: Record, owner: Name, x: seq<byte>, d: seq<byte>, h: seq<byte>)
    requires Consistent(base, cb) && ValidTable(cb) && ValidRecord(r)
    requires d == PartsBytes(cb, |base| + HDR, Parts(r)) && h == RecordHeader(r.tp, r.ttl, |d|)
    ensures var res := ReadFixed(base + h + d + x, |base|, owner);
      FitsRdlength(r) ==>
        && res.GotRecord? && res.next == |base| + HDR + |d| && res.r.owner == owner
        && res.r.tp == r.tp && res.r.ttl == r.ttl && SameData(r.tp, r.data, res.r.data)
    ensures Consistent(base + h + d, PartsTable(cb, |base| + HDR, Parts(r)))
  {
    if FitsRdlength(r) { DataFits(cb, |base| + HDR, r); }
    assert CachedType(r.tp) && 0 <= r.ttl < 0x1_0000_0000;
    hide Consistent;
    hide PartsBytes;
    hide PartsTable;
    hide ReadData;
    hide ReadFixed;
    hide SameData;
    hide RecordHeader;
    hide CachedType;
    hide ValidData;
    hide Parts;
    hide ValidTable;
    ConsistentExtend(base, h, cb);
    DataReads(base + h, cb, r, x);
    HeaderInPlace(base, h, d, x);
    if FitsRdlength(r) {
      FixedFrom(base + h + d + x, |base|, owner, r, |d|, ReadData(base + h + d + x, |base| + HDR, |d|, r.tp).value);
    }
  }

  /** OPT is not a cached type. */
  lemma NoOpt(tp: int)
    requires CachedType(tp)
    ensures tp != T_OPT && 0 <= tp < 0x1_0000
  {}

  /** Too much data is copied as it is, and RDLENGTH is cut off: what is read is shorter. */
  lemma LongDataLost(base: seq<byte>, cb: Table, r: Record, owner: Name, x: seq<byte>, d: seq<byte>, h: seq<byte>)
    requires ValidTable(cb) && ValidRecord(r) && !FitsRdlength(r)
    requires d == PartsBytes(cb, |base| + HDR, Parts(r)) && h == RecordHeader(r.tp, r.ttl, |d|)
    ensures var res := ReadFixed(base + h + d + x, |base|, owner);
      res.GotRecord? ==> res.next < |base| + HDR + |d| && !SameData(r.tp, r.data, res.r.data)
  {
    hide PartsBytes;
    hide ReadData;
    hide SameData;
    hide RecordHeader;
    hide CachedType;
    hide ValidData;
    hide ReadLayout;
    hide Get16;
    hide Get32;
    if ReadLayout(r.tp).Some? {
      LaidOutShort(r.tp, r.data);
      assert false;
    }
    CopiedParts(cb, |base| + HDR, r.tp, r.data);
    var msg := base + h + d + x;
    HeaderInPlace(base, h, d, x);
    NoOpt(r.tp);
    HeaderReads(msg, |base|, r.tp, r.ttl, |d|);
    var sz := |d| % 0x1_0000;
    if ReadData(msg, |base| + HDR, sz, r.tp).Some? {
      ReadDataBound(msg, |base| + HDR, sz, r.tp);
      CopiedSame(r.tp, r.data, ReadData(msg, |base| + HDR, sz, r.tp).value);
    }
  }

  lemma CopiedSame(tp: int, d: seq<byte>, d': seq<byte>)
    requires ReadLayout(tp).None?
    ensures SameData(tp, d, d') ==> d == d'
  {
    assert WriteLayout(tp) == [Rest];
    RestParses(d);
    RestParses(d');
    if SameData(tp, d, d') { assert SamePart([Raw(d)][0], [Raw(d')][0]); }
  }

  /** Record round trip: a record written by add_rr into a message, whatever follows it, is
      read back by rrs2cent with the same type, TTL, owner and data, names up to case, exactly
      if RDLENGTH can hold the size of its data; then the reader consumes exactly the bytes
      that were written. The compression list agrees with the message in any case. */
  lemma RecordReads(base: seq<byte>, cb: Table, r: Record, x: seq<byte>)
    requires Consistent(base, cb) && ValidRecord(r)
    ensures ValidTable(cb)
    ensures var b := RecordBytes(cb, |base|, r);
      var res := ReadRecord(base + b + x, |base|);
      && (FitsRdlength(r) <==> res.GotRecord? && SameRecord(r, res.r))
      && (FitsRdlength(r) <==> res.GotRecord? && res.next == |base| + |b|)
      && Consistent(base + b, RecordTable(cb, |base|, r))
  {
    hide *;
    ConsistentTable(base, cb);
    RecordShape(cb, base, r);
    var e, d := Emitted(cb, r.owner), DataBytes(cb, |base|, r);
    var h := RecordHeader(r.tp, r.ttl, |d|);
    RecordReadsIn(base, cb, r, x, e, h, d);
  }

  lemma RecordShape(cb: Table, base: seq<byte>, r: Record)
    requires ValidTable(cb) && ValidRecord(r)
    ensures var e, d := Emitted(cb, r.owner), DataBytes(cb, |base|, r);
      && RecordBytes(cb, |base|, r) == e + RecordHeader(r.tp, r.ttl, |d|) + d
      && d == PartsBytes(Grown(cb, r.owner, |base|), |base + e| + HDR, Parts(r))
      && RecordTable(cb, |base|, r) == PartsTable(Grown(cb, r.owner, |base|), |base + e| + HDR, Parts(r))
      && ValidName(r.owner)
  {
    hide Emitted;
    hide Grown;
    hide PartsBytes;
    hide PartsTable;
    hide Parts;
    hide RecordHeader;
    hide ValidData;
    hide CachedType;
  }

  lemma Regroup(base: seq<byte>, e: seq<byte>, h: seq<byte>, d: seq<byte>, x: seq<byte>)
    ensures base + (e + h + d) + x == base + e + (h + d + x)
    ensures base + (e + h + d) + x == base + e + h + d + x
    ensures base + (e + h + d) == base + e + h + d
  {}

  lemma RecordReadsIn(base: seq<byte>, cb: Table, r: Record, x: seq<byte>, e: seq<byte>, h: seq<byte>, d: seq<byte>)
    requires Consistent(base, cb) && ValidTable(cb) && ValidRecord(r) && ValidName(r.owner)
    requires e == Emitted(cb, r.owner) && h == RecordHeader(r.tp, r.ttl, |d|)
    requires d == PartsBytes(Grown(cb, r.owner, |base|), |base + e| + HDR, Parts(r))
    requires RecordTable(cb, |base|, r) == PartsTable(Grown(cb, r.owner, |base|), |base + e| + HDR, Parts(r))
    ensures var res := ReadRecord(base + (e + h + d) + x, |base|);
      && (FitsRdlength(r) <==> res.GotRecord? && SameRecord(r, res.r))
      && (FitsRdlength(r) <==> res.GotRecord? && res.next == |base| + |e + h + d|)
      && Consistent(base + (e + h + d), RecordTable(cb, |base|, r))
  {
    hide Consistent;
    hide ValidTable;
    hide PartsBytes;
    hide PartsTable;
    hide RecordTable;
    hide ReadFixed;
    hide RecordHeader;
    hide ValidRecord;
    hide Parts;
    hide Emitted;
    hide Grown;
    hide SameData;
    hide FieldName;
    hide Extent;
    hide RunsOut;
    Regroup(base, e, h, d, x);
    NameReads(base, cb, r.owner, h + d + x, |e| + |h + d + x|);
    GrownConsistent(base, cb, r.owner);
    var msg := base + (e + h + d) + x;
    var owner := FieldName(msg, |base|, |msg| - |base|).value;
    FixedReads(base + e, Grown(cb, r.owner, |base|), r, owner, x, d, h);
    if !FitsRdlength(r) { LongDataLost(base + e, Grown(cb, r.owner, |base|), r, owner, x, d, h); }
  }
}
