/** Resource records in a message: what add_rr (dns_answer.c) writes and what rrs2cent
    (dns_query.c) makes of it. */
module RecordCodec {
  import opened DnsConstants
  import opened Names
  import opened NameCodec
  import opened NameCompression
  import opened CompressionRoundTrip
  import opened RecordData
  import opened RRTypes

  const C_IN := 1
  const HDR := 10  // size of type, class, TTL and RDLENGTH

  datatype Record = Record(owner: Name, tp: int, ttl: int, data: seq<byte>)

  /** A record that the cache may hold, with fields that fit their widths. */
  predicate ValidRecord(r: Record)
  {
    && ValidName(r.owner) && CachedType(r.tp) && 0 <= r.ttl < 0x1_0000_0000
    && ValidData(r.tp, r.data)
  }

  /** RDLENGTH can hold the size of the data. */
  predicate FitsRdlength(r: Record) { |r.data| < 0x1_0000 }

  // ---- Big-endian numbers

  function Put16(n: int): (b: seq<byte>)
    ensures |b| == 2
  {
    [n / 256 % 256, n % 256]
  }

  function Put32(n: int): (b: seq<byte>)
    ensures |b| == 4
  {
    Put16(n / 0x1_0000) + Put16(n)
  }

  function Get16(b: seq<byte>, i: nat): (n: nat)
    requires i + 2 <= |b|
    ensures n < 0x1_0000
  {
    b[i] as int * 256 + b[i + 1] as int
  }

  function Get32(b: seq<byte>, i: nat): (n: nat)
    requires i + 4 <= |b|
  {
    Get16(b, i) * 0x1_0000 + Get16(b, i + 2)
  }

  lemma GetPut16(b: seq<byte>, i: nat, n: int)
    requires i + 2 <= |b| && b[i] == Put16(n)[0] && b[i + 1] == Put16(n)[1] && 0 <= n
    ensures Get16(b, i) == n % 0x1_0000
  {
    TwoBytes(n);
  }

  lemma TwoBytes(n: nat)
    ensures n / 256 % 256 * 256 + n % 256 == n % 0x1_0000
  {
    var q, lo := n / 256, n % 256;
    var top, hi := q / 256, q % 256;
    assert n == top * 0x1_0000 + (hi * 256 + lo);
  }

  lemma GetPut32(b: seq<byte>, i: nat, n: int)
    requires i + 4 <= |b| && b[i..i + 4] == Put32(n) && 0 <= n < 0x1_0000_0000
    ensures Get32(b, i) == n
  {
    var w := b[i..i + 4];
    assert b[i] == w[0] && b[i + 1] == w[1] && b[i + 2] == w[2] && b[i + 3] == w[3];
    GetPut16(b, i, n / 0x1_0000);
    assert b[i + 2] == n / 256 % 256 && b[i + 3] == n % 256;
    assert Get16(b, i + 2) == n % 0x1_0000;
  }

  // ---- The writer

  /** One part, compressed with list cb when it is placed at offs, and the list afterwards. */
  function PartBytes(cb: Table, p: Part): (b: seq<byte>)
    requires ValidTable(cb) && (p.Dom? ==> ValidName(p.name))
  {
    match p
    case Raw(b) => b
    case Dom(n) => Emitted(cb, n)
  }

  function PartTable(cb: Table, offs: nat, p: Part): (cb': Table)
    requires ValidTable(cb) && (p.Dom? ==> ValidName(p.name))
    ensures ValidTable(cb') && cb <= cb'
  {
    match p
    case Raw(b) => cb
    case Dom(n) => Grown(cb, n, offs)
  }

  function PartsBytes(cb: Table, offs: nat, ps: seq<Part>): (b: seq<byte>)
    requires ValidTable(cb) && ValidParts(ps)
    decreases |ps|
  {
    if ps == [] then []
    else
      var b := PartBytes(cb, ps[0]);
      b + PartsBytes(PartTable(cb, offs, ps[0]), offs + |b|, ps[1..])
  }

  function PartsTable(cb: Table, offs: nat, ps: seq<Part>): (cb': Table)
    requires ValidTable(cb) && ValidParts(ps)
    ensures ValidTable(cb') && cb <= cb'
    decreases |ps|
  {
    if ps == [] then cb
    else PartsTable(PartTable(cb, offs, ps[0]), offs + |PartBytes(cb, ps[0])|, ps[1..])
  }

  function RecordHeader(tp: int, ttl: int, rdlen: int): (h: seq<byte>)
    ensures |h| == HDR
  {
    Put16(tp) + Put16(C_IN) + Put32(ttl) + Put16(rdlen)
  }

  /** The parts of a record's data. */
  function Parts(r: Record): (ps: seq<Part>)
    requires ValidData(r.tp, r.data)
    ensures ValidParts(ps)
  {
    ParseFlat(WriteLayout(r.tp), r.data);
    Parse(WriteLayout(r.tp), r.data).value
  }

  /** Where the data of a record starts that is written at offs. */
  function DataStart(cb: Table, offs: nat, r: Record): (o: nat)
    requires ValidTable(cb) && ValidRecord(r)
  {
    offs + |Emitted(cb, r.owner)| + HDR
  }

  function DataBytes(cb: Table, offs: nat, r: Record): (b: seq<byte>)
    requires ValidTable(cb) && ValidRecord(r)
  {
    PartsBytes(Grown(cb, r.owner, offs), DataStart(cb, offs, r), Parts(r))
  }

  /** The bytes that add_rr appends to a message of size offs. */
  function RecordBytes(cb: Table, offs: nat, r: Record): (b: seq<byte>)
    requires ValidTable(cb) && ValidRecord(r)
  {
    Emitted(cb, r.owner) + RecordHeader(r.tp, r.ttl, |DataBytes(cb, offs, r)|) + DataBytes(cb, offs, r)
  }

  function RecordTable(cb: Table, offs: nat, r: Record): (cb': Table)
    requires ValidTable(cb) && ValidRecord(r)
    ensures ValidTable(cb') && cb <= cb'
  {
    PartsTable(Grown(cb, r.owner, offs), DataStart(cb, offs, r), Parts(r))
  }

  lemma PartNotLonger(cb: Table, p: Part)
    requires ValidTable(cb) && (p.Dom? ==> ValidName(p.name))
    ensures |PartBytes(cb, p)| <= |PartFlat(p)|
  {
    if p.Dom? { EmittedNotLonger(cb, p.name); }
  }

  lemma PartsStep(cb: Table, offs: nat, ps: seq<Part>)
    requires ValidTable(cb) && ValidParts(ps) && ps != []
    ensures var cb1, o1 := PartTable(cb, offs, ps[0]), offs + |PartBytes(cb, ps[0])|;
      && PartsBytes(cb, offs, ps) == PartBytes(cb, ps[0]) + PartsBytes(cb1, o1, ps[1..])
      && PartsTable(cb, offs, ps) == PartsTable(cb1, o1, ps[1..])
      && Flat(ps) == PartFlat(ps[0]) + Flat(ps[1..])
  {}

  lemma NoParts(cb: Table, offs: nat)
    requires ValidTable(cb)
    ensures PartsBytes(cb, offs, []) == [] && Flat([]) == []
  {}

  /** "got longer" never happens: compressed data is at most as long as the cached data. */
  lemma {:induction false} PartsNotLonger(cb: Table, offs: nat, ps: seq<Part>)
    requires ValidTable(cb) && ValidParts(ps)
    ensures |PartsBytes(cb, offs, ps)| <= |Flat(ps)|
    decreases |ps|
  {
    hide PartsBytes;
    hide Flat;
    hide PartBytes;
    hide PartFlat;
    hide PartTable;
    hide ValidTable;
    if ps == [] {
      NoParts(cb, offs);
    } else {
      PartsStep(cb, offs, ps);
      PartNotLonger(cb, ps[0]);
      PartsNotLonger(PartTable(cb, offs, ps[0]), offs + |PartBytes(cb, ps[0])|, ps[1..]);
    }
  }

  lemma DataNotLonger(cb: Table, offs: nat, r: Record)
    requires ValidTable(cb) && ValidRecord(r)
    ensures |DataBytes(cb, offs, r)| <= |r.data|
  {
    hide PartsBytes;
    hide Emitted;
    ParseFlat(WriteLayout(r.tp), r.data);
    PartsNotLonger(Grown(cb, r.owner, offs), DataStart(cb, offs, r), Parts(r));
  }

  // ---- The reader

  /** A part and the bytes it takes up in the message. */
  datatype Chunk = Chunk(part: Part, used: nat)

  /** The part at pos, which may extend over at most sz bytes. */
  function ReadHead(msg: seq<byte>, pos: nat, sz: nat, s: Seg): (c: Option<Chunk>)
    requires pos + sz <= |msg|
    ensures c.Some? ==> c.value.used <= sz && (c.value.part.Dom? ==> ValidName(c.value.part.name))
  {
    match s
    case Fixed(n) => if sz < n then None else Some(Chunk(Raw(msg[pos..pos + n]), n))
    case DomainName => (match FieldName(msg, pos, sz) case None => None case Some(n) => Some(Chunk(Dom(n), Extent(msg, pos))))
    case Strings =>
      (match StringsEnd(msg[pos..pos + sz], 4, 3) case None => None case Some(e) => Some(Chunk(Raw(msg[pos..pos + e]), e)))
    case Rest => Some(Chunk(Raw(msg[pos..pos + sz]), sz))
  }

  /** The data of sz bytes at pos, read with layout l; names may be compressed. None stands
      for RC_FORMAT. */
  function ReadParts(msg: seq<byte>, pos: nat, sz: nat, l: seq<Seg>): (ps: Option<seq<Part>>)
    requires pos + sz <= |msg|
    ensures ps.Some? ==> ValidParts(ps.value)
    decreases |l|
  {
    if l == [] then (if sz == 0 then Some([]) else None)
    else
      var h := ReadHead(msg, pos, sz, l[0]);
      if h.None? || (l[0].Rest? && |l| > 1) then None
      else Cons(h.value.part, ReadParts(msg, pos + h.value.used, sz - h.value.used, l[1..]))
  }

  lemma ReadHeadFits(msg: seq<byte>, pos: nat, sz: nat, s: Seg)
    requires pos + sz <= |msg| && ReadHead(msg, pos, sz, s).Some?
    ensures PartFits(s, ReadHead(msg, pos, sz, s).value.part)
  {
    if s.Strings? {
      var e := StringsEnd(msg[pos..pos + sz], 4, 3).value;
      StringsEndCut(msg[pos..pos + sz], 4, 3, e);
      assert msg[pos..pos + sz][..e] == msg[pos..pos + e];
    }
  }

  function FlatOf(ps: Option<seq<Part>>): (d: Option<seq<byte>>)
    requires ps.Some? ==> ValidParts(ps.value)
  {
    match ps
    case None => None
    case Some(ps) => Some(Flat(ps))
  }

  lemma ReadNothing(msg: seq<byte>, pos: nat, sz: nat)
    requires pos + sz <= |msg|
    ensures ReadParts(msg, pos, sz, []) == if sz == 0 then Some([]) else None
  {}

  lemma ReadStep(msg: seq<byte>, pos: nat, sz: nat, l: seq<Seg>)
    requires pos + sz <= |msg| && l != [] && ReadParts(msg, pos, sz, l).Some?
    ensures ReadHead(msg, pos, sz, l[0]).Some? && (l[0].Rest? ==> |l| == 1)
    ensures var h := ReadHead(msg, pos, sz, l[0]).value;
      var t := ReadParts(msg, pos + h.used, sz - h.used, l[1..]);
      t.Some? && ReadParts(msg, pos, sz, l).value == [h.part] + t.value
  {
    hide ReadHead;
  }

  lemma {:induction false} ReadFits(msg: seq<byte>, pos: nat, sz: nat, l: seq<Seg>)
    requires pos + sz <= |msg| && ReadParts(msg, pos, sz, l).Some?
    ensures Fits(l, ReadParts(msg, pos, sz, l).value)
    decreases |l|
  {
    hide ReadHead;
    hide PartFits;
    hide ReadParts;
    if l == [] {
      ReadNothing(msg, pos, sz);
    } else {
      ReadStep(msg, pos, sz, l);
      ReadHeadFits(msg, pos, sz, l[0]);
      var h := ReadHead(msg, pos, sz, l[0]).value;
      ReadFits(msg, pos + h.used, sz - h.used, l[1..]);
      var t := ReadParts(msg, pos + h.used, sz - h.used, l[1..]).value;
      assert ([h.part] + t)[1..] == t;
    }
  }

  /** Data whose name should not be compressed: k bytes, a name, the rest. If the name is
      compressed all the same, it is expanded. */
  function ReadEmbedded(msg: seq<byte>, pos: nat, sz: nat, k: nat): (d: Option<seq<byte>>)
    requires k <= sz && pos + sz <= |msg|
  {
    if Normal(msg[pos + k..pos + sz]) then Some(msg[pos..pos + sz])
    else FlatOf(ReadParts(msg, pos, sz, [Fixed(k), DomainName, Rest]))
  }

  /** The arms of the switch in rrs2cent that walk over names. */
  function ReadLayout(tp: int): (l: Option<seq<Seg>>)
  {
    if tp == T_CNAME || tp == T_MB || tp == T_MD || tp == T_MF || tp == T_MG || tp == T_MR || tp == T_NS || tp == T_PTR
    then Some([DomainName])
    else if tp == T_MINFO || tp == T_RP then Some([DomainName, DomainName])
    else if tp == T_MX || tp == T_AFSDB || tp == T_RT || tp == T_KX then Some([Fixed(2), DomainName])
    else if tp == T_SOA then Some([DomainName, DomainName, Fixed(20)])
    else if tp == T_PX then Some([Fixed(2), DomainName, DomainName])
    else if tp == T_SRV then Some([Fixed(6), DomainName])
    else if tp == T_NXT then Some([DomainName, Rest])
    else if tp == T_NAPTR then Some([Strings, DomainName])
    else None
  }

  /** What rrs2cent hands to the cache for rdlength bytes of data at pos. */
  function ReadData(msg: seq<byte>, pos: nat, sz: nat, tp: int): (d: Option<seq<byte>>)
    requires pos + sz <= |msg|
  {
    var raw := Some(msg[pos..pos + sz]);
    if tp == T_A then (if sz == 4 then raw else None)
    else if tp == T_AAAA then (if sz == 16 then raw else None)
    else if tp == T_IPSECKEY then
      if sz < 3 then None
      else if msg[pos + 1] == 0 then raw
      else if msg[pos + 1] == 1 then (if sz < 7 then None else raw)
      else if msg[pos + 1] == 2 then (if sz < 19 then None else raw)
      else if msg[pos + 1] == 3 then ReadEmbedded(msg, pos, sz, 3)
      else None
    else if tp == T_RRSIG then (if sz < 18 then None else ReadEmbedded(msg, pos, sz, 18))
    else if tp == T_NSEC then ReadEmbedded(msg, pos, sz, 0)
    else match ReadLayout(tp)
      case None => raw
      case Some(l) =>
        var d := FlatOf(ReadParts(msg, pos, sz, l));
        if tp == T_NXT && d.Some? && |d.value| > 1040 then None else d
  }

  // ---- Everything that enters the cache is fit to be written again

  lemma RestParses(d: seq<byte>)
    ensures Parse([Rest], d) == Some([Raw(d)])
  {
    assert d[|d|..] == [] && [Rest][1..] == [];
    assert Parse([], []) == Some([]);
    assert [Raw(d)] + [] == [Raw(d)];
  }

  lemma EmbeddedValid(msg: seq<byte>, pos: nat, sz: nat, k: nat)
    requires k <= sz && pos + sz <= |msg| && ReadEmbedded(msg, pos, sz, k).Some?
    ensures var d := ReadEmbedded(msg, pos, sz, k).value;
      |d| >= k && d[..k] == msg[pos..pos + k] && Normal(d[k..])
  {
    if Normal(msg[pos + k..pos + sz]) {
      var d := msg[pos..pos + sz];
      assert d[..k] == msg[pos..pos + k] && d[k..] == msg[pos + k..pos + sz];
    } else {
      var l := [Fixed(k), DomainName, Rest];
      var ps := ReadParts(msg, pos, sz, l).value;
      assert l[1..] == [DomainName, Rest];
      assert ps[0] == Raw(msg[pos..pos + k]);
      ReadFits(msg, pos, sz, l);
      FitsValid(l, ps);
      assert Fits(l[1..], ps[1..]);
      var n := ps[1].name;
      assert Flat(ps) == PartFlat(ps[0]) + Flat(ps[1..]);
      assert Flat(ps[1..]) == Wire(n) + Flat(ps[1..][1..]);
      assert Flat(ps)[k..] == Flat(ps[1..]);
      NormalIsName(n, Flat(ps[1..][1..]));
    }
  }

  /** Everything that the reader lets into the cache meets the writer's assertions and the
      reader's own checks. */
  lemma ReadDataValid(msg: seq<byte>, pos: nat, sz: nat, tp: int)
    requires pos + sz <= |msg| && ReadData(msg, pos, sz, tp).Some?
    ensures ValidData(tp, ReadData(msg, pos, sz, tp).value)
  {
    hide ReadParts;
    hide ReadEmbedded;
    hide Normal;
    var d := ReadData(msg, pos, sz, tp).value;
    if ReadLayout(tp).Some? {
      var l := ReadLayout(tp).value;
      assert l == WriteLayout(tp);
      ReadFits(msg, pos, sz, l);
      FlatParse(l, ReadParts(msg, pos, sz, l).value);
    } else {
      RestParses(d);
      assert WriteLayout(tp) == [Rest];
      if tp == T_IPSECKEY {
        if msg[pos + 1] == 3 {
          EmbeddedValid(msg, pos, sz, 3);
          assert d[1] == d[..3][1] == msg[pos..pos + 3][1];
        } else {
          assert d[1] == msg[pos + 1];
        }
      } else if tp == T_RRSIG {
        EmbeddedValid(msg, pos, sz, 18);
      } else if tp == T_NSEC {
        EmbeddedValid(msg, pos, sz, 0);
        assert d[0..] == d;
      }
    }
  }

  // ---- How much enters the cache

  /** A compressed name takes at least two bytes, unless it is the root. */
  lemma NameExpands(msg: seq<byte>, pos: nat, sz: nat)
    requires FieldName(msg, pos, sz).Some?
    ensures |Wire(FieldName(msg, pos, sz).value)| <= Extent(msg, pos) + 254
  {
    if Extent(msg, pos) == 1 { assert DecodeAt(msg, pos, 255) == Some([]); }
  }

  /** Expanding a name makes the data longer than the field it came from. */
  lemma EmbeddedBound(msg: seq<byte>, pos: nat, sz: nat, k: nat)
    requires k <= sz && pos + sz <= |msg| && ReadEmbedded(msg, pos, sz, k).Some?
    ensures |ReadEmbedded(msg, pos, sz, k).value| <= sz + 254
  {
    hide ReadParts;
    hide Flat;
    hide Normal;
    if !Normal(msg[pos + k..pos + sz]) {
      assert [Fixed(k)] + [DomainName, Rest] == [Fixed(k), DomainName, Rest];
      FixedFirst(msg, pos, sz, k, [DomainName, Rest]);
      NameAndRest(msg, pos + k, sz - k);
    }
  }

  lemma FixedFirst(msg: seq<byte>, pos: nat, sz: nat, k: nat, l: seq<Seg>)
    requires k <= sz && pos + sz <= |msg|
    ensures var ps, t := ReadParts(msg, pos, sz, [Fixed(k)] + l), ReadParts(msg, pos + k, sz - k, l);
      && (ps.Some? <==> t.Some?)
      && (t.Some? ==> |Flat(ps.value)| == k + |Flat(t.value)|)
  {
    assert ([Fixed(k)] + l)[1..] == l;
    var t := ReadParts(msg, pos + k, sz - k, l);
    if t.Some? { assert ([Raw(msg[pos..pos + k])] + t.value)[1..] == t.value; }
  }

  lemma NameFirst(msg: seq<byte>, pos: nat, sz: nat, l: seq<Seg>)
    requires pos + sz <= |msg| && FieldName(msg, pos, sz).Some?
    ensures var ps, u := ReadParts(msg, pos, sz, [DomainName] + l), Extent(msg, pos);
      var t := ReadParts(msg, pos + u, sz - u, l);
      && (ps.Some? <==> t.Some?)
      && (t.Some? ==> |Flat(ps.value)| == |Wire(FieldName(msg, pos, sz).value)| + |Flat(t.value)|)
  {
    hide DecodeAt;
    hide Extent;
    assert ([DomainName] + l)[1..] == l;
    var u := Extent(msg, pos);
    var t := ReadParts(msg, pos + u, sz - u, l);
    if t.Some? { assert ([Dom(FieldName(msg, pos, sz).value)] + t.value)[1..] == t.value; }
  }

  lemma NameAndRest(msg: seq<byte>, pos: nat, sz: nat)
    requires pos + sz <= |msg|
    ensures var ps, n := ReadParts(msg, pos, sz, [DomainName, Rest]), FieldName(msg, pos, sz);
      && (ps.Some? <==> n.Some?)
      && (n.Some? ==> |Flat(ps.value)| == |Wire(n.value)| + sz - Extent(msg, pos) && |Wire(n.value)| <= Extent(msg, pos) + 254)
  {
    NameNeeded(msg, pos, sz);
    if FieldName(msg, pos, sz).Some? {
      NameExpands(msg, pos, sz);
      NameExtent(msg, pos, sz);
      NameFirst(msg, pos, sz, [Rest]);
      hide *;
      assert [DomainName] + [Rest] == [DomainName, Rest];
      RestReads(msg, pos + Extent(msg, pos), sz - Extent(msg, pos));
    }
  }

  lemma NameExtent(msg: seq<byte>, pos: nat, sz: nat)
    requires FieldName(msg, pos, sz).Some?
    ensures Extent(msg, pos) <= sz
  {}

  lemma NameNeeded(msg: seq<byte>, pos: nat, sz: nat)
    requires pos + sz <= |msg|
    ensures ReadParts(msg, pos, sz, [DomainName, Rest]).Some? ==> FieldName(msg, pos, sz).Some?
  {
    hide FieldName;
    hide Extent;
  }

  lemma RestReads(msg: seq<byte>, pos: nat, sz: nat)
    requires pos + sz <= |msg|
    ensures ReadParts(msg, pos, sz, [Rest]) == Some([Raw(msg[pos..pos + sz])])
    ensures Flat([Raw(msg[pos..pos + sz])]) == msg[pos..pos + sz]
  {
    var b := Raw(msg[pos..pos + sz]);
    assert [Rest][1..] == [] && [b] + [] == [b];
    assert ReadParts(msg, pos + sz, 0, []) == Some([]);
    assert ReadHead(msg, pos, sz, Rest) == Some(Chunk(b, sz));
    assert ReadParts(msg, pos, sz, [Rest]) == Cons(b, ReadParts(msg, pos + sz, 0, [Rest][1..]));
    assert [Raw(msg[pos..pos + sz])][1..] == [];
  }

  /** The most that these parts can take up. */
  function Room(l: seq<Seg>): (n: nat)
    requires Rest !in l
  {
    if l == [] then 0
    else (match l[0] case Fixed(n) => n case DomainName => DNSNAMEBUFSIZE case _ => 4 + 3 * 256) + Room(l[1..])
  }

  lemma {:induction false} StringsRoom(b: seq<byte>, len: nat, k: nat)
    requires StringsEnd(b, len, k).Some?
    ensures StringsEnd(b, len, k).value <= len + 256 * k
    decreases k
  {
    if k > 0 { StringsRoom(b, len + b[len] + 1, k - 1); }
  }

  lemma {:induction false} FlatRoom(l: seq<Seg>, ps: seq<Part>)
    requires Fits(l, ps) && Rest !in l
    ensures ValidParts(ps) && |Flat(ps)| <= Room(l)
  {
    FitsValid(l, ps);
    if l != [] {
      if l[0].Strings? { StringsRoom(ps[0].bytes, 4, 3); }
      FlatRoom(l[1..], ps[1..]);
    }
  }

  const MAXLAIDOUT := 1040

  /** Data that is walked over is short. */
  lemma LaidOutShort(tp: int, d: seq<byte>)
    requires ReadLayout(tp).Some? && ValidData(tp, d)
    ensures |d| <= MAXLAIDOUT
  {
    if tp != T_NXT {
      RoomOf(tp);
      hide *;
      ParsedRoom(WriteLayout(tp), d);
    }
  }

  lemma ParsedRoom(l: seq<Seg>, d: seq<byte>)
    requires Parse(l, d).Some? && Rest !in l
    ensures |d| <= Room(l)
  {
    hide *;
    ParseFlat(l, d);
    FlatRoom(l, Parse(l, d).value);
  }

  lemma RoomOf(tp: int)
    requires ReadLayout(tp).Some? && tp != T_NXT
    ensures Rest !in WriteLayout(tp) && Room(WriteLayout(tp)) <= MAXLAIDOUT
  {
    var l := WriteLayout(tp);
    assert |l| <= 3;
    assert Room(l[|l|..]) == 0;
    if |l| > 1 { assert l[1..][1..] == l[2..]; }
    if |l| > 2 { assert l[2..][1..] == l[3..]; }
  }

  /** What the cache gets out of sz bytes of data. */
  lemma ReadDataBound(msg: seq<byte>, pos: nat, sz: nat, tp: int)
    requires pos + sz <= |msg| && ReadData(msg, pos, sz, tp).Some?
    ensures var d := ReadData(msg, pos, sz, tp).value;
      if ReadLayout(tp).Some? then |d| <= MAXLAIDOUT else |d| <= sz + 254
  {
    ReadDataValid(msg, pos, sz, tp);
    hide ReadParts;
    hide ReadEmbedded;
    hide ValidData;
    if ReadLayout(tp).Some? {
      LaidOutShort(tp, ReadData(msg, pos, sz, tp).value);
    } else if tp == T_IPSECKEY && msg[pos + 1] == 3 {
      EmbeddedBound(msg, pos, sz, 3);
    } else if tp == T_RRSIG {
      EmbeddedBound(msg, pos, sz, 18);
    } else if tp == T_NSEC {
      EmbeddedBound(msg, pos, sz, 0);
    }
  }

  // ---- Whole records

  datatype ReadResult =
    | GotRecord(r: Record, next: nat)
    | GotOpt(cls: nat, ttl: nat, next: nat)
    | Ignored(next: nat)
    | TruncErr
    | FormatErr

  /** The fixed fields after the owner name at p, if they and the data are complete. */
  function ReadFixed(msg: seq<byte>, p: nat, owner: Name): (r: ReadResult)
    requires p <= |msg|
  {
    if |msg| - p < HDR then TruncErr
    else
      var tp, cls, ttl, rdlen := Get16(msg, p), Get16(msg, p + 2), Get32(msg, p + 4), Get16(msg, p + 8);
      if |msg| - p - HDR < rdlen then TruncErr
      else if tp == T_OPT then GotOpt(cls, ttl, p + HDR + rdlen)
      else if !CachedType(tp) || cls != C_IN then Ignored(p + HDR + rdlen)
      else match ReadData(msg, p + HDR, rdlen, tp)
        case None => FormatErr
        case Some(d) => GotRecord(Record(owner, tp, ttl, d), p + HDR + rdlen)
  }

  /** One round of rrs2cent: the record at pos. */
  function ReadRecord(msg: seq<byte>, pos: nat): (r: ReadResult)
    requires pos <= |msg|
  {
    match FieldName(msg, pos, |msg| - pos)
    case None => if RunsOut(msg, pos, |msg| - pos, 0) then TruncErr else FormatErr
    case Some(owner) => ReadFixed(msg, pos + Extent(msg, pos), owner)
  }

  predicate SameRecord(r: Record, s: Record)
  {
    SameName(r.owner, s.owner) && s.tp == r.tp && s.ttl == r.ttl && SameData(r.tp, r.data, s.data)
  }

  /** Whatever a record in a message contains, what the reader hands on may be cached; its
      data may be a little longer than RDLENGTH can say. */
  lemma ReadRecordValid(msg: seq<byte>, pos: nat)
    requires pos <= |msg| && ReadRecord(msg, pos).GotRecord?
    ensures var r := ReadRecord(msg, pos).r;
      ValidRecord(r) && |r.data| < 0x1_0000 + 254
  {
    hide ReadData;
    hide ValidData;
    hide CachedType;
    hide Extent;
    hide ReadLayout;
    var p := pos + Extent(msg, pos);
    ReadDataValid(msg, p + HDR, Get16(msg, p + 8), Get16(msg, p));
    ReadDataBound(msg, p + HDR, Get16(msg, p + 8), Get16(msg, p));
  }
}
