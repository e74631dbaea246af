/** The permanent cache file (write_disk_cache, read_disk_cache in cache.c) as bytes. Numbers
    are little-endian, time_t has eight bytes, structures are packed. */
module DiskFormat {
  import opened Powers
  import opened Names
  import opened RRTypes
  import opened CacheEntry

  type Bytes = seq<byte>

  const CACHVERID: Bytes := [112, 100, 49, 51]  // "pd13"

  // ---- Numbers and flags

  function Pow256(k: nat): (p: nat)
    ensures p >= 1
  {
    if k == 0 then 1 else 256 * Pow256(k - 1)
  }

  /** n in k bytes, truncated. */
  function Enc(n: int, k: nat): (b: Bytes)
    ensures |b| == k
    decreases k
  {
    if k == 0 then [] else [n % 256] + Enc(n / 256, k - 1)
  }

  function Dec(b: Bytes): (n: nat)
  {
    if b == [] then 0 else b[0] as int + 256 * Dec(b[1..])
  }

  lemma {:induction false} DecEnc(n: int, k: nat)
    requires 0 <= n < Pow256(k)
    ensures Dec(Enc(n, k)) == n
    decreases k
  {
    if k > 0 { DecEnc(n / 256, k - 1); }
  }

  /** Flag bits, lowest first. */
  function Bits(bs: seq<bool>): (n: nat)
  {
    if bs == [] then 0 else (if bs[0] then 1 else 0) + 2 * Bits(bs[1..])
  }

  predicate TestBit(n: nat, i: nat) { if i == 0 then n % 2 == 1 else TestBit(n / 2, i - 1) }

  lemma {:induction false} TestBits(bs: seq<bool>, i: nat)
    requires i < |bs|
    ensures TestBit(Bits(bs), i) == bs[i]
    decreases i
  {
    if i > 0 { TestBits(bs[1..], i - 1); }
  }

  function CBits(f: set<CFlag>): (bs: seq<bool>)
    ensures |bs| == 7
  {
    [CF_NEGATIVE in f, CF_LOCAL in f, CF_AUTH in f, CF_NOCACHE in f, CF_ADDITIONAL in f, CF_NOPURGE in f, CF_ROOTSERV in f]
  }

  function CIndex(f: CFlag): (i: nat)
    ensures i < 7
  {
    match f
    case CF_NEGATIVE => 0
    case CF_LOCAL => 1
    case CF_AUTH => 2
    case CF_NOCACHE => 3
    case CF_ADDITIONAL => 4
    case CF_NOPURGE => 5
    case CF_ROOTSERV => 6
  }

  function CFlags(n: nat): (f: set<CFlag>) { set x: CFlag | TestBit(n, CIndex(x)) }

  lemma CFlagsBits(f: set<CFlag>)
    ensures CFlags(Bits(CBits(f))) == f
  {
    forall x: CFlag ensures x in CFlags(Bits(CBits(f))) <==> x in f {
      TestBits(CBits(f), CIndex(x));
      assert CBits(f)[CIndex(x)] == (x in f);
    }
  }

  /** The flags of an entry; DF_NEGATIVE is the lowest bit. */
  function DBits(negative: bool, f: set<DFlag>): (bs: seq<bool>)
    ensures |bs| == 5
  {
    [negative, DF_LOCAL in f, DF_AUTH in f, DF_NOCACHE in f, DF_WILD in f]
  }

  function DIndex(f: DFlag): (i: nat)
    ensures 1 <= i < 5
  {
    match f
    case DF_LOCAL => 1
    case DF_AUTH => 2
    case DF_NOCACHE => 3
    case DF_WILD => 4
  }

  function DFlags(n: nat): (f: set<DFlag>) { set x: DFlag | TestBit(n, DIndex(x)) }

  lemma DFlagsBits(negative: bool, f: set<DFlag>)
    ensures DFlags(Bits(DBits(negative, f))) == f && (TestBit(Bits(DBits(negative, f)), 0) <==> negative)
  {
    forall x: DFlag ensures x in DFlags(Bits(DBits(negative, f))) <==> x in f {
      TestBits(DBits(negative, f), DIndex(x));
      assert DBits(negative, f)[DIndex(x)] == (x in f);
    }
    TestBits(DBits(negative, f), 0);
  }

  lemma {:induction false} BitsBound(bs: seq<bool>)
    ensures Bits(bs) < Pow2(|bs|)
  {
    if bs != [] { BitsBound(bs[1..]); }
  }

  /** The flags fit into their two bytes. */
  lemma FlagsFit(f: set<CFlag>, negative: bool, g: set<DFlag>)
    ensures Bits(CBits(f)) < Pow256(2) && Bits(DBits(negative, g)) < Pow256(2)
  {
    BitsBound(CBits(f));
    BitsBound(DBits(negative, g));
    assert Pow2(2) == 4 && Pow2(4) == 16 && Pow2(5) == 32 && Pow2(7) == 128;
    assert Pow256(1) == 256;
    hide CBits;
    hide DBits;
  }

  // ---- Writing

  function WriteRR(d: Bytes): (b: Bytes)
  {
    Enc(|d|, 2) + d[..|d| % 0x1_0000]
  }

  function WriteRRs(rrs: seq<Bytes>): (b: Bytes)
  {
    if rrs == [] then [] else WriteRR(rrs[0]) + WriteRRs(rrs[1..])
  }

  /** The records of a set that are written: at most 255. */
  function Written(rrs: seq<Bytes>): (w: seq<Bytes>) { if |rrs| > 255 then rrs[..255] else rrs }

  /** write_rrset */
  function WriteSet(tp: byte, s: RRSet): (b: Bytes)
  {
    SetHeader(tp, s) + WriteRRs(Written(s.rrs))
  }

  function SetHeader(tp: byte, s: RRSet): (b: Bytes)
    ensures |b| == 20
  {
    [tp, |Written(s.rrs)|] + Enc(Bits(CBits(s.flags)), 2) + Enc(s.ttl, 8) + Enc(s.ts, 8)
  }

  /** The types that a loop over an entry visits (RRITERLIST). */
  function IterList(c: Cent): (l: seq<nat>)
  {
    if c.body.Negative? then [] else if c.body.ext then RRCACHITERLIST else RRMUITERLIST
  }

  /** The sets that go to disk. */
  function NonLocal(sets: map<nat, RRSet>): (m: map<nat, RRSet>)
  {
    map i | i in sets && !Local(sets[i]) :: sets[i]
  }

  function SetsOf(c: Cent): (m: map<nat, RRSet>)
  {
    if c.body.Negative? then map[] else NonLocal(c.body.sets)
  }

  predicate TypeList(l: seq<nat>) { forall k :: 0 <= k < |l| ==> CachedType(l[k]) }

  /** The sets of m, in the order of the types in l. */
  function WriteSets(m: map<nat, RRSet>, l: seq<nat>): (b: Bytes)
    requires TypeList(l)
  {
    if l == [] then []
    else
      var i := SlotOf(l[0]);
      (if i in m then WriteSet(l[0], m[i]) else []) + WriteSets(m, l[1..])
  }

  /** The header of an entry; the sets are counted by slot. */
  function EntryHeader(c: Cent): (b: Bytes)
    requires ValidName(c.qname)
    ensures |b| == 6
  {
    [|WirePrefix(c.qname)|, SlotsUsed(SetsOf(c), NRRTOT) % 256] + Enc(Bits(DBits(c.body.Negative?, c.flags)), 2)
    + [c.cNs % 256, c.cSoa % 256]
  }

  function Times(c: Cent): (b: Bytes)
  {
    match c.body
    case Negative(_, ttl, ts) => Enc(ttl, 8) + Enc(ts, 8)
    case Positive(_, _) => []
  }

  function WriteEntry(c: Cent): (b: Bytes)
    requires ValidName(c.qname)
  {
    IterListOk(c);
    EntryHeader(c) + Times(c) + WirePrefix(c.qname) + WriteSets(SetsOf(c), IterList(c))
  }

  lemma IterListOk(c: Cent)
    ensures TypeList(IterList(c))
  {
    forall k | 0 <= k < |IterList(c)| ensures CachedType(IterList(c)[k]) {
      if c.body.ext { IterListTypes(k); } else { MuIterList(k); }
    }
  }

  // ---- Reading

  /** What was read, and what comes after it. */
  datatype Read<T> = Bad | Got(value: T, rest: Bytes)

  /** n records for the set of type tp. */
  function ReadRRs(c: Cent, tp: int, n: nat, ttl: int, ts: int, flags: set<CFlag>, b: Bytes): (r: Read<Cent>)
    requires CachedType(tp)
    decreases n
  {
    if n == 0 then Got(c, b)
    else if |b| < 2 then Bad
    else
      var len := Dec(b[..2]);
      if |b| - 2 < len then Bad
      else ReadRRs(AddCentRR(c, tp, ttl, ts, flags, b[2..2 + len]), tp, n - 1, ttl, ts, flags, b[2 + len..])
  }

  /** n sets, of ascending types. */
  function ReadSets(c: Cent, n: nat, prevtp: int, b: Bytes): (r: Read<Cent>)
    decreases n
  {
    if n == 0 then Got(c, b)
    else if |b| < 20 then Bad
    else
      var tp := b[0];
      if !CachedType(tp) || tp <= prevtp then Bad
      else
        var flags, ttl, ts := CFlags(Dec(b[2..4])), Dec(b[4..12]), Dec(b[12..20]);
        match ReadRRs(AddSet(c, SlotOf(tp), ttl, ts, flags), tp, b[1], ttl, ts, flags, b[20..])
        case Bad => Bad
        case Got(c', rest) => ReadSets(c', n - 1, tp, rest)
  }

  /** A name of exactly these bytes, without its terminating null byte. */
  function ReadName(b: Bytes): (n: Option<Name>)
    ensures n.Some? ==> ValidLabels(n.value) && WirePrefix(n.value) == b
  {
    if b == [] then Some([])
    else if b[0] == 0 || b[0] > 63 || 1 + b[0] > |b| then None
    else match ReadName(b[1 + b[0]..])
      case None => None
      case Some(t) =>
        var l := b[1..1 + b[0]];
        assert ([l] + t)[1..] == t;
        assert b == [b[0]] + l + b[1 + b[0]..];
        Some([l] + t)
  }

  /** Names come in at most 255 bytes plus the null byte. */
  lemma ReadNameValid(b: Bytes)
    requires |b| <= 255 && ReadName(b).Some?
    ensures ValidName(ReadName(b).value)
  {}

  /** An entry without its sets, and the number of sets to come. */
  datatype Start = Start(c: Cent, num: nat, rest: Bytes)

  function ReadStart(b: Bytes): (r: Option<Start>)
  {
    if |b| < 6 then None
    else
      var qlen: nat, flags := b[0], Dec(b[2..4]);
      var at: nat := if TestBit(flags, 0) then 22 else 6;
      if |b| < at + qlen then None
      else match ReadName(b[at..at + qlen])
        case None => None
        case Some(n) =>
          ReadNameValid(b[at..at + qlen]);
          var ttl, ts := if at == 22 then Dec(b[6..14]) else 0, if at == 22 then Dec(b[14..22]) else 0;
          Some(Start(InitCent(n, ttl, ts, at == 22, DFlags(flags)).(cNs := b[4], cSoa := b[5]), b[1], b[at + qlen..]))
  }

  function ReadEntry(b: Bytes): (r: Read<Cent>)
  {
    match ReadStart(b)
    case None => Bad
    case Some(s) => ReadSets(s.c, s.num, 0, s.rest)
  }
}
