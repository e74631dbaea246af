/** rrs2cent and rr_to_cache (dns_query.c): the records of a reply become cache entries. */
module RecordReader {
  import opened DnsConstants
  import opened Memory
  import opened Names
  import opened NameCodec
  import opened RecordData
  import opened RecordCodec
  import opened RRTypes
  import opened CacheEntry

  // ---- Reading one record

  lemma {:induction false} FlatSnoc(ps: seq<Part>, p: Part)
    requires ValidParts(ps) && (p.Dom? ==> ValidName(p.name))
    ensures ValidParts(ps + [p]) && Flat(ps + [p]) == Flat(ps) + PartFlat(p)
  {
    hide PartFlat;
    hide Wire;
    if ps == [] {
      assert ps + [p] == [p] && [p][1..] == [];
      assert Flat([p]) == PartFlat(p) + Flat([p][1..]);
    } else {
      FlatSnoc(ps[1..], p);
      assert (ps + [p])[1..] == ps[1..] + [p] && (ps + [p])[0] == ps[0];
      assert PartFlat(ps[0]) + (Flat(ps[1..]) + PartFlat(p)) == PartFlat(ps[0]) + Flat(ps[1..]) + PartFlat(p);
    }
  }

  /** ps, followed by what else there is. */
  function After(ps: seq<Part>, t: Option<seq<Part>>): (r: Option<seq<Part>>)
  {
    match t
    case None => None
    case Some(t) => Some(ps + t)
  }

  /** One segment of record data: the part as the cache wants it, and the bytes it took. */
  method ReadSegment(msg: seq<byte>, pos: nat, sz: nat, s: Seg) returns (c: Option<Chunk>)
    requires pos + sz <= |msg|
    ensures c == ReadHead(msg, pos, sz, s)
  {
    hide Extent;
    hide DecodeAt;
    match s {
      case Fixed(n) =>
        if sz < n { return None; }
        c := Some(Chunk(Raw(msg[pos..pos + n]), n));
      case DomainName =>
        var r := DecompressName(msg, pos, sz);
        if !r.Decoded? { return None; }
        WireIsName(FieldName(msg, pos, sz).value);
        c := Some(Chunk(Dom(LeadingName(r.name).value), r.used));
      case Strings =>
        var len, j := 4, 0;
        while j < 3
          invariant 0 <= j <= 3 && 0 <= len && StringsEnd(msg[pos..pos + sz], 4, 3) == StringsEnd(msg[pos..pos + sz], len, 3 - j)
        {
          if len >= sz { return None; }
          len, j := len + msg[pos + len] + 1, j + 1;
        }
        if len > sz { return None; }
        c := Some(Chunk(Raw(msg[pos..pos + len]), len));
      case Rest =>
        c := Some(Chunk(Raw(msg[pos..pos + sz]), sz));
    }
  }

  lemma WireIsName(n: Name)
    requires ValidName(n)
    ensures LeadingName(Wire(n)) == Some(n)
  {
    LeadingWire(n, []);
    assert Wire(n) + [] == Wire(n);
  }

  /** The arms that walk over the data; None is RC_FORMAT. */
  method ReadSegments(msg: seq<byte>, pos: nat, sz: nat, l: seq<Seg>) returns (db: Option<seq<byte>>)
    requires pos + sz <= |msg| && forall i :: 0 <= i < |l| - 1 ==> !l[i].Rest?
    ensures db == FlatOf(ReadParts(msg, pos, sz, l))
  {
    hide ReadParts;
    hide ReadHead;
    hide Flat;
    hide PartFlat;
    var bptr: nat, blcnt: nat, buf := pos, sz, [];
    ghost var ps: seq<Part> := [];
    ReadNoSegments(msg, pos, sz, l);
    for i := 0 to |l|
      invariant bptr + blcnt == pos + sz && ValidParts(ps) && buf == Flat(ps)
      invariant ReadParts(msg, pos, sz, l) == After(ps, ReadParts(msg, bptr, blcnt, l[i..]))
    {
      var c := ReadSegment(msg, bptr, blcnt, l[i]);
      ReadOneSegment(msg, bptr, blcnt, l, i, ps);
      if c.None? { return None; }
      FlatSnoc(ps, c.value.part);
      buf := buf + PartFlat(c.value.part);
      bptr, blcnt, ps := bptr + c.value.used, blcnt - c.value.used, ps + [c.value.part];
    }
    ReadEnd(msg, bptr, blcnt, l[|l|..], ps);
    if blcnt != 0 { return None; }  // trailing junk
    db := Some(buf);
  }

  lemma ReadNoSegments(msg: seq<byte>, pos: nat, sz: nat, l: seq<Seg>)
    requires pos + sz <= |msg|
    ensures Flat([]) == [] && ReadParts(msg, pos, sz, l) == After([], ReadParts(msg, pos, sz, l[0..]))
  {
    assert l[0..] == l;
    AfterNone(ReadParts(msg, pos, sz, l));
  }

  lemma ReadOneSegment(msg: seq<byte>, pos: nat, sz: nat, l: seq<Seg>, i: nat, ps: seq<Part>)
    requires pos + sz <= |msg| && i < |l| && (l[i].Rest? ==> i == |l| - 1)
    ensures var c := ReadHead(msg, pos, sz, l[i]);
      After(ps, ReadParts(msg, pos, sz, l[i..])) ==
      if c.None? then None
      else After(ps + [c.value.part], ReadParts(msg, pos + c.value.used, sz - c.value.used, l[i + 1..]))
  {
    hide ReadHead;
    hide ReadParts;
    hide After;
    hide ValidParts;
    ReadPartsStep(msg, pos, sz, l[i..]);
    assert l[i..][1..] == l[i + 1..];
    AfterNothing(ps);
    var c := ReadHead(msg, pos, sz, l[i]);
    if c.Some? { AfterCons(ps, c.value.part, ReadParts(msg, pos + c.value.used, sz - c.value.used, l[i + 1..])); }
  }

  lemma ReadPartsStep(msg: seq<byte>, pos: nat, sz: nat, l: seq<Seg>)
    requires pos + sz <= |msg| && l != [] && (l[0].Rest? ==> |l| == 1)
    ensures var c := ReadHead(msg, pos, sz, l[0]);
      ReadParts(msg, pos, sz, l) ==
      if c.None? then None else Cons(c.value.part, ReadParts(msg, pos + c.value.used, sz - c.value.used, l[1..]))
  {
    hide ReadHead;
  }

  lemma AfterNothing(ps: seq<Part>)
    ensures After(ps, None) == None
  {}

  lemma ReadEnd(msg: seq<byte>, pos: nat, sz: nat, l: seq<Seg>, ps: seq<Part>)
    requires pos + sz <= |msg| && l == []
    ensures After(ps, ReadParts(msg, pos, sz, l)) == if sz == 0 then Some(ps) else None
  {
    assert ps + [] == ps;
  }

  lemma AfterNone(t: Option<seq<Part>>)
    ensures After([], t) == t
  {
    if t.Some? { assert [] + t.value == t.value; }
  }

  lemma AfterCons(ps: seq<Part>, p: Part, t: Option<seq<Part>>)
    ensures After(ps, Cons(p, t)) == After(ps + [p], t)
  {
    if t.Some? { assert ps + ([p] + t.value) == ps + [p] + t.value; }
  }

  /** isnormalencdomname */
  method IsNormal(b: seq<byte>) returns (r: bool)
    ensures r == Normal(b)
  {
    var maxlen := if |b| > DNSNAMEBUFSIZE then DNSNAMEBUFSIZE else |b|;
    ghost var c := if |b| > DNSNAMEBUFSIZE then b[..DNSNAMEBUFSIZE] else b;
    var i := 0;
    while true
      invariant 0 <= i && DecodeAt(c, 0, 0).Some? == DecodeAt(c, i, 0).Some?
      decreases maxlen - i
    {
      if i >= maxlen { return false; }
      var lb := b[i];
      if lb == 0 { return true; }
      if lb > 0x3f { return false; }
      i := i + 1 + lb;
    }
  }

  /** The data of a name that should not be compressed, but may be. */
  method ReadEmbeddedName(msg: seq<byte>, pos: nat, sz: nat, k: nat) returns (db: Option<seq<byte>>)
    requires k <= sz && pos + sz <= |msg|
    ensures db == ReadEmbedded(msg, pos, sz, k)
  {
    hide Normal;
    hide ReadParts;
    var normal := IsNormal(msg[pos + k..pos + sz]);
    if normal { return Some(msg[pos..pos + sz]); }
    db := ReadSegments(msg, pos, sz, [Fixed(k), DomainName, Rest]);
  }

  /** The switch of rrs2cent. */
  method ReadRdata(msg: seq<byte>, pos: nat, sz: nat, tp: int) returns (db: Option<seq<byte>>)
    requires pos + sz <= |msg|
    ensures db == ReadData(msg, pos, sz, tp)
  {
    hide ReadParts;
    hide ReadEmbedded;
    db := Some(msg[pos..pos + sz]);
    if tp == T_A {
      if sz != 4 { db := None; }
    } else if tp == T_AAAA {
      if sz != 16 { db := None; }
    } else if tp == T_IPSECKEY {
      if sz < 3 { return None; }
      var gwtp := msg[pos + 1];
      if gwtp == 3 {
        db := ReadEmbeddedName(msg, pos, sz, 3);
      } else if gwtp > 3 || (gwtp == 1 && sz - 3 < 4) || (gwtp == 2 && sz - 3 < 16) {
        db := None;
      }
    } else if tp == T_RRSIG {
      if sz < 18 { return None; }
      db := ReadEmbeddedName(msg, pos, sz, 18);
    } else if tp == T_NSEC {
      db := ReadEmbeddedName(msg, pos, sz, 0);
    } else if ReadLayout(tp).Some? {
      db := ReadSegments(msg, pos, sz, ReadLayout(tp).value);
      if tp == T_NXT && db.Some? && |db.value| > 1040 { db := None; }
    }
  }

  /** One round of rrs2cent, up to the call of rr_to_cache. */
  method ReadOne(msg: seq<byte>, pos: nat) returns (r: ReadResult)
    requires pos <= |msg|
    ensures r == ReadRecord(msg, pos)
  {
    hide Extent;
    hide DecodeAt;
    hide RunsOut;
    hide ReadData;
    hide CachedType;
    hide Get16;
    hide Get32;
    var d := DecompressName(msg, pos, |msg| - pos);
    if d.Truncated? {
      RunsOutFails(msg, pos, |msg| - pos);
      return TruncErr;
    }
    if d.Malformed? { return FormatErr; }
    var owner := FieldName(msg, pos, |msg| - pos).value;
    var p := pos + d.used;
    if |msg| - p < HDR { return TruncErr; }
    var tp, cls, ttl, rdlength := Get16(msg, p), Get16(msg, p + 2), Get32(msg, p + 4), Get16(msg, p + 8);
    if |msg| - p - HDR < rdlength { return TruncErr; }
    var next := p + HDR + rdlength;
    if tp == T_OPT { return GotOpt(cls, ttl, next); }
    if !CachedType(tp) || cls != C_IN { return Ignored(next); }
    var db := ReadRdata(msg, p + HDR, rdlength, tp);
    if db.None? { return FormatErr; }
    r := GotRecord(Record(owner, tp, ttl, db.value), next);
  }

  /** A field that ends inside the name does not denote one. */
  lemma RunsOutFails(msg: seq<byte>, pos: nat, sz: nat)
    requires RunsOut(msg, pos, sz, 0)
    ensures FieldName(msg, pos, sz) == None
  {
    if DecodeAt(msg, pos, 255).Some? { RunsOutExtent(msg, pos, sz, 0); }
  }

  lemma {:induction false} RunsOutExtent(msg: seq<byte>, pos: nat, sz: nat, tpos: nat)
    requires RunsOut(msg, pos, sz, tpos) && DecodeAt(msg, pos, 255).Some?
    ensures Extent(msg, pos) > sz
    decreases |msg| - pos
  {
    if sz > 0 && pos < |msg| && msg[pos] < 0xc0 && 1 <= msg[pos] <= 63 && msg[pos] < sz - 1 {
      RunsOutExtent(msg, pos + 1 + msg[pos], sz - 1 - msg[pos], tpos + 1 + msg[pos]);
    }
  }

  // ---- The entries

  type Centa = seq<Cent>

  /** Every entry is accounted, and no two have the same name. */
  predicate CentaOk(a: Centa)
  {
    && (forall i :: 0 <= i < |a| ==> Accounted(a[i]))
    && (forall i, j :: 0 <= i < j < |a| ==> !SameName(a[i].qname, a[j].qname))
  }

  /** The entry for this name, or the end. */
  function Find(a: Centa, name: Name): (i: nat)
    ensures i <= |a| && (forall j :: 0 <= j < i ==> !SameName(a[j].qname, name))
    ensures i < |a| ==> SameName(a[i].qname, name)
  {
    if a == [] || SameName(a[0].qname, name) then 0
    else
      var i := Find(a[1..], name);
      assert forall j :: 1 <= j < |a| ==> a[j] == a[1..][j - 1];
      1 + i
  }

  /** The entries with one more record. */
  function WithRecord(a: Centa, r: Record, flags: set<CFlag>, ts: int): (a': Centa)
    requires ValidName(r.owner) && CachedType(r.tp)
  {
    var i := Find(a, r.owner);
    if i < |a| then a[i := AddCentRR(a[i], r.tp, r.ttl, ts, flags, r.data)]
    else a + [AddCentRR(InitCent(r.owner, 0, 0, false, {}), r.tp, r.ttl, ts, flags, r.data)]
  }

  predicate Cachable(r: Record) { ValidName(r.owner) && CachedType(r.tp) }

  function WithRecords(a: Centa, rs: seq<Record>, flags: set<CFlag>, ts: int): (a': Centa)
    requires forall i :: 0 <= i < |rs| ==> Cachable(rs[i])
    decreases |rs|
  {
    if rs == [] then a
    else
      assert Cachable(rs[0]);
      WithRecords(WithRecord(a, rs[0], flags, ts), rs[1..], flags, ts)
  }

  lemma AddKeepsName(c: Cent, tp: int, ttl: int, ts: int, flags: set<CFlag>, data: seq<byte>)
    requires CachedType(tp)
    ensures AddCentRR(c, tp, ttl, ts, flags, data).qname == c.qname
  {}

  /** Every record added keeps the entries accounted and their names distinct. */
  lemma WithRecordOk(a: Centa, r: Record, flags: set<CFlag>, ts: int)
    requires CentaOk(a) && Cachable(r)
    ensures CentaOk(WithRecord(a, r, flags, ts))
  {
    var i := Find(a, r.owner);
    var c := if i < |a| then a[i] else InitCent(r.owner, 0, 0, false, {});
    AddCentRRAccounted(c, r.tp, r.ttl, ts, flags, r.data);
    AddKeepsName(c, r.tp, r.ttl, ts, flags, r.data);
    hide AddCentRR;
    hide Accounted;
    hide FoldName;
  }

  /** What is left of an entry when memory runs out while a record is added: its TTL may be
      lower, or an empty extension array added, but no set and no record. */
  predicate Unfinished(c: Cent, c': Cent, tp: int, ttl: int)
    requires CachedType(tp)
  {
    var idx := SlotOf(tp);
    if c.body.Positive? && idx in c.body.sets then
      var s := c.body.sets[idx];
      c' == PutSet(c, idx, s.(ttl := if ttl < s.ttl then ttl else s.ttl))
    else c' == c || c' == c.(body := AsPositive(c)) || c' == WithExt(c, idx)
  }

  lemma UnfinishedAccounted(c: Cent, c': Cent, tp: int, ttl: int)
    requires Accounted(c) && CachedType(tp) && Unfinished(c, c', tp, ttl)
    ensures Accounted(c') && c'.qname == c.qname
  {
    var idx := SlotOf(tp);
    if c.body.Positive? && idx in c.body.sets {
      var s := c.body.sets[idx];
      PutSetAccounted(c, idx, s.(ttl := if ttl < s.ttl then ttl else s.ttl));
    } else {
      WithExtAccounted(c, idx);
      WithExtAccounted(c, 0);
    }
    hide Accounted;
    hide SlotOf;
  }

  /** add_cent_rr with its allocations: the record, the extension array and the set. */
  method AddRecord(c: Cent, tp: int, ttl: int, ts: int, flags: set<CFlag>, data: seq<byte>, enough: bool)
    returns (ok: bool, c': Cent)
    requires CachedType(tp)
    ensures enough ==> ok
    ensures if ok then c' == AddCentRR(c, tp, ttl, ts, flags, data) else Unfinished(c, c', tp, ttl)
  {
    hide SlotOf;
    var idx := SlotOf(tp);
    if DF_LOCAL in c.flags && CF_LOCAL !in flags { return true, c; }
    c' := c;
    if c.body.Positive? && idx in c.body.sets {
      var s := c.body.sets[idx];
      c' := PutSet(c, idx, s.(ttl := if ttl < s.ttl then ttl else s.ttl));
      if data in s.rrs { return true, c'; }
      ok := Allocate(enough);
      if ok { c' := AddRR(c', idx, data); }
      return;
    }
    ok := Allocate(enough);
    if !ok { return; }
    c' := c.(body := AsPositive(c));
    if idx >= NRRMU && !c'.body.ext {
      ok := Allocate(enough);
      if !ok { return; }
    }
    c' := WithExt(c, idx);
    ok := Allocate(enough);
    if ok { c' := AddRR(AddSet(c, idx, ttl, ts, flags), idx, data); }
  }

  /** What is left of the entries when memory runs out: the one concerned is Unfinished, or it is
      not there yet; growing the array may also have failed, and then all entries are gone. */
  ghost predicate NothingAdded(a: Centa, a': Centa, r: Record)
    requires Cachable(r)
  {
    var i := Find(a, r.owner);
    if i < |a| then exists c :: Unfinished(a[i], c, r.tp, r.ttl) && a' == a[i := c]
    else
      || a' == [] || a' == a
      || exists c :: Unfinished(InitCent(r.owner, 0, 0, false, {}), c, r.tp, r.ttl) && a' == a + [c]
  }

  lemma NothingAddedOk(a: Centa, a': Centa, r: Record)
    requires CentaOk(a) && Cachable(r) && NothingAdded(a, a', r)
    ensures CentaOk(a')
  {
    var i := Find(a, r.owner);
    if i < |a| {
      var c :| Unfinished(a[i], c, r.tp, r.ttl) && a' == a[i := c];
      UnfinishedAccounted(a[i], c, r.tp, r.ttl);
    } else if a' != [] && a' != a {
      var e := InitCent(r.owner, 0, 0, false, {});
      var c :| Unfinished(e, c, r.tp, r.ttl) && a' == a + [c];
      UnfinishedAccounted(e, c, r.tp, r.ttl);
    }
    hide Accounted;
    hide Unfinished;
    hide FoldName;
  }

  /** rr_to_cache */
  method RrToCache(a: Centa, r: Record, flags: set<CFlag>, ts: int, enough: bool) returns (ok: bool, a': Centa)
    requires Cachable(r)
    ensures enough ==> ok
    ensures if ok then a' == WithRecord(a, r, flags, ts) else NothingAdded(a, a', r)
    ensures CentaOk(a) ==> CentaOk(a')
  {
    ghost var f := Find(a, r.owner);
    if CentaOk(a) { WithRecordOk(a, r, flags, ts); }
    hide AddCentRR;
    hide FoldName;
    hide Accounted;
    hide Unfinished;
    hide CentaOk;
    hide CachedType;
    var c;
    for i := 0 to |a|
      invariant i <= f
    {
      if SameName(a[i].qname, r.owner) {
        assert i == f;
        ok, c := AddRecord(a[i], r.tp, r.ttl, ts, flags, r.data, enough);
        a' := a[i := c];
        if !ok && CentaOk(a) { NothingAddedOk(a, a', r); }
        return;
      }
    }
    ok := Allocate(enough);
    if !ok {  // growing the array; it may have been freed with all its entries
      var gone: bool := *;
      a' := if gone then [] else a;
    } else {
      ok := Allocate(enough);
      a' := a;
      if ok {
        ok, c := AddRecord(InitCent(r.owner, 0, 0, false, {}), r.tp, r.ttl, ts, flags, r.data, enough);
        a' := a + [c];
      }
    }
    if !ok && CentaOk(a) { NothingAddedOk(a, a', r); }
  }

  // ---- rrs2cent

  /** The outcome of reading a section: records for the cache, OPT records, the position after
      the last good record. */
  datatype All = All(rs: seq<Record>, opts: seq<ReadResult>, next: nat, rc: RC)

  function ReadAll(msg: seq<byte>, pos: nat, n: nat): (a: All)
    requires pos <= |msg|
    ensures pos <= a.next <= |msg| && forall i :: 0 <= i < |a.rs| ==> Cachable(a.rs[i])
    decreases n
  {
    if n == 0 then All([], [], pos, RC_OK)
    else
      ReadAdvances(msg, pos);
      match ReadRecord(msg, pos)
      case TruncErr => All([], [], pos, RC_TRUNC)
      case FormatErr => All([], [], pos, RC_FORMAT)
      case Ignored(next) => ReadAll(msg, next, n - 1)
      case GotOpt(cls, ttl, next) =>
        var t := ReadAll(msg, next, n - 1);
        t.(opts := [GotOpt(cls, ttl, next)] + t.opts)
      case GotRecord(r, next) =>
        var t := ReadAll(msg, next, n - 1);
        t.(rs := [r] + t.rs)
  }

  /** The reader moves forward and stays inside the message. */
  lemma ReadAdvances(msg: seq<byte>, pos: nat)
    requires pos <= |msg|
    ensures var h := ReadRecord(msg, pos);
      && (h.GotRecord? || h.GotOpt? || h.Ignored? ==> pos < h.next <= |msg|)
      && (h.GotRecord? ==> Cachable(h.r))
  {
    hide Extent;
    hide DecodeAt;
    hide ReadData;
    hide Get16;
    hide Get32;
    hide RunsOut;
    if ReadRecord(msg, pos).GotRecord? { ReadRecordValid(msg, pos); }
  }

  /** rrs2cent: what it adds to the cache entries is what a reader finds in the message, in
      order; on an error, the records before it. When memory runs out, the result says so. */
  method Rrs2Cent(msg: seq<byte>, pos: nat, recnum: nat, flags: set<CFlag>, ts: int, centa: Centa, enough: bool)
    returns (rc: RC, next: nat, centa': Centa, numopt: nat, ep: Option<ReadResult>)
    requires pos <= |msg|
    ensures enough ==> rc != RC_FATALERR
    ensures var all := ReadAll(msg, pos, recnum);
      rc != RC_FATALERR ==>
      && rc == all.rc && next == all.next && centa' == WithRecords(centa, all.rs, flags, ts)
      && numopt == |all.opts| && ep == if all.opts == [] then None else Some(all.opts[0])
    ensures CentaOk(centa) ==> CentaOk(centa')
  {
    hide ReadRecord;
    hide ReadAll;
    hide WithRecord;
    hide WithRecords;
    hide CentaOk;
    hide Cachable;
    rc, next, centa', numopt, ep := RC_OK, pos, centa, 0, None;
    ghost var all := ReadAll(msg, pos, recnum);
    for i := 0 to recnum
      invariant next <= |msg| && all.rc == ReadAll(msg, next, recnum - i).rc && all.next == ReadAll(msg, next, recnum - i).next
      invariant WithRecords(centa, all.rs, flags, ts) == WithRecords(centa', ReadAll(msg, next, recnum - i).rs, flags, ts)
      invariant CentaOk(centa) ==> CentaOk(centa')
      invariant numopt + |ReadAll(msg, next, recnum - i).opts| == |all.opts|
      invariant if numopt == 0 then ep == None && all.opts == ReadAll(msg, next, recnum - i).opts else ep == Some(all.opts[0])
    {
      ReadAdvances(msg, next);
      ReadAllStep(msg, next, recnum - i, centa', flags, ts);
      var h := ReadOne(msg, next);
      if h.TruncErr? { return RC_TRUNC, next, centa', numopt, ep; }
      if h.FormatErr? { return RC_FORMAT, next, centa', numopt, ep; }
      if h.GotOpt? {
        if numopt == 0 { ep := Some(h); }
        numopt := numopt + 1;
      }
      if h.GotRecord? {
        var ok;
        ok, centa' := RrToCache(centa', h.r, flags, ts, enough);
        if !ok { return RC_FATALERR, next, centa', numopt, ep; }
      }
      next := h.next;
    }
    ReadAllEnd(msg, next, centa', flags, ts);
  }

  lemma ReadAllEnd(msg: seq<byte>, pos: nat, a: Centa, flags: set<CFlag>, ts: int)
    requires pos <= |msg|
    ensures ReadAll(msg, pos, 0) == All([], [], pos, RC_OK) && WithRecords(a, [], flags, ts) == a
  {}

  lemma ReadAllStep(msg: seq<byte>, pos: nat, n: nat, a: Centa, flags: set<CFlag>, ts: int)
    requires pos <= |msg| && n > 0
    ensures var all, h := ReadAll(msg, pos, n), ReadRecord(msg, pos);
      if h.TruncErr? || h.FormatErr? then
        all == All([], [], pos, if h.TruncErr? then RC_TRUNC else RC_FORMAT) && WithRecords(a, [], flags, ts) == a
      else
        h.next <= |msg| && var t := ReadAll(msg, h.next, n - 1);
        && all.rc == t.rc && all.next == t.next
        && all.opts == (if h.GotOpt? then [h] + t.opts else t.opts)
        && all.rs == (if h.GotRecord? then [h.r] else []) + t.rs
        && (h.GotRecord? ==> Cachable(h.r))
        && WithRecords(a, all.rs, flags, ts) ==
             WithRecords(if h.GotRecord? then WithRecord(a, h.r, flags, ts) else a, t.rs, flags, ts)
  {
    ReadAdvances(msg, pos);
    hide ReadRecord;
    hide WithRecord;
    var h := ReadRecord(msg, pos);
    if h.Ignored? || h.GotOpt? {
      var t := ReadAll(msg, h.next, n - 1);
      assert [] + t.rs == t.rs;
    }
  }
}
