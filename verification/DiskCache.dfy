/** write_disk_cache and read_disk_cache (cache.c). A file is the sequence of its bytes; each
    write may fail half-way. */
module DiskCache {
  import opened Memory
  import opened Names
  import opened RRTypes
  import opened CacheEntry
  import opened DiskFormat
  import opened DiskRoundTrip

  // ---- The file as a whole

  /** Local negative entries and entries with only local sets are not saved. */
  predicate ToDisk(c: Cent)
  {
    if c.body.Negative? then DF_LOCAL !in c.flags else SetsOf(c) != map[]
  }

  function Saved(cs: seq<Cent>): (r: seq<Cent>)
    ensures forall c :: c in r ==> c in cs && ToDisk(c)
  {
    if cs == [] then [] else (if ToDisk(cs[0]) then [cs[0]] else []) + Saved(cs[1..])
  }

  predicate Named(cs: seq<Cent>) { forall i :: 0 <= i < |cs| ==> ValidName(cs[i].qname) }

  function WriteEntries(cs: seq<Cent>): (b: Bytes)
    requires Named(cs)
  {
    if cs == [] then [] else (if ToDisk(cs[0]) then WriteEntry(cs[0]) else []) + WriteEntries(cs[1..])
  }

  function WriteFile(cs: seq<Cent>): (b: Bytes)
    requires Named(cs)
  {
    CACHVERID + Enc(|Saved(cs)|, 8) + WriteEntries(cs)
  }

  /** The entries that could be read, and whether the file was read to its end. */
  datatype Loaded = Loaded(cents: seq<Cent>, complete: bool)

  function ReadEntries(b: Bytes, n: nat): (l: Loaded)
    decreases n
  {
    if n == 0 then Loaded([], true)
    else match ReadEntry(b)
      case Bad => Loaded([], false)
      case Got(c, rest) =>
        var l := ReadEntries(rest, n - 1);
        l.(cents := [c] + l.cents)
  }

  function ReadFile(b: Bytes): (l: Loaded)
  {
    if |b| < 12 || b[..4] != CACHVERID then Loaded([], false)
    else ReadEntries(b[12..], Dec(b[4..12]))
  }

  predicate AllRebuilt(cs: seq<Cent>, cs': seq<Cent>)
  {
    |cs| == |cs'| && forall i :: 0 <= i < |cs| ==> Rebuilt(cs[i], cs'[i])
  }

  predicate AllStorable(cs: seq<Cent>) { forall i :: 0 <= i < |cs| && ToDisk(cs[i]) ==> Storable(cs[i]) }

  lemma {:induction false} EntriesBack(cs: seq<Cent>)
    requires Named(cs) && AllStorable(cs)
    ensures var l := ReadEntries(WriteEntries(cs), |Saved(cs)|);
      l.complete && AllRebuilt(Saved(cs), l.cents)
  {
    if cs != [] {
      var t := cs[1..];
      assert Named(t) && AllStorable(t) && ValidName(cs[0].qname);
      if ToDisk(cs[0]) {
        assert Storable(cs[0]);
        hide *;
        EntriesBack(t);
        EntryBack(cs[0], WriteEntries(t));
        SavedStep(cs);
        FirstEntryBack(WriteEntry(cs[0]) + WriteEntries(t), cs[0], Saved(t));
      } else {
        hide *;
        EntriesBack(t);
        SavedStep(cs);
      }
    }
  }

  lemma SavedStep(cs: seq<Cent>)
    requires cs != [] && Named(cs)
    ensures Named(cs[1..])
    ensures if ToDisk(cs[0]) then Saved(cs) == [cs[0]] + Saved(cs[1..]) && WriteEntries(cs) == WriteEntry(cs[0]) + WriteEntries(cs[1..])
      else Saved(cs) == Saved(cs[1..]) && WriteEntries(cs) == WriteEntries(cs[1..])
  {
    hide ToDisk;
    hide WriteEntry;
    hide ValidName;
    assert Named(cs[1..]);
    assert [] + Saved(cs[1..]) == Saved(cs[1..]);
    assert [] + WriteEntries(cs[1..]) == WriteEntries(cs[1..]);
  }

  lemma FirstEntryBack(b: Bytes, c: Cent, t: seq<Cent>)
    requires ReadEntry(b).Got? && Rebuilt(c, ReadEntry(b).value)
    requires var l := ReadEntries(ReadEntry(b).rest, |t|); l.complete && AllRebuilt(t, l.cents)
    ensures var l := ReadEntries(b, |[c] + t|); l.complete && AllRebuilt([c] + t, l.cents)
  {
    hide ReadEntry;
    hide Rebuilt;
  }

  /** Disk round trip: of every entry that belongs in the file, reading the file rebuilds the
      name, the flags, the references and the sets that are not local, in order. */
  lemma FileBack(cs: seq<Cent>)
    requires Named(cs) && AllStorable(cs) && |cs| < Pow256(8)
    ensures var l := ReadFile(WriteFile(cs)); l.complete && AllRebuilt(Saved(cs), l.cents)
  {
    hide *;
    SavedFewer(cs);
    DecEnc(|Saved(cs)|, 8);
    EntriesBack(cs);
    FileParts(cs);
  }

  lemma FileParts(cs: seq<Cent>)
    requires Named(cs) && Dec(Enc(|Saved(cs)|, 8)) == |Saved(cs)|
    ensures ReadFile(WriteFile(cs)) == ReadEntries(WriteEntries(cs), |Saved(cs)|)
  {
    hide Enc;
    hide Dec;
    hide WriteEntries;
    hide ReadEntries;
    hide Saved;
    hide Named;
    var b := WriteFile(cs);
    assert b[..4] == CACHVERID;
    assert b[4..12] == Enc(|Saved(cs)|, 8);
    assert b[12..] == WriteEntries(cs);
  }

  lemma {:induction false} SavedFewer(cs: seq<Cent>)
    ensures |Saved(cs)| <= |cs|
  {
    if cs != [] { SavedFewer(cs[1..]); }
  }

  /** The sets come back with their records exactly when the entry is not local, or has no
      records to lose (records that are not local are not added to a local entry), and each of
      them is intact. */
  lemma RecordsBack(c: Cent, c': Cent)
    requires c.body.Positive? && Rebuilt(c, c')
    ensures (forall i :: i in SetsOf(c) ==> i in c'.body.sets && c'.body.sets[i] == c.body.sets[i].(lent := None)) <==>
      forall i :: i in SetsOf(c) ==> Intact(SetsOf(c)[i].rrs) && (DF_LOCAL !in c.flags || SetsOf(c)[i].rrs == [])
  {
    hide Accounted;
    hide Reread;
    hide Intact;
    var sets := SetsOf(c);
    forall i | i in sets
      ensures c'.body.sets[i] == sets[i].(lent := None) <==> Intact(sets[i].rrs) && (DF_LOCAL !in c.flags || sets[i].rrs == [])
    {
      RereadIntact(sets[i].rrs);
      NothingToLose(sets[i].rrs);
      assert c'.body.sets[i] == AsRead(c.flags, sets[i]) && sets[i] == c.body.sets[i];
    }
  }

  lemma NothingToLose(rrs: seq<Bytes>)
    ensures rrs == [] ==> Intact(rrs)
  {}

  // ---- Arbitrary files

  lemma {:induction false} ReadRRsAccounted(c: Cent, tp: int, n: nat, ttl: int, ts: int, flags: set<CFlag>, b: Bytes)
    requires Accounted(c) && CachedType(tp) && c.body.Positive? && SlotOf(tp) in c.body.sets
    ensures var r := ReadRRs(c, tp, n, ttl, ts, flags, b);
      r.Got? ==> Accounted(r.value) && r.value.body.Positive? && r.value.body.sets.Keys == c.body.sets.Keys
    decreases n
  {
    hide Accounted;
    hide Dec;
    if n > 0 && |b| >= 2 && |b| - 2 >= Dec(b[..2]) {
      var len := Dec(b[..2]);
      var d := b[2..2 + len];
      AddCentRRAccounted(c, tp, ttl, ts, flags, d);
      AddKeepsSlots(c, tp, ttl, ts, flags, d);
      hide AddCentRR;
      ReadRRsAccounted(AddCentRR(c, tp, ttl, ts, flags, d), tp, n - 1, ttl, ts, flags, b[2 + len..]);
    }
  }

  lemma AddKeepsSlots(c: Cent, tp: int, ttl: int, ts: int, flags: set<CFlag>, d: Bytes)
    requires CachedType(tp) && c.body.Positive? && SlotOf(tp) in c.body.sets
    ensures AddCentRR(c, tp, ttl, ts, flags, d).body.Positive?
    ensures AddCentRR(c, tp, ttl, ts, flags, d).body.sets.Keys == c.body.sets.Keys
  {}

  /** Sets of lower types only. */
  predicate TypesUpTo(c: Cent, tp: int)
  {
    forall i :: i in AsPositive(c).sets ==> i < NRRTOT && SLOTTYPES[i] <= tp
  }

  /** Whatever is in the file, an entry that is read from it is well accounted. */
  lemma {:induction false} ReadSetsAccounted(c: Cent, n: nat, prevtp: int, b: Bytes)
    requires Accounted(c) && TypesUpTo(c, prevtp)
    ensures var r := ReadSets(c, n, prevtp, b); r.Got? ==> Accounted(r.value)
    decreases n
  {
    hide Accounted;
    hide Dec;
    hide CFlags;
    hide CachedType;
    hide SlotOf;
    if n > 0 && |b| >= 20 && CachedType(b[0]) && b[0] > prevtp {
      var tp := b[0];
      var flags, ttl, ts := CFlags(Dec(b[2..4])), Dec(b[4..12]), Dec(b[12..20]);
      TypeOfSlot(tp);
      var i := SlotOf(tp);
      AddSetAccounted(c, i, ttl, ts, flags);
      AddedSet(c, i, RRSet(None, ttl, ts, flags, []));
      var c1 := AddSet(c, i, ttl, ts, flags);
      hide AddSet;
      ReadRRsAccounted(c1, tp, b[1], ttl, ts, flags, b[20..]);
      hide ReadRRs;
      var r := ReadRRs(c1, tp, b[1], ttl, ts, flags, b[20..]);
      if r.Got? { ReadSetsAccounted(r.value, n - 1, tp, r.rest); }
    }
  }

  lemma ReadStartAccounted(b: Bytes)
    requires ReadStart(b).Some?
    ensures Accounted(ReadStart(b).value.c) && AsPositive(ReadStart(b).value.c).sets == map[]
  {
    hide Dec;
    hide TestBit;
    hide DFlags;
    hide ReadName;
  }

  lemma ReadEntryAccounted(b: Bytes)
    ensures ReadEntry(b).Got? ==> Accounted(ReadEntry(b).value)
  {
    hide Accounted;
    hide ReadStart;
    hide ReadSets;
    hide AsPositive;
    if ReadStart(b).Some? {
      var s := ReadStart(b).value;
      ReadStartAccounted(b);
      ReadSetsAccounted(s.c, s.num, 0, s.rest);
    }
  }

  lemma {:induction false} ReadEntriesAccounted(b: Bytes, n: nat)
    ensures forall c :: c in ReadEntries(b, n).cents ==> Accounted(c)
    decreases n
  {
    hide Accounted;
    hide ReadEntry;
    if n > 0 {
      ReadEntryAccounted(b);
      if ReadEntry(b).Got? { ReadEntriesAccounted(ReadEntry(b).rest, n - 1); }
    }
  }

  lemma ReadFileAccounted(b: Bytes)
    ensures forall c :: c in ReadFile(b).cents ==> Accounted(c)
  {
    hide Accounted;
    hide ReadEntries;
    if |b| >= 12 { ReadEntriesAccounted(b[12..], Dec(b[4..12])); }
  }

  // ---- The loops that write

  /** What is on disk after an attempt to append b: all of it, or only a part. */
  predicate Appended(ok: bool, old_: Bytes, new_: Bytes, b: Bytes)
  {
    if ok then new_ == old_ + b else old_ <= new_ <= old_ + b
  }

  /** The file that is written (FILE). */
  class File {
    const reliable: bool  // writing never fails
    var data: Bytes

    /** fopen for writing */
    constructor (reliable: bool)
      ensures data == [] && this.reliable == reliable
    {
      this.reliable, data := reliable, [];
    }

    /** fwrite: if it fails, some of the bytes may have been written. */
    method Fwrite(b: Bytes) returns (ok: bool)
      modifies this
      ensures (reliable ==> ok) && Appended(ok, old(data), data, b)
    {
      ok := Allocate(reliable);
      var n :| 0 <= n <= |b|;
      data := data + if ok then b else b[..n];
    }
  }

  /** Appending the next piece p; r is still to come. */
  lemma NextPiece(ok: bool, d0: Bytes, d: Bytes, d': Bytes, w: Bytes, p: Bytes, r: Bytes)
    requires d0 <= d && d0 + w == d + (p + r) && Appended(ok, d, d', p)
    ensures if ok then d0 <= d' && d0 + w == d' + r else Appended(false, d0, d', w)
  {
    assert d + (p + r) == (d + p) + r;
  }

  /** write_rrset */
  method WriteRRSet(fp: File, tp: byte, rrset: RRSet) returns (ok: bool)
    modifies fp
    ensures (fp.reliable ==> ok) && Appended(ok, old(fp.data), fp.data, WriteSet(tp, rrset))
  {
    hide Enc;
    hide CBits;
    var num: nat := 0;
    while num < |rrset.rrs| && num < 255
      invariant num <= |rrset.rrs| && num <= 255
    {
      num := num + 1;
    }
    ghost var w, all := Written(rrset.rrs), WriteSet(tp, rrset);
    assert w == rrset.rrs[..num] && w[0..] == w;
    ghost var d0, d := fp.data, fp.data;
    var h := [tp, num] + Enc(Bits(CBits(rrset.flags)), 2) + Enc(rrset.ttl, 8) + Enc(rrset.ts, 8);
    ok := fp.Fwrite(h);
    NextPiece(ok, d0, d, fp.data, all, h, WriteRRs(w));
    var k := 0;
    while ok && k < num
      invariant k <= num && (fp.reliable ==> ok)
      invariant if ok then d0 <= fp.data && d0 + all == fp.data + WriteRRs(w[k..]) else Appended(false, d0, fp.data, all)
    {
      var rr := rrset.rrs[k];
      assert w[k..][0] == rr && w[k..][1..] == w[k + 1..];
      d := fp.data;
      ok := fp.Fwrite(WriteRR(rr));
      NextPiece(ok, d0, d, fp.data, all, WriteRR(rr), WriteRRs(w[k + 1..]));
      k := k + 1;
    }
    if ok { Done(d0, fp.data, all, w[k..]); }
  }

  lemma Done(d0: Bytes, d: Bytes, w: Bytes, l: seq<Bytes>)
    requires d0 <= d && d0 + w == d + WriteRRs(l) && l == []
    ensures Appended(true, d0, d, w)
  {
    assert d + [] == d;
  }

  /** The first loop over an entry: is there anything to save? */
  method IsSaved(c: Cent) returns (r: bool)
    requires Shaped(c)
    ensures r == ToDisk(c)
  {
    if c.body.Negative? { return DF_LOCAL !in c.flags; }
    var jlim := if c.body.ext then NRRTOT else NRRMU;
    for j := 0 to jlim
      invariant forall i :: i in c.body.sets && i < j ==> Local(c.body.sets[i])
    {
      if j in c.body.sets && !Local(c.body.sets[j]) {
        assert j in SetsOf(c);
        return true;
      }
    }
    assert SetsOf(c) == map[];
    r := false;
  }

  /** The sets of an entry, counted by slot. */
  method CountSets(c: Cent) returns (n: nat)
    requires Shaped(c)
    ensures n == SlotsUsed(SetsOf(c), NRRTOT)
  {
    n := 0;
    var jlim := if c.body.Negative? then 0 else if c.body.ext then NRRTOT else NRRMU;
    for j := 0 to jlim
      invariant n == SlotsUsed(SetsOf(c), j)
    {
      if j in c.body.sets && !Local(c.body.sets[j]) { n := n + 1; }
    }
    SlotsUsedBeyond(SetsOf(c), jlim, NRRTOT);
  }

  lemma {:induction false} SlotsUsedBeyond(m: map<nat, RRSet>, lim: nat, n: nat)
    requires lim <= n && forall i :: i in m ==> i < lim
    ensures SlotsUsed(m, n) == SlotsUsed(m, lim)
  {
    if lim < n { SlotsUsedBeyond(m, lim, n - 1); }
  }

  /** The sets of an entry, written by type. */
  method WriteEntrySets(fp: File, c: Cent) returns (ok: bool)
    requires Shaped(c)
    modifies fp
    ensures TypeList(IterList(c))
    ensures (fp.reliable ==> ok) && Appended(ok, old(fp.data), fp.data, WriteSets(SetsOf(c), IterList(c)))
  {
    IterListOk(c);
    hide IterList;
    hide SlotOf;
    hide CachedType;
    hide WriteSet;
    ghost var m := SetsOf(c);
    var l := IterList(c);
    ghost var d0, all := fp.data, WriteSets(m, l);
    assert l[0..] == l;
    ok := true;
    var j := 0;
    while ok && j < |l|
      invariant j <= |l| && (fp.reliable ==> ok)
      invariant if ok then d0 <= fp.data && d0 + all == fp.data + WriteSets(m, l[j..]) else Appended(false, d0, fp.data, all)
    {
      assert CachedType(l[j]) && l[j..][0] == l[j] && l[j..][1..] == l[j + 1..];
      var i := SlotOf(l[j]);
      ghost var d := fp.data;
      if c.body.Positive? && i in c.body.sets && !Local(c.body.sets[i]) {
        ByteType(l[j]);
        ok := WriteRRSet(fp, l[j], c.body.sets[i]);
        NextPiece(ok, d0, d, fp.data, all, WriteSet(l[j], c.body.sets[i]), WriteSets(m, l[j + 1..]));
      } else {
        assert [] + WriteSets(m, l[j + 1..]) == WriteSets(m, l[j + 1..]);
      }
      j := j + 1;
    }
    if ok {
      assert l[j..] == [];
      assert fp.data + [] == fp.data;
    }
  }

  /** write_disk_cache over the entries in the order of the hash table: a first walk counts
      them, a second one writes them. If writing fails, a beginning of the file is there. */
  method WriteDiskCache(fp: File, cs: seq<Cent>) returns (ok: bool)
    requires fp.data == [] && forall i :: 0 <= i < |cs| ==> Shaped(cs[i])
    modifies fp
    ensures Named(cs) && (fp.reliable ==> ok)
    ensures if ok then fp.data == WriteFile(cs) else fp.data <= WriteFile(cs)
  {
    hide Shaped;
    hide WriteEntry;
    hide Enc;
    NamedAll(cs);
    ok := fp.Fwrite(CACHVERID);
    FileStarts(ok, fp.data, cs);
    if !ok { return; }
    var en := CountSaved(cs);
    ghost var d := fp.data;
    ok := fp.Fwrite(Enc(en, 8));
    NextPiece(ok, [], d, fp.data, WriteFile(cs), Enc(en, 8), WriteEntries(cs));
    assert cs[0..] == cs && [] + WriteFile(cs) == WriteFile(cs);
    var i := 0;
    while ok && i < |cs|
      invariant i <= |cs| && (fp.reliable ==> ok) && Named(cs[i..])
      invariant if ok then [] <= fp.data && [] + WriteFile(cs) == fp.data + WriteEntries(cs[i..])
        else Appended(false, [], fp.data, WriteFile(cs))
    {
      SavedStep(cs[i..]);
      assert cs[i..][0] == cs[i] && cs[i..][1..] == cs[i + 1..];
      var saved := IsSaved(cs[i]);
      if saved {
        d := fp.data;
        ok := WriteOne(fp, cs[i]);
        NextPiece(ok, [], d, fp.data, WriteFile(cs), WriteEntry(cs[i]), WriteEntries(cs[i + 1..]));
      }
      i := i + 1;
    }
    if ok {
      assert cs[i..] == [];
      assert fp.data + [] == fp.data;
    }
  }

  lemma FileStarts(ok: bool, d: Bytes, cs: seq<Cent>)
    requires Named(cs) && Appended(ok, [], d, CACHVERID)
    ensures if ok then [] + WriteFile(cs) == d + (Enc(|Saved(cs)|, 8) + WriteEntries(cs)) else d <= WriteFile(cs)
  {
    hide WriteEntries;
    hide Enc;
    assert [] + CACHVERID == CACHVERID;
    assert CACHVERID + Enc(|Saved(cs)|, 8) + WriteEntries(cs) == CACHVERID + (Enc(|Saved(cs)|, 8) + WriteEntries(cs));
  }

  /** The first walk. */
  method CountSaved(cs: seq<Cent>) returns (en: nat)
    requires forall i :: 0 <= i < |cs| ==> Shaped(cs[i])
    ensures en == |Saved(cs)|
  {
    hide Shaped;
    en := 0;
    assert cs[0..] == cs;
    for i := 0 to |cs|
      invariant en + |Saved(cs[i..])| == |Saved(cs)|
    {
      assert cs[i..][0] == cs[i] && cs[i..][1..] == cs[i + 1..];
      var saved := IsSaved(cs[i]);
      if saved { en := en + 1; }
    }
    assert cs[|cs|..] == [];
  }

  lemma NamedAll(cs: seq<Cent>)
    requires forall i :: 0 <= i < |cs| ==> Shaped(cs[i])
    ensures Named(cs) && forall i :: 0 <= i <= |cs| ==> Named(cs[i..])
  {}

  method WriteOne(fp: File, c: Cent) returns (ok: bool)
    requires Shaped(c)
    modifies fp
    ensures ValidName(c.qname) && (fp.reliable ==> ok) && Appended(ok, old(fp.data), fp.data, WriteEntry(c))
  {
    hide Enc;
    hide DBits;
    hide WirePrefix;
    SetCount(c);
    EntryPieces(c);
    hide WriteEntry;
    var num := CountSets(c);
    ghost var d0, d, all, sets := fp.data, fp.data, WriteEntry(c), WriteSets(SetsOf(c), IterList(c));
    var h := [|WirePrefix(c.qname)|, num % 256] + Enc(Bits(DBits(c.body.Negative?, c.flags)), 2) + [c.cNs % 256, c.cSoa % 256];
    ok := fp.Fwrite(h);
    NextPiece(ok, d0, d, fp.data, all, h, Times(c) + (WirePrefix(c.qname) + sets));
    if !ok { return; }
    d := fp.data;
    if c.body.Negative? { ok := fp.Fwrite(Enc(c.body.ttl, 8) + Enc(c.body.ts, 8)); } else { assert d + [] == d; }
    NextPiece(ok, d0, d, fp.data, all, Times(c), WirePrefix(c.qname) + sets);
    if !ok { return; }
    d := fp.data;
    ok := fp.Fwrite(WirePrefix(c.qname));
    NextPiece(ok, d0, d, fp.data, all, WirePrefix(c.qname), sets);
    if !ok { return; }
    d := fp.data;
    ok := WriteEntrySets(fp, c);
    assert sets + [] == sets;
    NextPiece(ok, d0, d, fp.data, all, sets, []);
    if ok { assert fp.data + [] == fp.data; }
  }

  lemma EntryPieces(c: Cent)
    requires Shaped(c)
    ensures ValidName(c.qname) && TypeList(IterList(c))
    ensures WriteEntry(c) == EntryHeader(c) + (Times(c) + (WirePrefix(c.qname) + WriteSets(SetsOf(c), IterList(c))))
  {
    IterListOk(c);
    hide EntryHeader;
    hide Times;
    hide WirePrefix;
    hide WriteSets;
    hide SetsOf;
    hide IterList;
  }

  // ---- The loops that read

  /** The innermost loop of read_disk_cache. */
  method ReadRecords(c0: Cent, tp: int, num: nat, ttl: int, ts: int, flags: set<CFlag>, b0: Bytes) returns (r: Read<Cent>)
    requires CachedType(tp)
    ensures r == ReadRRs(c0, tp, num, ttl, ts, flags, b0)
  {
    hide AddCentRR;
    hide CachedType;
    hide Dec;
    var c, b := c0, b0;
    for k := 0 to num
      invariant ReadRRs(c0, tp, num, ttl, ts, flags, b0) == ReadRRs(c, tp, num - k, ttl, ts, flags, b)
    {
      if |b| < 2 { return Bad; }
      var len := Dec(b[..2]);
      if |b| - 2 < len { return Bad; }
      c, b := AddCentRR(c, tp, ttl, ts, flags, b[2..2 + len]), b[2 + len..];
    }
    r := Got(c, b);
  }

  /** The loop over the sets of an entry. */
  method ReadEntrySets(c0: Cent, num: nat, b0: Bytes) returns (r: Read<Cent>)
    ensures r == ReadSets(c0, num, 0, b0)
  {
    hide AddSet;
    hide CachedType;
    hide SlotOf;
    hide Dec;
    hide CFlags;
    hide ReadRRs;
    var c, b, prevtp := c0, b0, 0;
    for k := 0 to num
      invariant ReadSets(c0, num, 0, b0) == ReadSets(c, num - k, prevtp, b)
    {
      if |b| < 20 { return Bad; }
      var tp := b[0];
      if !CachedType(tp) || tp <= prevtp { return Bad; }
      var flags, ttl, ts := CFlags(Dec(b[2..4])), Dec(b[4..12]), Dec(b[12..20]);
      var rr := ReadRecords(AddSet(c, SlotOf(tp), ttl, ts, flags), tp, b[1], ttl, ts, flags, b[20..]);
      if rr.Bad? { return Bad; }
      c, b, prevtp := rr.value, rr.rest, tp;
    }
    r := Got(c, b);
  }

  /** The main loop of read_disk_cache, up to the call of add_cache: the entries in the order
      of the file, all of them well accounted. */
  method ReadDiskCache(f: Bytes) returns (l: Loaded)
    ensures l == ReadFile(f) && forall c :: c in l.cents ==> Accounted(c)
  {
    ReadFileAccounted(f);
    hide Accounted;
    hide Dec;
    hide ReadStart;
    hide ReadSets;
    l := Loaded([], false);
    if |f| < 12 || f[..4] != CACHVERID { return; }
    var cnt, b := Dec(f[4..12]), f[12..];
    ghost var all := ReadEntries(b, cnt);
    assert [] + all.cents == all.cents;
    for k := 0 to cnt
      invariant !l.complete && all.cents == l.cents + ReadEntries(b, cnt - k).cents
      invariant all.complete == ReadEntries(b, cnt - k).complete
    {
      var s := ReadStart(b);
      if s.None? {
        assert l.cents + [] == l.cents;
        return;
      }
      var r := ReadEntrySets(s.value.c, s.value.num, s.value.rest);
      if r.Bad? {
        assert l.cents + [] == l.cents;
        return;
      }
      ghost var t := ReadEntries(r.rest, cnt - k - 1);
      assert l.cents + ([r.value] + t.cents) == l.cents + [r.value] + t.cents;
      l, b := l.(cents := l.cents + [r.value]), r.rest;
    }
    assert l.cents + [] == l.cents;
    l := l.(complete := true);
  }
}
