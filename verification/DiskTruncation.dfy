/** A cache file that was not written to its end: what is read is a beginning of what was
    saved. */
module DiskTruncation {
  import opened Names
  import opened RRTypes
  import opened CacheEntry
  import opened DiskFormat
  import opened DiskRoundTrip
  import opened DiskCache

  // ---- More bytes never change what could be read before

  /** The same result with y after it. */
  ghost predicate Extends<T>(r: Read<T>, r': Read<T>, y: Bytes)
  {
    r.Got? ==> r' == Got(r.value, r.rest + y)
  }

  lemma SliceOfMore(b: Bytes, y: Bytes, i: nat, j: nat)
    requires i <= j <= |b|
    ensures (b + y)[i..j] == b[i..j] && (b + y)[j..] == b[j..] + y
  {}

  lemma {:induction false} ReadRRsMore(c: Cent, tp: int, n: nat, ttl: int, ts: int, flags: set<CFlag>, b: Bytes, y: Bytes)
    requires CachedType(tp)
    ensures Extends(ReadRRs(c, tp, n, ttl, ts, flags, b), ReadRRs(c, tp, n, ttl, ts, flags, b + y), y)
    decreases n
  {
    hide AddCentRR;
    hide CachedType;
    hide Dec;
    if n > 0 && |b| >= 2 && |b| - 2 >= Dec(b[..2]) {
      var len := Dec(b[..2]);
      SliceOfMore(b, y, 0, 2);
      SliceOfMore(b, y, 2, 2 + len);
      ReadRRsMore(AddCentRR(c, tp, ttl, ts, flags, b[2..2 + len]), tp, n - 1, ttl, ts, flags, b[2 + len..], y);
    }
  }

  lemma {:induction false} ReadSetsMore(c: Cent, n: nat, prevtp: int, b: Bytes, y: Bytes)
    ensures Extends(ReadSets(c, n, prevtp, b), ReadSets(c, n, prevtp, b + y), y)
    decreases n
  {
    hide AddSet;
    hide CachedType;
    hide SlotOf;
    hide Dec;
    hide CFlags;
    hide ReadRRs;
    if n > 0 && |b| >= 20 && CachedType(b[0]) && b[0] > prevtp {
      var tp := b[0];
      SliceOfMore(b, y, 2, 4);
      SliceOfMore(b, y, 4, 12);
      SliceOfMore(b, y, 12, 20);
      var flags, ttl, ts := CFlags(Dec(b[2..4])), Dec(b[4..12]), Dec(b[12..20]);
      var c1 := AddSet(c, SlotOf(tp), ttl, ts, flags);
      ReadRRsMore(c1, tp, b[1], ttl, ts, flags, b[20..], y);
      var r := ReadRRs(c1, tp, b[1], ttl, ts, flags, b[20..]);
      if r.Got? { ReadSetsMore(r.value, n - 1, tp, r.rest, y); }
    }
  }

  lemma ReadStartMore(b: Bytes, y: Bytes)
    requires ReadStart(b).Some?
    ensures ReadStart(b + y) == Some(ReadStart(b).value.(rest := ReadStart(b).value.rest + y))
  {
    hide Dec;
    hide TestBit;
    hide DFlags;
    hide ReadName;
    hide InitCent;
    var qlen: nat, flags := b[0], Dec(b[2..4]);
    var at: nat := if TestBit(flags, 0) then 22 else 6;
    SliceOfMore(b, y, 2, 4);
    if at == 22 {
      SliceOfMore(b, y, 6, 14);
      SliceOfMore(b, y, 14, 22);
    }
    SliceOfMore(b, y, at, at + qlen);
  }

  lemma ReadEntryMore(b: Bytes, y: Bytes)
    ensures Extends(ReadEntry(b), ReadEntry(b + y), y)
  {
    hide ReadStart;
    hide ReadSets;
    if ReadStart(b).Some? {
      var s := ReadStart(b).value;
      ReadStartMore(b, y);
      ReadSetsMore(s.c, s.num, 0, s.rest, y);
    }
  }

  // ---- Truncated files

  /** Part of an entry is no entry. */
  lemma EntryTruncated(c: Cent, k: nat)
    requires Storable(c) && ValidName(c.qname) && k < |WriteEntry(c)|
    ensures ReadEntry(WriteEntry(c)[..k]) == Bad
  {
    hide *;
    var w := WriteEntry(c);
    EntryBack(c, []);
    ReadEntryMore(w[..k], w[k..]);
    assert w + [] == w && w[..k] + w[k..] == w;
    TooMuch(ReadEntry(w[..k]), ReadEntry(w), w[k..]);
  }

  lemma TooMuch<T>(r: Read<T>, r': Read<T>, y: Bytes)
    requires Extends(r, r', y) && r'.Got? && r'.rest == [] && y != []
    ensures r == Bad
  {}

  /** A beginning of the entries comes back, all of them only if the file is complete. */
  ghost predicate Beginning(cs: seq<Cent>, l: Loaded, whole: bool)
  {
    && |l.cents| <= |Saved(cs)| && AllRebuilt(Saved(cs)[..|l.cents|], l.cents)
    && (l.complete <==> whole) && (whole ==> |l.cents| == |Saved(cs)|)
  }

  lemma {:induction false} EntriesTruncated(cs: seq<Cent>, k: nat)
    requires Named(cs) && AllStorable(cs) && k <= |WriteEntries(cs)|
    ensures Beginning(cs, ReadEntries(WriteEntries(cs)[..k], |Saved(cs)|), k == |WriteEntries(cs)|)
    decreases |cs|, 1
  {
    if cs == [] {
      assert WriteEntries(cs)[..k] == [];
    } else {
      var t := cs[1..];
      assert Named(t) && AllStorable(t) && ValidName(cs[0].qname);
      assert ToDisk(cs[0]) ==> Storable(cs[0]);
      hide *;
      SavedStep(cs);
      if ToDisk(cs[0]) {
        FirstTruncated(cs, k);
      } else {
        EntriesTruncated(t, k);
        SameSaved(cs, t, ReadEntries(WriteEntries(t)[..k], |Saved(t)|), k == |WriteEntries(t)|);
      }
    }
  }

  lemma {:induction false} FirstTruncated(cs: seq<Cent>, k: nat)
    requires cs != [] && Named(cs) && AllStorable(cs[1..]) && k <= |WriteEntries(cs)| && Named(cs[1..])
    requires ToDisk(cs[0]) && Storable(cs[0]) && ValidName(cs[0].qname)
    ensures Beginning(cs, ReadEntries(WriteEntries(cs)[..k], |Saved(cs)|), k == |WriteEntries(cs)|)
    decreases |cs|, 0
  {
    hide *;
    var c, t := cs[0], cs[1..];
    var w, r := WriteEntry(c), WriteEntries(t);
    SavedStep(cs);
    if k < |w| {
      EntryTruncated(c, k);
      assert (w + r)[..k] == w[..k];
      NothingRead(cs, w[..k], |Saved(cs)|);
    } else {
      EntriesTruncated(t, k - |w|);
      EntryBack(c, r[..k - |w|]);
      assert (w + r)[..k] == w + r[..k - |w|];
      OneRead(cs, w + r[..k - |w|], ReadEntries(r[..k - |w|], |Saved(t)|), k - |w| == |r|);
    }
  }

  lemma NothingRead(cs: seq<Cent>, b: Bytes, n: nat)
    requires n > 0 && ReadEntry(b) == Bad
    ensures Beginning(cs, ReadEntries(b, n), false)
  {
    hide ReadEntry;
    hide Saved;
    hide Rebuilt;
  }

  lemma OneRead(cs: seq<Cent>, b: Bytes, l: Loaded, whole: bool)
    requires cs != [] && Saved(cs) == [cs[0]] + Saved(cs[1..]) && Beginning(cs[1..], l, whole)
    requires ReadEntry(b).Got? && Rebuilt(cs[0], ReadEntry(b).value)
    requires l == ReadEntries(ReadEntry(b).rest, |Saved(cs[1..])|)
    ensures Beginning(cs, ReadEntries(b, |Saved(cs)|), whole)
  {
    hide ReadEntry;
    hide Rebuilt;
    hide Saved;
    var l' := ReadEntries(b, |Saved(cs)|);
    var v := ReadEntry(b).value;
    assert l' == l.(cents := [v] + l.cents);
    assert Saved(cs)[..|l'.cents|] == [cs[0]] + Saved(cs[1..])[..|l.cents|];
  }

  lemma SameSaved(cs: seq<Cent>, t: seq<Cent>, l: Loaded, whole: bool)
    requires Saved(cs) == Saved(t) && Beginning(t, l, whole)
    ensures Beginning(cs, l, whole)
  {
    hide Saved;
    hide Rebuilt;
  }

  /** Wherever writing the file has stopped: reading it rebuilds the first entries that were
      saved, in order, and reports the end of the file unless it was written completely. */
  lemma FileTruncated(cs: seq<Cent>, d: Bytes)
    requires Named(cs) && AllStorable(cs) && |cs| < Pow256(8) && d <= WriteFile(cs)
    ensures Beginning(cs, ReadFile(d), d == WriteFile(cs))
  {
    hide *;
    var k := |d|;
    assert d == WriteFile(cs)[..k];
    SavedFewer(cs);
    DecEnc(|Saved(cs)|, 8);
    FileCut(cs, k);
    if k >= 12 {
      EntriesTruncated(cs, k - 12);
    } else {
      NoEntries(cs);
    }
  }

  lemma NoEntries(cs: seq<Cent>)
    ensures Beginning(cs, Loaded([], false), false)
  {
    hide Saved;
    hide Rebuilt;
  }

  lemma FileCut(cs: seq<Cent>, k: nat)
    requires Named(cs) && Dec(Enc(|Saved(cs)|, 8)) == |Saved(cs)| && k <= |WriteFile(cs)|
    ensures |WriteFile(cs)| == 12 + |WriteEntries(cs)|
    ensures ReadFile(WriteFile(cs)[..k]) ==
      if k < 12 then Loaded([], false) else ReadEntries(WriteEntries(cs)[..k - 12], |Saved(cs)|)
  {
    hide Enc;
    hide Dec;
    hide WriteEntries;
    hide ReadEntries;
    hide Saved;
    hide Named;
    var w := WriteFile(cs);
    if k >= 12 {
      assert w[..k][..4] == CACHVERID;
      assert w[..k][4..12] == Enc(|Saved(cs)|, 8);
      assert w[..k][12..] == WriteEntries(cs)[..k - 12];
    }
  }
}
