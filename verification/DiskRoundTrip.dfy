/** What is written to the permanent cache file is read back. */
module DiskRoundTrip {
  import opened Names
  import opened RRTypes
  import opened CacheEntry
  import opened DiskFormat

  /** A set whose times fit their widths. */
  predicate FitsDisk(s: RRSet) { 0 <= s.ttl < Pow256(8) && 0 <= s.ts < Pow256(8) }

  /** Record data as it is written: without what the length field cannot tell. */
  function Cut(d: Bytes): (c: Bytes)
    ensures |c| < 0x1_0000 && c <= d && (c == d <==> |d| < 0x1_0000)
  {
    d[..|d| % 0x1_0000]
  }

  /** The records of a set, after these were read: no data twice. */
  function Reread(done: seq<Bytes>, rrs: seq<Bytes>): (r: seq<Bytes>)
    decreases |rrs|
  {
    if rrs == [] then done
    else Reread(if Cut(rrs[0]) in done then done else done + [Cut(rrs[0])], rrs[1..])
  }

  /** Nothing is lost on disk: few enough records, short enough, and no two of them equal. */
  predicate Intact(rrs: seq<Bytes>) { |rrs| <= 255 && FitRRs(rrs) && NoDuplicates(rrs) }

  predicate FitRRs(rrs: seq<Bytes>) { forall i :: 0 <= i < |rrs| ==> |rrs[i]| < 0x1_0000 }

  predicate NoDuplicates(rrs: seq<Bytes>) { forall i, j :: 0 <= i < j < |rrs| ==> rrs[i] != rrs[j] }

  predicate Storable(c: Cent)
  {
    && Shaped(c) && c.cNs < 256 && c.cSoa < 256
    && (c.body.Negative? ==> 0 <= c.body.ttl < Pow256(8) && 0 <= c.body.ts < Pow256(8))
    && forall i :: i in SetsOf(c) ==> FitsDisk(SetsOf(c)[i])
  }

  /** A set as it comes back: add_cent_rr ignores its records if the entry is local. */
  function AsRead(flags: set<DFlag>, s: RRSet): (r: RRSet)
  {
    s.(lent := None, rrs := if DF_LOCAL in flags then [] else Reread([], Written(s.rrs)))
  }

  function AllAsRead(flags: set<DFlag>, m: map<nat, RRSet>): (r: map<nat, RRSet>)
    ensures r.Keys == m.Keys
  {
    map i | i in m :: AsRead(flags, m[i])
  }

  /** Everything but the sets is the same, and the counters are right. */
  predicate SameRest(c: Cent, c': Cent)
  {
    c'.qname == c.qname && c'.flags == c.flags && c'.cNs == c.cNs && c'.cSoa == c.cSoa && Accounted(c')
  }

  /** The entry came back: name, flags, references, and the sets that are not local. */
  predicate Rebuilt(c: Cent, c': Cent)
  {
    && SameRest(c, c')
    && match c.body
       case Negative(_, ttl, ts) => c'.body == Negative(None, ttl, ts)
       case Positive(_, _) => c'.body.Positive? && c'.body.sets == AllAsRead(c.flags, SetsOf(c))
  }

  // ---- What is lost

  lemma {:induction false} RereadBounds(done: seq<Bytes>, rrs: seq<Bytes>)
    requires FitRRs(done) && NoDuplicates(done)
    ensures var r := Reread(done, rrs); FitRRs(r) && NoDuplicates(r) && |r| <= |done| + |rrs|
    decreases |rrs|
  {
    if rrs != [] { RereadBounds(if Cut(rrs[0]) in done then done else done + [Cut(rrs[0])], rrs[1..]); }
  }

  lemma {:induction false} RereadAll(done: seq<Bytes>, rrs: seq<Bytes>)
    requires FitRRs(rrs) && NoDuplicates(done + rrs)
    ensures Reread(done, rrs) == done + rrs
    decreases |rrs|
  {
    if rrs == [] {
      assert done + rrs == done;
    } else {
      assert (done + rrs)[|done|] == rrs[0];
      assert forall i :: 0 <= i < |done| ==> (done + rrs)[i] == done[i];
      assert done + [rrs[0]] + rrs[1..] == done + rrs;
      RereadAll(done + [rrs[0]], rrs[1..]);
    }
  }

  /** All records of a set come back, in order, exactly if it is intact: at most 255 records, of
      at most 65535 bytes each, no two of them equal. */
  lemma RereadIntact(rrs: seq<Bytes>)
    ensures Reread([], Written(rrs)) == rrs <==> Intact(rrs)
  {
    RereadBounds([], Written(rrs));
    if Intact(rrs) {
      assert [] + rrs == rrs;
      RereadAll([], rrs);
    }
  }

  /** Record data that are one byte too long come back as no bytes at all. */
  lemma LongDataOnDisk(d: Bytes)
    requires |d| == 0x1_0000
    ensures Reread([], Written([d])) == [[]]
  {
    assert Cut(d) == [] && [d][1..] == [];
    assert Reread([[]], []) == [[]];
    assert [] + [Cut(d)] == [[]];
  }

  // ---- Records

  lemma AppendedRR(c: Cent, tp: int, s: RRSet, flags: set<CFlag>, ts: int, d: Bytes)
    requires Accounted(c) && CachedType(tp) && c.body.Positive? && SlotOf(tp) in c.body.sets && c.body.sets[SlotOf(tp)] == s
    requires DF_LOCAL !in c.flags
    ensures var c' := AddCentRR(c, tp, s.ttl, ts, flags, d);
      && SameRest(c, c') && c'.body.Positive?
      && c'.body.sets == c.body.sets[SlotOf(tp) := s.(rrs := if d in s.rrs then s.rrs else s.rrs + [d])]
  {
    AddCentRRAccounted(c, tp, s.ttl, ts, flags, d);
    hide Accounted;
    hide SlotOf;
  }

  /** Two bytes tell a length only up to multiples of 65536. */
  lemma LengthField(n: nat)
    ensures Dec(Enc(n, 2)) == n % 0x1_0000
  {
    assert Enc(n, 2) == [n % 256, n / 256 % 256];
    var lo, hi := n % 256, n / 256 % 256;
    assert Dec([hi]) == hi && [lo, hi][1..] == [hi] && [hi][1..] == [];
    var top := n / 256 / 256;
    assert n == top * 0x1_0000 + (hi * 256 + lo);
  }

  lemma ReadOneRR(c: Cent, tp: int, n: nat, ttl: int, ts: int, flags: set<CFlag>, d: Bytes, x: Bytes)
    requires CachedType(tp) && n > 0
    ensures ReadRRs(c, tp, n, ttl, ts, flags, WriteRR(d) + x)
         == ReadRRs(AddCentRR(c, tp, ttl, ts, flags, Cut(d)), tp, n - 1, ttl, ts, flags, x)
  {
    hide AddCentRR;
    hide CachedType;
    LengthField(|d|);
    hide Enc;
    hide Dec;
    var b, k := WriteRR(d) + x, |Cut(d)|;
    assert b[..2] == Enc(|d|, 2);
    assert b[2..2 + k] == Cut(d) && b[2 + k..] == x;
  }

  /** What reading n records has to lead to. */
  predicate RRsRead(r: Read<Cent>, c: Cent, i: nat, s: RRSet, rrs: seq<Bytes>, x: Bytes)
    requires c.body.Positive?
  {
    && r.Got? && r.rest == x && SameRest(c, r.value)
    && r.value.body.Positive? && r.value.body.sets == c.body.sets[i := s.(rrs := Reread(s.rrs, rrs))]
  }

  lemma {:induction false} RRsBack(c: Cent, tp: int, s: RRSet, flags: set<CFlag>, ts: int, rrs: seq<Bytes>, x: Bytes)
    requires Accounted(c) && CachedType(tp) && c.body.Positive? && SlotOf(tp) in c.body.sets && c.body.sets[SlotOf(tp)] == s
    requires DF_LOCAL !in c.flags
    ensures RRsRead(ReadRRs(c, tp, |rrs|, s.ttl, ts, flags, WriteRRs(rrs) + x), c, SlotOf(tp), s, rrs, x)
    decreases |rrs|
  {
    if rrs == [] {
      NoRRs(c, tp, s, flags, ts, x);
    } else {
      var d := Cut(rrs[0]);
      var s1 := s.(rrs := if d in s.rrs then s.rrs else s.rrs + [d]);
      var c1 := AddCentRR(c, tp, s.ttl, ts, flags, d);
      hide *;
      AppendedRR(c, tp, s, flags, ts, d);
      ReadOneRR(c, tp, |rrs|, s.ttl, ts, flags, rrs[0], WriteRRs(rrs[1..]) + x);
      WriteFirstRR(rrs, x);
      AppendedParts(c, c1, SlotOf(tp), s1);
      RRsBack(c1, tp, s1, flags, ts, rrs[1..], x);
      RRsJoin(ReadRRs(c1, tp, |rrs| - 1, s.ttl, ts, flags, WriteRRs(rrs[1..]) + x), c, c1, SlotOf(tp), s, s1, rrs, x);
    }
  }

  lemma NoRRs(c: Cent, tp: int, s: RRSet, flags: set<CFlag>, ts: int, x: Bytes)
    requires Accounted(c) && CachedType(tp) && c.body.Positive? && SlotOf(tp) in c.body.sets && c.body.sets[SlotOf(tp)] == s
    ensures RRsRead(ReadRRs(c, tp, 0, s.ttl, ts, flags, WriteRRs([]) + x), c, SlotOf(tp), s, [], x)
  {
    assert [] + x == x && s.(rrs := s.rrs) == s;
    assert c.body.sets[SlotOf(tp) := s] == c.body.sets;
    hide Accounted;
  }

  lemma WriteFirstRR(rrs: seq<Bytes>, x: Bytes)
    requires rrs != []
    ensures WriteRRs(rrs) + x == WriteRR(rrs[0]) + (WriteRRs(rrs[1..]) + x)
  {
    hide WriteRR;
  }

  lemma AppendedParts(c: Cent, c1: Cent, i: nat, s1: RRSet)
    requires SameRest(c, c1) && c1.body.Positive? && c.body.Positive? && c1.body.sets == c.body.sets[i := s1]
    ensures Accounted(c1) && c1.flags == c.flags && i in c1.body.sets && c1.body.sets[i] == s1
  {
    hide Accounted;
  }

  lemma RRsJoin(r: Read<Cent>, c: Cent, c1: Cent, i: nat, s: RRSet, s1: RRSet, rrs: seq<Bytes>, x: Bytes)
    requires c.body.Positive? && c1.body.Positive? && rrs != []
    requires s1 == s.(rrs := if Cut(rrs[0]) in s.rrs then s.rrs else s.rrs + [Cut(rrs[0])])
    requires SameRest(c, c1) && c1.body.sets == c.body.sets[i := s1] && RRsRead(r, c1, i, s1, rrs[1..], x)
    ensures RRsRead(r, c, i, s, rrs, x)
  {
    assert Reread(s1.rrs, rrs[1..]) == Reread(s.rrs, rrs);
    SameUpdates(c.body.sets, i, s1, s.(rrs := Reread(s.rrs, rrs)));
    hide Accounted;
  }

  /** In a local entry, records that are not local are skipped. */
  lemma NoneRead(c: Cent, tp: int, ttl: int, ts: int, flags: set<CFlag>, x: Bytes)
    requires CachedType(tp)
    ensures ReadRRs(c, tp, 0, ttl, ts, flags, WriteRRs([]) + x) == Got(c, x)
  {
    assert [] + x == x;
  }

  lemma LocalIgnored(c: Cent, tp: int, ttl: int, ts: int, flags: set<CFlag>, data: Bytes)
    requires CachedType(tp) && DF_LOCAL in c.flags && CF_LOCAL !in flags
    ensures AddCentRR(c, tp, ttl, ts, flags, data) == c
  {}

  lemma {:induction false} RRsIgnored(c: Cent, tp: int, ttl: int, flags: set<CFlag>, ts: int, rrs: seq<Bytes>, x: Bytes)
    requires CachedType(tp) && DF_LOCAL in c.flags && CF_LOCAL !in flags
    ensures ReadRRs(c, tp, |rrs|, ttl, ts, flags, WriteRRs(rrs) + x) == Got(c, x)
    decreases |rrs|
  {
    hide AddCentRR;
    hide ReadRRs;
    hide WriteRRs;
    hide CachedType;
    if rrs == [] {
      NoneRead(c, tp, ttl, ts, flags, x);
    } else {
      LocalIgnored(c, tp, ttl, ts, flags, Cut(rrs[0]));
      hide *;
      ReadOneRR(c, tp, |rrs|, ttl, ts, flags, rrs[0], WriteRRs(rrs[1..]) + x);
      WriteFirstRR(rrs, x);
      RRsIgnored(c, tp, ttl, flags, ts, rrs[1..], x);
    }
  }

  // ---- Sets

  lemma HeaderBack(tp: byte, s: RRSet, x: Bytes)
    requires FitsDisk(s)
    ensures var b := SetHeader(tp, s) + x;
      && b[0] == tp && b[1] == |Written(s.rrs)| && b[20..] == x
      && CFlags(Dec(b[2..4])) == s.flags && Dec(b[4..12]) == s.ttl && Dec(b[12..20]) == s.ts
  {
    FlagsFit(s.flags, false, {});
    CFlagsBits(s.flags);
    DecEnc(Bits(CBits(s.flags)), 2);
    DecEnc(s.ttl, 8);
    DecEnc(s.ts, 8);
    hide Enc;
    hide Dec;
    hide Bits;
    hide CBits;
    hide CFlags;
    hide Pow256;
    HeaderSlices([tp, |Written(s.rrs)|], Enc(Bits(CBits(s.flags)), 2), Enc(s.ttl, 8), Enc(s.ts, 8), x);
  }

  lemma HeaderSlices(h: Bytes, f: Bytes, l: Bytes, t: Bytes, x: Bytes)
    requires |h| == |f| == 2 && |l| == |t| == 8
    ensures var b := h + f + l + t + x;
      b[0] == h[0] && b[1] == h[1] && b[2..4] == f && b[4..12] == l && b[12..20] == t && b[20..] == x
  {}

  /** The new set of an entry, before and after its records are read. */
  lemma SetBack(c: Cent, tp: int, s: RRSet, x: Bytes)
    requires Accounted(c) && CachedType(tp) && SlotOf(tp) !in AsPositive(c).sets && FitsDisk(s) && !Local(s)
    ensures var w := Written(s.rrs);
      var r := ReadRRs(AddSet(c, SlotOf(tp), s.ttl, s.ts, s.flags), tp, |w|, s.ttl, s.ts, s.flags, WriteRRs(w) + x);
      && r.Got? && r.rest == x && SameRest(c, r.value)
      && r.value.body.Positive? && r.value.body.sets == AsPositive(c).sets[SlotOf(tp) := AsRead(c.flags, s)]
  {
    var i := SlotOf(tp);
    var c1 := AddSet(c, i, s.ttl, s.ts, s.flags);
    var s0 := RRSet(None, s.ttl, s.ts, s.flags, []);
    AddSetAccounted(c, i, s.ttl, s.ts, s.flags);
    AddedSet(c, i, s0);
    hide Accounted;
    hide AddSet;
    hide CachedType;
    hide SlotOf;
    hide ReadRRs;
    hide WriteRRs;
    if DF_LOCAL in c.flags {
      RRsIgnored(c1, tp, s.ttl, s.flags, s.ts, Written(s.rrs), x);
    } else {
      RRsBack(c1, tp, s0, s.flags, s.ts, Written(s.rrs), x);
      assert AsRead(c.flags, s) == s0.(rrs := Reread([], Written(s.rrs)));
      SameUpdates(AsPositive(c).sets, i, s0, AsRead(c.flags, s));
    }
  }

  lemma SameUpdates(m: map<nat, RRSet>, i: nat, s: RRSet, t: RRSet)
    ensures m[i := s][i := t] == m[i := t]
  {}

  lemma AddedSet(c: Cent, i: nat, s: RRSet)
    requires s.lent == None && s.rrs == []
    ensures var c1 := AddSet(c, i, s.ttl, s.ts, s.flags);
      && c1.body.Positive? && c1.body.sets == AsPositive(c).sets[i := s]
      && c1.qname == c.qname && c1.flags == c.flags && c1.cNs == c.cNs && c1.cSoa == c.cSoa
  {}

  // ---- All sets of an entry

  predicate Ascending(l: seq<nat>) { forall i, j :: 0 <= i < j < |l| ==> l[i] < l[j] }

  /** The slots of the types in l. */
  predicate Covers(l: seq<nat>, m: map<nat, RRSet>)
    requires TypeList(l)
  {
    forall i :: i in m ==> exists k :: 0 <= k < |l| && SlotOf(l[k]) == i
  }

  predicate AllFit(m: map<nat, RRSet>) { forall i :: i in m ==> FitsDisk(m[i]) && !Local(m[i]) }

  /** A slot that is not in the list is not written. */
  lemma {:induction false} WriteOthers(m: map<nat, RRSet>, l: seq<nat>, i: nat)
    requires TypeList(l) && forall k :: 0 <= k < |l| ==> SlotOf(l[k]) != i
    ensures WriteSets(m - {i}, l) == WriteSets(m, l)
  {
    hide WriteSet;
    hide SlotOf;
    hide CachedType;
    if l != [] {
      assert SlotOf(l[0]) != i;
      WriteOthers(m, l[1..], i);
    }
  }

  lemma {:induction false} WriteNothing(l: seq<nat>)
    requires TypeList(l)
    ensures WriteSets(map[], l) == []
  {
    hide CachedType;
    if l != [] { WriteNothing(l[1..]); }
  }

  lemma OtherSlots(l: seq<nat>)
    requires TypeList(l) && Ascending(l) && l != []
    ensures TypeList(l[1..]) && Ascending(l[1..]) && forall k :: 0 <= k < |l[1..]| ==> SlotOf(l[1..][k]) != SlotOf(l[0])
  {
    forall k | 0 <= k < |l[1..]| ensures SlotOf(l[1..][k]) != SlotOf(l[0]) {
      assert l[1..][k] == l[k + 1] > l[0];
      TypeOfSlot(l[0]);
      TypeOfSlot(l[k + 1]);
    }
  }

  /** The sets come back in order. */
  lemma {:induction false} SetsBack(c: Cent, m: map<nat, RRSet>, l: seq<nat>, prevtp: int, x: Bytes)
    requires Accounted(c) && TypeList(l) && Ascending(l) && Covers(l, m) && AllFit(m)
    requires m.Keys !! AsPositive(c).sets.Keys && (forall k :: 0 <= k < |l| ==> prevtp < l[k])
    ensures var r := ReadSets(c, |m|, prevtp, WriteSets(m, l) + x);
      && r.Got? && r.rest == x && SameRest(c, r.value)
      && if m == map[] then r.value == c
         else r.value.body.Positive? && r.value.body.sets == AsPositive(c).sets + AllAsRead(c.flags, m)
    decreases |l|
  {
    hide Accounted;
    hide FitsDisk;
    hide CachedType;
    hide SlotOf;
    if m == map[] {
      WriteNothing(l);
      assert [] + x == x;
    } else {
      var i0 :| i0 in m;
      assert l != [];
      OtherSlots(l);
      hide Ascending;
      if SlotOf(l[0]) in m {
        OneSetBack(c, m, l, prevtp, x);
      } else {
        assert Covers(l[1..], m) by { LaterCovers(l, m); }
        hide ReadSets;
        assert [] + WriteSets(m, l[1..]) == WriteSets(m, l[1..]);
        SetsBack(c, m, l[1..], prevtp, x);
      }
    }
  }

  lemma LaterCovers(l: seq<nat>, m: map<nat, RRSet>)
    requires TypeList(l) && l != [] && Covers(l, m) && SlotOf(l[0]) !in m
    ensures TypeList(l[1..]) && Covers(l[1..], m)
  {
    forall i | i in m ensures exists k :: 0 <= k < |l[1..]| && SlotOf(l[1..][k]) == i {
      var k :| 0 <= k < |l| && SlotOf(l[k]) == i;
      assert l[1..][k - 1] == l[k];
    }
  }

  lemma LessOne(m: map<nat, RRSet>, i: nat)
    requires i in m
    ensures |m - {i}| == |m| - 1
  {
    assert (m - {i}).Keys == m.Keys - {i};
    assert |(m - {i}).Keys| == |m - {i}| && |m.Keys| == |m|;
  }

  /** The header and the records of the first set. */
  lemma FirstSetRead(c: Cent, m: map<nat, RRSet>, l: seq<nat>, prevtp: int, n: nat, y: Bytes) returns (c1: Cent)
    requires Accounted(c) && TypeList(l) && l != [] && SlotOf(l[0]) in m && prevtp < l[0] && n > 0
    requires FitsDisk(m[SlotOf(l[0])]) && !Local(m[SlotOf(l[0])]) && SlotOf(l[0]) !in AsPositive(c).sets
    ensures var i := SlotOf(l[0]);
      && SameRest(c, c1) && c1.body.Positive?
      && c1.body.sets == AsPositive(c).sets[i := AsRead(c.flags, m[i])]
      && ReadSets(c, n, prevtp, WriteSet(l[0], m[i]) + y) == ReadSets(c1, n - 1, l[0], y)
  {
    var i, tp := SlotOf(l[0]), l[0];
    var s := m[i];
    ByteType(tp);
    SetBack(c, tp, s, y);
    var w := Written(s.rrs);
    HeaderBack(tp, s, WriteRRs(w) + y);
    SetBytes(tp, s, y);
    var r := ReadRRs(AddSet(c, i, s.ttl, s.ts, s.flags), tp, |w|, s.ttl, s.ts, s.flags, WriteRRs(w) + y);
    var b := WriteSet(tp, s) + y;
    assert CachedType(tp);
    hide *;
    c1 := r.value;
    ReadSetsStep(c, n, prevtp, b);
  }

  lemma SetBytes(tp: byte, s: RRSet, y: Bytes)
    ensures WriteSet(tp, s) + y == SetHeader(tp, s) + (WriteRRs(Written(s.rrs)) + y)
  {
    hide SetHeader;
    hide WriteRRs;
  }

  lemma ReadSetsStep(c: Cent, n: nat, prevtp: int, b: Bytes)
    requires n > 0 && |b| >= 20 && CachedType(b[0]) && b[0] > prevtp
    ensures var flags, ttl, ts := CFlags(Dec(b[2..4])), Dec(b[4..12]), Dec(b[12..20]);
      var r := ReadRRs(AddSet(c, SlotOf(b[0]), ttl, ts, flags), b[0], b[1], ttl, ts, flags, b[20..]);
      r.Got? ==> ReadSets(c, n, prevtp, b) == ReadSets(r.value, n - 1, b[0], r.rest)
  {
    hide ReadRRs;
    hide AddSet;
    hide CachedType;
    hide SlotOf;
    hide CFlags;
    hide Dec;
  }

  lemma ByteType(tp: int)
    requires CachedType(tp)
    ensures 0 < tp < 256
  {}

  lemma OneSetBack(c: Cent, m: map<nat, RRSet>, l: seq<nat>, prevtp: int, x: Bytes)
    requires Accounted(c) && TypeList(l) && l != [] && Covers(l, m) && AllFit(m) && SlotOf(l[0]) in m
    requires TypeList(l[1..]) && Ascending(l[1..]) && forall k :: 0 <= k < |l[1..]| ==> SlotOf(l[1..][k]) != SlotOf(l[0])
    requires m.Keys !! AsPositive(c).sets.Keys && prevtp < l[0] && forall k :: 0 <= k < |l[1..]| ==> l[0] < l[1..][k]
    ensures var r := ReadSets(c, |m|, prevtp, WriteSets(m, l) + x);
      && r.Got? && r.rest == x && SameRest(c, r.value)
      && r.value.body.Positive? && r.value.body.sets == AsPositive(c).sets + AllAsRead(c.flags, m)
    decreases |l|, 0
  {
    hide Accounted;
    hide FitsDisk;
    hide CachedType;
    hide SlotOf;
    hide ReadSets;
    hide WriteSets;
    hide WriteSet;
    hide AsPositive;
    hide AllAsRead;
    hide AsRead;
    var i := SlotOf(l[0]);
    var m1, y := m - {i}, WriteSets(m, l[1..]) + x;
    LessOne(m, i);
    WriteOthers(m, l[1..], i);
    LaterCoversLess(l, m);
    WriteFirst(m, l, x);
    var c1 := FirstSetRead(c, m, l, prevtp, |m|, y);
    RestReady(c, c1, m, i);
    hide AllFit;
    hide Covers;
    hide SameRest;
    SetsBack(c1, m1, l[1..], l[0], x);
    var r := ReadSets(c1, |m1|, l[0], WriteSets(m1, l[1..]) + x);
    SameRestTrans(c, c1, r.value);
    Assembled(AsPositive(c).sets, m, i, c.flags);
  }

  lemma RestReady(c: Cent, c1: Cent, m: map<nat, RRSet>, i: nat)
    requires AllFit(m) && i in m && m.Keys !! AsPositive(c).sets.Keys && SameRest(c, c1)
    requires c1.body.Positive? && c1.body.sets == AsPositive(c).sets[i := AsRead(c.flags, m[i])]
    ensures AllFit(m - {i}) && (m - {i}).Keys !! AsPositive(c1).sets.Keys
    ensures Accounted(c1) && c1.flags == c.flags && AsPositive(c1).sets == c1.body.sets
  {
    hide Accounted;
    hide FitsDisk;
  }

  lemma SameRestTrans(c: Cent, c1: Cent, c2: Cent)
    requires SameRest(c, c1) && SameRest(c1, c2)
    ensures SameRest(c, c2)
  {}

  lemma WriteFirst(m: map<nat, RRSet>, l: seq<nat>, x: Bytes)
    requires TypeList(l) && l != [] && SlotOf(l[0]) in m
    ensures WriteSets(m, l) + x == WriteSet(l[0], m[SlotOf(l[0])]) + (WriteSets(m, l[1..]) + x)
  {
    hide WriteSet;
    hide SlotOf;
    hide CachedType;
  }

  lemma LaterCoversLess(l: seq<nat>, m: map<nat, RRSet>)
    requires TypeList(l) && l != [] && Covers(l, m)
    ensures TypeList(l[1..]) && Covers(l[1..], m - {SlotOf(l[0])})
  {
    forall i | i in m - {SlotOf(l[0])} ensures exists k :: 0 <= k < |l[1..]| && SlotOf(l[1..][k]) == i {
      var k :| 0 <= k < |l| && SlotOf(l[k]) == i;
      assert l[1..][k - 1] == l[k];
    }
  }

  lemma Assembled(sets: map<nat, RRSet>, m: map<nat, RRSet>, i: nat, flags: set<DFlag>)
    requires i in m && m.Keys !! sets.Keys
    ensures sets[i := AsRead(flags, m[i])] + AllAsRead(flags, m - {i}) == sets + AllAsRead(flags, m)
    ensures m - {i} == map[] ==> sets[i := AsRead(flags, m[i])] == sets + AllAsRead(flags, m)
  {
    var a, b := sets[i := AsRead(flags, m[i])] + AllAsRead(flags, m - {i}), sets + AllAsRead(flags, m);
    assert a.Keys == b.Keys;
  }

  // ---- Entries

  lemma {:induction false} NameBack(n: Name)
    requires ValidLabels(n)
    ensures ReadName(WirePrefix(n)) == Some(n)
  {
    if n != [] {
      NameBack(n[1..]);
      var b := WirePrefix(n);
      assert b[0] == |n[0]| && b[1..1 + |n[0]|] == n[0] && b[1 + |n[0]|..] == WirePrefix(n[1..]);
      assert [n[0]] + n[1..] == n;
    }
  }

  /** The iteration lists visit every slot that an entry uses, in ascending order of types. */
  lemma IterListComplete(c: Cent)
    requires Shaped(c)
    ensures TypeList(IterList(c)) && Ascending(IterList(c)) && Covers(IterList(c), SetsOf(c))
    ensures forall k :: 0 <= k < |IterList(c)| ==> 0 < IterList(c)[k]
  {
    IterListOk(c);
    if c.body.Positive? {
      if c.body.ext { AllTypes(SetsOf(c)); } else { FrequentTypes(SetsOf(c)); }
    }
  }

  lemma AllTypes(m: map<nat, RRSet>)
    requires forall i :: i in m ==> i < NRRTOT
    ensures TypeList(RRCACHITERLIST) && Ascending(RRCACHITERLIST) && Covers(RRCACHITERLIST, m)
    ensures forall k :: 0 <= k < |RRCACHITERLIST| ==> 0 < RRCACHITERLIST[k]
  {
    forall k | 0 <= k < |RRCACHITERLIST|
      ensures CachedType(RRCACHITERLIST[k]) && RRCACHITERLIST[k] == if k < 37 then k + 1 else k + 5
    {
      IterListTypes(k);
    }
    forall i | i in m ensures exists k :: 0 <= k < |RRCACHITERLIST| && SlotOf(RRCACHITERLIST[k]) == i {
      SlotOfType(i);
      var tp := SLOTTYPES[i];
      CachedTypes(tp);
      var k := if tp <= 37 then tp - 1 else tp - 5;
      hide CachedType;
      IterListTypes(k);
      assert RRCACHITERLIST[k] == tp;
    }
  }

  lemma FrequentTypes(m: map<nat, RRSet>)
    requires forall i :: i in m ==> i < NRRMU
    ensures TypeList(RRMUITERLIST) && Ascending(RRMUITERLIST) && Covers(RRMUITERLIST, m)
    ensures forall k :: 0 <= k < |RRMUITERLIST| ==> 0 < RRMUITERLIST[k]
  {
    forall k | 0 <= k < NRRMU ensures CachedType(RRMUITERLIST[k]) && SlotOf(RRMUITERLIST[k]) == k { MuIterList(k); }
    hide SlotOf;
    hide CachedType;
    forall i | i in m ensures exists k :: 0 <= k < |RRMUITERLIST| && SlotOf(RRMUITERLIST[k]) == i {
      assert SlotOf(RRMUITERLIST[i]) == i;
    }
  }

  function Below(m: map<nat, RRSet>, n: nat): (r: map<nat, RRSet>) { map i | i in m && i < n :: m[i] }

  lemma {:induction false} CountBelow(m: map<nat, RRSet>, n: nat)
    ensures SlotsUsed(m, n) == |Below(m, n)| <= n
  {
    if n == 0 {
      assert Below(m, 0) == map[];
    } else {
      CountBelow(m, n - 1);
      if n - 1 in m {
        LessOne(Below(m, n), n - 1);
        assert Below(m, n) - {n - 1} == Below(m, n - 1);
      } else {
        assert Below(m, n) == Below(m, n - 1);
      }
    }
  }

  /** The number of sets, counted by slot, is the number of sets that are written by type. */
  lemma SetCount(c: Cent)
    requires Shaped(c)
    ensures SlotsUsed(SetsOf(c), NRRTOT) == |SetsOf(c)| <= NRRTOT
  {
    CountBelow(SetsOf(c), NRRTOT);
    assert forall i :: i in SetsOf(c) ==> i < NRRTOT;
    assert Below(SetsOf(c), NRRTOT) == SetsOf(c);
  }

  /** The fixed fields of an entry. */
  lemma HeaderFields(c: Cent, x: Bytes)
    requires Storable(c)
    ensures var b := EntryHeader(c) + x;
      && b[0] == |WirePrefix(c.qname)| && b[1] == |SetsOf(c)| && b[4] == c.cNs && b[5] == c.cSoa
      && (TestBit(Dec(b[2..4]), 0) <==> c.body.Negative?) && DFlags(Dec(b[2..4])) == c.flags
      && b[6..] == x
  {
    SetCount(c);
    FlagsFit({}, c.body.Negative?, c.flags);
    DFlagsBits(c.body.Negative?, c.flags);
    DecEnc(Bits(DBits(c.body.Negative?, c.flags)), 2);
    hide Enc;
    hide Dec;
    hide Bits;
    hide DBits;
    hide DFlags;
    hide Pow256;
    hide WirePrefix;
    hide SetsOf;
    hide SlotsUsed;
    hide TestBit;
    hide ValidName;
    hide FitsDisk;
    hide FoldName;
    var h := EntryHeader(c);
    assert h[2..4] == Enc(Bits(DBits(c.body.Negative?, c.flags)), 2);
    assert (h + x)[2..4] == h[2..4];
  }

  lemma TimesBack(c: Cent, x: Bytes)
    requires Storable(c)
    ensures var b := Times(c) + x;
      if c.body.Negative? then |b| >= 16 && Dec(b[0..8]) == c.body.ttl && Dec(b[8..16]) == c.body.ts && b[16..] == x
      else b == x
  {
    if c.body.Negative? {
      DecEnc(c.body.ttl, 8);
      DecEnc(c.body.ts, 8);
      hide Enc;
      hide Dec;
      hide Pow256;
      var b := Times(c) + x;
      assert b[0..8] == Enc(c.body.ttl, 8);
      assert b[8..16] == Enc(c.body.ts, 8);
    }
  }

  lemma ReadEntryFrom(b: Bytes, c: Cent, at: nat, y: Bytes)
    requires Storable(c) && at == (if c.body.Negative? then 22 else 6)
    requires var q := |WirePrefix(c.qname)|;
      |b| >= at + q && b[at..at + q] == WirePrefix(c.qname) && b[at + q..] == y && b[0] == q
    requires b[1] == |SetsOf(c)| && b[4] == c.cNs && b[5] == c.cSoa
    requires (TestBit(Dec(b[2..4]), 0) <==> c.body.Negative?) && DFlags(Dec(b[2..4])) == c.flags
    requires c.body.Negative? ==> Dec(b[6..14]) == c.body.ttl && Dec(b[14..22]) == c.body.ts
    ensures ReadEntry(b) == ReadSets(Started(c), |SetsOf(c)|, 0, y)
  {
    hide *;
    StartedEntry(c);
    NamesAreLabels(c.qname);
    NameBack(c.qname);
    StartedIs(c);
    if c.body.Negative? {
      ReadNegative(b, |WirePrefix(c.qname)|, |SetsOf(c)|, c.qname, c.body.ttl, c.body.ts, c.flags, y);
    } else {
      ReadPositive(b, |WirePrefix(c.qname)|, |SetsOf(c)|, c.qname, c.flags, y);
    }
  }

  lemma NamesAreLabels(n: Name)
    requires ValidName(n)
    ensures ValidLabels(n)
  {}

  lemma StartedIs(c: Cent)
    requires ValidName(c.qname)
    ensures c.body.Negative? ==>
      Started(c) == InitCent(c.qname, c.body.ttl, c.body.ts, true, c.flags).(cNs := c.cNs, cSoa := c.cSoa)
    ensures c.body.Positive? ==> Started(c) == InitCent(c.qname, 0, 0, false, c.flags).(cNs := c.cNs, cSoa := c.cSoa)
  {}

  lemma ReadNegative(b: Bytes, q: nat, num: nat, n: Name, ttl: nat, ts: nat, flags: set<DFlag>, y: Bytes)
    requires |b| >= 22 + q && b[0] == q && b[1] == num
    requires ValidName(n) && ReadName(b[22..22 + q]) == Some(n) && b[22 + q..] == y
    requires TestBit(Dec(b[2..4]), 0) && DFlags(Dec(b[2..4])) == flags && Dec(b[6..14]) == ttl && Dec(b[14..22]) == ts
    ensures ReadEntry(b) == ReadSets(InitCent(n, ttl, ts, true, flags).(cNs := b[4], cSoa := b[5]), num, 0, y)
  {
    hide ReadName;
    hide Dec;
    hide TestBit;
    hide DFlags;
    hide InitCent;
    hide ReadSets;
  }

  lemma ReadPositive(b: Bytes, q: nat, num: nat, n: Name, flags: set<DFlag>, y: Bytes)
    requires |b| >= 6 + q && b[0] == q && b[1] == num
    requires ValidName(n) && ReadName(b[6..6 + q]) == Some(n) && b[6 + q..] == y
    requires !TestBit(Dec(b[2..4]), 0) && DFlags(Dec(b[2..4])) == flags
    ensures ReadEntry(b) == ReadSets(InitCent(n, 0, 0, false, flags).(cNs := b[4], cSoa := b[5]), num, 0, y)
  {
    hide ReadName;
    hide Dec;
    hide TestBit;
    hide DFlags;
    hide InitCent;
    hide ReadSets;
  }

  lemma Slices(c: Cent, h: Bytes, t: Bytes, n: Bytes, y: Bytes)
    requires |h| == 6 && |t| == (if c.body.Negative? then 16 else 0)
    ensures var b, at := h + (t + (n + y)), 6 + |t|;
      && |b| >= at + |n| && b[at..at + |n|] == n && b[at + |n|..] == y
      && (|t| == 16 ==> b[6..14] == b[6..][0..8] && b[14..22] == b[6..][8..16])
  {}

  /** Reading up to the sets. */
  lemma ReadStarts(c: Cent, y: Bytes)
    requires Storable(c)
    ensures ReadEntry(EntryHeader(c) + (Times(c) + (WirePrefix(c.qname) + y))) == ReadSets(Started(c), |SetsOf(c)|, 0, y)
  {
    var h, t, n := EntryHeader(c), Times(c), WirePrefix(c.qname);
    HeaderFields(c, t + (n + y));
    TimesBack(c, n + y);
    Slices(c, h, t, n, y);
    hide EntryHeader;
    hide WirePrefix;
    hide Enc;
    hide Dec;
    hide TestBit;
    hide DFlags;
    hide ReadEntry;
    hide ReadSets;
    hide SetsOf;
    hide Started;
    ReadEntryFrom(h + (t + (n + y)), c, 6 + |t|, y);
  }

  /** An entry comes back, whatever follows it in the file. */
  lemma EntryBack(c: Cent, x: Bytes)
    requires Storable(c)
    ensures var r := ReadEntry(WriteEntry(c) + x);
      r.Got? && r.rest == x && Rebuilt(c, r.value)
  {
    hide *;
    StartedEntry(c);
    IterListComplete(c);
    WriteParts(c, x);
    ReadStarts(c, WriteSets(SetsOf(c), IterList(c)) + x);
    SetsBack(Started(c), SetsOf(c), IterList(c), 0, x);
    RebuiltFrom(c, ReadSets(Started(c), |SetsOf(c)|, 0, WriteSets(SetsOf(c), IterList(c)) + x).value);
  }

  lemma WriteParts(c: Cent, x: Bytes)
    requires Storable(c) && TypeList(IterList(c))
    ensures ValidName(c.qname)
    ensures WriteEntry(c) + x == EntryHeader(c) + (Times(c) + (WirePrefix(c.qname) + (WriteSets(SetsOf(c), IterList(c)) + x)))
  {
    hide EntryHeader;
    hide Times;
    hide WirePrefix;
    hide WriteSets;
    hide SetsOf;
    hide IterList;
  }

  lemma RebuiltFrom(c: Cent, c': Cent)
    requires Storable(c) && SameRest(Started(c), c')
    requires if SetsOf(c) == map[] then c' == Started(c)
      else c'.body.Positive? && c'.body.sets == AsPositive(Started(c)).sets + AllAsRead(Started(c).flags, SetsOf(c))
    ensures Rebuilt(c, c')
  {
    StartedEntry(c);
    assert map[] + AllAsRead(c.flags, SetsOf(c)) == AllAsRead(c.flags, SetsOf(c));
    hide Started;
    hide SetsOf;
    hide Accounted;
  }

  /** The entry before its sets are read. */
  function Started(c: Cent): (c0: Cent)
    requires ValidName(c.qname)
  {
    var neg := c.body.Negative?;
    InitCent(c.qname, if neg then c.body.ttl else 0, if neg then c.body.ts else 0, neg, c.flags).(cNs := c.cNs, cSoa := c.cSoa)
  }

  lemma StartedEntry(c: Cent)
    requires Storable(c)
    ensures var c0 := Started(c);
      && Shaped(c) && ValidName(c.qname) && SameRest(c, c0) && Accounted(c0) && AsPositive(c0).sets == map[] && AllFit(SetsOf(c))
      && SetsOf(c).Keys !! AsPositive(c0).sets.Keys
      && (c.body.Negative? ==> c0.body == Negative(None, c.body.ttl, c.body.ts) && SetsOf(c) == map[])
      && (c.body.Positive? ==> c0.body == Positive(map[], false) && (SetsOf(c) == map[] ==> AllAsRead(c.flags, SetsOf(c)) == map[]))
  {
    hide FitsDisk;
  }
}
