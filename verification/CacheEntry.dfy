/** Cache entries (cache.h) and what they weigh: the size counter cs and the set counter
    num_rrs of an entry are redundant with its contents. */
module CacheEntry {
  import opened Names
  import opened RRTypes

  datatype CFlag = CF_NEGATIVE | CF_LOCAL | CF_AUTH | CF_NOCACHE | CF_ADDITIONAL | CF_NOPURGE | CF_ROOTSERV

  /** DF_NEGATIVE is the constructor of the entry's body. */
  datatype DFlag = DF_LOCAL | DF_AUTH | DF_NOCACHE | DF_WILD

  datatype RRSet = RRSet(lent: Option<nat>, ttl: int, ts: int, flags: set<CFlag>, rrs: seq<seq<byte>>)

  /** The union in dns_cent_t. Absent slots are NULL pointers; ext says whether the array
      for the less frequent types is allocated. */
  datatype Body =
    | Negative(lent: Option<nat>, ttl: int, ts: int)
    | Positive(sets: map<nat, RRSet>, ext: bool)

  datatype Cent = Cent(
    qname: Name, cs: int, numRRs: int, flags: set<DFlag>, body: Body, cNs: nat, cSoa: nat)

  /** An undefined c_ns or c_soa field. */
  const CUNDEF := 0xff

  // Sizes of the C structures (64-bit layout); nothing depends on the values.
  const SIZEOF_CENT := 104
  const SIZEOF_RRSET := 40
  const SIZEOF_RR := 16
  const SIZEOF_EXT := 8 * NRREXT

  // ---- Weights

  function RRsSize(rrs: seq<seq<byte>>): (n: nat)
  {
    if rrs == [] then 0 else SIZEOF_RR + |rrs[|rrs| - 1]| + RRsSize(rrs[..|rrs| - 1])
  }

  function SetSize(s: RRSet): (n: nat) { SIZEOF_RRSET + RRsSize(s.rrs) }

  /** Size of the sets in the first n slots. */
  function SlotsSize(sets: map<nat, RRSet>, n: nat): (t: nat)
  {
    if n == 0 then 0 else SlotsSize(sets, n - 1) + (if n - 1 in sets then SetSize(sets[n - 1]) else 0)
  }

  /** Number of occupied slots among the first n. */
  function SlotsUsed(sets: map<nat, RRSet>, n: nat): (t: nat)
  {
    if n == 0 then 0 else SlotsUsed(sets, n - 1) + (if n - 1 in sets then 1 else 0)
  }

  function TrueSize(c: Cent): (n: nat)
    requires ValidLabels(c.qname)
  {
    SIZEOF_CENT + |Wire(c.qname)| +
    match c.body
    case Negative(_, _, _) => 0
    case Positive(sets, ext) => (if ext then SIZEOF_EXT else 0) + SlotsSize(sets, NRRTOT)
  }

  function TrueCount(c: Cent): (n: nat)
  {
    match c.body
    case Negative(_, _, _) => 0
    case Positive(sets, _) => SlotsUsed(sets, NRRTOT)
  }

  /** Slots are in range, and the extension array exists where it is used. */
  predicate Shaped(c: Cent)
  {
    && ValidName(c.qname)
    && (c.body.Positive? ==> forall i :: i in c.body.sets ==> i < NRRTOT && (i >= NRRMU ==> c.body.ext))
  }

  /** cs is the true size of the entry and num_rrs the true number of its sets. */
  predicate Accounted(c: Cent)
  {
    Shaped(c) && c.cs == TrueSize(c) && c.numRRs == TrueCount(c)
  }

  lemma {:induction false} SlotsSizeUpdate(sets: map<nat, RRSet>, i: nat, s: RRSet, n: nat)
    ensures SlotsSize(sets[i := s], n) == SlotsSize(sets, n)
         - (if i < n && i in sets then SetSize(sets[i]) else 0) + (if i < n then SetSize(s) else 0)
    ensures SlotsUsed(sets[i := s], n) == SlotsUsed(sets, n) + (if i < n && i !in sets then 1 else 0)
  {
    if n > 0 { SlotsSizeUpdate(sets, i, s, n - 1); }
  }

  lemma {:induction false} SlotsSizeRemove(sets: map<nat, RRSet>, i: nat, n: nat)
    ensures SlotsSize(sets - {i}, n) == SlotsSize(sets, n) - (if i < n && i in sets then SetSize(sets[i]) else 0)
    ensures SlotsUsed(sets - {i}, n) == SlotsUsed(sets, n) - (if i < n && i in sets then 1 else 0)
  {
    if n > 0 { SlotsSizeRemove(sets, i, n - 1); }
  }

  /** num_rrs is zero exactly for an entry without sets. */
  lemma {:induction false} NoSlotsUsed(sets: map<nat, RRSet>, n: nat)
    ensures SlotsUsed(sets, n) == 0 <==> forall i :: 0 <= i < n ==> i !in sets
  {
    if n > 0 { NoSlotsUsed(sets, n - 1); }
  }

  lemma CountZero(c: Cent)
    requires Accounted(c) && c.body.Positive?
    ensures c.numRRs == 0 <==> c.body.sets == map[]
  {
    NoSlotsUsed(c.body.sets, NRRTOT);
    if c.body.sets == map[] {
    } else {
      var i :| i in c.body.sets;
    }
  }

  // ---- Building an entry

  /** init_cent */
  function InitCent(qname: Name, ttl: int, ts: int, negative: bool, flags: set<DFlag>): (c: Cent)
    requires ValidName(qname)
    ensures Accounted(c) && c.qname == qname
  {
    NoSlotsUsed(map[], NRRTOT);
    EmptySize(NRRTOT);
    Cent(qname, SIZEOF_CENT + |Wire(qname)|, 0, flags,
         if negative then Negative(None, ttl, ts) else Positive(map[], false), CUNDEF, CUNDEF)
  }

  lemma {:induction false} EmptySize(n: nat)
    ensures SlotsSize(map[], n) == 0
  {
    if n > 0 { EmptySize(n - 1); }
  }

  /** The body of an entry that is about to receive a set: a negative one becomes positive. */
  function AsPositive(c: Cent): (b: Body)
    ensures b.Positive?
  {
    if c.body.Positive? then c.body else Positive(map[], false)
  }

  /** The extension array is allocated on first use. */
  function WithExt(c: Cent, idx: nat): (c': Cent)
  {
    var b := AsPositive(c);
    if idx < NRRMU || b.ext then c.(body := b) else c.(body := b.(ext := true), cs := c.cs + SIZEOF_EXT)
  }

  /** add_cent_rrset_by_index, as far as the entry is concerned. */
  function AddSet(c: Cent, idx: nat, ttl: int, ts: int, flags: set<CFlag>): (c': Cent)
  {
    var c1 := WithExt(c, idx);
    c1.(body := c1.body.(sets := c1.body.sets[idx := RRSet(None, ttl, ts, flags, [])]),
        cs := c1.cs + SIZEOF_RRSET, numRRs := c1.numRRs + 1)
  }

  lemma WithExtAccounted(c: Cent, idx: nat)
    requires Accounted(c)
    ensures Accounted(WithExt(c, idx)) && WithExt(c, idx).body.Positive?
    ensures idx >= NRRMU ==> WithExt(c, idx).body.ext
  {
    EmptySize(NRRTOT);
    NoSlotsUsed(map[], NRRTOT);
  }

  lemma AddSetAccounted(c: Cent, idx: nat, ttl: int, ts: int, flags: set<CFlag>)
    requires Accounted(c) && idx < NRRTOT && idx !in AsPositive(c).sets
    ensures Accounted(AddSet(c, idx, ttl, ts, flags))
  {
    hide SlotsSize;
    hide SlotsUsed;
    WithExtAccounted(c, idx);
    var s := RRSet(None, ttl, ts, flags, []);
    assert RRsSize(s.rrs) == 0;
    SlotsSizeUpdate(WithExt(c, idx).body.sets, idx, s, NRRTOT);
  }

  /** Replacing a set by one of another size. */
  function PutSet(c: Cent, idx: nat, s: RRSet): (c': Cent)
    requires c.body.Positive? && idx in c.body.sets
  {
    c.(body := c.body.(sets := c.body.sets[idx := s]))
  }

  /** add_cent_rr_int appending to an existing set. */
  function AddRR(c: Cent, idx: nat, data: seq<byte>): (c': Cent)
    requires c.body.Positive? && idx in c.body.sets
  {
    var s := c.body.sets[idx];
    PutSet(c, idx, s.(rrs := s.rrs + [data])).(cs := c.cs + SIZEOF_RR + |data|)
  }

  lemma AddRRAccounted(c: Cent, idx: nat, data: seq<byte>)
    requires Accounted(c) && c.body.Positive? && idx in c.body.sets
    ensures Accounted(AddRR(c, idx, data))
  {
    hide SlotsSize;
    hide SlotsUsed;
    var s := c.body.sets[idx];
    assert (s.rrs + [data])[..|s.rrs|] == s.rrs;
    SlotsSizeUpdate(c.body.sets, idx, s.(rrs := s.rrs + [data]), NRRTOT);
  }

  /** A change of anything but the records keeps the counters right. */
  lemma PutSetAccounted(c: Cent, idx: nat, s: RRSet)
    requires Accounted(c) && c.body.Positive? && idx in c.body.sets && s.rrs == c.body.sets[idx].rrs
    ensures Accounted(PutSet(c, idx, s))
  {
    hide SlotsSize;
    hide SlotsUsed;
    SlotsSizeUpdate(c.body.sets, idx, s, NRRTOT);
  }

  /** del_cent_rrset_by_index, as far as the entry is concerned. */
  function DropSet(c: Cent, idx: nat): (c': Cent)
    requires c.body.Positive? && idx in c.body.sets
  {
    c.(body := c.body.(sets := c.body.sets - {idx}),
       numRRs := c.numRRs - 1, cs := c.cs - SetSize(c.body.sets[idx]), flags := c.flags - {DF_AUTH})
  }

  lemma DropSetAccounted(c: Cent, idx: nat)
    requires Accounted(c) && c.body.Positive? && idx in c.body.sets
    ensures Accounted(DropSet(c, idx))
  {
    hide SlotsSize;
    hide SlotsUsed;
    SlotsSizeRemove(c.body.sets, idx, NRRTOT);
  }

  /** Freeing an extension array that no set uses. */
  function DropExt(c: Cent): (c': Cent)
    requires c.body.Positive? && c.body.ext
  {
    c.(body := c.body.(ext := false), cs := c.cs - SIZEOF_EXT)
  }

  lemma DropExtAccounted(c: Cent)
    requires Accounted(c) && c.body.Positive? && c.body.ext
    requires forall i :: i in c.body.sets ==> i < NRRMU
    ensures Accounted(DropExt(c))
  {}

  /** add_cent_rr: records that are already there are not added twice, local entries ignore
      records that are not local, and the smallest TTL wins. */
  function AddCentRR(c: Cent, tp: int, ttl: int, ts: int, flags: set<CFlag>, data: seq<byte>): (c': Cent)
    requires CachedType(tp)
  {
    var idx := SlotOf(tp);
    if DF_LOCAL in c.flags && CF_LOCAL !in flags then c
    else if c.body.Positive? && idx in c.body.sets then
      var s := c.body.sets[idx];
      var c1 := PutSet(c, idx, s.(ttl := if ttl < s.ttl then ttl else s.ttl));
      if data in s.rrs then c1 else AddRR(c1, idx, data)
    else AddRR(AddSet(c, idx, ttl, ts, flags), idx, data)
  }

  /** Every record added through add_cent_rr keeps the counters of the entry right. */
  lemma AddCentRRAccounted(c: Cent, tp: int, ttl: int, ts: int, flags: set<CFlag>, data: seq<byte>)
    requires Accounted(c) && CachedType(tp)
    ensures Accounted(AddCentRR(c, tp, ttl, ts, flags, data))
  {
    hide Accounted;
    var idx := SlotOf(tp);
    if DF_LOCAL in c.flags && CF_LOCAL !in flags {
    } else if c.body.Positive? && idx in c.body.sets {
      var s := c.body.sets[idx];
      var s1 := s.(ttl := if ttl < s.ttl then ttl else s.ttl);
      PutSetAccounted(c, idx, s1);
      if data !in s.rrs { AddRRAccounted(PutSet(c, idx, s1), idx, data); }
    } else {
      AddSetAccounted(c, idx, ttl, ts, flags);
      AddRRAccounted(AddSet(c, idx, ttl, ts, flags), idx, data);
    }
  }

  // ---- Time and flags

  const CACHE_LAT := 120

  function ClatAdj(ttl: int): int { if ttl < CACHE_LAT then CACHE_LAT else ttl }

  predicate TimedOut(s: RRSet, now: int) { s.ts + ClatAdj(s.ttl) < now }

  predicate TimedOutNX(c: Cent, now: int)
    requires c.body.Negative?
  {
    c.body.ts + ClatAdj(c.body.ttl) < now
  }

  predicate Local(s: RRSet) { CF_LOCAL in s.flags }

  predicate IsPositiveSet(s: RRSet) { CF_NEGATIVE !in s.flags }

  /** Purging may delete this set. */
  predicate Expired(s: RRSet, now: int)
  {
    CF_NOPURGE !in s.flags && CF_LOCAL !in s.flags && TimedOut(s, now)
  }

  datatype TtlConfig = TtlConfig(minTtl: int, maxTtl: int, negTtl: int)

  function ClampTtl(ttl: int, negative: bool, cfg: TtlConfig): int
  {
    var lo := if negative && cfg.negTtl < cfg.minTtl then cfg.negTtl else cfg.minTtl;
    if ttl < lo then lo else if ttl > cfg.maxTtl then cfg.maxTtl else ttl
  }

  function AdjustTtl(s: RRSet, cfg: TtlConfig): (s': RRSet)
    ensures s'.rrs == s.rrs && s'.ts == s.ts && s'.lent == s.lent
    ensures s'.flags == s.flags - {CF_NOCACHE}
  {
    if CF_NOCACHE in s.flags then s.(flags := s.flags - {CF_NOCACHE}, ttl := 0)
    else s.(ttl := ClampTtl(s.ttl, CF_NEGATIVE in s.flags, cfg))
  }

  /** No two positive sets of the entry exclude each other. */
  predicate ConflictFree(c: Cent)
    requires Shaped(c)
  {
    c.body.Positive? ==>
      forall i, j | i in c.body.sets && j in c.body.sets
          && IsPositiveSet(c.body.sets[i]) && IsPositiveSet(c.body.sets[j]) :: !Conflict(i, j)
  }
}
