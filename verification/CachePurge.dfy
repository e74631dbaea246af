/** purge_cent (cache.c): timed-out sets and stale references to NS and SOA records. */
module CachePurge {
  import opened Names
  import opened RRTypes
  import opened CacheEntry
  import opened CacheMerge
  import opened CacheState

  function SlotSet(c: Cent, idx: nat): (s: Option<RRSet>)
  {
    if c.body.Positive? && idx in c.body.sets then Some(c.body.sets[idx]) else None
  }

  /** The set that a c_ns or c_soa reference denotes: it counts trailing name elements. */
  function RefSet(t: Table, c: Cent, ref: nat, idx: nat): (s: Option<RRSet>)
  {
    if ref == |c.qname| then SlotSet(c, idx)
    else if ref < |c.qname| then
      var k := FoldName(c.qname[|c.qname| - ref..]);
      if k in t then SlotSet(t[k], idx) else None
    else None
  }

  predicate Usable(s: Option<RRSet>, now: int)
  {
    s.Some? && s.value.rrs != [] && (Local(s.value) || !TimedOut(s.value, now))
  }

  predicate Stale(t: Table, c: Cent, ref: nat, idx: nat, now: int)
  {
    ref != CUNDEF && !Usable(RefSet(t, c, ref, idx), now)
  }

  /** The entry is to be removed: no sets are left, and it is not a live negative entry. */
  predicate GoesAway(c: Cent, delete: bool, now: int)
  {
    && delete
    && Purged(c, now).numRRs == 0
    && (c.body.Positive? || (DF_LOCAL !in c.flags && TimedOutNX(c, now)))
  }

  function One(b: bool): int { if b then 1 else 0 }

  /** References to NS and SOA records that purge_cent resets. */
  function StaleRefs(t: Table, c: Cent, now: int): (n: int)
  {
    if DF_LOCAL in c.flags then 0
    else One(Stale(t, c, c.cNs, RRMUINDEX_NS, now)) + One(Stale(t, c, c.cSoa, RRMUINDEX_SOA, now))
  }

  /** The result of purge_cent, in either mode. */
  function PurgeCount(t: Table, c: Cent, delete: bool, now: int): (n: int)
  {
    if GoesAway(c, delete, now) then -1 else PurgedItems(c, now) + StaleRefs(t, c, now)
  }

  /** The entry that purge_cent leaves. */
  function Refreshed(t: Table, c: Cent, now: int): (c': Cent)
  {
    var p := Purged(c, now);
    if DF_LOCAL in c.flags then p
    else p.(cNs := if Stale(t, c, c.cNs, RRMUINDEX_NS, now) then CUNDEF else c.cNs,
            cSoa := if Stale(t, c, c.cSoa, RRMUINDEX_SOA, now) then CUNDEF else c.cSoa)
  }

  lemma PurgedFields(c: Cent, now: int)
    ensures var p := Purged(c, now);
      && p.qname == c.qname && p.cNs == c.cNs && p.cSoa == c.cSoa
      && (DF_LOCAL in p.flags) == (DF_LOCAL in c.flags)
      && (c.body.Negative? ==> p == c)
  {}

  /** A reference is stale before the timed-out sets are deleted exactly when it is stale
      afterwards; this is why a test run can predict the real one. */
  lemma StaleAfterPurge(t: Table, key: Name, c: Cent, c': Cent, ref: nat, idx: nat, now: int)
    requires FoldName(c.qname) == key && c'.qname == c.qname && c'.body == Purged(c, now).body
    ensures Stale(t[key := c'], c', ref, idx, now) == Stale(t, c, ref, idx, now)
  {
    if ref == |c.qname| {
      if c.body.Positive? { PurgedSets(c, now, idx); }
    } else if ref < |c.qname| {
      FoldNameIndex(c.qname[|c.qname| - ref..]);
      FoldNameIndex(c.qname);
      assert |FoldName(c.qname[|c.qname| - ref..])| == ref < |key|;
    }
    hide Purged;
  }

  /** After a real run that keeps the entry, a second run at the same time finds nothing. */
  lemma SecondPurgeFindsNothing(t: Table, key: Name, delete: bool, now: int)
    requires TableOk(t) && key in t && PurgeCount(t, t[key], delete, now) >= 0
    ensures var t' := t[key := Refreshed(t, t[key], now)];
      PurgeCount(t', t'[key], delete, now) == 0
  {
    var c := t[key];
    var c', p := Refreshed(t, c, now), Purged(c, now);
    var t' := t[key := c'];
    PurgedFields(c, now);
    PurgedTwice(c, now);
    RefreshedPurged(t, c, now);
    assert c'.body == p.body && c'.numRRs == p.numRRs;
    StaleAfterPurge(t, key, c, c', c'.cNs, RRMUINDEX_NS, now);
    StaleAfterPurge(t, key, c, c', c'.cSoa, RRMUINDEX_SOA, now);
    PurgedItemsNonNegative(c, now);
    hide Purged;
    hide RefSet;
  }

  /** The references play no part in the purging of sets. */
  lemma RefreshedPurged(t: Table, c: Cent, now: int)
    ensures var c' := Refreshed(t, c, now);
      && Purged(c', now) == Purged(Purged(c, now), now).(cNs := c'.cNs, cSoa := c'.cSoa)
      && c'.body == Purged(c, now).body && c'.numRRs == Purged(c, now).numRRs
      && c'.flags == Purged(c, now).flags && c'.qname == c.qname
  {}

  lemma {:induction false} SlotsUsedSubset(a: map<nat, RRSet>, b: map<nat, RRSet>, n: nat)
    requires a.Keys <= b.Keys
    ensures SlotsUsed(a, n) <= SlotsUsed(b, n)
  {
    if n > 0 { SlotsUsedSubset(a, b, n - 1); }
  }

  lemma PurgedItemsNonNegative(c: Cent, now: int)
    ensures PurgedItems(c, now) >= 0
  {
    if c.body.Positive? { SlotsUsedSubset(c.body.sets - ExpiredSlots(c, now), c.body.sets, NRRTOT); }
  }

  lemma RefreshedAccounted(t: Table, c: Cent, now: int)
    requires Accounted(c)
    ensures Accounted(Refreshed(t, c, now)) && Refreshed(t, c, now).qname == c.qname
  {
    PurgedAccounted(c, now);
    PurgedFields(c, now);
    hide Purged;
  }
}
