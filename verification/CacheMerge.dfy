/** What purging and merging do to one entry (cache.c), age-list pointers aside. */
module CacheMerge {
  import opened Names
  import opened RRTypes
  import opened CacheEntry

  // ---- Removing several sets

  /** The entry after del_cent_rrset_by_index for every occupied slot in gone. */
  function DropSlots(c: Cent, gone: set<nat>): (c': Cent)
    requires c.body.Positive?
    ensures c'.body.Positive? && c'.body.sets == c.body.sets - gone && c'.body.ext == c.body.ext
    ensures c'.qname == c.qname && c'.cNs == c.cNs && c'.cSoa == c.cSoa
  {
    var sets, sets' := c.body.sets, c.body.sets - gone;
    c.(body := c.body.(sets := sets'),
       numRRs := c.numRRs - SlotsUsed(sets, NRRTOT) + SlotsUsed(sets', NRRTOT),
       cs := c.cs - SlotsSize(sets, NRRTOT) + SlotsSize(sets', NRRTOT),
       flags := if gone * sets.Keys == {} then c.flags else c.flags - {DF_AUTH})
  }

  lemma DropSlotsNone(c: Cent, gone: set<nat>)
    requires c.body.Positive? && forall i :: i in c.body.sets ==> i !in gone
    ensures DropSlots(c, gone) == c
  {
    assert gone * c.body.sets.Keys == {};
    assert c.body.sets - gone == c.body.sets;
  }

  /** Removing one more set. */
  lemma DropSlotsStep(c: Cent, gone: set<nat>, i: nat)
    requires c.body.Positive? && i in c.body.sets && i !in gone && i < NRRTOT
    ensures DropSet(DropSlots(c, gone), i) == DropSlots(c, gone + {i})
  {
    var sets := c.body.sets;
    assert sets - gone - {i} == sets - (gone + {i});
    assert i in (gone + {i}) * sets.Keys;
    SlotsSizeRemove(sets - gone, i, NRRTOT);
  }

  lemma DropSlotsAccounted(c: Cent, gone: set<nat>)
    requires Accounted(c) && c.body.Positive?
    ensures Accounted(DropSlots(c, gone))
  {}

  // ---- purge_all_rrsets

  function ExpiredSlots(c: Cent, now: int): (g: set<nat>)
  {
    if c.body.Negative? then {} else set i | i in c.body.sets && Expired(c.body.sets[i], now)
  }

  predicate UsesExt(sets: map<nat, RRSet>) { exists i :: i in sets && i >= NRRMU }

  /** The entry without its timed-out sets, and without an extension array nobody uses. */
  function Purged(c: Cent, now: int): (c': Cent)
  {
    if c.body.Negative? then c
    else
      var c1 := DropSlots(c, ExpiredSlots(c, now));
      if c1.body.ext && !UsesExt(c1.body.sets) then DropExt(c1) else c1
  }

  /** The number of items that purging removes. */
  function PurgedItems(c: Cent, now: int): (n: int)
  {
    c.numRRs - Purged(c, now).numRRs
    + (if c.body.Positive? && c.body.ext && !Purged(c, now).body.ext then 1 else 0)
  }

  lemma PurgedAccounted(c: Cent, now: int)
    requires Accounted(c)
    ensures Accounted(Purged(c, now)) && Purged(c, now).qname == c.qname
    ensures Purged(c, now).body.Positive? == c.body.Positive?
  {
    if c.body.Positive? {
      var c1 := DropSlots(c, ExpiredSlots(c, now));
      DropSlotsAccounted(c, ExpiredSlots(c, now));
      if c1.body.ext && !UsesExt(c1.body.sets) {
        forall i | i in c1.body.sets ensures i < NRRMU {}
        DropExtAccounted(c1);
      }
    }
  }

  /** Purging removes exactly the sets that are neither local nor marked "no purge" and have
      timed out. */
  lemma PurgedSets(c: Cent, now: int, i: nat)
    requires c.body.Positive?
    ensures Purged(c, now).body.Positive?
    ensures i in Purged(c, now).body.sets <==> i in c.body.sets && !Expired(c.body.sets[i], now)
    ensures i in Purged(c, now).body.sets ==> Purged(c, now).body.sets[i] == c.body.sets[i]
  {}

  /** Purging twice at the same time is the same as purging once. */
  lemma PurgedTwice(c: Cent, now: int)
    requires Accounted(c)
    ensures Purged(Purged(c, now), now) == Purged(c, now) && PurgedItems(Purged(c, now), now) == 0
  {
    if c.body.Positive? {
      var p := Purged(c, now);
      assert ExpiredSlots(p, now) == {} by {
        forall i | i in p.body.sets ensures !Expired(p.body.sets[i], now) { PurgedSets(c, now, i); }
      }
      DropSlotsNone(p, {});
      PurgedAccounted(c, now);
    }
  }

  // ---- Precedence and conflict resolution

  /** The old set in this slot has precedence over the new one. */
  predicate Blocked(c: Cent, i: nat, n: RRSet, now: int)
  {
    i in AsPositive(c).sets && var o := AsPositive(c).sets[i];
    || (!Local(n) && Local(o))
    || (CF_ADDITIONAL in n.flags && (CF_ADDITIONAL !in o.flags || (CF_ROOTSERV !in n.flags && CF_ROOTSERV in o.flags))
        && !TimedOut(o, now))
  }

  /** The positive sets that exclude a set in slot idx. */
  function Rivals(c: Cent, idx: nat): (r: set<nat>)
    requires idx < NRRTOT && Shaped(c)
  {
    if c.body.Negative? then {}
    else set i | i in c.body.sets && IsPositiveSet(c.body.sets[i]) && Conflict(idx, i)
  }

  /** Sum of the remaining lifetimes of the rivals in the first n slots. */
  function RivalTtl(c: Cent, rivals: set<nat>, n: nat, now: int): (t: nat)
    requires c.body.Positive? && rivals <= c.body.sets.Keys
  {
    if n == 0 then 0
    else
      RivalTtl(c, rivals, n - 1, now) +
      (if n - 1 in rivals && c.body.sets[n - 1].ttl + c.body.sets[n - 1].ts - now > 0
       then c.body.sets[n - 1].ttl + c.body.sets[n - 1].ts - now else 0)
  }

  /** The result of cr_check_add: may the new set be added? */
  predicate Accepts(c: Cent, idx: nat, n: RRSet, now: int)
    requires idx < NRRTOT && Shaped(c)
  {
    if CF_NEGATIVE in n.flags || Local(n) then true
    else if DF_LOCAL in c.flags then false
    else if c.body.Negative? then true
    else
      var r := Rivals(c, idx);
      && (forall i :: i in r ==> !Local(c.body.sets[i]))
      && (r == {} || n.ttl > RivalTtl(c, r, NRRTOT, now) / |r|)
  }

  /** What cr_check_add leaves of the entry when it accepts. */
  function Cleared(c: Cent, idx: nat, n: RRSet): (c': Cent)
    requires idx < NRRTOT && Shaped(c)
  {
    if CF_NEGATIVE in n.flags || c.body.Negative? then c else DropSlots(c, Rivals(c, idx))
  }

  /** del_cent_rrset_by_index for a slot that may be empty. */
  function Vacated(c: Cent, i: nat): (c': Cent)
  {
    if c.body.Positive? && i in c.body.sets then DropSet(c, i) else c
  }

  function AddAll(c: Cent, idx: nat, rrs: seq<seq<byte>>): (c': Cent)
    requires c.body.Positive? && idx in c.body.sets
    ensures c'.body.Positive? && idx in c'.body.sets
  {
    if rrs == [] then c else AddRR(AddAll(c, idx, rrs[..|rrs| - 1]), idx, rrs[|rrs| - 1])
  }

  /** A new set with its records, TTL adjusted, in an empty slot. */
  function Installed(c: Cent, idx: nat, n: RRSet, cfg: TtlConfig): (c': Cent)
    ensures c'.body.Positive? && idx in c'.body.sets
  {
    var c1 := AddAll(AddSet(c, idx, n.ttl, n.ts, n.flags), idx, n.rrs);
    PutSet(c1, idx, AdjustTtl(c1.body.sets[idx], cfg))
  }

  /** One round of the merge loop of add_cache. */
  function MergeSlot(c: Cent, i: nat, n: RRSet, now: int, cfg: TtlConfig): (c': Cent)
    requires i < NRRTOT && Accounted(c)
    ensures Accounted(c') && c'.qname == c.qname
  {
    if Blocked(c, i, n, now) then c
    else
      VacatedAccounted(c, i);
      var c1 := Vacated(c, i);
      if !Accepts(c1, i, n, now) then c1
      else
        ClearedAccounted(c1, i, n);
        InstalledAccounted(Cleared(c1, i, n), i, n, cfg);
        Installed(Cleared(c1, i, n), i, n, cfg)
  }

  lemma VacatedAccounted(c: Cent, i: nat)
    requires Accounted(c)
    ensures Accounted(Vacated(c, i)) && Vacated(c, i).qname == c.qname
    ensures i !in AsPositive(Vacated(c, i)).sets
  {
    hide Accounted;
    if c.body.Positive? && i in c.body.sets { DropSetAccounted(c, i); }
  }

  lemma ClearedAccounted(c: Cent, idx: nat, n: RRSet)
    requires Accounted(c) && idx < NRRTOT && idx !in AsPositive(c).sets
    ensures Accounted(Cleared(c, idx, n)) && Cleared(c, idx, n).qname == c.qname
    ensures idx !in AsPositive(Cleared(c, idx, n)).sets
  {
    if c.body.Positive? { DropSlotsAccounted(c, Rivals(c, idx)); }
  }

  lemma {:induction false} AddAllAccounted(c: Cent, idx: nat, rrs: seq<seq<byte>>)
    requires Accounted(c) && c.body.Positive? && idx in c.body.sets
    ensures Accounted(AddAll(c, idx, rrs)) && AddAll(c, idx, rrs).qname == c.qname
    ensures AddAll(c, idx, rrs).flags == c.flags && AddAll(c, idx, rrs).body.sets.Keys == c.body.sets.Keys
    ensures forall j :: j in c.body.sets && j != idx ==> AddAll(c, idx, rrs).body.sets[j] == c.body.sets[j]
    ensures AddAll(c, idx, rrs).body.sets[idx] == c.body.sets[idx].(rrs := c.body.sets[idx].rrs + rrs)
  {
    hide Accounted;
    if rrs == [] {
      assert c.body.sets[idx].rrs + rrs == c.body.sets[idx].rrs;
    } else {
      var init, last := rrs[..|rrs| - 1], rrs[|rrs| - 1];
      AddAllAccounted(c, idx, init);
      AddRRAccounted(AddAll(c, idx, init), idx, last);
      assert c.body.sets[idx].rrs + rrs == c.body.sets[idx].rrs + init + [last];
    }
  }

  /** The set that a merge installs. */
  function AsInstalled(n: RRSet, cfg: TtlConfig): (s: RRSet) { AdjustTtl(n.(lent := None), cfg) }

  lemma InstalledAccounted(c: Cent, idx: nat, n: RRSet, cfg: TtlConfig)
    requires Accounted(c) && idx < NRRTOT && idx !in AsPositive(c).sets
    ensures var c' := Installed(c, idx, n, cfg);
      && Accounted(c') && c'.qname == c.qname && c'.flags == c.flags
      && c'.body.sets == AsPositive(c).sets[idx := AsInstalled(n, cfg)]
  {
    var c0 := AddSet(c, idx, n.ttl, n.ts, n.flags);
    AddSetAccounted(c, idx, n.ttl, n.ts, n.flags);
    AddSetSets(c, idx, n.ttl, n.ts, n.flags);
    hide Accounted;
    hide AddSet;
    AddAllAccounted(c0, idx, n.rrs);
    var c1 := AddAll(c0, idx, n.rrs);
    assert [] + n.rrs == n.rrs;
    assert c1.body.sets[idx] == n.(lent := None);
    hide AddAll;
    var s := AdjustTtl(c1.body.sets[idx], cfg);
    PutSetAccounted(c1, idx, s);
    SameSets(c1.body.sets[idx := s], AsPositive(c).sets[idx := s], idx);
  }

  lemma AddSetSets(c: Cent, idx: nat, ttl: int, ts: int, flags: set<CFlag>)
    ensures var c' := AddSet(c, idx, ttl, ts, flags);
      && c'.body.Positive? && c'.qname == c.qname && c'.flags == c.flags
      && c'.body.sets == AsPositive(c).sets[idx := RRSet(None, ttl, ts, flags, [])]
  {}

  lemma SameSets(a: map<nat, RRSet>, b: map<nat, RRSet>, idx: nat)
    requires a.Keys == b.Keys && forall j :: j in a ==> a[j] == b[j]
    ensures a == b
  {}

  // ---- What merging guarantees

  /** Every local set of c0 is still in c, unchanged. */
  predicate KeepsLocal(c0: Cent, c: Cent)
  {
    c0.body.Positive? ==>
      forall i | i in c0.body.sets && Local(c0.body.sets[i]) ::
        c.body.Positive? && i in c.body.sets && c.body.sets[i] == c0.body.sets[i]
  }

  /** The sets of the entry after one round: rivals and the old set are gone if the new set
      was accepted, only the old set is gone if it was refused. */
  lemma MergeSlotSets(c: Cent, i: nat, n: RRSet, now: int, cfg: TtlConfig)
    requires i < NRRTOT && Accounted(c)
    ensures var c' := MergeSlot(c, i, n, now, cfg);
      if Blocked(c, i, n, now) then c' == c
      else if !Accepts(Vacated(c, i), i, n, now) then
        c'.body.Positive? == c.body.Positive? && AsPositive(c').sets == AsPositive(c).sets - {i}
      else
        && c'.body.Positive?
        && c'.body.sets.Keys == AsPositive(c).sets.Keys
             - (if CF_NEGATIVE in n.flags then {} else Rivals(Vacated(c, i), i)) - {i} + {i}
        && c'.body.sets[i] == AsInstalled(n, cfg)
        && (forall j :: j in c'.body.sets && j != i ==> j in AsPositive(c).sets && c'.body.sets[j] == AsPositive(c).sets[j])
  {
    if !Blocked(c, i, n, now) {
      VacatedAccounted(c, i);
      var c1 := Vacated(c, i);
      if Accepts(c1, i, n, now) {
        ClearedAccounted(c1, i, n);
        InstalledAccounted(Cleared(c1, i, n), i, n, cfg);
      }
    }
  }

  /** Merging a set that is not local never removes or changes a local set. */
  lemma MergeSlotKeepsLocal(c: Cent, i: nat, n: RRSet, now: int, cfg: TtlConfig)
    requires i < NRRTOT && Accounted(c) && !Local(n)
    ensures KeepsLocal(c, MergeSlot(c, i, n, now, cfg))
  {
    hide Accounted;
    hide MergeSlot;
    MergeSlotSets(c, i, n, now, cfg);
    VacatedAccounted(c, i);
  }

  /** Merging any set keeps the entry free of conflicts. */
  lemma MergeSlotConflictFree(c: Cent, i: nat, n: RRSet, now: int, cfg: TtlConfig)
    requires i < NRRTOT && Accounted(c) && ConflictFree(c)
    ensures ConflictFree(MergeSlot(c, i, n, now, cfg))
  {
    hide MergeSlot;
    hide TrueSize;
    hide TrueCount;
    MergeSlotSets(c, i, n, now, cfg);
    VacatedAccounted(c, i);
    ConflictSymmetric(i, i);
    var c' := MergeSlot(c, i, n, now, cfg);
    if !Blocked(c, i, n, now) && Accepts(Vacated(c, i), i, n, now) {
      forall a, b | a in c'.body.sets && b in c'.body.sets
          && IsPositiveSet(c'.body.sets[a]) && IsPositiveSet(c'.body.sets[b])
        ensures !Conflict(a, b)
      {
        ConflictSymmetric(a, b);
        ConflictSymmetric(a, i);
        ConflictSymmetric(b, i);
      }
    }
  }

  // ---- The whole merge

  /** The merge loop of add_cache over the first k slots of the new entry. */
  function MergeUpTo(c: Cent, cent: Cent, k: nat, now: int, cfg: TtlConfig): (c': Cent)
    requires k <= NRRTOT && Accounted(c) && cent.body.Positive?
    ensures Accounted(c') && c'.qname == c.qname
  {
    if k == 0 then c
    else
      var c1 := MergeUpTo(c, cent, k - 1, now, cfg);
      if k - 1 in cent.body.sets then MergeSlot(c1, k - 1, cent.body.sets[k - 1], now, cfg) else c1
  }

  predicate NoLocalSets(cent: Cent)
  {
    cent.body.Positive? ==> forall i :: i in cent.body.sets ==> !Local(cent.body.sets[i])
  }

  lemma {:induction false} MergeKeepsLocal(c: Cent, cent: Cent, k: nat, now: int, cfg: TtlConfig)
    requires k <= NRRTOT && Accounted(c) && cent.body.Positive? && NoLocalSets(cent)
    ensures KeepsLocal(c, MergeUpTo(c, cent, k, now, cfg))
  {
    hide Accounted;
    hide MergeSlot;
    if k > 0 {
      MergeKeepsLocal(c, cent, k - 1, now, cfg);
      if k - 1 in cent.body.sets {
        MergeSlotKeepsLocal(MergeUpTo(c, cent, k - 1, now, cfg), k - 1, cent.body.sets[k - 1], now, cfg);
      }
    }
  }

  lemma {:induction false} MergeConflictFree(c: Cent, cent: Cent, k: nat, now: int, cfg: TtlConfig)
    requires k <= NRRTOT && Accounted(c) && cent.body.Positive? && ConflictFree(c)
    ensures ConflictFree(MergeUpTo(c, cent, k, now, cfg))
  {
    hide MergeSlot;
    hide ConflictFree;
    if k > 0 {
      MergeConflictFree(c, cent, k - 1, now, cfg);
      if k - 1 in cent.body.sets {
        MergeSlotConflictFree(MergeUpTo(c, cent, k - 1, now, cfg), k - 1, cent.body.sets[k - 1], now, cfg);
      }
    }
  }

  /** After a merge every set is an old one or the new one of its slot. */
  lemma {:induction false} MergeOrigin(c: Cent, cent: Cent, k: nat, now: int, cfg: TtlConfig, i: nat)
    requires k <= NRRTOT && Accounted(c) && cent.body.Positive?
    requires i in AsPositive(MergeUpTo(c, cent, k, now, cfg)).sets
    ensures var s := AsPositive(MergeUpTo(c, cent, k, now, cfg)).sets[i];
      || (i in AsPositive(c).sets && s == AsPositive(c).sets[i])
      || (i < k && i in cent.body.sets && s == AsInstalled(cent.body.sets[i], cfg))
  {
    hide Accounted;
    hide MergeSlot;
    if k > 0 {
      var c1 := MergeUpTo(c, cent, k - 1, now, cfg);
      if k - 1 in cent.body.sets {
        MergeSlotSets(c1, k - 1, cent.body.sets[k - 1], now, cfg);
        if i != k - 1 || Blocked(c1, k - 1, cent.body.sets[k - 1], now) {
          MergeOrigin(c, cent, k - 1, now, cfg, i);
        }
      } else {
        MergeOrigin(c, cent, k - 1, now, cfg, i);
      }
    }
  }

  /** For the types that conflict with no others, the new set replaces the old one exactly
      when the old one has no precedence (and the entry is not local, unless the new set is
      local or negative). */
  lemma {:induction false} MergeIdem(c: Cent, cent: Cent, k: nat, now: int, cfg: TtlConfig, i: nat)
    requires k <= NRRTOT && Accounted(c) && cent.body.Positive? && i < NRRTOT && RR_INFO[i] == IDEM
    ensures var s := AsPositive(MergeUpTo(c, cent, k, now, cfg)).sets;
      if i < k && i in cent.body.sets && !Blocked(c, i, cent.body.sets[i], now) then
        var n := cent.body.sets[i];
        if CF_NEGATIVE in n.flags || Local(n) || DF_LOCAL !in c.flags
        then i in s && s[i] == AsInstalled(n, cfg)
        else i !in s
      else if i in AsPositive(c).sets then i in s && s[i] == AsPositive(c).sets[i]
      else i !in s
    ensures (DF_LOCAL in MergeUpTo(c, cent, k, now, cfg).flags) == (DF_LOCAL in c.flags)
  {
    hide Accounted;
    hide MergeSlot;
    if k > 0 {
      MergeIdem(c, cent, k - 1, now, cfg, i);
      hide AsInstalled;
      hide AsPositive;
      var c1 := MergeUpTo(c, cent, k - 1, now, cfg);
      if k - 1 in cent.body.sets {
        MergeSlotIdem(c1, k - 1, cent.body.sets[k - 1], now, cfg, i);
      }
    }
  }

  lemma MergeSlotIdem(c: Cent, j: nat, n: RRSet, now: int, cfg: TtlConfig, i: nat)
    requires j < NRRTOT && Accounted(c) && i < NRRTOT && RR_INFO[i] == IDEM
    ensures var c' := MergeSlot(c, j, n, now, cfg);
      && (DF_LOCAL in c'.flags) == (DF_LOCAL in c.flags)
      && (i != j || Blocked(c, i, n, now) ==>
           (i in AsPositive(c').sets) == (i in AsPositive(c).sets)
           && (i in AsPositive(c').sets ==> AsPositive(c').sets[i] == AsPositive(c).sets[i]))
      && (i == j && !Blocked(c, i, n, now) ==>
           if CF_NEGATIVE in n.flags || Local(n) || DF_LOCAL !in c.flags
           then i in AsPositive(c').sets && AsPositive(c').sets[i] == AsInstalled(n, cfg)
           else i !in AsPositive(c').sets)
  {
    MergeSlotSets(c, j, n, now, cfg);
    if !Blocked(c, j, n, now) {
      VacatedAccounted(c, j);
      var c1 := Vacated(c, j);
      assert (DF_LOCAL in c1.flags) == (DF_LOCAL in c.flags);
      assert i !in Rivals(c1, j);
      if i == j { assert Rivals(c1, j) == {}; }
      if Accepts(c1, j, n, now) {
        ClearedAccounted(c1, j, n);
        InstalledAccounted(Cleared(c1, j, n), j, n, cfg);
      }
    }
  }
}
