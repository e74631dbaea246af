/** Merging does not look at the age-list pointers of an entry. */
module CacheErase {
  import opened Names
  import opened RRTypes
  import opened CacheEntry
  import opened CacheMerge

  function EraseSets(sets: map<nat, RRSet>): (r: map<nat, RRSet>)
    ensures r.Keys == sets.Keys
  {
    map i | i in sets :: sets[i].(lent := None)
  }

  /** The entry without its pointers into the age list. */
  function Erase(c: Cent): (r: Cent)
  {
    match c.body
    case Negative(_, _, _) => c.(body := c.body.(lent := None))
    case Positive(sets, _) => c.(body := c.body.(sets := EraseSets(sets)))
  }

  lemma {:induction false} EraseSize(sets: map<nat, RRSet>, n: nat)
    ensures SlotsSize(EraseSets(sets), n) == SlotsSize(sets, n)
    ensures SlotsUsed(EraseSets(sets), n) == SlotsUsed(sets, n)
  {
    if n > 0 { EraseSize(sets, n - 1); }
  }

  lemma EraseAccounted(c: Cent)
    ensures Accounted(Erase(c)) == Accounted(c)
    ensures Shaped(Erase(c)) == Shaped(c)
  {
    if c.body.Positive? { EraseSize(c.body.sets, NRRTOT); }
  }

  lemma EraseConflictFree(c: Cent)
    requires Shaped(c)
    ensures Shaped(Erase(c)) && ConflictFree(Erase(c)) == ConflictFree(c)
  {
    EraseAccounted(c);
    if c.body.Positive? && ConflictFree(Erase(c)) {
      forall i, j | i in c.body.sets && j in c.body.sets
          && IsPositiveSet(c.body.sets[i]) && IsPositiveSet(c.body.sets[j])
        ensures !Conflict(i, j)
      {
        assert i in EraseSets(c.body.sets) && j in EraseSets(c.body.sets);
      }
    }
  }

  lemma EraseBlocked(c: Cent, i: nat, n: RRSet, now: int)
    ensures Blocked(Erase(c), i, n, now) == Blocked(c, i, n, now)
  {}

  lemma EraseVacated(c: Cent, i: nat)
    ensures Erase(Vacated(c, i)) == Vacated(Erase(c), i)
  {
    if c.body.Positive? && i in c.body.sets {
      assert EraseSets(c.body.sets - {i}) == EraseSets(c.body.sets) - {i};
    }
  }

  lemma EraseRivals(c: Cent, idx: nat)
    requires idx < NRRTOT && Shaped(c)
    ensures Shaped(Erase(c)) && Rivals(Erase(c), idx) == Rivals(c, idx)
  {
    EraseAccounted(c);
  }

  lemma {:induction false} EraseRivalTtl(c: Cent, rivals: set<nat>, n: nat, now: int)
    requires c.body.Positive? && rivals <= c.body.sets.Keys
    ensures RivalTtl(Erase(c), rivals, n, now) == RivalTtl(c, rivals, n, now)
  {
    if n > 0 { EraseRivalTtl(c, rivals, n - 1, now); }
  }

  lemma EraseAccepts(c: Cent, idx: nat, n: RRSet, now: int)
    requires idx < NRRTOT && Shaped(c)
    ensures Shaped(Erase(c)) && Accepts(Erase(c), idx, n, now) == Accepts(c, idx, n, now)
  {
    EraseRivals(c, idx);
    if c.body.Positive? { EraseRivalTtl(c, Rivals(c, idx), NRRTOT, now); }
    hide RivalTtl;
  }

  lemma EraseDropSlots(c: Cent, gone: set<nat>)
    requires c.body.Positive?
    ensures Erase(DropSlots(c, gone)) == DropSlots(Erase(c), gone)
  {
    assert EraseSets(c.body.sets - gone) == EraseSets(c.body.sets) - gone;
    EraseSize(c.body.sets, NRRTOT);
    EraseSize(c.body.sets - gone, NRRTOT);
    hide SlotsSize;
    hide SlotsUsed;
  }

  lemma EraseCleared(c: Cent, idx: nat, n: RRSet)
    requires idx < NRRTOT && Shaped(c)
    ensures Shaped(Erase(c)) && Erase(Cleared(c, idx, n)) == Cleared(Erase(c), idx, n)
  {
    EraseRivals(c, idx);
    hide DropSlots;
    if c.body.Positive? { EraseDropSlots(c, Rivals(c, idx)); }
  }

  lemma EraseAddSet(c: Cent, idx: nat, ttl: int, ts: int, flags: set<CFlag>)
    ensures Erase(AddSet(c, idx, ttl, ts, flags)) == AddSet(Erase(c), idx, ttl, ts, flags)
  {
    var s := RRSet(None, ttl, ts, flags, []);
    assert EraseSets(AsPositive(c).sets[idx := s]) == AsPositive(Erase(c)).sets[idx := s];
  }

  lemma ErasePutSet(c: Cent, idx: nat, s: RRSet)
    requires c.body.Positive? && idx in c.body.sets
    ensures Erase(PutSet(c, idx, s)) == PutSet(Erase(c), idx, s.(lent := None))
  {
    assert EraseSets(c.body.sets[idx := s]) == EraseSets(c.body.sets)[idx := s.(lent := None)];
  }

  lemma EraseAddRR(c: Cent, idx: nat, data: seq<byte>)
    requires c.body.Positive? && idx in c.body.sets
    ensures Erase(AddRR(c, idx, data)) == AddRR(Erase(c), idx, data)
  {
    var s := c.body.sets[idx];
    ErasePutSet(c, idx, s.(rrs := s.rrs + [data]));
  }

  lemma {:induction false} EraseAddAll(c: Cent, idx: nat, rrs: seq<seq<byte>>)
    requires c.body.Positive? && idx in c.body.sets
    ensures Erase(AddAll(c, idx, rrs)) == AddAll(Erase(c), idx, rrs)
  {
    hide AddRR;
    if rrs != [] {
      EraseAddAll(c, idx, rrs[..|rrs| - 1]);
      EraseAddRR(AddAll(c, idx, rrs[..|rrs| - 1]), idx, rrs[|rrs| - 1]);
    }
  }

  lemma EraseInstalled(c: Cent, idx: nat, n: RRSet, cfg: TtlConfig)
    ensures Erase(Installed(c, idx, n, cfg)) == Installed(Erase(c), idx, n, cfg)
  {
    var c0 := AddSet(c, idx, n.ttl, n.ts, n.flags);
    EraseAddSet(c, idx, n.ttl, n.ts, n.flags);
    assert idx in c0.body.sets;
    hide AddSet;
    EraseAddAll(c0, idx, n.rrs);
    var c1 := AddAll(c0, idx, n.rrs);
    hide AddAll;
    ErasePutSet(c1, idx, AdjustTtl(c1.body.sets[idx], cfg));
    assert Erase(c1).body.sets[idx] == c1.body.sets[idx].(lent := None);
  }

  /** One round of the merge commutes with forgetting the pointers. */
  lemma EraseMergeSlot(c: Cent, i: nat, n: RRSet, now: int, cfg: TtlConfig)
    requires i < NRRTOT && Accounted(c)
    ensures Accounted(Erase(c))
    ensures Erase(MergeSlot(c, i, n, now, cfg)) == MergeSlot(Erase(c), i, n, now, cfg)
  {
    EraseAccounted(c);
    EraseBlocked(c, i, n, now);
    EraseVacated(c, i);
    VacatedAccounted(c, i);
    EraseAccepts(Vacated(c, i), i, n, now);
    EraseCleared(Vacated(c, i), i, n);
    EraseInstalled(Cleared(Vacated(c, i), i, n), i, n, cfg);
    hide TrueSize;
    hide TrueCount;
    hide Erase;
    hide Blocked;
    hide Vacated;
    hide Accepts;
    hide Cleared;
    hide Installed;
  }
}
