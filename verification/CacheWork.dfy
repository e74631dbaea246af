/** State-level facts about the operations of the cache object: eviction, merging, purging. */
module CacheWork {
  import opened Names
  import opened RRTypes
  import opened CacheEntry
  import opened CacheMerge
  import opened CacheErase
  import opened CachePurge
  import CacheState
  import opened CacheSteps
  import AgeSort
  import opened CacheLookup

  type Lent = CacheState.Lent

  /** t is t0 with some sets and entries evicted: entries and sets only disappear, and no
      local set and no local entry is touched. */
  ghost predicate Evicted(t0: CacheState.Table, t: CacheState.Table)
  {
    && (forall k :: k in t ==> k in t0 && t[k].qname == t0[k].qname && SubEntry(t0[k], t[k]))
    && (forall k :: k in t0 && DF_LOCAL in t0[k].flags ==> k in t && t[k] == t0[k])
    && (forall k :: k in t0 && HasLocal(t0[k]) ==> k in t && KeepsLocal(t0[k], t[k]))
  }

  /** Sets only disappear. */
  ghost predicate SubEntry(c0: Cent, c: Cent)
  {
    && c.body.Positive? == c0.body.Positive?
    && (DF_LOCAL in c.flags) == (DF_LOCAL in c0.flags)
    && (c.body.Negative? ==> c.body == c0.body)
    && (c.body.Positive? ==> forall i :: i in c.body.sets ==> i in c0.body.sets && c.body.sets[i] == c0.body.sets[i])
  }

  predicate HasLocal(c: Cent)
  {
    c.body.Positive? && exists i :: i in c.body.sets && Local(c.body.sets[i])
  }

  lemma EvictedTransitive(a: CacheState.Table, b: CacheState.Table, c: CacheState.Table)
    requires Evicted(a, b) && Evicted(b, c)
    ensures Evicted(a, c)
  {
    forall k | k in a && HasLocal(a[k]) ensures k in c && KeepsLocal(a[k], c[k]) {
      var i :| i in a[k].body.sets && Local(a[k].body.sets[i]);
      assert i in b[k].body.sets && Local(b[k].body.sets[i]);
    }
  }

  lemma DropSetSub(c: Cent, idx: nat)
    requires c.body.Positive? && idx in c.body.sets && !Local(c.body.sets[idx])
    ensures SubEntry(c, DropSet(c, idx)) && KeepsLocal(c, DropSet(c, idx))
  {}

  lemma EvictSet(t: CacheState.Table, k: Name, idx: nat)
    requires k in t && CacheState.Purgeable(t[k], idx)
    ensures Evicted(t, t[k := DropSet(t[k], idx)])
  {
    DropSetSub(t[k], idx);
  }

  lemma EvictEntry(t: CacheState.Table, k: Name)
    requires k in t && !HasLocal(t[k]) && DF_LOCAL !in t[k].flags
    ensures Evicted(t, t - {k})
  {}

  // ---- Lemmas for merging

  function RivalsBelow(c: Cent, idx: nat, n: nat): (r: set<nat>)
    requires idx < NRRTOT && Shaped(c) && c.body.Positive?
  {
    set i | i in c.body.sets && i < n && IsPositiveSet(c.body.sets[i]) && Conflict(idx, i)
  }

  lemma RivalsStep(c: Cent, idx: nat, i: nat)
    requires idx < NRRTOT && Shaped(c) && c.body.Positive? && i < NRRTOT
    ensures i !in RivalsBelow(c, idx, i)
    ensures if i in c.body.sets && IsPositiveSet(c.body.sets[i]) && Conflict(idx, i)
      then RivalsBelow(c, idx, i + 1) == RivalsBelow(c, idx, i) + {i} && i in Rivals(c, idx)
      else RivalsBelow(c, idx, i + 1) == RivalsBelow(c, idx, i) && i !in Rivals(c, idx)
  {}

  predicate NoneLocal(c: Cent, slots: set<nat>)
    requires c.body.Positive?
  {
    forall j :: j in slots && j in c.body.sets ==> !Local(c.body.sets[j])
  }

  lemma RivalTtlStart(c: Cent, idx: nat, now: int)
    requires idx < NRRTOT && Shaped(c) && c.body.Positive?
    ensures Rivals(c, idx) <= c.body.sets.Keys && RivalTtl(c, Rivals(c, idx), 0, now) == 0
    ensures RivalsBelow(c, idx, 0) == {}
  {}

  lemma RivalTtlStep(c: Cent, idx: nat, i: nat, now: int)
    requires idx < NRRTOT && Shaped(c) && c.body.Positive? && i < NRRTOT
    ensures Rivals(c, idx) <= c.body.sets.Keys
    ensures RivalTtl(c, Rivals(c, idx), i + 1, now) == RivalTtl(c, Rivals(c, idx), i, now)
      + (if i in Rivals(c, idx) && c.body.sets[i].ttl + c.body.sets[i].ts - now > 0
         then c.body.sets[i].ttl + c.body.sets[i].ts - now else 0)
  {
    hide Conflict;
  }

  lemma RivalsAll(c: Cent, idx: nat, lim: nat)
    requires idx < NRRTOT && Shaped(c) && c.body.Positive? && forall i :: i in c.body.sets ==> i < lim
    ensures RivalsBelow(c, idx, lim) == Rivals(c, idx)
    ensures RivalsBelow(c, idx, 0) == {} && DropSlots(c, {}) == c
  {
    DropSlotsNone(c, {});
  }

  lemma {:induction false} RivalTtlShort(c: Cent, rivals: set<nat>, lim: nat, n: nat, now: int)
    requires c.body.Positive? && rivals <= c.body.sets.Keys && lim <= n && forall i :: i in rivals ==> i < lim
    ensures RivalTtl(c, rivals, n, now) == RivalTtl(c, rivals, lim, now)
  {
    if lim < n { RivalTtlShort(c, rivals, lim, n - 1, now); }
  }

  /** The loop of cr_check_add that looks for rivals: their number and summed lifetimes. */
  method CountRivals(c: Cent, idx: nat, now: int) returns (local: bool, ncf: nat, nttl: nat)
    requires Shaped(c) && idx < NRRTOT
    ensures local <==> c.body.Positive? && exists i :: i in Rivals(c, idx) && Local(c.body.sets[i])
    ensures !local ==> ncf == |Rivals(c, idx)|
    ensures !local && c.body.Positive? ==> nttl == RivalTtl(c, Rivals(c, idx), NRRTOT, now)
  {
    local, ncf, nttl := false, 0, 0;
    if c.body.Negative? { return; }
    var ilim := if c.body.ext then NRRTOT else NRRMU;
    RivalsAll(c, idx, ilim);
    RivalTtlStart(c, idx, now);
    RivalTtlShort(c, Rivals(c, idx), ilim, NRRTOT, now);
    hide Conflict;
    hide IsPositiveSet;
    hide Shaped;
    hide RivalsBelow;
    hide Rivals;
    hide RivalTtl;
    hide Local;
    for i := 0 to ilim
      invariant ncf == |RivalsBelow(c, idx, i)| && nttl == RivalTtl(c, Rivals(c, idx), i, now)
      invariant NoneLocal(c, RivalsBelow(c, idx, i))
    {
      RivalsStep(c, idx, i);
      RivalTtlStep(c, idx, i, now);
      if i in c.body.sets && IsPositiveSet(c.body.sets[i]) && Conflict(idx, i) {
        if Local(c.body.sets[i]) { return true, 0, 0; }
        ncf := ncf + 1;
        var rttl := c.body.sets[i].ttl + c.body.sets[i].ts - now;
        if rttl > 0 { nttl := nttl + rttl; }
      }
    }
  }

  /** Mean remaining lifetime of the rivals. */
  function MeanTtl(total: nat, count: nat): nat
    requires count > 0
  {
    total / count
  }

  /** cr_check_add in terms of what its first loop finds. */
  lemma AcceptsByCount(c: Cent, idx: nat, n: RRSet, now: int, local: bool, ncf: nat, nttl: nat)
    requires idx < NRRTOT && Shaped(c) && CF_NEGATIVE !in n.flags && !Local(n) && DF_LOCAL !in c.flags
    requires local <==> c.body.Positive? && exists i :: i in Rivals(c, idx) && Local(c.body.sets[i])
    requires !local ==> ncf == |Rivals(c, idx)|
    requires !local && c.body.Positive? ==> nttl == RivalTtl(c, Rivals(c, idx), NRRTOT, now)
    ensures Accepts(c, idx, n, now) <==> !local && (ncf == 0 || n.ttl > MeanTtl(nttl, ncf))
    ensures !local && ncf == 0 ==> Cleared(c, idx, n) == c
  {
    if !local && ncf == 0 {
      assert Rivals(c, idx) == {};
      if c.body.Positive? { DropSlotsNone(c, Rivals(c, idx)); }
    }
    hide DropSlots;
    hide Conflict;
    hide RivalTtl;
  }

  lemma AcceptsAtOnce(c: Cent, idx: nat, n: RRSet, now: int)
    requires idx < NRRTOT && Shaped(c)
    ensures CF_NEGATIVE in n.flags ==> Accepts(c, idx, n, now) && Cleared(c, idx, n) == c
    ensures CF_NEGATIVE !in n.flags && !Local(n) && DF_LOCAL in c.flags ==> !Accepts(c, idx, n, now)
    ensures Local(n) ==> Accepts(c, idx, n, now)
    ensures CF_NEGATIVE !in n.flags ==>
      Cleared(c, idx, n) == if c.body.Positive? then DropSlots(c, Rivals(c, idx)) else c
  {}

  /** An allocation failed: the entry has the sets it had, and no more. */
  ghost predicate Abandoned(c0: Cent, c: Cent)
  {
    && c.body.Positive? && c.body.sets == AsPositive(c0).sets
    && c.flags - {DF_AUTH} == c0.flags - {DF_AUTH}
  }

  /** The merge of a set failed for lack of memory, after the old sets had made room. */
  ghost predicate Aborted(c0: Cent, c: Cent, i: nat, n: RRSet, now: int)
    requires i < NRRTOT && Accounted(c0)
  {
    VacatedAccounted(c0, i);
    && !Blocked(c0, i, n, now) && Accepts(Vacated(c0, i), i, n, now)
    && Abandoned(Cleared(Vacated(c0, i), i, n), c)
  }

  /** st is inside an operation on the entry under key (whose slots in `open` lack their
      node); since st0 only that entry has changed. */
  ghost predicate During(st: CacheState.State, st0: CacheState.State, key: Name, open: set<int>)
  {
    && CacheState.Working(st, key, open, 0)
    && (CacheState.Ordered(st0) ==> CacheState.Ordered(st))
    && key in st0.table && (forall k :: k != key ==> (k in st.table) == (k in st0.table))
    && (forall k :: k in st.table && k != key ==> st.table[k] == st0.table[k])
    && st.insertSort == st0.insertSort
  }

  /** A step that changes the entry under key and keeps the structures in agreement. */
  lemma DuringStep(st: CacheState.State, st': CacheState.State, st0: CacheState.State, key: Name,
                   open: set<int>, open': set<int>, c: Cent)
    requires During(st, st0, key, open) && CacheState.Working(st', key, open', 0)
    requires st'.table == st.table[key := c] && st'.insertSort == st.insertSort
    requires CacheState.Ordered(st) ==> CacheState.Ordered(st')
    ensures During(st', st0, key, open') && st'.table[key] == c
  {
    hide CacheState.Working;
    hide CacheState.Ordered;
  }

  lemma LinksHold(st: CacheState.State)
    requires CacheState.Valid(st)
    ensures CacheState.Links(st) && CacheState.TableOk(st.table)
  {}

  lemma KeyOfEntry(t: CacheState.Table, key: Name)
    requires CacheState.TableOk(t) && key in t
    ensures FoldName(t[key].qname) == key && Accounted(t[key])
  {}

  /** Everything del_cache_ent needs: it may free the entry, and the result is in order. */
  lemma DelEntReady(st: CacheState.State, key: Name)
    requires CacheState.Valid(st) && key in st.table
    ensures var st1 := st.(size := st.size - st.table[key].cs);
      && CacheState.Links(st1) && CacheState.TableOk(st.table)
      && DelEnt(st, key) == FreeEnt(st1, key).(num := st.num - 1)
    ensures CacheState.Valid(DelEnt(st, key)) && (CacheState.Ordered(st) ==> CacheState.Ordered(DelEnt(st, key)))
  {
    LinksHold(st);
    DelEntValid(st, key);
    CountersApart(st, st.(size := st.size - st.table[key].cs));
    hide CacheState.Valid;
    hide CacheState.Links;
    hide CacheState.TableOk;
    hide CacheState.Ordered;
    hide WithoutKey;
  }

  /** What purge_cent has to know about the entry once its sets are purged. */
  lemma PurgeReady(st: CacheState.State, key: Name, delete: bool, now: int)
    requires CacheState.Valid(st) && key in st.table
    ensures var c := st.table[key];
      && FoldName(c.qname) == key && PurgedItems(c, now) >= 0
      && GoesAway(c, delete, now) == CanGo(c, delete, Purged(c, now).numRRs, now)
      && CanGo(Purged(c, now), delete, Purged(c, now).numRRs, now) == CanGo(c, delete, Purged(c, now).numRRs, now)
      && StaleRefs(st.table, c, now) >= 0
  {
    var c := st.table[key];
    KeyOfEntry(st.table, key);
    PurgedItemsNonNegative(c, now);
    PurgedFields(c, now);
    hide Purged;
    hide Stale;
  }

  /** The test of purge_cent for deleting the entry. */
  predicate CanGo(c: Cent, delete: bool, numrrs: int, now: int)
  {
    delete && numrrs == 0 && (c.body.Positive? || (DF_LOCAL !in c.flags && TimedOutNX(c, now)))
  }

  lemma LookupReady(st: CacheState.State, key: Name, now: int)
    requires CacheState.Valid(st) && key in st.table
    ensures var c := st.table[key];
      && (PurgeCount(st.table, c, true, now) < 0 <==> GoesAway(c, true, now))
      && (PurgeCount(st.table, c, true, now) == 0 ==> Refreshed(st.table, c, now) == c)
      && st.table[key := c] == st.table
  {
    var c := st.table[key];
    KeyOfEntry(st.table, key);
    PurgedItemsNonNegative(c, now);
    hide CacheState.Valid;
    hide Accounted;
    hide Purged;
    hide PurgedItems;
    hide Stale;
    if PurgeCount(st.table, c, true, now) == 0 { NothingToPurge(st.table, c, true, now); }
  }

  lemma LoadStarts(st: CacheState.State)
    requires CacheState.Valid(st)
    ensures CacheState.Valid(st.(insertSort := false)) && CacheState.Ordered(st.(insertSort := false))
  {}

  lemma WorkStarts(st: CacheState.State, key: Name)
    requires CacheState.Valid(st) && key in st.table
    ensures During(st.(size := st.size - st.table[key].cs), st, key, {})
  {
    CacheState.StartWork(st, key);
    CountersApart(st, st.(size := st.size - st.table[key].cs));
    hide CacheState.Valid;
    hide CacheState.Working;
    hide CacheState.Ordered;
  }

  lemma WorkEnds(st: CacheState.State, st0: CacheState.State, key: Name)
    requires During(st, st0, key, {})
    ensures var st' := st.(size := st.size + st.table[key].cs);
      && CacheState.Valid(st') && (CacheState.Ordered(st0) ==> CacheState.Ordered(st'))
      && st.table == st0.table[key := st.table[key]] && st.insertSort == st0.insertSort
  {
    CacheState.FinishWork(st, key, 0);
    CountersApart(st, st.(size := st.size + st.table[key].cs));
    assert st.(size := st.size + st.table[key].cs, num := st.num + 0) == st.(size := st.size + st.table[key].cs);
    hide CacheState.Valid;
    hide CacheState.Working;
    hide CacheState.Ordered;
    assert key in st.table && st.table == st0.table[key := st.table[key]];
  }

  lemma DelSetDuring(st: CacheState.State, st0: CacheState.State, key: Name, open: set<int>, idx: nat)
    requires During(st, st0, key, open) && st.table[key].body.Positive? && idx in st.table[key].body.sets
    ensures var st' := CacheState.DelSet(st, key, idx);
      During(st', st0, key, open - {idx}) && st'.table[key] == DropSet(st.table[key], idx)
  {
    DelSetWorking(st, key, open, 0, idx);
    hide CacheState.Working;
    hide During;
    hide CacheState.Ordered;
    hide CacheState.Unlinked;
    DuringStep(st, CacheState.DelSet(st, key, idx), st0, key, open, open - {idx}, DropSet(st.table[key], idx));
  }

  lemma NewSetDuring(st: CacheState.State, st0: CacheState.State, key: Name, i: nat, n: RRSet)
    requires During(st, st0, key, {}) && i < NRRTOT && i !in AsPositive(st.table[key]).sets
    ensures var st' := CacheState.NewSet(st, key, i, n.ttl, n.ts, n.flags);
      During(st', st0, key, {i as int})
      && st'.table[key] == AddSet(st.table[key], i, n.ttl, n.ts, n.flags)
  {
    NewSetWorking(st, key, 0, i, n.ttl, n.ts, n.flags);
    hide CacheState.Working;
    hide During;
    hide CacheState.Ordered;
    hide CacheState.Unlinked;
    hide AddSet;
    DuringStep(st, CacheState.NewSet(st, key, i, n.ttl, n.ts, n.flags), st0, key, {}, {i as int},
               AddSet(st.table[key], i, n.ttl, n.ts, n.flags));
  }

  lemma AbandonDuring(st: CacheState.State, st0: CacheState.State, key: Name, c': Cent, i: nat)
    requires During(st, st0, key, {}) && i < NRRTOT
    requires c' == WithExt(st.table[key], i) || c' == st.table[key].(body := AsPositive(st.table[key]))
    ensures var st' := CacheState.Replaced(st, key, c', CacheState.EntryLent(st.table[key], -1));
      During(st', st0, key, {}) && st'.table[key] == c' && Abandoned(st.table[key], c')
  {
    var c := st.table[key];
    AbandonWorking(st, key, c, c', i);
    hide CacheState.Working;
    hide During;
    hide CacheState.Ordered;
    hide CacheState.Unlinked;
    hide WithExt;
    DuringStep(st, CacheState.Replaced(st, key, c', CacheState.EntryLent(c, -1)), st0, key, {}, {}, c');
  }

  lemma RecordDuring(st: CacheState.State, st0: CacheState.State, key: Name, i: nat, data: seq<byte>)
    requires During(st, st0, key, {i as int}) && st.table[key].body.Positive? && i in st.table[key].body.sets
    ensures During(CacheState.Touched(st, key, AddRR(st.table[key], i, data)), st0, key, {i as int})
  {
    RecordWorking(st, key, i, data);
    hide CacheState.Working;
    hide During;
    hide CacheState.Ordered;
    hide AddRR;
    DuringStep(st, CacheState.Touched(st, key, AddRR(st.table[key], i, data)), st0, key, {i as int}, {i as int},
               AddRR(st.table[key], i, data));
  }

  /** A change of the references and of flags other than DF_LOCAL. */
  lemma RefsDuring(st: CacheState.State, st0: CacheState.State, key: Name, c: Cent)
    requires During(st, st0, key, {})
    requires c == st.table[key].(flags := c.flags, cNs := c.cNs, cSoa := c.cSoa)
    requires (DF_LOCAL in c.flags) == (DF_LOCAL in st.table[key].flags)
    ensures During(CacheState.Touched(st, key, c), st0, key, {})
  {
    assert Accounted(c);
    assert Unlisted(st.table[key], c);
    hide Accounted;
    hide Unlisted;
    TouchedWorking(st, key, {}, 0, c);
    hide CacheState.Working;
    hide During;
    hide CacheState.Ordered;
    DuringStep(st, CacheState.Touched(st, key, c), st0, key, {}, {}, c);
  }

  lemma AdjustDuring(st: CacheState.State, st0: CacheState.State, key: Name, i: nat, s: RRSet)
    requires During(st, st0, key, {i as int}) && st.table[key].body.Positive? && i in st.table[key].body.sets
    requires var s0 := st.table[key].body.sets[i]; s.rrs == s0.rrs && s.ts == s0.ts && s.lent == s0.lent && Local(s) == Local(s0)
    ensures During(CacheState.Touched(st, key, PutSet(st.table[key], i, s)), st0, key, {i as int})
  {
    AdjustWorking(st, key, i, s);
    hide CacheState.Working;
    hide During;
    hide CacheState.Ordered;
    hide PutSet;
    DuringStep(st, CacheState.Touched(st, key, PutSet(st.table[key], i, s)), st0, key, {i as int}, {i as int},
               PutSet(st.table[key], i, s));
  }

  lemma ListDuring(st: CacheState.State, st0: CacheState.State, key: Name, i: nat)
    requires During(st, st0, key, {i as int})
    ensures var st' := CacheState.InsertRrl(st, key, i);
      During(st', st0, key, {}) && Erase(st'.table[key]) == Erase(st.table[key])
  {
    ListWorking(st, key, i);
    hide CacheState.Working;
    hide During;
    hide CacheState.Ordered;
    hide CacheState.InsertRrl;
    hide Erase;
    var st' := CacheState.InsertRrl(st, key, i);
    DuringStep(st, st', st0, key, {i as int}, {}, st'.table[key]);
  }

  lemma AbandonWorking(st: CacheState.State, key: Name, c: Cent, c': Cent, i: nat)
    requires CacheState.Working(st, key, {}, 0) && st.table[key] == c && i < NRRTOT
    requires c' == WithExt(c, i) || c' == c.(body := AsPositive(c))
    ensures CacheState.Working(CacheState.Replaced(st, key, c', CacheState.EntryLent(c, -1)), key, {}, 0)
    ensures CacheState.Ordered(st) ==> CacheState.Ordered(CacheState.Replaced(st, key, c', CacheState.EntryLent(c, -1)))
    ensures Abandoned(c, c')
  {
    assert Accounted(c);
    WithExtAccounted(c, i);
    WithExtAccounted(c, 0);
    assert Accounted(c');
    assert CacheState.Vacates(c, c', -1);
    assert CacheState.ListedExcept(c', {});
    hide Accounted;
    hide WithExt;
    hide CacheState.ListedExcept;
    hide CacheState.Vacates;
    CacheState.ReplacedLinks(st, key, c', -1);
    if CacheState.Ordered(st) { CacheState.ReplacedOrdered(st, key, c', -1); }
    hide CacheState.Links;
    hide CacheState.Ordered;
    WorkingUpdate(st, CacheState.Replaced(st, key, c', CacheState.EntryLent(c, -1)), key, c', {}, {}, 0);
  }

  lemma AddAllSnoc(c: Cent, idx: nat, rrs: seq<seq<byte>>, k: nat)
    requires c.body.Positive? && idx in c.body.sets && k < |rrs|
    ensures AddAll(c, idx, rrs[..k + 1]) == AddRR(AddAll(c, idx, rrs[..k]), idx, rrs[k])
  {
    hide AddRR;
    assert rrs[..k + 1][..k] == rrs[..k];
  }

  lemma AddAllEnds(c: Cent, idx: nat, rrs: seq<seq<byte>>)
    requires c.body.Positive? && idx in c.body.sets
    ensures AddAll(c, idx, rrs[..0]) == c && rrs[..|rrs|] == rrs
  {}

  lemma RecordWorking(st: CacheState.State, key: Name, i: nat, data: seq<byte>)
    requires CacheState.Working(st, key, {i as int}, 0) && st.table[key].body.Positive? && i in st.table[key].body.sets
    ensures CacheState.Working(CacheState.Touched(st, key, AddRR(st.table[key], i, data)), key, {i as int}, 0)
    ensures CacheState.Ordered(st) ==> CacheState.Ordered(CacheState.Touched(st, key, AddRR(st.table[key], i, data)))
  {
    var c := st.table[key];
    AddRRAccounted(c, i, data);
    assert Unlisted(c, AddRR(c, i, data));
    hide Accounted;
    hide Unlisted;
    hide AddRR;
    TouchedWorking(st, key, {i as int}, 0, AddRR(c, i, data));
  }

  lemma AdjustWorking(st: CacheState.State, key: Name, i: nat, s: RRSet)
    requires CacheState.Working(st, key, {i as int}, 0) && st.table[key].body.Positive? && i in st.table[key].body.sets
    requires var s0 := st.table[key].body.sets[i]; s.rrs == s0.rrs && s.ts == s0.ts && s.lent == s0.lent && Local(s) == Local(s0)
    ensures CacheState.Working(CacheState.Touched(st, key, PutSet(st.table[key], i, s)), key, {i as int}, 0)
    ensures CacheState.Ordered(st) ==> CacheState.Ordered(CacheState.Touched(st, key, PutSet(st.table[key], i, s)))
  {
    var c := st.table[key];
    PutSetAccounted(c, i, s);
    assert Unlisted(c, PutSet(c, i, s));
    hide Accounted;
    hide Unlisted;
    hide PutSet;
    TouchedWorking(st, key, {i as int}, 0, PutSet(c, i, s));
  }

  lemma ListWorking(st: CacheState.State, key: Name, i: nat)
    requires CacheState.Working(st, key, {i as int}, 0)
    ensures var st' := CacheState.InsertRrl(st, key, i);
      && CacheState.Working(st', key, {}, 0) && (CacheState.Ordered(st) ==> CacheState.Ordered(st'))
      && st'.insertSort == st.insertSort
      && st'.table == st.table[key := st'.table[key]] && Erase(st'.table[key]) == Erase(st.table[key])
  {
    assert {i as int} - {i as int} == {};
    InsertRrlWorking(st, key, {i as int}, 0, i);
    hide CacheState.Working;
    hide CacheState.Ordered;
    ListErases(st, key, i);
  }

  lemma ListErases(st: CacheState.State, key: Name, i: int)
    requires key in st.table
    ensures var st' := CacheState.InsertRrl(st, key, i);
      && st'.insertSort == st.insertSort
      && st'.table == st.table[key := st'.table[key]] && Erase(st'.table[key]) == Erase(st.table[key])
  {
    var c := st.table[key];
    if CacheState.Purgeable(c, i) {
      if c.body.Positive? {
        ErasePutSet(c, i, c.body.sets[i].(lent := Some(st.nextId)));
        ErasePutSet(c, i, c.body.sets[i]);
        assert c.body.sets[i := c.body.sets[i]] == c.body.sets;
      }
      hide AgeSort.InsertByAge;
    } else {
      assert st.table[key := c] == st.table;
    }
  }

  /** A set that was just added, with its records and its TTL adjusted. */
  function Filled(c0: Cent, i: nat, rrs: seq<seq<byte>>, cfg: TtlConfig): (c: Cent)
    requires c0.body.Positive? && i in c0.body.sets
  {
    var c1 := AddAll(c0, i, rrs);
    PutSet(c1, i, AdjustTtl(c1.body.sets[i], cfg))
  }

  lemma InstalledIsFilled(c: Cent, i: nat, n: RRSet, cfg: TtlConfig)
    ensures var c0 := AddSet(c, i, n.ttl, n.ts, n.flags);
      c0.body.Positive? && i in c0.body.sets && Installed(c, i, n, cfg) == Filled(c0, i, n.rrs, cfg)
  {}

  /** Only the set in slot i has changed. */
  ghost predicate HalfFilled(c0: Cent, c: Cent, i: nat)
  {
    && c0.body.Positive? && c.body.Positive? && c.body.sets.Keys == c0.body.sets.Keys && c.flags == c0.flags
    && forall j :: j in c.body.sets && j != i ==> c.body.sets[j] == c0.body.sets[j]
  }

  lemma AdjustHalf(c0: Cent, rrs: seq<seq<byte>>, i: nat, cfg: TtlConfig)
    requires Accounted(c0) && c0.body.Positive? && i in c0.body.sets
    ensures HalfFilled(c0, Filled(c0, i, rrs, cfg), i)
  {
    AddAllAccounted(c0, i, rrs);
  }

  /** Deleting the half-built set restores the sets there were. */
  lemma GivenUp(c: Cent, c0: Cent, c1: Cent, i: nat)
    requires i !in AsPositive(c).sets && c0.flags == c.flags && c0.body.Positive? && i in c0.body.sets
    requires c0.body.sets == AsPositive(c).sets[i := c0.body.sets[i]] && HalfFilled(c0, c1, i)
    ensures Abandoned(c, DropSet(c1, i))
  {
    assert DropSet(c1, i).body.sets == AsPositive(c).sets;
  }

  // ---- Nodes and entries during purge_cache

  lemma EvictedReflexive(t: CacheState.Table)
    ensures Evicted(t, t)
  {}

  /** Only purgeable slots have nodes. */
  lemma NodeIsPurgeable(st: CacheState.State, i: nat)
    requires CacheState.Valid(st) && i < |st.age|
    ensures st.age[i].key in st.table
    ensures CacheState.Purgeable(st.table[st.age[i].key], st.age[i].idx)
    ensures CacheState.EntryLent(st.table[st.age[i].key], st.age[i].idx) == Some(st.age[i].id)
  {
    assert st.age[i] in st.age;
  }

  lemma NegativeHasNoSets(st: CacheState.State, key: Name)
    requires CacheState.Valid(st) && key in st.table
    ensures st.table[key].body.Negative? ==> st.table[key].numRRs == 0
  {
    assert Accounted(st.table[key]);
  }

  /** An entry whose num_rrs is zero has no set, hence no local set, and (unless it is
      negative) no node. */
  lemma EmptyEntryNodes(st: CacheState.State, key: Name)
    requires CacheState.Valid(st) && key in st.table && st.table[key].numRRs == 0
    ensures !HasLocal(st.table[key])
    ensures st.table[key].body.Positive? ==> WithoutKey(st.age, key) == st.age
  {
    assert Accounted(st.table[key]);
    if st.table[key].body.Positive? {
      CountZero(st.table[key]);
      forall n | n in st.age ensures n.key != key {
        if n.key == key { NodeSlots(st, key, n); }
      }
      WithoutKeyNone(st.age, key);
    }
  }

  lemma {:induction false} WithoutKeyNone(age: seq<Lent>, key: Name)
    requires forall n :: n in age ==> n.key != key
    ensures WithoutKey(age, key) == age
  {
    if age != [] {
      assert age[0] in age;
      WithoutKeyNone(age[1..], key);
    }
  }

  lemma {:induction false} WithoutKeyOne(age: seq<Lent>, key: Name, i: nat)
    requires i < |age| && age[i].key == key && forall j :: 0 <= j < |age| && j != i ==> age[j].key != key
    ensures WithoutKey(age, key) == age[..i] + age[i + 1..]
  {
    if i == 0 {
      forall n | n in age[1..] ensures n.key != key {
        var j :| 0 <= j < |age[1..]| && age[1..][j] == n;
        assert n == age[j + 1];
      }
      WithoutKeyNone(age[1..], key);
    } else {
      WithoutKeyOne(age[1..], key, i - 1);
      assert age[1..][..i - 1] == age[1..i] && age[1..][i..] == age[i + 1..];
      assert [age[0]] + age[1..i] == age[..i];
    }
  }

  /** A negative entry has exactly one node. */
  lemma NegativeNode(st: CacheState.State, i: nat)
    requires CacheState.Valid(st) && i < |st.age| && st.age[i].key in st.table
    requires st.table[st.age[i].key].body.Negative?
    ensures WithoutKey(st.age, st.age[i].key) == st.age[..i] + st.age[i + 1..]
  {
    var key := st.age[i].key;
    forall j | 0 <= j < |st.age| && j != i ensures st.age[j].key != key {
      assert st.age[i] in st.age && st.age[j] in st.age;
      NodeSlots(st, key, st.age[i]);
      if st.age[j].key == key {
        NodeSlots(st, key, st.age[j]);
      }
    }
    WithoutKeyOne(st.age, key, i);
  }

  /** Sorting the list changes neither the nodes nor the links. */
  lemma SortedLinks(st: CacheState.State, st': CacheState.State)
    requires CacheState.Valid(st) && st' == st.(age := st'.age, insertSort := true)
    requires multiset(st'.age) == multiset(st.age) && AgeSort.Sorted(st'.age, CacheState.TsOf(st.table))
    ensures CacheState.Valid(st') && CacheState.Ordered(st')
  {
    forall n ensures n in st'.age <==> n in st.age {
      assert n in st'.age <==> n in multiset(st'.age);
      assert n in st.age <==> n in multiset(st.age);
    }
    DistinctPermutation(st.age, st'.age);
  }

  lemma DistinctPermutation(a: seq<Lent>, b: seq<Lent>)
    requires CacheState.DistinctIds(a) && multiset(a) == multiset(b)
    ensures CacheState.DistinctIds(b)
  {
    forall i, j | 0 <= i < j < |b| ensures b[i].id != b[j].id {
      if b[i].id == b[j].id {
        assert b[i] in multiset(a) && b[j] in multiset(a);
        CacheState.SameNode(a, b[i], b[j]);
        TwoCopies(b, i, j);
        OneCopy(a, b[i]);
      }
    }
  }

  lemma TwoCopies(b: seq<Lent>, i: nat, j: nat)
    requires i < j < |b| && b[i] == b[j]
    ensures multiset(b)[b[i]] >= 2
  {
    assert b == b[..j] + [b[j]] + b[j + 1..];
    assert b[i] in b[..j];
  }

  lemma {:induction false} OneCopy(a: seq<Lent>, n: Lent)
    requires CacheState.DistinctIds(a)
    ensures multiset(a)[n] <= 1
  {
    if a != [] {
      assert a == [a[0]] + a[1..];
      OneCopy(a[1..], n);
      if a[0] == n {
        forall m | m in a[1..] ensures m != n {
          var j :| 0 <= j < |a[1..]| && a[1..][j] == m;
          assert m == a[j + 1];
        }
        assert n !in multiset(a[1..]);
      }
    }
  }

  // ---- Counting what purge_all_rrsets deletes

  function ExpiredBelow(c: Cent, n: nat, now: int): (g: set<nat>)
    requires c.body.Positive?
  {
    set j | j in c.body.sets && j < n && Expired(c.body.sets[j], now)
  }

  /** The sets that survive. */
  function Kept(c: Cent, now: int): (s: map<nat, RRSet>)
    requires c.body.Positive?
  {
    c.body.sets - ExpiredSlots(c, now)
  }

  lemma ExpiredStep(c: Cent, i: nat, now: int)
    requires c.body.Positive? && i < NRRTOT
    ensures i !in ExpiredBelow(c, i, now)
    ensures if i in c.body.sets && Expired(c.body.sets[i], now)
      then ExpiredBelow(c, i + 1, now) == ExpiredBelow(c, i, now) + {i}
      else ExpiredBelow(c, i + 1, now) == ExpiredBelow(c, i, now)
    ensures i in Kept(c, now) <==> i in c.body.sets && !Expired(c.body.sets[i], now)
    ensures SlotsUsed(c.body.sets - ExpiredBelow(c, i + 1, now), NRRTOT) ==
      SlotsUsed(c.body.sets - ExpiredBelow(c, i, now), NRRTOT)
      - (if i in c.body.sets && Expired(c.body.sets[i], now) then 1 else 0)
  {
    var g, g' := ExpiredBelow(c, i, now), ExpiredBelow(c, i + 1, now);
    if i in c.body.sets && Expired(c.body.sets[i], now) {
      assert c.body.sets - g' == c.body.sets - g - {i};
      SlotsSizeRemove(c.body.sets - g, i, NRRTOT);
    } else {
      assert g == g';
    }
  }

  lemma {:induction false} SlotsUsedShort(s: map<nat, RRSet>, lim: nat, n: nat)
    requires lim <= n && forall i :: i in s ==> i < lim
    ensures SlotsUsed(s, n) == SlotsUsed(s, lim)
  {
    if lim < n { SlotsUsedShort(s, lim, n - 1); }
  }

  lemma KeptNone(c: Cent, now: int)
    requires c.body.Positive?
    ensures SlotsUsed(Kept(c, now), 0) == 0
  {}

  /** Purging, and the number of items it counts, in terms of the surviving sets. */
  lemma PurgedShape(c: Cent, now: int)
    requires Accounted(c) && c.body.Positive?
    ensures var c1 := DropSlots(c, ExpiredSlots(c, now));
      && c1.body.sets == Kept(c, now) && c1.body.ext == c.body.ext
      && Purged(c, now) == (if c.body.ext && !UsesExt(Kept(c, now)) then DropExt(c1) else c1)
      && Purged(c, now).numRRs == SlotsUsed(Kept(c, now), NRRTOT)
      && PurgedItems(c, now) == SlotsUsed(c.body.sets, NRRTOT) - SlotsUsed(Kept(c, now), NRRTOT)
           + (if c.body.ext && !UsesExt(Kept(c, now)) then 1 else 0)
  {}

  lemma KeptStep(c: Cent, i: nat, now: int)
    requires c.body.Positive?
    ensures SlotsUsed(Kept(c, now), i + 1) == SlotsUsed(Kept(c, now), i) + (if i in Kept(c, now) then 1 else 0)
  {}

  lemma NoneExpiredYet(c: Cent, now: int)
    requires c.body.Positive?
    ensures ExpiredBelow(c, 0, now) == {} && c.body.sets - {} == c.body.sets && DropSlots(c, {}) == c
  {
    DropSlotsNone(c, {});
  }

  lemma AllExpiredSeen(c: Cent, lim: nat, now: int)
    requires c.body.Positive? && lim <= NRRTOT && forall i :: i in c.body.sets ==> i < lim
    ensures ExpiredBelow(c, lim, now) == ExpiredSlots(c, now)
    ensures SlotsUsed(Kept(c, now), lim) == SlotsUsed(Kept(c, now), NRRTOT)
    ensures c.body.sets - ExpiredBelow(c, lim, now) == Kept(c, now)
    ensures UsesExt(Kept(c, now)) <==> exists j :: NRRMU <= j < lim && j in Kept(c, now)
  {
    assert ExpiredBelow(c, lim, now) == ExpiredSlots(c, now);
    SlotsUsedShort(Kept(c, now), lim, NRRTOT);
  }

  /** A change of the entry that leaves its nodes alone, with cache_size kept up to date. */
  lemma TouchedValid(st: CacheState.State, key: Name, c: Cent)
    requires CacheState.Valid(st) && key in st.table
    requires Accounted(c) && c.qname == st.table[key].qname && Unlisted(st.table[key], c)
    ensures CacheState.Valid(CacheState.Touched(st, key, c).(size := st.size - st.table[key].cs + c.cs))
    ensures CacheState.Ordered(st) ==> CacheState.Ordered(CacheState.Touched(st, key, c))
  {
    hide Accounted;
    hide Unlisted;
    CacheState.StartWork(st, key);
    var st1 := st.(size := st.size - st.table[key].cs);
    TouchedWorking(st1, key, {}, 0, c);
    CountersApart(st, st1);
    CountersApart(CacheState.Touched(st1, key, c), CacheState.Touched(st, key, c));
    hide CacheState.Working;
    hide CacheState.Valid;
    hide CacheState.Ordered;
    CacheState.FinishWork(CacheState.Touched(st1, key, c), key, 0);
  }

  lemma ExtFreed(st: CacheState.State, key: Name)
    requires CacheState.Valid(st) && key in st.table && st.table[key].body.Positive?
    requires st.table[key].body.ext && !UsesExt(st.table[key].body.sets)
    ensures var st' := CacheState.Touched(st, key, DropExt(st.table[key])).(size := st.size - SIZEOF_EXT);
      CacheState.Valid(st') && (CacheState.Ordered(st) ==> CacheState.Ordered(st'))
  {
    var c := st.table[key];
    assert Accounted(c);
    DropExtAccounted(c);
    assert Unlisted(c, DropExt(c));
    hide Accounted;
    hide Unlisted;
    hide CacheState.Valid;
    hide CacheState.Ordered;
    TouchedValid(st, key, DropExt(c));
    CountersApart(CacheState.Touched(st, key, DropExt(c)),
                  CacheState.Touched(st, key, DropExt(c)).(size := st.size - SIZEOF_EXT));
  }

  lemma RefsSet(st: CacheState.State, key: Name, cNs: nat, cSoa: nat)
    requires CacheState.Valid(st) && key in st.table
    ensures var st' := CacheState.Touched(st, key, st.table[key].(cNs := cNs, cSoa := cSoa));
      CacheState.Valid(st') && (CacheState.Ordered(st) ==> CacheState.Ordered(st'))
  {
    var c := st.table[key];
    var c' := c.(cNs := cNs, cSoa := cSoa);
    assert Accounted(c) && Accounted(c');
    assert Unlisted(c, c');
    hide Accounted;
    hide Unlisted;
    hide CacheState.Valid;
    hide CacheState.Ordered;
    TouchedValid(st, key, c');
    assert CacheState.Touched(st, key, c').(size := st.size - c.cs + c'.cs) == CacheState.Touched(st, key, c');
  }

  // ---- The nodes that free_cent has removed after i slots

  function NodesGone(age: seq<Lent>, key: Name, i: int): (r: seq<Lent>)
  {
    if age == [] then []
    else (if age[0].key == key && age[0].idx < i then [] else [age[0]]) + NodesGone(age[1..], key, i)
  }

  lemma {:induction false} NodesGoneNone(age: seq<Lent>, key: Name, i: int)
    requires forall n :: n in age && n.key == key ==> n.idx >= i
    ensures NodesGone(age, key, i) == age
  {
    if age != [] { NodesGoneNone(age[1..], key, i); }
  }

  lemma {:induction false} NodesGoneEvery(age: seq<Lent>, key: Name, i: int)
    requires forall n :: n in age && n.key == key ==> n.idx < i
    ensures NodesGone(age, key, i) == WithoutKey(age, key)
  {
    if age != [] {
      assert age[0] in age;
      NodesGoneEvery(age[1..], key, i);
    }
  }

  lemma NodeSlots(st: CacheState.State, key: Name, n: Lent)
    requires CacheState.Links(st) && CacheState.TableOk(st.table) && key in st.table && n in st.age && n.key == key
    ensures CacheState.EntryLent(st.table[key], n.idx) == Some(n.id)
    ensures st.table[key].body.Positive? ==> 0 <= n.idx < NRRTOT && n.idx in st.table[key].body.sets
    ensures st.table[key].body.Negative? ==> n.idx == -1
  {}

  lemma NodesGoneStart(st: CacheState.State, key: Name)
    requires CacheState.Links(st) && CacheState.TableOk(st.table) && key in st.table && st.table[key].body.Positive?
    ensures NodesGone(st.age, key, 0) == st.age
  {
    forall n | n in st.age && n.key == key ensures n.idx >= 0 { NodeSlots(st, key, n); }
    NodesGoneNone(st.age, key, 0);
  }

  lemma NodesGoneAll(st: CacheState.State, key: Name)
    requires CacheState.Links(st) && CacheState.TableOk(st.table) && key in st.table && st.table[key].body.Positive?
    ensures NodesGone(st.age, key, NRRTOT) == WithoutKey(st.age, key)
  {
    forall n | n in st.age && n.key == key ensures n.idx < NRRTOT { NodeSlots(st, key, n); }
    NodesGoneEvery(st.age, key, NRRTOT);
  }

  /** In NodesGone(age, key, i), the nodes of slot i are those with its id. */
  lemma {:induction false} NodesGoneDrop(age: seq<Lent>, key: Name, i: int, id: nat)
    requires forall n :: n in age ==> (n.id == id <==> n.key == key && n.idx == i)
    ensures CacheState.Without(NodesGone(age, key, i), id) == NodesGone(age, key, i + 1)
  {
    if age != [] {
      assert age[0] in age;
      NodesGoneDrop(age[1..], key, i, id);
      var h := if age[0].key == key && age[0].idx < i then [] else [age[0]];
      assert NodesGone(age, key, i) == h + NodesGone(age[1..], key, i);
      if h != [] {
        assert (h + NodesGone(age[1..], key, i))[1..] == NodesGone(age[1..], key, i);
      } else {
        assert h + NodesGone(age[1..], key, i) == NodesGone(age[1..], key, i);
      }
    }
  }

  lemma {:induction false} NodesGoneSame(age: seq<Lent>, key: Name, i: int)
    requires forall n :: n in age && n.key == key ==> n.idx != i
    ensures NodesGone(age, key, i) == NodesGone(age, key, i + 1)
  {
    if age != [] {
      assert age[0] in age;
      NodesGoneSame(age[1..], key, i);
    }
  }

  lemma NodesGoneStep(st: CacheState.State, key: Name, i: nat)
    requires CacheState.Links(st) && CacheState.TableOk(st.table) && key in st.table && st.table[key].body.Positive?
    ensures var sets := st.table[key].body.sets;
      NodesGone(st.age, key, i + 1) ==
      if i in sets then CacheState.Unlinked(NodesGone(st.age, key, i), sets[i].lent) else NodesGone(st.age, key, i)
  {
    var lent := CacheState.EntryLent(st.table[key], i);
    if lent.Some? {
      forall n | n in st.age ensures n.id == lent.value <==> n.key == key && n.idx == i {
        var m := CacheState.Lent(lent.value, key, i);
        assert m in st.age;
        if n.id == m.id { CacheState.SameNode(st.age, n, m); }
        if n.key == key { NodeSlots(st, key, n); }
      }
      NodesGoneDrop(st.age, key, i, lent.value);
    } else {
      forall n | n in st.age && n.key == key ensures n.idx != i { NodeSlots(st, key, n); }
      NodesGoneSame(st.age, key, i);
    }
  }

  lemma NodesGone0(st: CacheState.State, key: Name)
    requires CacheState.Links(st) && CacheState.TableOk(st.table) && key in st.table && st.table[key].body.Negative?
    ensures CacheState.Unlinked(st.age, st.table[key].body.lent) == WithoutKey(st.age, key)
  {
    var lent := st.table[key].body.lent;
    forall n | n in st.age && n.key == key ensures n.idx == -1 { NodeSlots(st, key, n); }
    NodesGoneNone(st.age, key, -1);
    NodesGoneEvery(st.age, key, 0);
    if lent.Some? {
      forall n | n in st.age ensures n.id == lent.value <==> n.key == key && n.idx == -1 {
        assert CacheState.EntryLent(st.table[key], -1) == lent;
        var m := CacheState.Lent(lent.value, key, -1);
        assert m in st.age;
        if n.id == m.id { CacheState.SameNode(st.age, n, m); }
        if n.key == key { NodeSlots(st, key, n); }
      }
      NodesGoneDrop(st.age, key, -1, lent.value);
    } else {
      forall n | n in st.age ensures n.key != key {
        if n.key == key { NodeSlots(st, key, n); }
      }
      NodesGoneSame(st.age, key, -1);
    }
  }
}
