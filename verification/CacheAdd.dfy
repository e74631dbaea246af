/** What add_cache (cache.c) does to the table of entries, age-list pointers aside. */
module CacheAdd {
  import opened Names
  import opened RRTypes
  import opened CacheEntry
  import opened CacheMerge
  import opened CacheErase
  import opened CachePurge
  import opened CacheWork
  import opened CacheLookup
  import CacheState
  import opened CacheSteps
  import AgeSort

  /** How add_cache ends. */
  datatype Outcome = Added | NothingToAdd | Refused | OutOfMemory

  /** At most the entry under key differs. */
  ghost predicate OnlyChanged(t0: CacheState.Table, t: CacheState.Table, key: Name)
  {
    key in t && t == t0[key := t[key]]
  }

  // ---- A new entry

  /** adjust_ttl for the sets in the first n slots. */
  function AdjustSets(sets: map<nat, RRSet>, n: nat, cfg: TtlConfig): (r: map<nat, RRSet>)
    ensures r.Keys == sets.Keys
  {
    map j | j in sets :: if j < n then AdjustTtl(sets[j], cfg) else sets[j]
  }

  /** adjust_dom_ttl */
  function AdjustDom(c: Cent, cfg: TtlConfig): (c': Cent)
    requires c.body.Negative?
  {
    if DF_NOCACHE in c.flags then c.(flags := c.flags - {DF_NOCACHE}, body := c.body.(ttl := 0))
    else c.(body := c.body.(ttl := ClampTtl(c.body.ttl, true, cfg)))
  }

  function AdjustedUpTo(c: Cent, n: nat, cfg: TtlConfig): (c': Cent)
  {
    match c.body
    case Negative(_, _, _) => AdjustDom(c, cfg)
    case Positive(sets, _) => c.(body := c.body.(sets := AdjustSets(sets, n, cfg)))
  }

  /** The new entry as it is filed. */
  function Adjusted(c: Cent, cfg: TtlConfig): (c': Cent) { AdjustedUpTo(c, NRRTOT, cfg) }

  /** One more set adjusted. */
  lemma AdjustedStep(c: Cent, n: nat, cfg: TtlConfig)
    requires c.body.Positive?
    ensures AdjustedUpTo(c, n + 1, cfg) == if n in c.body.sets
      then PutSet(AdjustedUpTo(c, n, cfg), n, AdjustTtl(c.body.sets[n], cfg)) else AdjustedUpTo(c, n, cfg)
    ensures n in c.body.sets ==> AdjustedUpTo(c, n, cfg).body.sets[n] == c.body.sets[n]
  {
    var a, b := AdjustSets(c.body.sets, n, cfg), AdjustSets(c.body.sets, n + 1, cfg);
    if n in c.body.sets {
      assert b == a[n := AdjustTtl(c.body.sets[n], cfg)];
    } else {
      assert a == b;
    }
  }

  lemma AdjustedEnds(c: Cent, lim: nat, cfg: TtlConfig)
    requires c.body.Positive? && lim <= NRRTOT && forall i :: i in c.body.sets ==> i < lim
    ensures AdjustedUpTo(c, 0, cfg) == c && AdjustedUpTo(c, lim, cfg) == Adjusted(c, cfg)
  {
    assert AdjustSets(c.body.sets, 0, cfg) == c.body.sets;
    assert AdjustSets(c.body.sets, lim, cfg) == AdjustSets(c.body.sets, NRRTOT, cfg);
  }

  lemma AdjustedConflictFree(c: Cent, cfg: TtlConfig)
    requires Shaped(c)
    ensures Shaped(Adjusted(c, cfg)) && ConflictFree(Adjusted(c, cfg)) == ConflictFree(c)
  {
    if c.body.Positive? {
      var a := Adjusted(c, cfg);
      assert forall i :: i in c.body.sets ==> IsPositiveSet(a.body.sets[i]) == IsPositiveSet(c.body.sets[i]);
      hide Conflict;
      hide IsPositiveSet;
      if ConflictFree(a) {
        forall i, j | i in c.body.sets && j in c.body.sets
            && IsPositiveSet(c.body.sets[i]) && IsPositiveSet(c.body.sets[j])
          ensures !Conflict(i, j)
        {
          assert i in a.body.sets && j in a.body.sets;
        }
      }
    }
  }

  // ---- Filing a new entry

  /** The occupied slots from n on, which have no nodes yet. */
  function OpenFrom(c: Cent, n: nat): (s: set<int>)
  {
    if c.body.Negative? then {-1} else set i | i in c.body.sets && i >= n
  }

  /** The entry under key is being filed; it is not in ent_num and cache_size yet, and its
      slots in `open` lack their nodes. The rest is as in st0. */
  ghost predicate Filing(st: CacheState.State, st0: CacheState.State, key: Name, open: set<int>)
  {
    && CacheState.Working(st, key, open, 1)
    && (CacheState.Ordered(st0) ==> CacheState.Ordered(st))
    && st.table - {key} == st0.table && st.insertSort == st0.insertSort
  }

  lemma StartFiling(st: CacheState.State, key: Name, c: Cent)
    requires CacheState.Valid(st) && key !in st.table && Accounted(c) && FoldName(c.qname) == key && Erase(c) == c
    ensures Filing(CacheState.Touched(st, key, c), st, key, OpenFrom(c, 0))
  {
    hide CacheState.Links;
    hide CacheState.Ordered;
    hide CacheState.ListedExcept;
    hide CacheState.EntryListed;
    hide CacheState.EntryLent;
    hide Accounted;
    hide CacheState.SumCs;
    hide Erase;
    hide FoldName;
    hide OpenFrom;
    var st' := CacheState.Touched(st, key, c);
    NoNodes(c);
    CacheState.FiledLinks(st, key, c);
    TableOkUpdate(st.table, key, c);
    CacheState.SumCsUpdate(st.table, key, c);
    assert st'.table - {key} == st.table;
    OneLess(st'.table, key);
  }

  lemma NoNodes(c: Cent)
    requires Accounted(c) && Erase(c) == c
    ensures forall i :: CacheState.EntryLent(c, i) == None
    ensures CacheState.ListedExcept(c, OpenFrom(c, 0))
  {
    forall i ensures CacheState.EntryLent(c, i) == None {
      if c.body.Positive? && i >= 0 && i in c.body.sets {
        assert EraseSets(c.body.sets)[i].lent == None;
      }
    }
  }

  /** The entry under key changes; nothing else does. */
  lemma FilingStep(st: CacheState.State, st': CacheState.State, st0: CacheState.State, key: Name,
                   open: set<int>, open': set<int>)
    requires Filing(st, st0, key, open) && CacheState.Working(st', key, open', 1)
    requires st'.table == st.table[key := st'.table[key]] && st'.insertSort == st.insertSort
    requires CacheState.Ordered(st) ==> CacheState.Ordered(st')
    ensures Filing(st', st0, key, open')
  {
    hide CacheState.Working;
    hide CacheState.Ordered;
    assert st'.table - {key} == st.table - {key};
  }

  /** adjust_ttl on one of its sets. */
  lemma AdjustFiling(st: CacheState.State, st0: CacheState.State, key: Name, open: set<int>, i: nat, cfg: TtlConfig)
    requires Filing(st, st0, key, open) && st.table[key].body.Positive? && i in st.table[key].body.sets && i in open
    ensures var c := st.table[key];
      Filing(CacheState.Touched(st, key, PutSet(c, i, AdjustTtl(c.body.sets[i], cfg))), st0, key, open)
  {
    var c := st.table[key];
    var s := AdjustTtl(c.body.sets[i], cfg);
    PutSetAccounted(c, i, s);
    assert CacheState.EntryLent(c, i) == None;
    assert Unlisted(c, PutSet(c, i, s));
    hide Accounted;
    hide Unlisted;
    hide PutSet;
    hide AdjustTtl;
    TouchedWorking(st, key, open, 1, PutSet(c, i, s));
    hide CacheState.Working;
    hide CacheState.Ordered;
    FilingStep(st, CacheState.Touched(st, key, PutSet(c, i, s)), st0, key, open, open);
  }

  /** adjust_dom_ttl on a negative entry. */
  lemma AdjustDomFiling(st: CacheState.State, st0: CacheState.State, key: Name, cfg: TtlConfig)
    requires Filing(st, st0, key, {-1}) && st.table[key].body.Negative?
    ensures Filing(CacheState.Touched(st, key, AdjustDom(st.table[key], cfg)), st0, key, {-1})
  {
    var c := st.table[key];
    var c' := AdjustDom(c, cfg);
    assert Accounted(c');
    assert Unlisted(c, c');
    hide Accounted;
    hide Unlisted;
    hide AdjustDom;
    TouchedWorking(st, key, {-1}, 1, c');
    hide CacheState.Working;
    hide CacheState.Ordered;
    FilingStep(st, CacheState.Touched(st, key, c'), st0, key, {-1}, {-1});
  }

  /** insert_rrl for one of its slots. */
  lemma ListFiling(st: CacheState.State, st0: CacheState.State, key: Name, open: set<int>, i: int)
    requires Filing(st, st0, key, open) && i in open
    ensures var st' := CacheState.InsertRrl(st, key, i);
      Filing(st', st0, key, open - {i}) && Erase(st'.table[key]) == Erase(st.table[key])
  {
    InsertRrlWorking(st, key, open, 1, i);
    ListErases(st, key, i);
    hide CacheState.Working;
    hide CacheState.Ordered;
    hide CacheState.InsertRrl;
    hide Erase;
    FilingStep(st, CacheState.InsertRrl(st, key, i), st0, key, open, open - {i});
  }

  lemma OpenStep(c: Cent, n: nat)
    requires c.body.Positive?
    ensures OpenFrom(c, n + 1) == if n in c.body.sets then OpenFrom(c, n) - {n as int} else OpenFrom(c, n)
  {}

  lemma OpenEnds(c: Cent, lim: nat)
    requires c.body.Positive? && forall i :: i in c.body.sets ==> i < lim
    ensures OpenFrom(c, lim) == {}
  {}

  lemma EraseTwice(c: Cent)
    ensures Erase(Erase(c)) == Erase(c) && Erase(c).qname == c.qname && Erase(c).body.Positive? == c.body.Positive?
    ensures c.body.Negative? ==> OpenFrom(Erase(c), 0) == {-1}
  {
    if c.body.Positive? { assert EraseSets(EraseSets(c.body.sets)) == EraseSets(c.body.sets); }
  }

  lemma AdjustedKeys(c0: Cent, c: Cent, n: nat, cfg: TtlConfig)
    requires c0.body.Positive? && Erase(c) == AdjustedUpTo(c0, n, cfg)
    ensures c.body.Positive? && c.body.sets.Keys == c0.body.sets.Keys
  {}

  /** adjust_ttl does not look at the pointers. */
  lemma EraseAdjust(c: Cent, i: nat, cfg: TtlConfig)
    requires c.body.Positive? && i in c.body.sets
    ensures i in Erase(c).body.sets
    ensures Erase(PutSet(c, i, AdjustTtl(c.body.sets[i], cfg))) == PutSet(Erase(c), i, AdjustTtl(Erase(c).body.sets[i], cfg))
  {
    ErasePutSet(c, i, AdjustTtl(c.body.sets[i], cfg));
  }

  lemma FileLimits(c: Cent, cfg: TtlConfig)
    requires c.body.Positive? && Shaped(c)
    ensures var ilim, c0 := (if c.body.ext then NRRTOT else NRRMU), Erase(c);
      && c0.body.Positive? && c0.body.sets.Keys == c.body.sets.Keys
      && AdjustedUpTo(c0, 0, cfg) == c0 && AdjustedUpTo(c0, ilim, cfg) == Adjusted(c0, cfg) && OpenFrom(c0, ilim) == {}
  {
    AdjustedEnds(Erase(c), if c.body.ext then NRRTOT else NRRMU, cfg);
    OpenEnds(Erase(c), if c.body.ext then NRRTOT else NRRMU);
  }

  /** One round of the loop over the sets of a new entry. */
  lemma FileStep(c0: Cent, c: Cent, i: nat, cfg: TtlConfig)
    requires c0.body.Positive? && Erase(c) == AdjustedUpTo(c0, i, cfg)
    ensures c.body.Positive? && c.body.sets.Keys == c0.body.sets.Keys
    ensures i in c0.body.sets ==> i in OpenFrom(c0, i) && OpenFrom(c0, i + 1) == OpenFrom(c0, i) - {i as int}
    ensures i in c0.body.sets ==> Erase(PutSet(c, i, AdjustTtl(c.body.sets[i], cfg))) == AdjustedUpTo(c0, i + 1, cfg)
    ensures i !in c0.body.sets ==> OpenFrom(c0, i + 1) == OpenFrom(c0, i) && AdjustedUpTo(c0, i + 1, cfg) == Erase(c)
  {
    OpenStep(c0, i);
    AdjustedStep(c0, i, cfg);
    AdjustedKeys(c0, c, i, cfg);
    if i in c0.body.sets { EraseAdjust(c, i, cfg); }
    hide AdjustedUpTo;
    hide Erase;
    hide AdjustTtl;
  }

  lemma FilingKey(st: CacheState.State, st0: CacheState.State, key: Name, open: set<int>)
    requires Filing(st, st0, key, open)
    ensures key in st.table && CacheState.Links(st) && CacheState.TableOk(st.table) && Accounted(st.table[key])
  {}

  lemma FilingDone(st: CacheState.State, st0: CacheState.State, key: Name)
    requires Filing(st, st0, key, {})
    ensures var st' := st.(size := st.size + st.table[key].cs, num := st.num + 1);
      && CacheState.Valid(st') && (CacheState.Ordered(st0) ==> CacheState.Ordered(st'))
      && OnlyChanged(st0.table, st.table, key) && st.insertSort == st0.insertSort
  {
    CacheState.FinishWork(st, key, 1);
    CountersApart(st, st.(size := st.size + st.table[key].cs, num := st.num + 1));
    assert st.table == st0.table[key := st.table[key]];
  }

  lemma FilingAborts(st: CacheState.State, st0: CacheState.State, key: Name, open: set<int>)
    requires Filing(st, st0, key, open)
    ensures var st' := FreeEnt(st, key);
      && CacheState.Valid(st') && (CacheState.Ordered(st0) ==> CacheState.Ordered(st'))
      && st'.table == st0.table && st.insertSort == st0.insertSort
  {
    FreeEntAborts(st, key, open);
  }

  // ---- Merging into an existing entry

  /** The reference with the longer (more specific) owner wins. */
  function BetterRef(old_: nat, new_: nat): (r: nat)
  {
    if new_ != CUNDEF && (old_ == CUNDEF || old_ < new_) then new_ else old_
  }

  /** The entry that the merge starts from: purged, stale references reset. */
  function Ground(t: CacheState.Table, c: Cent, now: int): (c': Cent)
    requires Accounted(c)
    ensures Accounted(c') && c'.qname == c.qname
  {
    RefreshedAccounted(t, c, now);
    EraseAccounted(Refreshed(t, c, now));
    Erase(Refreshed(t, c, now))
  }

  function WithRefs(m: Cent, cent: Cent): (c: Cent)
  {
    m.(flags := m.flags + cent.flags * {DF_AUTH, DF_WILD},
       cNs := BetterRef(m.cNs, cent.cNs), cSoa := BetterRef(m.cSoa, cent.cSoa))
  }

  function MergeInto(t: CacheState.Table, c: Cent, cent: Cent, now: int, cfg: TtlConfig): (c': Cent)
    requires Accounted(c) && cent.body.Positive?
  {
    WithRefs(MergeUpTo(Ground(t, c, now), cent, NRRTOT, now, cfg), cent)
  }

  /** Memory ran out in the middle of the merge: the slots below some k are merged, and the
      sets in the way of slot k are gone. */
  ghost predicate PartMerged(c0: Cent, c: Cent, cent: Cent, now: int, cfg: TtlConfig)
    requires Accounted(c0) && cent.body.Positive?
  {
    exists k: nat :: k < NRRTOT && k in cent.body.sets
      && Aborted(MergeUpTo(c0, cent, k, now, cfg), c, k, cent.body.sets[k], now)
  }

  lemma {:induction false} MergeUpToShort(c: Cent, cent: Cent, lim: nat, n: nat, now: int, cfg: TtlConfig)
    requires lim <= n <= NRRTOT && Accounted(c) && cent.body.Positive? && forall i :: i in cent.body.sets ==> i < lim
    ensures MergeUpTo(c, cent, n, now, cfg) == MergeUpTo(c, cent, lim, now, cfg)
  {
    hide Accounted;
    hide MergeSlot;
    if lim < n { MergeUpToShort(c, cent, lim, n - 1, now, cfg); }
  }

  lemma MergeNone(c: Cent, cent: Cent, now: int, cfg: TtlConfig)
    requires Accounted(c) && cent.body.Positive? && Shaped(cent)
    ensures MergeUpTo(c, cent, 0, now, cfg) == c
    ensures forall i :: i in cent.body.sets ==> i < (if cent.body.ext then NRRTOT else NRRMU)
  {}

  /** purge_cent does not delete the entry here. */
  lemma GroundParts(t: CacheState.Table, c: Cent, now: int)
    requires Accounted(c)
    ensures Ground(t, c, now) == Erase(Refreshed(t, c, now))
    ensures PurgeCount(t, c, false, now) >= 0
  {
    PurgedItemsNonNegative(c, now);
  }

  lemma WithRefsErased(m: Cent, cent: Cent)
    ensures Erase(WithRefs(m, cent)) == WithRefs(Erase(m), cent)
  {}

  /** One more round, in terms of the entry with its pointers. */
  lemma MergeStep(c0: Cent, c: Cent, c': Cent, cent: Cent, k: nat, now: int, cfg: TtlConfig)
    requires k < NRRTOT && Accounted(c0) && Accounted(c) && cent.body.Positive?
    requires Erase(c) == MergeUpTo(c0, cent, k, now, cfg)
    requires if k in cent.body.sets then Erase(c') == Erase(MergeSlot(c, k, cent.body.sets[k], now, cfg)) else c' == c
    ensures Erase(c') == MergeUpTo(c0, cent, k + 1, now, cfg)
  {
    if k in cent.body.sets { EraseMergeSlot(c, k, cent.body.sets[k], now, cfg); }
    hide MergeSlot;
    hide Erase;
    hide Accounted;
  }

  lemma EraseAborted(c0: Cent, c: Cent, i: nat, n: RRSet, now: int)
    requires i < NRRTOT && Accounted(c0) && Aborted(c0, c, i, n, now)
    ensures Accounted(Erase(c0)) && Aborted(Erase(c0), Erase(c), i, n, now)
  {
    EraseAccounted(c0);
    EraseBlocked(c0, i, n, now);
    EraseVacated(c0, i);
    VacatedAccounted(c0, i);
    VacatedAccounted(Erase(c0), i);
    EraseAccepts(Vacated(c0, i), i, n, now);
    EraseCleared(Vacated(c0, i), i, n);
    EraseAbandoned(Cleared(Vacated(c0, i), i, n), c);
    hide Abandoned;
    hide TrueSize;
    hide TrueCount;
    hide Erase;
    hide Blocked;
    hide Vacated;
    hide Accepts;
    hide Cleared;
  }

  lemma EraseAbandoned(c0: Cent, c: Cent)
    requires Abandoned(c0, c)
    ensures Abandoned(Erase(c0), Erase(c))
  {}

  lemma AbortStep(c0: Cent, c: Cent, c': Cent, cent: Cent, k: nat, now: int, cfg: TtlConfig)
    requires k < NRRTOT && Accounted(c0) && Accounted(c) && cent.body.Positive? && k in cent.body.sets
    requires Erase(c) == MergeUpTo(c0, cent, k, now, cfg) && Aborted(c, c', k, cent.body.sets[k], now)
    ensures PartMerged(c0, Erase(c'), cent, now, cfg)
  {
    EraseAborted(c, c', k, cent.body.sets[k], now);
    hide Accounted;
    hide Erase;
    hide Aborted;
    hide MergeUpTo;
  }

  // ---- The table

  /** What add_cache has made of the table before it purges: `filed` differs from t0 at most
      in the entry under the new entry's name. */
  ghost predicate AddSpec(o: Outcome, t0: CacheState.Table, filed: CacheState.Table, cent: Cent, now: int, cfg: TtlConfig)
    requires CacheState.TableOk(t0)
  {
    var key := FoldName(cent.qname);
    match o
    case NothingToAdd => filed == t0 && key !in t0 && cent.body.Positive? && cent.numRRs == 0
    case Refused => filed == t0 && cent.body.Negative? && key in t0 && HasLocal(t0[key])
    case Added =>
      && OnlyChanged(t0, filed, key)
      && (if cent.body.Negative? || key !in t0
          then Erase(filed[key]) == Adjusted(Erase(cent), cfg) && (key in t0 ==> !HasLocal(t0[key]))
          else Erase(filed[key]) == MergeInto(t0, t0[key], cent, now, cfg))
    case OutOfMemory =>
      if cent.body.Negative? || key !in t0
      then filed == t0 - {key} && (key in t0 ==> !HasLocal(t0[key]))
      else OnlyChanged(t0, filed, key) && PartMerged(Ground(t0, t0[key], now), Erase(filed[key]), cent, now, cfg)
  }

  /** Every local set is still there, unchanged. */
  ghost predicate LocalSafe(t0: CacheState.Table, t: CacheState.Table)
  {
    forall k :: k in t0 && HasLocal(t0[k]) ==> k in t && KeepsLocal(t0[k], t[k])
  }

  ghost predicate AllConflictFree(t: CacheState.Table)
  {
    forall k :: k in t ==> Shaped(t[k]) && ConflictFree(t[k])
  }

  /** The four ways to meet AddSpec. */
  lemma AddSpecMerge(o: Outcome, t0: CacheState.Table, t: CacheState.Table, cent: Cent, now: int, cfg: TtlConfig)
    requires CacheState.TableOk(t0) && FoldName(cent.qname) in t0 && cent.body.Positive?
    requires OnlyChanged(t0, t, FoldName(cent.qname)) && (o.Added? || o.OutOfMemory?)
    requires o.Added? ==> Erase(t[FoldName(cent.qname)]) == MergeInto(t0, t0[FoldName(cent.qname)], cent, now, cfg)
    requires o.OutOfMemory? ==>
      PartMerged(Ground(t0, t0[FoldName(cent.qname)], now), Erase(t[FoldName(cent.qname)]), cent, now, cfg)
    ensures AddSpec(o, t0, t, cent, now, cfg)
  {}

  lemma AddSpecNew(o: Outcome, t0: CacheState.Table, t: CacheState.Table, cent: Cent, now: int, cfg: TtlConfig)
    requires CacheState.TableOk(t0) && (cent.body.Positive? ==> FoldName(cent.qname) !in t0)
    requires FoldName(cent.qname) in t0 ==> !HasLocal(t0[FoldName(cent.qname)])
    requires o.Added? || o.OutOfMemory?
    requires o.Added? ==> OnlyChanged(t0 - {FoldName(cent.qname)}, t, FoldName(cent.qname))
    requires o.Added? ==> Erase(t[FoldName(cent.qname)]) == Adjusted(Erase(cent), cfg)
    requires o.OutOfMemory? ==> t == t0 - {FoldName(cent.qname)}
    ensures AddSpec(o, t0, t, cent, now, cfg)
  {
    if o.Added? { OnlyDeletedThenSet(t0, t, FoldName(cent.qname)); }
  }

  lemma AddSpecNothing(o: Outcome, t0: CacheState.Table, cent: Cent, now: int, cfg: TtlConfig)
    requires CacheState.TableOk(t0)
    requires o.NothingToAdd? || o.Refused?
    requires o.NothingToAdd? ==> FoldName(cent.qname) !in t0 && cent.body.Positive? && cent.numRRs == 0
    requires o.Refused? ==> FoldName(cent.qname) in t0 && cent.body.Negative? && HasLocal(t0[FoldName(cent.qname)])
    ensures AddSpec(o, t0, t0, cent, now, cfg)
  {}

  lemma OnlyDeletedThenSet(t0: CacheState.Table, t: CacheState.Table, key: Name)
    requires OnlyChanged(t0 - {key}, t, key)
    ensures OnlyChanged(t0, t, key)
  {
    assert t0[key := t[key]] == (t0 - {key})[key := t[key]];
  }

  // ---- Local sets survive

  lemma KeepsLocalTrans(a: Cent, b: Cent, c: Cent)
    requires KeepsLocal(a, b) && KeepsLocal(b, c)
    ensures KeepsLocal(a, c)
  {}

  lemma RefreshedKeepsLocal(t: CacheState.Table, c: Cent, now: int)
    ensures KeepsLocal(c, Refreshed(t, c, now))
  {
    RefreshedPurged(t, c, now);
    if c.body.Positive? {
      forall i | i in c.body.sets && Local(c.body.sets[i])
        ensures i in Purged(c, now).body.sets && Purged(c, now).body.sets[i] == c.body.sets[i]
      {
        PurgedSets(c, now, i);
      }
    }
    hide Purged;
  }

  lemma EraseKeepsLocal(a: Cent, b: Cent)
    requires KeepsLocal(a, b)
    ensures KeepsLocal(Erase(a), Erase(b))
  {}

  /** Local sets are not on the age list, so nothing about them is erased. */
  lemma UneraseKeepsLocal(a: Cent, b: Cent)
    requires CacheState.EntryListed(a) && CacheState.EntryListed(b) && KeepsLocal(Erase(a), Erase(b))
    ensures KeepsLocal(a, b)
  {
    if a.body.Positive? {
      forall i | i in a.body.sets && Local(a.body.sets[i])
        ensures b.body.Positive? && i in b.body.sets && b.body.sets[i] == a.body.sets[i]
      {
        var s := Erase(a).body.sets[i];
        assert i in EraseSets(a.body.sets) && Local(s);
        assert CacheState.EntryLent(a, i) == None;
        assert CacheState.EntryLent(b, i) == None;
        assert Erase(b).body.sets[i] == s;
      }
    }
  }

  /** Running out of memory loses no local set either. */
  lemma AbortedKeepsLocal(c0: Cent, c: Cent, i: nat, n: RRSet, now: int)
    requires i < NRRTOT && Accounted(c0) && !Local(n) && Aborted(c0, c, i, n, now)
    ensures KeepsLocal(c0, c)
  {
    hide TrueSize;
    hide TrueCount;
    VacatedAccounted(c0, i);
    var v := Vacated(c0, i);
    assert KeepsLocal(c0, v);
    assert KeepsLocal(v, Cleared(v, i, n)) by { hide Vacated; hide Blocked; }
    hide Vacated;
    hide Cleared;
    hide Accepts;
    hide Blocked;
    KeepsLocalTrans(c0, v, Cleared(v, i, n));
  }

  lemma PartMergedKeepsLocal(c0: Cent, c: Cent, cent: Cent, now: int, cfg: TtlConfig)
    requires Accounted(c0) && cent.body.Positive? && NoLocalSets(cent) && PartMerged(c0, c, cent, now, cfg)
    ensures KeepsLocal(c0, c)
  {
    hide Accounted;
    hide Aborted;
    hide MergeUpTo;
    hide KeepsLocal;
    var k: nat :| k < NRRTOT && k in cent.body.sets
      && Aborted(MergeUpTo(c0, cent, k, now, cfg), c, k, cent.body.sets[k], now);
    MergeKeepsLocal(c0, cent, k, now, cfg);
    AbortedKeepsLocal(MergeUpTo(c0, cent, k, now, cfg), c, k, cent.body.sets[k], now);
    KeepsLocalTrans(c0, MergeUpTo(c0, cent, k, now, cfg), c);
  }

  lemma GroundKeepsLocal(t: CacheState.Table, c: Cent, now: int)
    requires Accounted(c)
    ensures KeepsLocal(Erase(c), Ground(t, c, now))
  {
    hide KeepsLocal;
    hide Refreshed;
    RefreshedKeepsLocal(t, c, now);
    EraseKeepsLocal(c, Refreshed(t, c, now));
  }

  lemma MergedKeepsLocal(t: CacheState.Table, c: Cent, c': Cent, cent: Cent, now: int, cfg: TtlConfig)
    requires Accounted(c) && cent.body.Positive? && NoLocalSets(cent)
    requires Erase(c') == MergeInto(t, c, cent, now, cfg) || PartMerged(Ground(t, c, now), Erase(c'), cent, now, cfg)
    requires CacheState.EntryListed(c) && CacheState.EntryListed(c')
    ensures KeepsLocal(c, c')
  {
    var g := Ground(t, c, now);
    GroundKeepsLocal(t, c, now);
    assert KeepsLocal(g, Erase(c')) by {
      hide Ground;
      if PartMerged(g, Erase(c'), cent, now, cfg) {
        PartMergedKeepsLocal(g, Erase(c'), cent, now, cfg);
      } else {
        MergeKeepsLocal(g, cent, NRRTOT, now, cfg);
        hide MergeUpTo;
        hide Accounted;
      }
    }
    hide *;
    KeepsLocalTrans(Erase(c), g, Erase(c'));
    UneraseKeepsLocal(c, c');
  }

  /** Adding an entry without local sets never removes or changes a local set, whatever the
      outcome. */
  lemma AddKeepsLocal(o: Outcome, t0: CacheState.Table, t: CacheState.Table, cent: Cent, now: int, cfg: TtlConfig)
    requires CacheState.TableOk(t0) && CacheState.AllListed(t0) && CacheState.AllListed(t)
    requires NoLocalSets(cent) && AddSpec(o, t0, t, cent, now, cfg)
    ensures LocalSafe(t0, t)
  {
    hide CacheState.EntryListed;
    hide MergeInto;
    hide PartMerged;
    hide Ground;
    hide Erase;
    hide Adjusted;
    hide FoldName;
    hide Accounted;
    var key := FoldName(cent.qname);
    if cent.body.Positive? && key in t0 && (o.Added? || o.OutOfMemory?) {
      MergedKeepsLocal(t0, t0[key], t[key], cent, now, cfg);
    }
  }

  // ---- Local entries (DF_LOCAL), which are not protected as local sets are

  lemma MergeKeepsLocalFlag(c: Cent, cent: Cent, now: int, cfg: TtlConfig)
    requires Accounted(c) && cent.body.Positive?
    ensures (DF_LOCAL in MergeUpTo(c, cent, NRRTOT, now, cfg).flags) == (DF_LOCAL in c.flags)
  {
    hide Accounted;
    hide MergeUpTo;
    MergeIdem(c, cent, NRRTOT, now, cfg, NRRTOT - 1);
  }

  /** Adding an entry that is not local turns a local entry into one that is not, exactly when
      the new entry is negative. */
  lemma LocalEntryReplaced(t0: CacheState.Table, t: CacheState.Table, cent: Cent, now: int, cfg: TtlConfig)
    requires CacheState.TableOk(t0) && AddSpec(Added, t0, t, cent, now, cfg)
    requires FoldName(cent.qname) in t0 && DF_LOCAL in t0[FoldName(cent.qname)].flags && DF_LOCAL !in cent.flags
    ensures DF_LOCAL in t[FoldName(cent.qname)].flags <==> cent.body.Positive?
  {
    var key := FoldName(cent.qname);
    hide FoldName;
    hide Accounted;
    if cent.body.Positive? {
      GroundFlags(t0, t0[key], now);
      MergeKeepsLocalFlag(Ground(t0, t0[key], now), cent, now, cfg);
      hide MergeUpTo;
      hide Ground;
      assert DF_LOCAL in Erase(t[key]).flags;
    } else {
      assert DF_LOCAL !in Erase(t[key]).flags;
    }
  }

  lemma GroundFlags(t: CacheState.Table, c: Cent, now: int)
    requires Accounted(c)
    ensures (DF_LOCAL in Ground(t, c, now).flags) == (DF_LOCAL in c.flags)
    ensures Ground(t, c, now).body.Negative? == c.body.Negative?
  {
    RefreshedPurged(t, c, now);
    PurgedFields(c, now);
    PurgedAccounted(c, now);
    hide Purged;
  }

  /** Sets that a local entry takes from an entry that is merged into it. */
  predicate Intrudes(n: RRSet) { CF_NEGATIVE in n.flags || Local(n) }

  lemma {:induction false} MergeIntoLocalNegative(c: Cent, cent: Cent, k: nat, now: int, cfg: TtlConfig)
    requires k <= NRRTOT && Accounted(c) && cent.body.Positive? && c.body.Negative? && DF_LOCAL in c.flags
    ensures MergeUpTo(c, cent, k, now, cfg).body.Negative? <==> forall i :: i in cent.body.sets && i < k ==> !Intrudes(cent.body.sets[i])
    ensures DF_LOCAL in MergeUpTo(c, cent, k, now, cfg).flags
  {
    hide Accounted;
    hide MergeSlot;
    if k > 0 {
      MergeIntoLocalNegative(c, cent, k - 1, now, cfg);
      var c1 := MergeUpTo(c, cent, k - 1, now, cfg);
      if k - 1 in cent.body.sets { MergeOneIntoLocal(c1, k - 1, cent.body.sets[k - 1], now, cfg); }
    }
  }

  lemma MergeOneIntoLocal(c: Cent, i: nat, n: RRSet, now: int, cfg: TtlConfig)
    requires i < NRRTOT && Accounted(c) && DF_LOCAL in c.flags
    ensures DF_LOCAL in MergeSlot(c, i, n, now, cfg).flags
    ensures MergeSlot(c, i, n, now, cfg).body.Negative? <==> c.body.Negative? && !Intrudes(n)
  {
    MergeSlotSets(c, i, n, now, cfg);
    MergeSlotFlags(c, i, n, now, cfg);
    VacatedAccounted(c, i);
    hide MergeSlot;
    hide TrueSize;
    hide TrueCount;
  }

  lemma MergeSlotFlags(c: Cent, i: nat, n: RRSet, now: int, cfg: TtlConfig)
    requires i < NRRTOT && Accounted(c)
    ensures (DF_LOCAL in MergeSlot(c, i, n, now, cfg).flags) == (DF_LOCAL in c.flags)
  {
    MergeSlotIdem(c, i, n, now, cfg, NRRTOT - 1);
    hide MergeSlot;
    hide Accounted;
  }

  /** A local negative entry stays negative exactly when the new entry has no local and no
      negatively cached sets. */
  lemma LocalNegativeOverridden(t0: CacheState.Table, t: CacheState.Table, cent: Cent, now: int, cfg: TtlConfig)
    requires CacheState.TableOk(t0) && AddSpec(Added, t0, t, cent, now, cfg) && Shaped(cent) && cent.body.Positive?
    requires FoldName(cent.qname) in t0
    requires t0[FoldName(cent.qname)].body.Negative? && DF_LOCAL in t0[FoldName(cent.qname)].flags
    ensures t[FoldName(cent.qname)].body.Negative? <==> forall i :: i in cent.body.sets ==> !Intrudes(cent.body.sets[i])
  {
    var key := FoldName(cent.qname);
    hide FoldName;
    hide Accounted;
    GroundFlags(t0, t0[key], now);
    hide Ground;
    MergeIntoLocalNegative(Ground(t0, t0[key], now), cent, NRRTOT, now, cfg);
    hide MergeUpTo;
    assert Erase(t[key]).body.Negative? == t[key].body.Negative?;
    hide Erase;
  }

  // ---- Conflicts

  /** Fewer sets, fewer conflicts. */
  lemma FewerConflicts(c0: Cent, c: Cent)
    requires Shaped(c0) && ConflictFree(c0) && Shaped(c)
    requires c.body.Positive? ==>
      c0.body.Positive? && forall i :: i in c.body.sets ==> i in c0.body.sets && c.body.sets[i] == c0.body.sets[i]
    ensures ConflictFree(c)
  {}

  lemma GroundConflictFree(t: CacheState.Table, c: Cent, now: int)
    requires Accounted(c) && ConflictFree(c)
    ensures ConflictFree(Ground(t, c, now))
  {
    RefreshedPurged(t, c, now);
    RefreshedAccounted(t, c, now);
    var r := Refreshed(t, c, now);
    if c.body.Positive? {
      forall i | i in r.body.sets ensures i in c.body.sets && r.body.sets[i] == c.body.sets[i] { PurgedSets(c, now, i); }
    }
    hide ConflictFree;
    hide TrueSize;
    hide TrueCount;
    hide Purged;
    hide Refreshed;
    FewerConflicts(c, r);
    EraseConflictFree(r);
  }

  lemma AbortedConflictFree(c0: Cent, c: Cent, i: nat, n: RRSet, now: int)
    requires i < NRRTOT && Accounted(c0) && ConflictFree(c0) && Shaped(c) && Aborted(c0, c, i, n, now)
    ensures ConflictFree(c)
  {
    VacatedAccounted(c0, i);
    var v := Vacated(c0, i);
    ClearedAccounted(v, i, n);
    if c0.body.Positive? {
      assert v.body.sets == c0.body.sets - {i};
      FewerConflicts(c0, v);
      FewerConflicts(v, Cleared(v, i, n));
    }
    hide ConflictFree;
    hide Vacated;
    hide Cleared;
    hide Accepts;
    hide Blocked;
    var e := Cleared(v, i, n);
    if e.body.Positive? { FewerConflicts(e, c); } else { NoSetsNoConflicts(c); }
  }

  lemma NoSetsNoConflicts(c: Cent)
    requires Shaped(c) && AsPositive(c).sets == map[]
    ensures ConflictFree(c)
  {}

  lemma PartMergedConflictFree(c0: Cent, c: Cent, cent: Cent, now: int, cfg: TtlConfig)
    requires Accounted(c0) && ConflictFree(c0) && Shaped(c) && cent.body.Positive? && PartMerged(c0, c, cent, now, cfg)
    ensures ConflictFree(c)
  {
    hide Aborted;
    hide MergeUpTo;
    hide ConflictFree;
    var k: nat :| k < NRRTOT && k in cent.body.sets
      && Aborted(MergeUpTo(c0, cent, k, now, cfg), c, k, cent.body.sets[k], now);
    MergeConflictFree(c0, cent, k, now, cfg);
    AbortedConflictFree(MergeUpTo(c0, cent, k, now, cfg), c, k, cent.body.sets[k], now);
  }

  lemma MergedConflictFree(t: CacheState.Table, c: Cent, c': Cent, cent: Cent, now: int, cfg: TtlConfig)
    requires Accounted(c) && ConflictFree(c) && cent.body.Positive? && Shaped(c')
    requires Erase(c') == MergeInto(t, c, cent, now, cfg) || PartMerged(Ground(t, c, now), Erase(c'), cent, now, cfg)
    ensures ConflictFree(c')
  {
    var g := Ground(t, c, now);
    GroundConflictFree(t, c, now);
    EraseConflictFree(c');
    hide Ground;
    if PartMerged(g, Erase(c'), cent, now, cfg) {
      hide ConflictFree;
      PartMergedConflictFree(g, Erase(c'), cent, now, cfg);
    } else {
      MergeConflictFree(g, cent, NRRTOT, now, cfg);
      hide MergeUpTo;
      hide ConflictFree;
      hide TrueSize;
      hide TrueCount;
      var m := MergeUpTo(g, cent, NRRTOT, now, cfg);
      FewerConflicts(m, WithRefs(m, cent));
    }
  }

  lemma FiledConflictFree(c: Cent, cent: Cent, cfg: TtlConfig)
    requires Shaped(c) && Shaped(cent) && Erase(c) == Adjusted(Erase(cent), cfg)
    ensures ConflictFree(c) == ConflictFree(cent)
  {
    hide ConflictFree;
    hide Adjusted;
    hide Erase;
    EraseConflictFree(c);
    EraseConflictFree(cent);
    AdjustedConflictFree(Erase(cent), cfg);
  }

  /** If no entry has conflicts, adding one leaves it that way exactly when the new entry was
      merged into an old one or has no conflicts itself. */
  lemma AddConflictFree(o: Outcome, t0: CacheState.Table, t: CacheState.Table, cent: Cent, now: int, cfg: TtlConfig)
    requires CacheState.TableOk(t0) && CacheState.TableOk(t) && Shaped(cent)
    requires AddSpec(o, t0, t, cent, now, cfg) && AllConflictFree(t0)
    ensures o.Added? ==> (AllConflictFree(t) <==> FoldName(cent.qname) in t0 || ConflictFree(cent))
    ensures !o.Added? ==> AllConflictFree(t)
  {
    var key := FoldName(cent.qname);
    hide FoldName;
    hide MergeInto;
    hide PartMerged;
    hide Ground;
    hide Erase;
    hide Adjusted;
    hide TrueSize;
    hide TrueCount;
    if cent.body.Negative? || key !in t0 {
      assert cent.body.Negative? ==> ConflictFree(cent);
      if o.Added? { FiledConflictFree(t[key], cent, cfg); }
    } else {
      if o.Added? || o.OutOfMemory? { MergedConflictFree(t0, t0[key], t[key], cent, now, cfg); }
    }
    hide ConflictFree;
  }

  // ---- The purge that follows

  lemma EvictedSafe(t0: CacheState.Table, t: CacheState.Table, t': CacheState.Table)
    requires LocalSafe(t0, t) && Evicted(t, t')
    ensures LocalSafe(t0, t')
  {
    forall k | k in t0 && HasLocal(t0[k]) ensures k in t' && KeepsLocal(t0[k], t'[k]) {
      var i :| i in t0[k].body.sets && Local(t0[k].body.sets[i]);
      assert i in t[k].body.sets && Local(t[k].body.sets[i]);
      assert HasLocal(t[k]);
      KeepsLocalTrans(t0[k], t[k], t'[k]);
    }
  }

  lemma EvictedConflictFree(t: CacheState.Table, t': CacheState.Table)
    requires AllConflictFree(t) && Evicted(t, t') && CacheState.TableOk(t')
    ensures AllConflictFree(t')
  {
    hide TrueSize;
    hide TrueCount;
    hide FoldName;
    forall k | k in t' ensures Shaped(t'[k]) && ConflictFree(t'[k]) {
      assert SubEntry(t[k], t'[k]);
      hide ConflictFree;
      FewerConflicts(t[k], t'[k]);
    }
  }

  /** What adding and the purge that follows guarantee together. */
  lemma AddConsequences(o: Outcome, t0: CacheState.Table, filed: CacheState.Table, t: CacheState.Table,
                        cent: Cent, now: int, cfg: TtlConfig)
    requires CacheState.TableOk(t0) && CacheState.AllListed(t0) && Shaped(cent)
    requires CacheState.TableOk(filed) && CacheState.AllListed(filed) && CacheState.TableOk(t)
    requires AddSpec(o, t0, filed, cent, now, cfg) && Evicted(filed, t)
    ensures NoLocalSets(cent) ==> LocalSafe(t0, t)
    ensures AllConflictFree(t0) && (FoldName(cent.qname) in t0 || ConflictFree(cent)) ==> AllConflictFree(t)
  {
    hide *;
    if NoLocalSets(cent) {
      AddKeepsLocal(o, t0, filed, cent, now, cfg);
      EvictedSafe(t0, filed, t);
    }
    if AllConflictFree(t0) && (FoldName(cent.qname) in t0 || ConflictFree(cent)) {
      AddConflictFree(o, t0, filed, cent, now, cfg);
      EvictedConflictFree(filed, t);
    }
  }

  // ---- Operations from outside

  datatype Op =
    | Add(cent: Cent, limit: int)
    | Lookup(name: Name, wild: bool)
    | Delete(name: Name)
    | Purge(sz: int, lazy: bool)
    | Invalidate(name: Name)

  /** Entries are added with the right counters. */
  predicate OpOk(op: Op) { op.Add? ==> Accounted(op.cent) }

  /** The operation is not meant to change local sets. */
  predicate SparesLocal(op: Op)
  {
    match op
    case Add(cent, _) => NoLocalSets(cent)
    case Lookup(_, _) => true
    case Delete(_) => false
    case Purge(_, _) => true
    case Invalidate(_) => false
  }

  /** An entry that is added has no conflicts itself. */
  predicate Harmless(op: Op) { op.Add? ==> Shaped(op.cent) && ConflictFree(op.cent) }

  lemma OpCent(cent: Cent)
    requires Accounted(cent)
    ensures Shaped(cent)
  {}

  lemma LocalSafeItself(t: CacheState.Table)
    ensures LocalSafe(t, t)
  {}

  lemma LocalSafeTrans(a: CacheState.Table, b: CacheState.Table, c: CacheState.Table)
    requires LocalSafe(a, b) && LocalSafe(b, c)
    ensures LocalSafe(a, c)
  {
    forall k | k in a && HasLocal(a[k]) ensures k in c && KeepsLocal(a[k], c[k]) {
      var i :| i in a[k].body.sets && Local(a[k].body.sets[i]);
      assert i in b[k].body.sets && Local(b[k].body.sets[i]);
      assert HasLocal(b[k]);
      KeepsLocalTrans(a[k], b[k], c[k]);
    }
  }

  lemma PurgeSafe(st: CacheState.State, st': CacheState.State)
    requires CacheState.Valid(st) && CacheState.Valid(st') && Evicted(st.table, st'.table)
    ensures LocalSafe(st.table, st'.table)
    ensures AllConflictFree(st.table) ==> AllConflictFree(st'.table)
  {
    hide *;
    LocalSafeItself(st.table);
    EvictedSafe(st.table, st.table, st'.table);
    LinksHold(st');
    if AllConflictFree(st.table) { EvictedConflictFree(st.table, st'.table); }
  }

  /** An entry that a lookup deletes has no local sets. */
  lemma GoneWithoutLocal(c: Cent, now: int)
    requires Accounted(c) && GoesAway(c, true, now)
    ensures !HasLocal(c)
  {
    if c.body.Positive? && HasLocal(c) {
      var i :| i in c.body.sets && Local(c.body.sets[i]);
      PurgedSets(c, now, i);
      PurgedAccounted(c, now);
      CountZero(Purged(c, now));
      assert false;
    }
  }

  lemma LookupSafe(st: CacheState.State, st': CacheState.State, h: Hit, now: int)
    requires CacheState.Valid(st) && CacheState.Valid(st') && (h.key.Some? ==> h.key.value in st.table)
    requires h.key.None? ==> st'.table == st.table
    requires h.key.Some? && GoesAway(st.table[h.key.value], true, now) ==> st'.table == st.table - {h.key.value}
    requires h.key.Some? && !GoesAway(st.table[h.key.value], true, now) ==>
      st'.table == st.table[h.key.value := Refreshed(st.table, st.table[h.key.value], now)]
    ensures LocalSafe(st.table, st'.table)
    ensures AllConflictFree(st.table) ==> AllConflictFree(st'.table)
  {
    hide *;
    LocalSafeItself(st.table);
    LinksHold(st);
    if h.key.Some? {
      var key := h.key.value;
      KeyOfEntry(st.table, key);
      DeleteConflictFree(st.table, key);
      if GoesAway(st.table[key], true, now) {
        GoneWithoutLocal(st.table[key], now);
        DeletedSafe(st.table, key);
      } else {
        RefreshedSafe(st.table, key, now);
      }
    }
  }

  lemma DeletedSafe(t: CacheState.Table, key: Name)
    requires key in t && !HasLocal(t[key])
    ensures LocalSafe(t, t - {key})
  {}

  lemma DeleteConflictFree(t: CacheState.Table, key: Name)
    ensures AllConflictFree(t) ==> AllConflictFree(t - {key})
  {
    hide ConflictFree;
  }

  lemma RefreshedSafe(t: CacheState.Table, key: Name, now: int)
    requires CacheState.TableOk(t) && key in t && Accounted(t[key])
    ensures LocalSafe(t, t[key := Refreshed(t, t[key], now)])
    ensures AllConflictFree(t) ==> AllConflictFree(t[key := Refreshed(t, t[key], now)])
  {
    var c := t[key];
    var r := Refreshed(t, c, now);
    RefreshedKeepsLocal(t, c, now);
    RefreshedPurged(t, c, now);
    RefreshedAccounted(t, c, now);
    if c.body.Positive? {
      forall i | i in r.body.sets ensures i in c.body.sets && r.body.sets[i] == c.body.sets[i] { PurgedSets(c, now, i); }
    }
    hide TrueSize;
    hide TrueCount;
    hide Purged;
    hide Refreshed;
    hide FoldName;
    hide ConflictFree;
    if AllConflictFree(t) { FewerConflicts(c, r); }
  }

  lemma InvalidateConflictFree(st: CacheState.State, st': CacheState.State, key: Name)
    requires CacheState.Valid(st)
    requires st'.table == if key in st.table then st.table[key := Invalidated(st.table[key])] else st.table
    ensures AllConflictFree(st.table) ==> AllConflictFree(st'.table)
  {
    LinksHold(st);
    if key in st.table && AllConflictFree(st.table) {
      var c := st.table[key];
      KeyOfEntry(st.table, key);
      InvalidatedEntry(c);
      assert ConflictFree(Invalidated(c));
      hide Invalidated;
      hide ConflictFree;
      hide TrueSize;
      hide TrueCount;
    }
  }
}
