/** The RR-set cache (cache.c) as an object: every operation keeps the size counters, the
    entry count and the age list in agreement with the entries. The current time is a
    parameter that is fixed within one operation; allocation may fail at any point. */
module RRCache {
  import opened Names
  import opened RRTypes
  import opened CacheEntry
  import opened CacheMerge
  import opened CacheErase
  import opened CachePurge
  import CacheState
  import opened CacheSteps
  import opened CacheWork
  import opened CacheAdd
  import opened CacheLookup
  import opened CacheEvict
  import AgeSort
  import opened Powers
  import opened Memory

  class Cache {
    const enough: bool  // memory never runs out
    var table: CacheState.Table
    var age: seq<Lent>
    var cacheSize: int
    var entNum: int
    var insertSort: bool
    var nextId: nat

    ghost function View(): CacheState.State
      reads this
    {
      CacheState.State(table, age, cacheSize, entNum, insertSort, nextId)
    }

    /** The counters and the age list agree with the entries. */
    ghost predicate Valid()
      reads this
    {
      CacheState.Valid(View())
    }

    /** The age list is sorted, oldest first (while insertion sort is on). */
    ghost predicate Ordered()
      reads this
    {
      CacheState.Ordered(View())
    }

    constructor (enough: bool)
      ensures Valid() && Ordered() && table == map[] && insertSort && this.enough == enough
    {
      this.enough, table, age, cacheSize, entNum, insertSort, nextId := enough, map[], [], 0, 0, true, 0;
    }

    /** remove_rrl */
    method RemoveRrl(lent: Option<nat>)
      modifies this`age
      ensures age == CacheState.Unlinked(old(age), lent)
    {
      if lent.Some? { age := CacheState.Without(age, lent.value); }
    }

    /** del_rrset: the memory that a set occupies. */
    method SizeOfSet(s: RRSet) returns (rv: nat)
      ensures rv == SetSize(s)
    {
      rv := SIZEOF_RRSET;
      var i := 0;
      while i < |s.rrs|
        invariant i <= |s.rrs| && rv == SIZEOF_RRSET + RRsSize(s.rrs[..i])
      {
        rv := rv + SIZEOF_RR + |s.rrs[i]|;
        assert s.rrs[..i + 1][..i] == s.rrs[..i];
        i := i + 1;
      }
      assert s.rrs[..i] == s.rrs;
    }

    /** del_cent_rrset_by_index */
    method DelCentRRSet(key: Name, idx: nat) returns (rv: nat)
      requires key in table
      modifies this`table, this`age
      ensures var c := old(table)[key];
        if c.body.Positive? && idx in c.body.sets
        then View() == CacheState.DelSet(old(View()), key, idx) && rv == SetSize(c.body.sets[idx])
        else View() == old(View()) && rv == 0
    {
      var c := table[key];
      rv := 0;
      if c.body.Positive? && idx in c.body.sets {
        rv := SizeOfSet(c.body.sets[idx]);
        RemoveRrl(c.body.sets[idx].lent);
        table := table[key := c.(body := c.body.(sets := c.body.sets - {idx}),
                                 numRRs := c.numRRs - 1, cs := c.cs - rv, flags := c.flags - {DF_AUTH})];
      }
    }

    /** free_cent: the nodes of the entry leave the age list one by one. */
    method FreeCent(key: Name)
      requires key in table && CacheState.Links(View()) && CacheState.TableOk(table)
      modifies this`table, this`age
      ensures View() == FreeEnt(old(View()), key)
    {
      var c := table[key];
      ghost var st0 := View();
      if c.body.Negative? {
        NodesGone0(st0, key);
        RemoveRrl(c.body.lent);
      } else {
        NodesGoneStart(st0, key);
        for i := 0 to NRRTOT
          invariant table == st0.table && View() == st0.(age := age)
          invariant age == NodesGone(st0.age, key, i)
        {
          NodesGoneStep(st0, key, i);
          if i in c.body.sets { RemoveRrl(c.body.sets[i].lent); }
        }
        NodesGoneAll(st0, key);
      }
      table := table - {key};
    }

    /** Since st0, only the entry under key has changed, and everything agrees. */
    ghost predicate Became(st0: CacheState.State, key: Name, c: Cent)
      reads this
    {
      && Valid() && (CacheState.Ordered(st0) ==> Ordered())
      && table == st0.table[key := c] && entNum == st0.num && insertSort == st0.insertSort

    }

    /** Deletes a set of a cached entry and adjusts cache_size. */
    method DeleteSet(key: Name, idx: nat)
      requires Valid() && key in table && table[key].body.Positive? && idx in table[key].body.sets
      modifies this
      ensures Became(old(View()), key, DropSet(old(table)[key], idx))
      ensures View() == CacheState.DelSet(old(View()), key, idx).(size := old(cacheSize) - SetSize(old(table)[key].body.sets[idx]))
    {
      hide CacheState.Valid;
      hide CacheState.Ordered;
      hide CacheState.Without;
      ghost var st := View();
      CacheState.DelSetTable(st, key, idx);
      DelSetValid(st, key, idx);
      CountersApart(CacheState.DelSet(st, key, idx),
                    CacheState.DelSet(st, key, idx).(size := cacheSize - SetSize(table[key].body.sets[idx])));
      var freed := DelCentRRSet(key, idx);
      cacheSize := cacheSize - freed;
    }

    /** Deletes one more of the sets in `gone`. */
    method DeleteOneMore(key: Name, idx: nat, ghost st0: CacheState.State, ghost c: Cent, ghost gone: set<nat>)
      requires c.body.Positive? && idx in c.body.sets && idx !in gone && idx < NRRTOT
      requires Became(st0, key, DropSlots(c, gone))
      modifies this
      ensures Became(st0, key, DropSlots(c, gone + {idx}))
    {
      hide DropSlots;
      hide CacheState.Valid;
      hide CacheState.Ordered;
      DropSlotsStep(c, gone, idx);
      DeleteSet(key, idx);
    }

    /** purge_rrset for a set that is there. */
    method PurgeSlot(key: Name, i: nat, test: bool, now: int, ghost st0: CacheState.State, c: Cent) returns (gone: bool)
      requires c.body.Positive? && i in c.body.sets && i < NRRTOT
      requires if test then View() == st0 else Became(st0, key, DropSlots(c, ExpiredBelow(c, i, now)))
      modifies this
      ensures gone == Expired(c.body.sets[i], now)
      ensures if test then View() == st0 else Became(st0, key, DropSlots(c, ExpiredBelow(c, i + 1, now)))
    {
      hide Became;
      hide DropSlots;
      hide ExpiredBelow;
      ExpiredStep(c, i, now);
      gone := Expired(c.body.sets[i], now);
      if gone && !test { DeleteOneMore(key, i, st0, c, ExpiredBelow(c, i, now)); }
    }

    /** The loop of purge_all_rrsets. */
    method DropExpired(key: Name, c: Cent, ilim: nat, test: bool, now: int, ghost st0: CacheState.State)
      returns (rv: int, numrrs: int, numrrext: int)
      requires View() == st0 && Became(st0, key, c)
      requires c.body.Positive? && ilim <= NRRTOT && forall i :: i in c.body.sets ==> i < ilim
      modifies this
      ensures rv == SlotsUsed(c.body.sets, NRRTOT) - SlotsUsed(Kept(c, now), NRRTOT)
      ensures numrrs == SlotsUsed(Kept(c, now), NRRTOT)
      ensures numrrext == 0 <==> !UsesExt(Kept(c, now))
      ensures if test then View() == st0 else Became(st0, key, DropSlots(c, ExpiredSlots(c, now)))
    {
      hide *;
      rv, numrrs, numrrext := 0, 0, 0;
      NoneExpiredYet(c, now);
      KeptNone(c, now);
      for i := 0 to ilim
        invariant rv == SlotsUsed(c.body.sets, NRRTOT) - SlotsUsed(c.body.sets - ExpiredBelow(c, i, now), NRRTOT)
        invariant numrrs == SlotsUsed(Kept(c, now), i)
        invariant numrrext >= 0 && (numrrext == 0 <==> forall j :: NRRMU <= j < i ==> j !in Kept(c, now))
        invariant if test then View() == st0 else Became(st0, key, DropSlots(c, ExpiredBelow(c, i, now)))
      {
        ExpiredStep(c, i, now);
        KeptStep(c, i, now);
        if i in c.body.sets {
          var gone := PurgeSlot(key, i, test, now, st0, c);
          if gone {
            rv := rv + 1;
          } else {
            numrrs := numrrs + 1;
            if i >= NRRMU { numrrext := numrrext + 1; }
          }
        }
      }
      AllExpiredSeen(c, ilim, now);
    }

    /** Frees the array of the less frequent types. */
    method FreeExt(key: Name, ghost st0: CacheState.State)
      requires key in table && table[key].body.Positive? && table[key].body.ext && !UsesExt(table[key].body.sets)
      requires Became(st0, key, table[key])
      modifies this
      ensures key in old(table) && Became(st0, key, DropExt(old(table)[key]))
    {
      hide CacheState.Valid;
      ExtFreed(View(), key);
      hide CacheState.Ordered;
      table := table[key := table[key].(body := table[key].body.(ext := false), cs := table[key].cs - SIZEOF_EXT)];
      cacheSize := cacheSize - SIZEOF_EXT;
    }

    /** purge_all_rrsets: the counts are the same whether or not this is only a test. */
    method PurgeAllRRSets(key: Name, test: bool, now: int) returns (rv: int, numrrs: int)
      requires Valid() && key in table
      modifies this
      ensures rv == PurgedItems(old(table)[key], now) && numrrs == Purged(old(table)[key], now).numRRs
      ensures test ==> View() == old(View())
      ensures !test ==> Became(old(View()), key, Purged(old(table)[key], now))
    {
      var c := table[key];
      ghost var st0 := View();
      rv, numrrs := 0, 0;
      assert Accounted(c);
      if c.body.Negative? {
        assert table[key := c] == table;
        return;
      }
      PurgedShape(c, now);
      hide Purged;
      hide CacheState.Valid;
      hide CacheState.Ordered;
      hide SlotsUsed;
      hide DropSlots;
      var ext;
      assert Became(st0, key, c) by { assert st0.table[key := c] == st0.table; }
      rv, numrrs, ext := DropExpired(key, c, if c.body.ext then NRRTOT else NRRMU, test, now, st0);
      if c.body.ext && ext == 0 {
        if !test { FreeExt(key, st0); }
        rv := rv + 1;
      }
    }

    /** del_cache_ent and del_cent */
    method DelCacheEnt(key: Name)
      requires key in table && Valid()
      modifies this
      ensures View() == DelEnt(old(View()), key) && insertSort == old(insertSort)
      ensures Valid() && (old(Ordered()) ==> Ordered())
    {
      hide CacheState.Valid;
      hide CacheState.Links;
      hide CacheState.TableOk;
      hide CacheState.Ordered;
      hide DelEnt;
      hide FreeEnt;
      DelEntReady(View(), key);
      cacheSize := cacheSize - table[key].cs;
      FreeCent(key);
      entNum := entNum - 1;
    }

    // ---- purge_cent

    method FindStale(key: Name, ref: nat, idx: nat, now: int) returns (stale: bool)
      requires key in table
      ensures stale == Stale(table, table[key], ref, idx, now)
    {
      if ref == CUNDEF { return false; }
      var c := table[key];
      var rrset := None;
      if ref == |c.qname| {
        rrset := SlotSet(c, idx);
      } else if ref < |c.qname| {
        var k := FoldName(c.qname[|c.qname| - ref..]);
        if k in table { rrset := SlotSet(table[k], idx); }
      }
      stale := rrset.None? || rrset.value.rrs == [] || (!Local(rrset.value) && TimedOut(rrset.value, now));
    }

    /** Sets c_ns and c_soa of an entry. */
    method SetRefs(key: Name, cNs: nat, cSoa: nat, ghost st0: CacheState.State)
      requires key in table && Became(st0, key, table[key])
      modifies this
      ensures key in old(table) && Became(st0, key, old(table)[key].(cNs := cNs, cSoa := cSoa))
    {
      hide CacheState.Valid;
      hide CacheState.Ordered;
      RefsSet(View(), key, cNs, cSoa);
      table := table[key := table[key].(cNs := cNs, cSoa := cSoa)];
    }

    /** The part of purge_cent that resets stale references. */
    method RefreshRefs(key: Name, test: bool, now: int, ghost st0: CacheState.State) returns (n: int)
      requires key in st0.table && FoldName(st0.table[key].qname) == key && key in table
      requires if test then View() == st0 else Became(st0, key, Purged(st0.table[key], now))
      modifies this
      ensures n == StaleRefs(st0.table, st0.table[key], now)
      ensures test ==> View() == st0
      ensures !test ==> Became(st0, key, Refreshed(st0.table, st0.table[key], now))
    {
      ghost var c := st0.table[key];
      PurgedFields(c, now);
      hide CacheState.Valid;
      hide CacheState.Ordered;
      hide Stale;
      hide Purged;
      n := 0;
      if DF_LOCAL !in table[key].flags {
        if !test {
          StaleAfterPurge(st0.table, key, c, table[key], c.cNs, RRMUINDEX_NS, now);
          StaleAfterPurge(st0.table, key, c, table[key], c.cSoa, RRMUINDEX_SOA, now);
        }
        var ns := FindStale(key, table[key].cNs, RRMUINDEX_NS, now);
        var soa := FindStale(key, table[key].cSoa, RRMUINDEX_SOA, now);
        n := One(ns) + One(soa);
        if !test {
          SetRefs(key, if ns then CUNDEF else table[key].cNs, if soa then CUNDEF else table[key].cSoa, st0);
        }
      }
    }

    /** The part of purge_cent that removes an entry that was purged empty. */
    method RemovePurged(key: Name, ghost st0: CacheState.State, ghost c: Cent)
      requires key in table && Became(st0, key, c)
      modifies this
      ensures Valid() && (CacheState.Ordered(st0) ==> Ordered()) && table == st0.table - {key}
      ensures insertSort == st0.insertSort
    {
      hide CacheState.Valid;
      hide CacheState.Ordered;
      DelCacheEnt(key);
      assert table == st0.table - {key};
    }

    /** purge_cent: the test run returns exactly what the real run returns, and changes
        nothing; the real run deletes the entry, or leaves it without timed-out sets and
        without stale references. */
    method PurgeCent(key: Name, delete: bool, test: bool, now: int) returns (n: int)
      requires Valid() && key in table
      modifies this
      ensures n == PurgeCount(old(table), old(table)[key], delete, now)
      ensures test ==> View() == old(View())
      ensures !test && n >= 0 ==> Became(old(View()), key, Refreshed(old(table), old(table)[key], now))
      ensures !test && n < 0 ==>
        Valid() && (old(Ordered()) ==> Ordered()) && table == old(table) - {key} && insertSort == old(insertSort)
    {
      ghost var st0 := View();
      ghost var c := table[key];
      PurgeReady(st0, key, delete, now);
      hide CacheState.Valid;
      hide CacheState.Ordered;
      hide Purged;
      hide PurgedItems;
      hide Refreshed;
      hide StaleRefs;
      hide GoesAway;
      hide CanGo;
      hide FoldName;
      var numrrs, refs;
      n, numrrs := PurgeAllRRSets(key, test, now);
      if CanGo(table[key], delete, numrrs, now) {
        if !test { RemovePurged(key, st0, table[key]); }
        return -1;
      }
      refs := RefreshRefs(key, test, now, st0);
      n := n + refs;
    }

    // ---- purge_cache

    /** Deletes the set or negative entry of node i, and its entry if nothing is left. */
    method DeleteNode(i: nat)
      requires Valid() && i < |age|
      modifies this
      ensures View() == DropNode(old(View()), old(age)[i])
      ensures Valid() && (old(Ordered()) ==> Ordered()) && insertSort == old(insertSort)
      ensures age == old(age)[..i] + old(age)[i + 1..]
      ensures Evicted(old(table), table)
    {
      var le := age[i];
      NodeIsPurgeable(View(), i);
      DropNodeKeeps(View(), i);
      hide CacheState.Valid;
      hide CacheState.Ordered;
      hide Evicted;
      if le.idx >= 0 { DeleteSet(le.key, le.idx); }
      if table[le.key].numRRs == 0 { DelCacheEnt(le.key); }
    }

    /** One round of the first walk: the set or negative entry of node i goes if it has timed
        out. At most node i leaves the list, so the saved next pointer stays valid. */
    method PurgeNode(i: nat, now: int) returns (gone: bool)
      requires Valid() && i < |age|
      modifies this
      ensures gone == NodeExpired(old(table), old(age)[i], now)
      ensures View() == if gone then DropNode(old(View()), old(age)[i]) else old(View())
      ensures Valid() && (old(Ordered()) ==> Ordered()) && insertSort == old(insertSort)
      ensures age == if gone then old(age)[..i] + old(age)[i + 1..] else old(age)
      ensures Evicted(old(table), table)
    {
      var le := age[i];
      var ce := table[le.key];
      NodeIsPurgeable(View(), i);
      EvictedReflexive(table);
      hide CacheState.Valid;
      hide CacheState.Ordered;
      hide Evicted;
      // Only purgeable slots have nodes, so the tests for local records always succeed.
      gone := if le.idx >= 0 then Expired(ce.body.sets[le.idx], now) else TimedOutNX(ce, now);
      if gone { DeleteNode(i); }
    }

    /** The first walk of purge_cache: the nodes among the first k that have timed out go, no
        others; k is the length of the list, or the least number that makes the cache small
        enough if that is all that is wanted. */
    method PurgeTimedOut(sz: int, lazy: bool, now: int) returns (ghost k: nat)
      requires Valid()
      modifies this
      ensures FirstWalk(old(View()), View(), k, sz, lazy, now)
      ensures Valid() && (old(Ordered()) ==> Ordered()) && insertSort == old(insertSort)
      ensures Evicted(old(table), table)
    {
      ghost var st0 := View();
      EvictedReflexive(table);
      WalkStarts(st0, now);
      hide FirstWalk;
      hide CacheState.Valid;
      hide CacheState.Ordered;
      hide Evicted;
      hide Dropped;
      hide DropNode;
      hide ExpiredNodes;
      hide FreshNodes;
      hide NodeExpired;
      hide Visited;
      var le := 0;
      k := 0;
      while le < |age| && (!lazy || cacheSize > sz)
        invariant k <= |st0.age| && Visited(st0, View(), k, now) && le == |FreshNodes(st0.table, st0.age[..k], now)|
        invariant lazy ==> forall j :: 0 <= j < k ==> Dropped(st0, ExpiredNodes(st0.table, st0.age[..j], now)).size > sz
        invariant Valid() && (old(Ordered()) ==> Ordered()) && insertSort == old(insertSort)
        invariant Evicted(st0.table, table)
        decreases |st0.age| - k
      {
        ghost var st, i := View(), le;
        NextNode(st0, st, k, i, now);
        var gone := PurgeNode(le, now);
        if !gone { le := le + 1; }
        WalkStep(st0, st, View(), k, i, now);
        k := k + 1;
        EvictedTransitive(st0.table, st.table, table);
      }
      WalkEnds(st0, View(), k, sz, lazy, now);
    }

    /** The second walk: the oldest records go, and no more of them than it takes to make the
        cache small enough. */
    method EvictOldest(sz: int) returns (ghost k: nat)
      requires Valid()
      modifies this
      ensures SecondWalk(old(View()), View(), k, sz)
      ensures Valid() && (old(Ordered()) ==> Ordered()) && insertSort == old(insertSort)
      ensures Evicted(old(table), table)
    {
      ghost var st0 := View();
      EvictedReflexive(table);
      DropsStart(st0);
      hide CacheState.Valid;
      hide CacheState.Ordered;
      hide Evicted;
      hide DropNode;
      hide Dropped;
      k := 0;
      while age != [] && cacheSize > sz
        invariant 0 <= k <= |st0.age| && age == st0.age[k..]
        invariant View() == Dropped(st0, st0.age[..k])
        invariant forall j :: 0 <= j < k ==> Dropped(st0, st0.age[..j]).size > sz
        invariant Valid() && (old(Ordered()) ==> Ordered()) && insertSort == old(insertSort)
        invariant Evicted(st0.table, table)
        decreases |age|
      {
        ghost var t1 := table;
        DropsNext(st0, k);
        DeleteNode(0);
        k := k + 1;
        EvictedTransitive(st0.table, t1, table);
      }
    }

    /** sort_rrl on the age list (which AgeList.RRList.SortRrl carries out), and insertion sort
        from now on. A list too long to sort ends the program. */
    method SortAgeList() returns (ok: bool)
      requires Valid() && !insertSort
      modifies this
      ensures ok == CanSort(old(View()))
      ensures View() == if ok then Resorted(old(View())) else old(View())
      ensures Valid() && (ok ==> Ordered())
    {
      ghost var st := View();
      ok := |age| < Pow2(AgeSort.NTMPSORT);
      if ok {
        age := AgeSort.InsertAll(age, CacheState.TsOf(table));
        insertSort := true;
        AgeSort.InsertAllStable(st.age, CacheState.TsOf(table));
        SortedLinks(st, View());
      }
    }

    /** purge_cache: first the records that have timed out, then the oldest ones, until the
        cache is small enough or nothing purgeable is left. Local sets and local entries are
        never touched. */
    method PurgeCache(sz: int, lazy: bool, now: int) returns (ok: bool)
      requires Valid()
      modifies this
      ensures PurgeSpec(old(View()), View(), ok, sz, lazy, now)
      ensures Valid() && (old(Ordered()) ==> Ordered())
      ensures old(insertSort) ==> insertSort && ok
      ensures if ok then cacheSize <= sz || age == [] else !insertSort && |age| >= Pow2(AgeSort.NTMPSORT)
      ensures Evicted(old(table), table)
    {
      ghost var st0 := View();
      hide CacheState.Valid;
      hide CacheState.Ordered;
      hide Evicted;
      ghost var k := PurgeTimedOut(sz, lazy, now);
      ghost var st1 := View();
      assert st1.table == table && st1.size == cacheSize;
      hide FirstWalk;
      if cacheSize <= sz { return true; }
      ok := insertSort;
      if !insertSort { ok := SortAgeList(); }
      if !ok { return; }
      assert View() == Resorted(st1);
      k := EvictOldest(sz);
      EvictedTransitive(st0.table, st1.table, table);
    }

    // ---- Merging into an existing entry

    /** Inside an operation on the entry under key. */
    ghost predicate InWork(st0: CacheState.State, key: Name, open: set<int>)
      reads this
    {
      During(View(), st0, key, open)
    }

    lemma InWorkKey(st0: CacheState.State, key: Name, open: set<int>)
      requires InWork(st0, key, open)
      ensures key in table && Accounted(table[key]) && FoldName(table[key].qname) == key
    {}

    /** del_cent_rrset_by_index inside such an operation. */
    method DropInWork(key: Name, idx: nat, ghost open: set<int>, ghost st0: CacheState.State)
      requires InWork(st0, key, open) && table[key].body.Positive? && idx in table[key].body.sets
      modifies this
      ensures key in old(table) && InWork(st0, key, open - {idx}) && table[key] == DropSet(old(table)[key], idx)
    {
      InWorkKey(st0, key, open);
      hide During;
      DelSetDuring(View(), st0, key, open, idx);
      var freed := DelCentRRSet(key, idx);
    }

    /** The loop of cr_check_add that deletes them. */
    method DeleteRivals(key: Name, idx: nat, ghost st0: CacheState.State)
      requires InWork(st0, key, {}) && Shaped(table[key]) && idx < NRRTOT && table[key].body.Positive?
      modifies this
      ensures key in old(table) && InWork(st0, key, {})
      ensures table[key] == DropSlots(old(table)[key], Rivals(old(table)[key], idx))
    {
      InWorkKey(st0, key, {});
      hide Accounted;
      hide DropSlots;
      hide During;
      hide RivalsBelow;
      hide Rivals;
      hide Conflict;
      hide IsPositiveSet;
      var c := table[key];
      var ilim := if c.body.ext then NRRTOT else NRRMU;
      RivalsAll(c, idx, ilim);
      for i := 0 to ilim
        invariant InWork(st0, key, {}) && key in table && table[key] == DropSlots(c, RivalsBelow(c, idx, i))
      {
        RivalsStep(c, idx, i);
        if i in c.body.sets && IsPositiveSet(c.body.sets[i]) && Conflict(idx, i) {
          DropOneRival(key, i, c, RivalsBelow(c, idx, i), st0);
        }
      }
    }

    method DropOneRival(key: Name, i: nat, ghost c: Cent, ghost gone: set<nat>, ghost st0: CacheState.State)
      requires InWork(st0, key, {}) && key in table && c.body.Positive? && table[key] == DropSlots(c, gone)
      requires i in c.body.sets && i !in gone && i < NRRTOT
      modifies this
      ensures InWork(st0, key, {}) && key in table && table[key] == DropSlots(c, gone + {i})
    {
      hide DropSlots;
      hide During;
      DropSlotsStep(c, gone, i);
      assert {} - {i as int} == {};
      DropInWork(key, i, {}, st0);
      InWorkKey(st0, key, {});
    }

    /** cr_check_add */
    method CrCheckAdd(key: Name, idx: nat, n: RRSet, now: int, ghost st0: CacheState.State) returns (ok: bool)
      requires InWork(st0, key, {}) && Shaped(table[key]) && idx < NRRTOT
      modifies this
      ensures key in old(table) && ok == Accepts(old(table)[key], idx, n, now)
      ensures InWork(st0, key, {}) && table[key] == if ok then Cleared(old(table)[key], idx, n) else old(table)[key]
    {
      InWorkKey(st0, key, {});
      ghost var c := table[key];
      AcceptsAtOnce(c, idx, n, now);
      hide During;
      hide MeanTtl;
      hide Accepts;
      hide Cleared;
      hide DropSlots;
      hide Rivals;
      hide Accounted;
      hide Shaped;
      hide FoldName;
      if CF_NEGATIVE in n.flags { return true; }
      var nttl := 0;
      if !Local(n) {
        if DF_LOCAL in table[key].flags { return false; }
        var local, ncf;
        local, ncf, nttl := CountRivals(table[key], idx, now);
        AcceptsByCount(c, idx, n, now, local, ncf, nttl);
        if local { return false; }
        if ncf == 0 { return true; }
        nttl := MeanTtl(nttl, ncf);
      }
      if Local(n) || n.ttl > nttl {
        if table[key].body.Positive? {
          DeleteRivals(key, idx, st0);
          InWorkKey(st0, key, {});
        }
        return true;
      }
      return false;
    }

    /** add_cent_rrset_by_index; allocation may fail twice, and by then a negative entry has
        become a positive one. */
    method AddEmptySet(key: Name, i: nat, n: RRSet, ghost st0: CacheState.State) returns (ok: bool)
      requires InWork(st0, key, {}) && i < NRRTOT && i !in AsPositive(table[key]).sets
      modifies this
      ensures enough ==> ok
      ensures key in old(table)
      ensures ok ==> InWork(st0, key, {i as int}) && table[key] == AddSet(old(table)[key], i, n.ttl, n.ts, n.flags)
      ensures !ok ==> InWork(st0, key, {}) && Abandoned(old(table)[key], table[key])
    {
      hide During;
      hide Accounted;
      hide AddSet;
      hide WithExt;
      hide AsPositive;
      hide Abandoned;
      InWorkKey(st0, key, {});
      var c := table[key];
      ok := Allocate(enough);
      if ok {
        NewSetDuring(View(), st0, key, i, n);
        BecomePositive(key, AddSet(c, i, n.ttl, n.ts, n.flags));
      } else {
        var ext := *;
        var c' := if ext then WithExt(c, i) else c.(body := AsPositive(c));
        AbandonDuring(View(), st0, key, c', i);
        BecomePositive(key, c');
      }
    }

    /** The node of a negative entry leaves the list as the entry becomes positive. */
    method BecomePositive(key: Name, c: Cent)
      requires key in table
      modifies this`table, this`age
      ensures View() == CacheState.Replaced(old(View()), key, c, CacheState.EntryLent(old(table)[key], -1))
    {
      RemoveRrl(CacheState.EntryLent(table[key], -1));
      table := table[key := c];
    }

    /** The records of the new set; allocation may fail. */
    method AppendRecords(key: Name, i: nat, rrs: seq<seq<byte>>, ghost st0: CacheState.State)
      returns (ok: bool, ghost k: nat)
      requires InWork(st0, key, {i as int}) && table[key].body.Positive? && i in table[key].body.sets
      modifies this`table
      ensures enough ==> ok
      ensures key in old(table) && InWork(st0, key, {i as int}) && table[key].body.Positive?
      ensures k <= |rrs| && table[key] == AddAll(old(table)[key], i, rrs[..k]) && (ok ==> rrs[..k] == rrs)
    {
      ghost var c := table[key];
      InWorkKey(st0, key, {i as int});
      AddAllEnds(c, i, rrs);
      hide During;
      hide AddRR;
      hide AddAll;
      hide Accounted;
      hide FoldName;
      k, ok := 0, true;
      for r := 0 to |rrs|
        invariant k == r && ok && InWork(st0, key, {i as int}) && key in table && table[key] == AddAll(c, i, rrs[..r])
      {
        ok := Allocate(enough);
        if !ok { return; }
        AddAllSnoc(c, i, rrs, r);
        AppendRecord(key, i, rrs[r], st0);
        k := k + 1;
      }
    }

    /** add_cent_rr_int for a set that is there. */
    method AppendRecord(key: Name, i: nat, data: seq<byte>, ghost st0: CacheState.State)
      requires InWork(st0, key, {i as int}) && key in table && table[key].body.Positive? && i in table[key].body.sets
      modifies this`table
      ensures InWork(st0, key, {i as int}) && key in table && table[key] == AddRR(old(table)[key], i, data)
    {
      hide During;
      hide AddRR;
      RecordDuring(View(), st0, key, i, data);
      table := table[key := AddRR(table[key], i, data)];
      assert View() == CacheState.Touched(old(View()), key, table[key]);
    }

    /** adjust_ttl on the new set, then insert_rrl; allocation may fail. */
    method ListSet(key: Name, i: nat, cfg: TtlConfig, ghost st0: CacheState.State) returns (ok: bool)
      requires InWork(st0, key, {i as int}) && table[key].body.Positive? && i in table[key].body.sets
      requires table[key].body.sets[i].lent == None
      modifies this
      ensures enough ==> ok
      ensures key in old(table)
      ensures var c := PutSet(old(table)[key], i, AdjustTtl(old(table)[key].body.sets[i], cfg));
        && (ok ==> InWork(st0, key, {}) && Erase(table[key]) == Erase(c))
        && (!ok ==> InWork(st0, key, {i as int}) && table[key] == c)
    {
      InWorkKey(st0, key, {i as int});
      hide During;
      var c := table[key];
      var s := AdjustTtl(c.body.sets[i], cfg);
      AdjustDuring(View(), st0, key, i, s);
      hide AdjustTtl;
      hide PutSet;
      table := table[key := PutSet(c, i, s)];
      assert View() == CacheState.Touched(old(View()), key, PutSet(c, i, s));
      ok := Allocate(enough);
      if ok {
        ListDuring(View(), st0, key, i);
        InsertRrl(key, i);
      }
    }

    /** insert_rrl */
    method InsertRrl(key: Name, idx: int)
      requires key in table
      modifies this
      ensures View() == CacheState.InsertRrl(old(View()), key, idx)
    {
      var c := table[key];
      // Local records stay off the list; purge_cache ignores them anyway.
      if !CacheState.Purgeable(c, idx) { return; }
      var ne := CacheState.Lent(nextId, key, idx);
      if insertSort {
        age := AgeSort.InsertByAge(age, ne, CacheState.TsOf(table));
      } else {
        age := age + [ne];
      }
      table := table[key := CacheState.SetLent(c, idx, nextId)];
      nextId := nextId + 1;
    }

    /** One round of the merge loop of add_cache. */
    method MergeSet(key: Name, i: nat, n: RRSet, now: int, cfg: TtlConfig, ghost st0: CacheState.State)
      returns (oom: bool)
      requires InWork(st0, key, {}) && i < NRRTOT
      modifies this
      ensures enough ==> !oom
      ensures key in old(table) && Accounted(old(table)[key]) && InWork(st0, key, {})
      ensures !oom ==> Erase(table[key]) == Erase(MergeSlot(old(table)[key], i, n, now, cfg))
      ensures oom ==> Aborted(old(table)[key], table[key], i, n, now)
    {
      InWorkKey(st0, key, {});
      ghost var c := table[key];
      hide During;
      if Blocked(table[key], i, n, now) { return false; }
      VacatedAccounted(c, i);
      if table[key].body.Positive? && i in table[key].body.sets {
        assert {} - {i as int} == {};
        DropInWork(key, i, {}, st0);
      }
      InWorkKey(st0, key, {});
      var ok := CrCheckAdd(key, i, n, now, st0);
      if !ok { return false; }
      ClearedAccounted(Vacated(c, i), i, n);
      hide Accepts;
      hide Cleared;
      hide Vacated;
      oom := InstallSet(key, i, n, cfg, st0, Cleared(Vacated(c, i), i, n));
      InWorkKey(st0, key, {});
    }

    /** The records, the TTL and the node of a set that was just added. */
    method FillSet(key: Name, i: nat, n: RRSet, cfg: TtlConfig, ghost st0: CacheState.State, ghost c0: Cent)
      returns (ok: bool)
      requires InWork(st0, key, {i as int}) && key in table && table[key] == c0
      requires c0.body.Positive? && i in c0.body.sets && c0.body.sets[i].lent == None
      modifies this
      ensures enough ==> ok
      ensures key in table
      ensures ok ==> InWork(st0, key, {}) && Erase(table[key]) == Erase(Filled(c0, i, n.rrs, cfg))
      ensures !ok ==> InWork(st0, key, {i as int}) && HalfFilled(c0, table[key], i)
    {
      hide During;
      hide Accounted;
      hide AddAll;
      hide Erase;
      hide PutSet;
      hide AdjustTtl;
      InWorkKey(st0, key, {i as int});
      ghost var k;
      ok, k := AppendRecords(key, i, n.rrs, st0);
      InWorkKey(st0, key, {i as int});
      if ok {
        AddAllAccounted(c0, i, n.rrs);
        ok := ListSet(key, i, cfg, st0);
        InWorkKey(st0, key, if ok then {} else {i as int});
        AdjustHalf(c0, n.rrs, i, cfg);
      } else {
        AddAllAccounted(c0, i, n.rrs[..k]);
      }
    }

    /** Adds the accepted set, or gives up and leaves the slot empty. */
    method InstallSet(key: Name, i: nat, n: RRSet, cfg: TtlConfig, ghost st0: CacheState.State, ghost c: Cent)
      returns (oom: bool)
      requires InWork(st0, key, {}) && key in table && table[key] == c && i < NRRTOT && i !in AsPositive(c).sets
      modifies this
      ensures enough ==> !oom
      ensures InWork(st0, key, {}) && key in table
      ensures !oom ==> Erase(table[key]) == Erase(Installed(c, i, n, cfg))
      ensures oom ==> Abandoned(c, table[key])
    {
      hide During;
      hide Accounted;
      hide AddAll;
      hide Erase;
      ghost var c0 := AddSet(c, i, n.ttl, n.ts, n.flags);
      AddSetSets(c, i, n.ttl, n.ts, n.flags);
      InstalledIsFilled(c, i, n, cfg);
      hide AddSet;
      hide Installed;
      var ok := AddEmptySet(key, i, n, st0);
      InWorkKey(st0, key, if ok then {i as int} else {});
      if !ok { return true; }
      ok := FillSet(key, i, n, cfg, st0, c0);
      InWorkKey(st0, key, if ok then {} else {i as int});
      if ok { return false; }
      assert {i as int} - {i as int} == {};
      ghost var c1 := table[key];
      DropInWork(key, i, {i as int}, st0);
      InWorkKey(st0, key, {});
      GivenUp(c, c0, c1, i);
      return true;
    }

    /** The merge loop of add_cache. */
    method MergeSets(key: Name, cent: Cent, now: int, cfg: TtlConfig, ghost st0: CacheState.State, ghost c0: Cent)
      returns (oom: bool)
      requires InWork(st0, key, {}) && key in table && cent.body.Positive? && Shaped(cent)
      requires Accounted(c0) && Erase(table[key]) == c0
      modifies this
      ensures enough ==> !oom
      ensures InWork(st0, key, {}) && key in table
      ensures !oom ==> Erase(table[key]) == MergeUpTo(c0, cent, NRRTOT, now, cfg)
      ensures oom ==> PartMerged(c0, Erase(table[key]), cent, now, cfg)
    {
      hide During;
      hide Accounted;
      hide Shaped;
      hide Erase;
      hide MergeSlot;
      hide MergeUpTo;
      hide PartMerged;
      hide Aborted;
      var ilim := if cent.body.ext then NRRTOT else NRRMU;
      MergeNone(c0, cent, now, cfg);
      MergeUpToShort(c0, cent, ilim, NRRTOT, now, cfg);
      for i := 0 to ilim
        invariant InWork(st0, key, {}) && key in table
        invariant Erase(table[key]) == MergeUpTo(c0, cent, i, now, cfg)
      {
        InWorkKey(st0, key, {});
        ghost var c := table[key];
        if i in cent.body.sets {
          oom := MergeSet(key, i, cent.body.sets[i], now, cfg, st0);
          InWorkKey(st0, key, {});
          if oom {
            AbortStep(c0, c, table[key], cent, i, now, cfg);
            return;
          }
        }
        MergeStep(c0, c, table[key], cent, i, now, cfg);
      }
      oom := false;
    }

    /** add_cache for a positive entry whose name is in the cache already. */
    method MergeEntry(key: Name, cent: Cent, now: int, cfg: TtlConfig) returns (oom: bool)
      requires Valid() && key in table && Accounted(table[key]) && cent.body.Positive? && Shaped(cent)
      modifies this
      ensures enough ==> !oom
      ensures Valid() && (old(Ordered()) ==> Ordered())
      ensures OnlyChanged(old(table), table, key) && insertSort == old(insertSort)
      ensures !oom ==> Erase(table[key]) == MergeInto(old(table), old(table)[key], cent, now, cfg)
      ensures oom ==> PartMerged(Ground(old(table), old(table)[key], now), Erase(table[key]), cent, now, cfg)
    {
      hide CacheState.Valid;
      hide CacheState.Ordered;
      hide During;
      hide Accounted;
      hide Erase;
      hide MergeUpTo;
      hide Refreshed;
      hide Ground;
      hide PartMerged;
      hide PurgeCount;
      ghost var t0 := table;
      ghost var c := table[key];
      GroundParts(table, c, now);
      var n := PurgeCent(key, false, false, now);
      ghost var st1 := View();
      WorkStarts(st1, key);
      cacheSize := cacheSize - table[key].cs;
      oom := MergeSets(key, cent, now, cfg, st1, Ground(t0, c, now));
      if !oom {
        WithRefsErased(table[key], cent);
        RefsDuring(View(), st1, key, WithRefs(table[key], cent));
        table := table[key := WithRefs(table[key], cent)];
      }
      WorkEnds(View(), st1, key);
      cacheSize := cacheSize + table[key].cs;
    }

    /** adjust_ttl and insert_rrl for one set of a new entry; allocation may fail. */
    method FileSlot(key: Name, i: nat, cfg: TtlConfig, ghost open: set<int>, ghost st0: CacheState.State)
      returns (ok: bool)
      requires Filing(View(), st0, key, open) && key in table && table[key].body.Positive? && i in table[key].body.sets
      requires i in open
      modifies this
      ensures enough ==> ok
      ensures key in table && key in old(table)
      ensures Filing(View(), st0, key, if ok then open - {i} else open)
      ensures ok ==>
        Erase(table[key]) == Erase(PutSet(old(table)[key], i, AdjustTtl(old(table)[key].body.sets[i], cfg)))
    {
      hide Filing;
      hide PutSet;
      hide AdjustTtl;
      hide Erase;
      AdjustFiling(View(), st0, key, open, i, cfg);
      table := table[key := PutSet(table[key], i, AdjustTtl(table[key].body.sets[i], cfg))];
      assert View() == CacheState.Touched(old(View()), key, table[key]);
      ok := Allocate(enough);
      if ok {
        ListFiling(View(), st0, key, open, i);
        InsertRrl(key, i);
      }
      FilingKey(View(), st0, key, if ok then open - {i} else open);
    }

    /** The loop of add_cache over the sets of a new entry. */
    method FileSlots(key: Name, cfg: TtlConfig, ghost st0: CacheState.State, ghost c0: Cent)
      returns (ok: bool, ghost open: set<int>)
      requires key in table && table[key].body.Positive? && Shaped(table[key]) && c0 == Erase(table[key])
      requires Filing(View(), st0, key, OpenFrom(c0, 0))
      modifies this
      ensures enough ==> ok
      ensures key in table && Filing(View(), st0, key, open)
      ensures ok ==> open == {} && Erase(table[key]) == Adjusted(c0, cfg)
    {
      var sets, ilim := table[key].body.sets, if table[key].body.ext then NRRTOT else NRRMU;
      FileLimits(table[key], cfg);
      hide Filing;
      hide AdjustedUpTo;
      hide Adjusted;
      hide OpenFrom;
      hide AdjustTtl;
      hide Shaped;
      hide Erase;
      hide PutSet;
      for i := 0 to ilim
        invariant key in table && Filing(View(), st0, key, OpenFrom(c0, i))
        invariant Erase(table[key]) == AdjustedUpTo(c0, i, cfg)
      {
        ghost var c := table[key];
        FileStep(c0, c, i, cfg);
        if i in sets {
          open := OpenFrom(c0, i);
          ok := FileSlot(key, i, cfg, open, st0);
          if !ok { return; }
        }
      }
      ok, open := true, {};
    }

    /** add_cache for an entry whose name is not in the cache. */
    method FileNew(cent: Cent, cfg: TtlConfig) returns (ok: bool)
      requires Valid() && Accounted(cent) && FoldName(cent.qname) !in table
      modifies this
      ensures enough ==> ok
      ensures Valid() && (old(Ordered()) ==> Ordered()) && insertSort == old(insertSort)
      ensures ok ==> OnlyChanged(old(table), table, FoldName(cent.qname))
      ensures ok ==> Erase(table[FoldName(cent.qname)]) == Adjusted(Erase(cent), cfg)
      ensures !ok ==> table == old(table)
    {
      hide CacheState.Valid;
      hide CacheState.Ordered;
      hide Filing;
      hide FoldName;
      hide OnlyChanged;
      hide Adjusted;
      var key := FoldName(cent.qname);
      ok := Allocate(enough);
      if !ok { return; }  // copy_cent failed
      ghost var st0 := View();
      var ce := Erase(cent);
      EraseAccounted(cent);
      EraseTwice(cent);
      hide Accounted;
      StartFiling(st0, key, ce);
      table := table[key := ce];
      assert View() == CacheState.Touched(st0, key, ce);
      ghost var open;
      if ce.body.Positive? {
        ok, open := FileSlots(key, cfg, st0, ce);
      } else {
        ok, open := FileNegative(key, cfg, st0);
      }
      if ok {
        var hashed := Allocate(enough);
        ok := hashed;
      }
      if ok {
        FilingDone(View(), st0, key);
        entNum := entNum + 1;
        cacheSize := cacheSize + table[key].cs;
      } else {
        FilingKey(View(), st0, key, open);
        FilingAborts(View(), st0, key, open);
        FreeCent(key);
      }
    }

    /** adjust_dom_ttl and insert_rrl for a new negative entry. */
    method FileNegative(key: Name, cfg: TtlConfig, ghost st0: CacheState.State) returns (ok: bool, ghost open: set<int>)
      requires key in table && table[key].body.Negative? && Filing(View(), st0, key, {-1})
      modifies this
      ensures enough ==> ok
      ensures key in table && Filing(View(), st0, key, open)
      ensures ok ==> open == {} && key in old(table) && Erase(table[key]) == Adjusted(Erase(old(table)[key]), cfg)
    {
      hide Filing;
      AdjustDomFiling(View(), st0, key, cfg);
      table := table[key := AdjustDom(table[key], cfg)];
      assert View() == CacheState.Touched(old(View()), key, table[key]);
      ok := Allocate(enough);
      open := {-1};
      if ok {
        ListFiling(View(), st0, key, open, -1);
        InsertRrl(key, -1);
        open := open - {-1};
      }
      FilingKey(View(), st0, key, open);
    }

    /** The loop of add_cache that looks for local sets. */
    method FindLocal(key: Name) returns (local: bool)
      requires key in table && Shaped(table[key])
      ensures local == HasLocal(table[key])
    {
      var c := table[key];
      if c.body.Negative? { return false; }
      for i := 0 to NRRTOT
        invariant forall j :: j in c.body.sets && j < i ==> !Local(c.body.sets[j])
      {
        if i in c.body.sets && Local(c.body.sets[i]) { return true; }
      }
      local := false;
    }

    /** add_cache up to the final purge. */
    method FileOrMerge(cent: Cent, now: int, cfg: TtlConfig) returns (o: Outcome)
      requires Valid() && CacheState.TableOk(table) && Accounted(cent)
      modifies this
      ensures enough ==> !o.OutOfMemory?
      ensures Valid() && (old(Ordered()) ==> Ordered()) && insertSort == old(insertSort)
      ensures AddSpec(o, old(table), table, cent, now, cfg)
    {
      var key := FoldName(cent.qname);
      ghost var t0 := table;
      assert key in table ==> Accounted(table[key]) && Shaped(table[key]);
      assert Shaped(cent);
      hide CacheState.Valid;
      hide CacheState.Ordered;
      hide CacheState.TableOk;
      hide Accounted;
      hide Shaped;
      hide FoldName;
      hide OnlyChanged;
      hide HasLocal;
      hide Adjusted;
      hide Erase;
      hide MergeInto;
      hide PartMerged;
      hide Ground;
      hide AddSpec;
      if key in table && cent.body.Positive? {
        var oom := MergeEntry(key, cent, now, cfg);
        o := if oom then OutOfMemory else Added;
        AddSpecMerge(o, t0, table, cent, now, cfg);
        return;
      }
      if key in table {
        var local := FindLocal(key);
        if local {
          o := Refused;
          AddSpecNothing(o, t0, cent, now, cfg);
          return;
        }
        DelCacheEnt(key);
      } else if cent.body.Positive? && cent.numRRs == 0 {
        o := NothingToAdd;
        AddSpecNothing(o, t0, cent, now, cfg);
        return;
      }
      assert table == t0 - {key};
      var ok := FileNew(cent, cfg);
      o := if ok then Added else OutOfMemory;
      AddSpecNew(o, t0, table, cent, now, cfg);
    }

    /** add_cache. `filed` is the state before the final purge. */
    method AddCache(cent: Cent, limit: int, now: int, cfg: TtlConfig)
      returns (o: Outcome, ok: bool, ghost filed: CacheState.State)
      requires Valid() && Accounted(cent)
      modifies this
      ensures enough ==> !o.OutOfMemory?
      ensures Valid() && (old(Ordered()) ==> Ordered())
      ensures CacheState.TableOk(old(table)) && AddSpec(o, old(table), filed.table, cent, now, cfg)
      ensures o.Added? || o.NothingToAdd? ==> PurgeSpec(filed, View(), ok, limit, true, now)
      ensures o.Refused? || o.OutOfMemory? ==> View() == filed && ok
      ensures old(insertSort) ==> insertSort && ok
      ensures ok && (o.Added? || o.NothingToAdd?) ==> cacheSize <= limit || age == []
      ensures !ok ==> |age| >= Pow2(AgeSort.NTMPSORT)
      ensures NoLocalSets(cent) ==> LocalSafe(old(table), table)
      ensures AllConflictFree(old(table)) && (FoldName(cent.qname) in old(table) || ConflictFree(cent)) ==>
        AllConflictFree(table)
    {
      ghost var t0 := table;
      Parts();
      assert Shaped(cent);
      hide CacheState.Valid;
      hide CacheState.Ordered;
      hide CacheState.TableOk;
      hide CacheState.AllListed;
      hide Evicted;
      hide AddSpec;
      hide PurgeSpec;
      hide LocalSafe;
      hide AllConflictFree;
      hide ConflictFree;
      hide NoLocalSets;
      hide FoldName;
      hide Accounted;
      hide Shaped;
      o := FileOrMerge(cent, now, cfg);
      filed, ok := View(), true;
      Parts();
      EvictedReflexive(table);
      if o.Added? || o.NothingToAdd? { ok := PurgeCache(limit, true, now); }
      Parts();
      AddConsequences(o, t0, filed.table, table, cent, now, cfg);
    }

    lemma Parts()
      requires Valid()
      ensures CacheState.TableOk(table) && CacheState.AllListed(table)
    {}

    // ---- The remaining operations

    /** del_cache */
    method DelCache(name: Name)
      requires Valid()
      modifies this
      ensures Valid() && (old(Ordered()) ==> Ordered())
      ensures table == old(table) - {FoldName(name)} && insertSort == old(insertSort)
    {
      hide CacheState.Valid;
      hide CacheState.Ordered;
      var key := FoldName(name);
      if key in table {
        DelCacheEnt(key);
      } else {
        assert table - {key} == table;
      }
    }

    /** The search of lookup_cache, which climbs from the name towards the root. */
    method FindEntry(name: Name, wild: bool) returns (h: Hit)
      ensures FoundBy(table, name, wild, h)
    {
      hide FoldName;
      if FoldName(name) in table { return Hit(Some(FoldName(name)), NoWild); }
      if wild {
        var j := 1;
        while j < |name|
          invariant 1 <= j && NoneBefore(table, name, j)
        {
          if FoldName(name[j..]) in table { return Enclosing(table, name[j..]); }
          j := j + 1;
        }
      }
      h := Hit(None, NoWild);
    }

    /** While no lock is held, other threads may change the cache. */
    method OthersAct()
      requires Valid()
      modifies this
      ensures Valid() && insertSort == old(insertSort)
    {
      var name: Name, delete := *, *;
      if delete { DelCache(name); } else { InvalidateRecord(name); }
    }

    /** lookup_cache: what is returned is a copy of the entry as a purge leaves it, and a
        timed-out entry is deleted instead. `seen` is the table at the time of the last lock:
        the old one, unless something has to be purged and other threads act (if not `alone`)
        before the write lock is taken. */
    method LookupCache(name: Name, wild: bool, now: int, alone: bool)
      returns (r: Option<Cent>, w: Wild, ghost h: Hit, ghost seen: CacheState.Table)
      requires Valid()
      modifies this
      ensures Valid() && (alone && old(Ordered()) ==> Ordered())
      ensures insertSort == old(insertSort)
      ensures FoundBy(seen, name, wild, h) && w == h.wild && (h.key.Some? ==> h.key.value in seen)
      ensures alone || !NeedsPurge(old(table), name, wild, now) ==> seen == old(table)
      ensures h.key.None? ==> r == None && table == seen
      ensures h.key.Some? && GoesAway(seen[h.key.value], true, now) ==> r == None && table == seen - {h.key.value}
      ensures h.key.Some? && !GoesAway(seen[h.key.value], true, now) ==>
        var c := Refreshed(seen, seen[h.key.value], now);
        table == seen[h.key.value := c] && (r.Some? ==> r.value == Erase(c)) && (enough ==> r.Some?)
    {
      seen := table;
      hide CacheState.Valid;
      hide CacheState.Ordered;
      hide FoundBy;
      hide NeedsPurge;
      hide Refreshed;
      hide GoesAway;
      hide PurgeCount;
      hide Erase;
      var hit := FindEntry(name, wild);
      h, w, r := hit, hit.wild, None;
      if hit.key.None? { return; }
      FoundEntry(table, name, wild, hit);
      LookupReady(View(), hit.key.value, now);
      var purge := PurgeCent(hit.key.value, true, true, now);
      if purge != 0 {
        FoundNeeds(table, name, wild, hit, now);
        if !alone { OthersAct(); }
        seen := table;
        hit := FindEntry(name, wild);
        h, w := hit, hit.wild;
        if hit.key.None? { return; }
        FoundEntry(table, name, wild, hit);
        LookupReady(View(), hit.key.value, now);
        purge := PurgeCent(hit.key.value, true, false, now);
        if purge < 0 { return; }
      }
      var copied := Allocate(enough);
      if copied { r := Some(Erase(table[hit.key.value])); }
    }

    /** invalidate_record: everything still agrees, but the age order may be lost. */
    method InvalidateRecord(name: Name)
      requires Valid()
      modifies this
      ensures Valid() && age == old(age) && insertSort == old(insertSort)
      ensures var key := FoldName(name);
        table == if key in old(table) then old(table)[key := Invalidated(old(table)[key])] else old(table)
    {
      hide CacheState.Valid;
      var key := FoldName(name);
      if key !in table { return; }
      var c := table[key];
      InvalidatedValid(View(), key);
      if c.body.Positive? {
        LinksHold(View());
        KeyOfEntry(table, key);
        var sets := c.body.sets;
        for i := 0 to NRRTOT
          invariant sets == map j | j in c.body.sets :: if j < i then InvalidSets(c.body.sets)[j] else c.body.sets[j]
        {
          if i in sets { sets := sets[i := sets[i].(ts := 0, flags := sets[i].flags - {CF_AUTH})]; }
        }
        assert sets == InvalidSets(c.body.sets);
        table := table[key := c.(body := c.body.(sets := sets), flags := c.flags - {DF_AUTH})];
      } else {
        table := table[key := c.(body := c.body.(ts := 0), flags := c.flags - {DF_AUTH})];
      }
      assert View() == CacheState.Touched(old(View()), key, Invalidated(c));
    }

    /** read_disk_cache, after the file has been parsed: insertion sort is off while entries
        are added, and the age list is sorted once at the end. Only a list that has grown too
        long to sort ends the program. */
    method LoadEntries(cents: seq<Cent>, limit: int, now: int, cfg: TtlConfig) returns (ok: bool)
      requires Valid()
      requires forall i :: 0 <= i < |cents| ==> Accounted(cents[i])
      modifies this
      ensures Valid() && if ok then Ordered() && insertSort else |age| >= Pow2(AgeSort.NTMPSORT)
    {
      hide CacheState.Valid;
      hide CacheState.Ordered;
      hide Accounted;
      hide AddSpec;
      hide PurgeSpec;
      LoadStarts(View());
      insertSort := false;
      for i := 0 to |cents|
        invariant Valid() && Ordered()
      {
        var o;
        ghost var filed;
        o, ok, filed := AddCache(cents[i], limit, now, cfg);
        if !ok { return; }
      }
      ok := true;
      if !insertSort { ok := SortAgeList(); }
    }

    // ---- Runs

    /** One operation from outside. */
    method Perform(op: Op, now: int, cfg: TtlConfig)
      requires Valid() && OpOk(op)
      modifies this
      ensures Valid() && (old(insertSort) ==> insertSort)
      ensures old(Ordered()) && !op.Invalidate? ==> Ordered()
      ensures SparesLocal(op) ==> LocalSafe(old(table), table)
      ensures AllConflictFree(old(table)) && Harmless(op) ==> AllConflictFree(table)
    {
      ghost var st0 := View();
      hide CacheState.Valid;
      hide CacheState.Ordered;
      hide LocalSafe;
      hide AllConflictFree;
      hide Evicted;
      hide AddSpec;
      hide FoundBy;
      hide GoesAway;
      hide Refreshed;
      hide Accounted;
      hide NoLocalSets;
      hide ConflictFree;
      hide Shaped;
      hide FoldName;
      hide Invalidated;
      hide Erase;
      match op {
        case Add(cent, limit) =>
          OpCent(cent);
          ghost var filed;
          var o, ok;
          o, ok, filed := AddCache(cent, limit, now, cfg);
        case Lookup(name, wild) =>
          var r, w;
          ghost var h, seen;
          r, w, h, seen := LookupCache(name, wild, now, true);
          LookupSafe(st0, View(), h, now);
        case Delete(name) =>
          DelCache(name);
          DeleteConflictFree(st0.table, FoldName(name));
        case Purge(sz, lazy) =>
          var ok := PurgeCache(sz, lazy, now);
          PurgeSafe(st0, View());
        case Invalidate(name) =>
          InvalidateRecord(name);
          InvalidateConflictFree(st0, View(), FoldName(name));
      }
    }

    /** Every run, at any times: all structures agree in every state; the age list stays sorted
        unless a record is invalidated; local sets survive unless they are deleted, invalidated
        or replaced by local ones; and no entry gets conflicting sets unless it is added with
        them. */
    method Run(ops: seq<Op>, times: seq<int>, cfg: TtlConfig)
      requires Valid() && insertSort && |times| == |ops|
      requires forall i :: 0 <= i < |ops| ==> OpOk(ops[i])
      modifies this
      ensures Valid() && insertSort
      ensures old(Ordered()) && (forall i :: 0 <= i < |ops| ==> !ops[i].Invalidate?) ==> Ordered()
      ensures (forall i :: 0 <= i < |ops| ==> SparesLocal(ops[i])) ==> LocalSafe(old(table), table)
      ensures AllConflictFree(old(table)) && (forall i :: 0 <= i < |ops| ==> Harmless(ops[i])) ==> AllConflictFree(table)
    {
      hide CacheState.Valid;
      hide CacheState.Ordered;
      hide LocalSafe;
      hide AllConflictFree;
      hide OpOk;
      hide SparesLocal;
      hide Harmless;
      LocalSafeItself(table);
      ghost var t0 := table;
      for i := 0 to |ops|
        invariant Valid() && insertSort
        invariant old(Ordered()) && (forall k :: 0 <= k < i ==> !ops[k].Invalidate?) ==> Ordered()
        invariant (forall k :: 0 <= k < i ==> SparesLocal(ops[k])) ==> LocalSafe(t0, table)
        invariant AllConflictFree(t0) && (forall k :: 0 <= k < i ==> Harmless(ops[k])) ==> AllConflictFree(table)
      {
        ghost var t1 := table;
        Perform(ops[i], times[i], cfg);
        if LocalSafe(t0, t1) && LocalSafe(t1, table) { LocalSafeTrans(t0, t1, table); }
      }
    }
  }
}
