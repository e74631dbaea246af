/** Inputs on which the cache does less than one might expect. The lemmas named in the comments
    say exactly when this happens. */
module CacheExamples {
  import opened Names
  import opened RRTypes
  import opened CacheEntry
  import opened CacheMerge
  import opened CacheErase
  import opened CachePurge
  import opened CacheLookup
  import opened CacheAdd
  import opened CacheState
  import DiskFormat
  import DiskRoundTrip
  import DiskCache

  const NAME_A: Name := [[97]]
  const NAME_B: Name := [[98]]

  lemma ExampleNames()
    ensures ValidName(NAME_A) && ValidName(NAME_B) && FoldName(NAME_A) == NAME_A && FoldName(NAME_B) == NAME_B
    ensures |Wire(NAME_A)| == |Wire(NAME_B)| == 3
  {
    assert forall b: byte :: FoldLabel([b]) == [Lower(b)] by {
      forall b: byte ensures FoldLabel([b]) == [Lower(b)] {
        assert [b][1..] == [];
        assert FoldLabel([]) == [];
      }
    }
    assert forall l: Label :: FoldName([l]) == [FoldLabel(l)] by {
      forall l: Label ensures FoldName([l]) == [FoldLabel(l)] {
        assert [l][1..] == [];
        assert FoldName([]) == [];
      }
    }
    assert NAME_A[1..] == [] && NAME_B[1..] == [];
    assert WirePrefix(NAME_A) == [1] + [97] + WirePrefix([]);
    assert WirePrefix(NAME_B) == [1] + [98] + WirePrefix([]);
  }

  function Positive(flags: set<DFlag>): (c: Cent)
    ensures Accounted(c) && c.body == Body.Positive(map[], false) && c.flags == flags && c.qname == NAME_A
  {
    ExampleNames();
    InitCent(NAME_A, 0, 0, false, flags)
  }

  function NegativeAt(n: Name, ts: int, flags: set<DFlag>): (c: Cent)
    requires n == NAME_A || n == NAME_B
    ensures Accounted(c) && c.body == Negative(None, 300, ts) && c.flags == flags && c.qname == n
  {
    ExampleNames();
    InitCent(n, 300, ts, true, flags)
  }

  lemma FiledUnder(c: Cent)
    requires Accounted(c) && (c.qname == NAME_A || c.qname == NAME_B)
    ensures FoldName(c.qname) == c.qname && TableOk(map[c.qname := c])
  {
    ExampleNames();
    hide Accounted;
    hide FoldName;
  }

  /** A local entry is replaced by a negative one (see CacheAdd.LocalEntryReplaced). */
  lemma LocalEntryLost(now: int, cfg: TtlConfig)
    ensures var t0, cent := map[NAME_A := Positive({DF_LOCAL})], NegativeAt(NAME_A, 1000, {});
      && TableOk(t0)
      && exists t: Table :: AddSpec(Added, t0, t, cent, now, cfg) && NAME_A in t && t[NAME_A].body.Negative? && DF_LOCAL !in t[NAME_A].flags
  {
    var t0, cent := map[NAME_A := Positive({DF_LOCAL})], NegativeAt(NAME_A, 1000, {});
    FiledUnder(t0[NAME_A]);
    FiledUnder(cent);
    var t := t0[NAME_A := Adjusted(Erase(cent), cfg)];
    assert AddSpec(Added, t0, t, cent, now, cfg);
  }

  /** A local negative entry becomes positive (see CacheAdd.LocalNegativeOverridden). */
  lemma LocalNegativeLost(now: int, cfg: TtlConfig)
    ensures var t0 := map[NAME_A := NegativeAt(NAME_A, 1000, {DF_LOCAL})];
      var cent := AddSet(Positive({}), RRMUINDEX_NS, 300, 1000, {CF_NEGATIVE});
      && TableOk(t0) && Accounted(cent)
      && exists t: Table :: AddSpec(Added, t0, t, cent, now, cfg) && NAME_A in t && t[NAME_A].body.Positive?
  {
    var t0 := map[NAME_A := NegativeAt(NAME_A, 1000, {DF_LOCAL})];
    var cent := AddSet(Positive({}), RRMUINDEX_NS, 300, 1000, {CF_NEGATIVE});
    AddSetAccounted(Positive({}), RRMUINDEX_NS, 300, 1000, {CF_NEGATIVE});
    FiledUnder(t0[NAME_A]);
    FiledUnder(cent);
    var m := MergeInto(t0, t0[NAME_A], cent, now, cfg);
    MergedErased(t0, t0[NAME_A], cent, now, cfg);
    var t := t0[NAME_A := m];
    assert cent.body.Positive? && RRMUINDEX_NS in cent.body.sets && Intrudes(cent.body.sets[RRMUINDEX_NS]);
    hide *;
    assert FoldName(cent.qname) == NAME_A;
    AddedByMerge(t0, t, cent, now, cfg);
    LocalNegativeOverridden(t0, t, cent, now, cfg);
  }

  lemma AddedByMerge(t0: Table, t: Table, cent: Cent, now: int, cfg: TtlConfig)
    requires TableOk(t0) && FoldName(cent.qname) in t0 && cent.body.Positive? && Accounted(t0[FoldName(cent.qname)])
    requires t == t0[FoldName(cent.qname) := MergeInto(t0, t0[FoldName(cent.qname)], cent, now, cfg)]
    requires Erase(t[FoldName(cent.qname)]) == t[FoldName(cent.qname)]
    ensures AddSpec(Added, t0, t, cent, now, cfg)
  {
    hide MergeInto;
    hide Erase;
    hide Accounted;
  }

  /** The merge only depends on, and only produces, entries without pointers. */
  lemma MergedErased(t: Table, c: Cent, cent: Cent, now: int, cfg: TtlConfig)
    requires Accounted(c) && cent.body.Positive?
    ensures Erase(MergeInto(t, c, cent, now, cfg)) == MergeInto(t, c, cent, now, cfg)
  {
    var g := Ground(t, c, now);
    EraseTwice(Refreshed(t, c, now));
    EraseMergeUpTo(g, cent, NRRTOT, now, cfg);
    hide MergeUpTo;
    hide Ground;
    WithRefsErased(MergeUpTo(g, cent, NRRTOT, now, cfg), cent);
  }

  lemma {:induction false} EraseMergeUpTo(c: Cent, cent: Cent, k: nat, now: int, cfg: TtlConfig)
    requires k <= NRRTOT && Accounted(c) && cent.body.Positive? && Erase(c) == c
    ensures Erase(MergeUpTo(c, cent, k, now, cfg)) == MergeUpTo(c, cent, k, now, cfg)
  {
    hide Accounted;
    hide MergeSlot;
    hide Erase;
    if k > 0 {
      EraseMergeUpTo(c, cent, k - 1, now, cfg);
      if k - 1 in cent.body.sets {
        EraseMergeSlot(MergeUpTo(c, cent, k - 1, now, cfg), k - 1, cent.body.sets[k - 1], now, cfg);
      }
    }
  }

  /** An entry with both an address and an alias. */
  function AddressAndAlias(): (c: Cent)
    ensures Accounted(c) && c.qname == NAME_A && c.body.Positive? && Erase(c) == c && !ConflictFree(c)
  {
    var c0 := Positive({});
    AddSetAccounted(c0, RRMUINDEX_A, 300, 1000, {});
    var c1 := AddSet(c0, RRMUINDEX_A, 300, 1000, {});
    AddSetAccounted(c1, RRMUINDEX_CNAME, 300, 1000, {});
    var c := AddSet(c1, RRMUINDEX_CNAME, 300, 1000, {});
    assert RRMUINDEX_A in c.body.sets && RRMUINDEX_CNAME in c.body.sets && Conflict(RRMUINDEX_A, RRMUINDEX_CNAME);
    c
  }

  /** A new entry with both an alias and an address is filed with this conflict (see
      CacheAdd.AddConflictFree). */
  lemma ConflictStays(now: int, cfg: TtlConfig)
    ensures TableOk(map[]) && AllConflictFree(map[])
    ensures exists t :: AddSpec(Added, map[], t, AddressAndAlias(), now, cfg) && TableOk(t) && !AllConflictFree(t)
  {
    var cent := AddressAndAlias();
    var a := Adjusted(cent, cfg);
    AdjustedAccounted(cent, cfg);
    AdjustedErased(cent, cfg);
    FiledUnder(cent);
    FiledUnder(a);
    hide *;
    FiledNew(map[], map[NAME_A := a], cent, now, cfg);
    AccountedShaped(cent);
    assert TableOk(map[]) && AllConflictFree(map[]) by { EmptyTable(); }
    AddConflictFree(Added, map[], map[NAME_A := a], cent, now, cfg);
  }

  lemma EmptyTable()
    ensures TableOk(map[]) && AllConflictFree(map[])
  {}

  lemma AccountedShaped(c: Cent)
    requires Accounted(c)
    ensures Shaped(c)
  {}

  lemma FiledNew(t0: Table, t: Table, cent: Cent, now: int, cfg: TtlConfig)
    requires TableOk(t0) && FoldName(cent.qname) !in t0 && Erase(cent) == cent && Erase(Adjusted(cent, cfg)) == Adjusted(cent, cfg)
    requires t == t0[FoldName(cent.qname) := Adjusted(cent, cfg)]
    ensures AddSpec(Added, t0, t, cent, now, cfg)
  {
    hide Adjusted;
    hide Erase;
  }

  lemma AdjustedErased(c: Cent, cfg: TtlConfig)
    requires Erase(c) == c && c.body.Positive?
    ensures Erase(Adjusted(c, cfg)) == Adjusted(c, cfg)
  {
    var a := AdjustSets(c.body.sets, NRRTOT, cfg);
    forall i | i in a ensures a[i].lent == None { assert EraseSets(c.body.sets)[i].lent == None; }
    assert EraseSets(a) == a;
  }

  lemma AdjustedAccounted(c: Cent, cfg: TtlConfig)
    requires Accounted(c) && c.body.Positive?
    ensures Accounted(Adjusted(c, cfg)) && Adjusted(c, cfg).qname == c.qname
  {
    AdjustedSize(c.body.sets, NRRTOT, cfg);
  }

  lemma {:induction false} AdjustedSize(sets: map<nat, RRSet>, n: nat, cfg: TtlConfig)
    ensures SlotsSize(AdjustSets(sets, NRRTOT, cfg), n) == SlotsSize(sets, n)
    ensures SlotsUsed(AdjustSets(sets, NRRTOT, cfg), n) == SlotsUsed(sets, n)
  {
    if n > 0 { AdjustedSize(sets, n - 1, cfg); }
  }

  // ---- invalidate_record

  /** A cache with two negative entries, the one for NAME_B being younger. */
  function TwoEntries(): (st: State)
  {
    var a, b := NegativeAt(NAME_A, 100, {}), NegativeAt(NAME_B, 200, {});
    State(map[NAME_A := a.(body := a.body.(lent := Some(0))), NAME_B := b.(body := b.body.(lent := Some(1)))],
          [Lent(0, NAME_A, -1), Lent(1, NAME_B, -1)], a.cs + b.cs, 2, true, 2)
  }

  lemma TwoEntriesValid()
    ensures Valid(TwoEntries()) && Ordered(TwoEntries())
  {
    TwoEntriesCounted();
    TwoEntriesLinked();
    hide *;
    assert Valid(TwoEntries()) by { ValidParts(TwoEntries()); }
  }

  lemma ValidParts(st: State)
    requires Books(st) && Links(st) && AllListed(st.table)
    ensures Valid(st)
  {
    hide Books;
    hide Links;
    hide AllListed;
  }

  lemma TwoEntriesCounted()
    ensures Books(TwoEntries())
  {
    var st := TwoEntries();
    ExampleNames();
    var a, b := st.table[NAME_A], st.table[NAME_B];
    RelentAccounted(NegativeAt(NAME_A, 100, {}), 0);
    RelentAccounted(NegativeAt(NAME_B, 200, {}), 1);
    hide NegativeAt;
    hide Accounted;
    hide FoldName;
    hide WirePrefix;
    TwoSizes(a, b);
  }

  lemma RelentAccounted(c: Cent, id: nat)
    requires Accounted(c) && c.body.Negative?
    ensures Accounted(c.(body := c.body.(lent := Some(id))))
  {}

  lemma TwoSizes(a: Cent, b: Cent)
    ensures var t := map[NAME_A := a, NAME_B := b]; SumCs(t) == a.cs + b.cs && |t| == 2
  {
    var t := map[NAME_A := a, NAME_B := b];
    SumCsUpdate(map[], NAME_A, a);
    SumCsUpdate(map[NAME_A := a], NAME_B, b);
    assert SumCs(map[]) == 0;
    hide SumCs;
    assert t == map[][NAME_A := a][NAME_B := b];
    assert t.Keys == {NAME_A, NAME_B} && |t| == |t.Keys|;
  }

  lemma TwoEntriesLinked()
    ensures var st := TwoEntries(); Links(st) && AllListed(st.table) && Ordered(st)
  {
    var st := TwoEntries();
    hide Accounted;
    forall k | k in st.table ensures k == NAME_A || k == NAME_B {}
    assert forall n <- st.age :: n == st.age[0] || n == st.age[1];
    assert EntryListed(st.table[NAME_A]) && EntryListed(st.table[NAME_B]);
    assert Lent(0, NAME_A, -1) in st.age && Lent(1, NAME_B, -1) in st.age;
    assert TsOf(st.table)(st.age[0]) == 100 && TsOf(st.table)(st.age[1]) == 200;
  }

  /** Invalidating the younger record breaks the age order (see CacheLookup.InvalidatedOrder). */
  lemma OrderLost()
    ensures Valid(TwoEntries()) && Ordered(TwoEntries()) && NAME_B in TwoEntries().table
    ensures !Ordered(Touched(TwoEntries(), NAME_B, Invalidated(TwoEntries().table[NAME_B])))
  {
    TwoEntriesValid();
    var st := TwoEntries();
    var st' := Touched(st, NAME_B, Invalidated(st.table[NAME_B]));
    assert TsOf(st'.table)(st'.age[0]) == 100 && TsOf(st'.table)(st'.age[1]) == 0;
  }

  // ---- The file

  /** A local entry whose address record is not marked local loses the record on disk (see
      DiskCache.RecordsBack). */
  lemma RecordLostOnDisk()
    ensures var c := AddRR(AddSet(Positive({DF_LOCAL}), RRMUINDEX_A, 300, 1000, {}), RRMUINDEX_A, [192, 0, 2, 1]);
      && c.body.Positive? && RRMUINDEX_A in c.body.sets && c.body.sets[RRMUINDEX_A].rrs == [[192, 0, 2, 1]]
      && DiskCache.Named([c])
      && var l := DiskCache.ReadFile(DiskCache.WriteFile([c]));
         && l.complete && |l.cents| == 1 && l.cents[0].body.Positive?
         && RRMUINDEX_A in l.cents[0].body.sets && l.cents[0].body.sets[RRMUINDEX_A].rrs == []
  {
    var c := AddRR(AddSet(Positive({DF_LOCAL}), RRMUINDEX_A, 300, 1000, {}), RRMUINDEX_A, [192, 0, 2, 1]);
    assert RRMUINDEX_A in DiskFormat.SetsOf(c);
    assert DiskRoundTrip.Storable(c);
    assert DiskCache.ToDisk(c) && [c][1..] == [];
    assert DiskCache.Saved([c]) == [c] + DiskCache.Saved([]);
    DiskCache.FileBack([c]);
    assert DiskRoundTrip.Rebuilt(c, DiskCache.ReadFile(DiskCache.WriteFile([c])).cents[0]);
  }
}
