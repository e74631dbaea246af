/** Finding entries, and what lookup_cache and invalidate_record (cache.c) do to them. */
module CacheLookup {
  import opened Names
  import opened RRTypes
  import opened CacheEntry
  import opened CacheMerge
  import opened CachePurge
  import opened CacheState
  import opened CacheSteps
  import AgeSort

  // ---- The wildcard search

  /** How an entry matched: itself, an enclosing negative entry, a wildcard record, or an
      enclosing local entry (name error). */
  datatype Wild = NoWild | WNeg | WWild | WLocNerr

  datatype Hit = Hit(key: Option<Name>, wild: Wild)

  const STAR: seq<byte> := [42]

  /** What the entry of an enclosing domain says about a name that is not cached. */
  function Enclosing(t: Table, nm: Name): (h: Hit)
    requires FoldName(nm) in t
  {
    var c := t[FoldName(nm)];
    if c.body.Negative? then Hit(Some(FoldName(nm)), WNeg)
    else if DF_WILD in c.flags then
      if FoldName([STAR] + nm) in t then Hit(Some(FoldName([STAR] + nm)), WWild) else Hit(None, NoWild)
    else if DF_LOCAL in c.flags then Hit(Some(FoldName(nm)), WLocNerr)
    else Hit(None, NoWild)
  }

  /** No domain between name and its ancestor with labels j.. is cached. */
  ghost predicate NoneBefore(t: Table, name: Name, j: nat)
  {
    forall i :: 1 <= i < j && i < |name| ==> FoldName(name[i..]) !in t
  }

  /** The closest enclosing domain that is cached decides; the root domain is not asked. */
  ghost predicate FoundBy(t: Table, name: Name, wild: bool, h: Hit)
  {
    if FoldName(name) in t then h == Hit(Some(FoldName(name)), NoWild)
    else if wild && exists j :: 1 <= j < |name| && FoldName(name[j..]) in t && NoneBefore(t, name, j) then
      exists j :: 1 <= j < |name| && FoldName(name[j..]) in t && NoneBefore(t, name, j) && h == Enclosing(t, name[j..])
    else h == Hit(None, NoWild)
  }

  /** A search has only one outcome. */
  lemma FoundOnce(t: Table, name: Name, wild: bool, h: Hit, h': Hit)
    requires FoundBy(t, name, wild, h) && FoundBy(t, name, wild, h')
    ensures h == h'
  {
    if FoldName(name) !in t && wild && exists j :: 1 <= j < |name| && FoldName(name[j..]) in t && NoneBefore(t, name, j) {
      var j :| 1 <= j < |name| && FoldName(name[j..]) in t && NoneBefore(t, name, j) && h == Enclosing(t, name[j..]);
      var k :| 1 <= k < |name| && FoldName(name[k..]) in t && NoneBefore(t, name, k) && h' == Enclosing(t, name[k..]);
      hide Enclosing;
      assert j == k;
    }
  }

  /** A look-up finds an entry with something to purge in it. */
  ghost predicate NeedsPurge(t: Table, name: Name, wild: bool, now: int)
  {
    exists h :: FoundBy(t, name, wild, h) && h.key.Some? && h.key.value in t && PurgeCount(t, t[h.key.value], true, now) != 0
  }

  lemma FoundNeeds(t: Table, name: Name, wild: bool, h: Hit, now: int)
    requires FoundBy(t, name, wild, h) && h.key.Some? && h.key.value in t && PurgeCount(t, t[h.key.value], true, now) != 0
    ensures NeedsPurge(t, name, wild, now)
  {}

  lemma FoundEntry(t: Table, name: Name, wild: bool, h: Hit)
    requires FoundBy(t, name, wild, h) && h.key.Some?
    ensures h.key.value in t
  {}

  /** The wildcard name fits wherever the name itself fits. */
  lemma {:induction false} WildcardFits(name: Name, j: nat)
    requires ValidName(name) && 1 <= j < |name|
    ensures ValidName([STAR] + name[j..]) && |Wire([STAR] + name[j..])| <= |Wire(name)|
  {
    SuffixWire(name, j);
    var w := [STAR] + name[j..];
    assert w[1..] == name[j..];
    assert ValidLabels(w) by {
      forall i | 0 <= i < |w| ensures 1 <= |w[i]| <= 63 { if i > 0 { assert w[i] == name[j..][i - 1]; } }
    }
    assert |Wire(w)| == 2 + |Wire(name[j..])|;
  }

  lemma {:induction false} SuffixWire(name: Name, j: nat)
    requires ValidLabels(name) && j <= |name|
    ensures ValidLabels(name[j..]) && |Wire(name[j..])| + 2 * j <= |Wire(name)|
  {
    if j == 0 {
      assert name[0..] == name;
    } else {
      SuffixWire(name[1..], j - 1);
      assert name[1..][j - 1..] == name[j..];
      assert |Wire(name)| >= 2 + |Wire(name[1..])|;
    }
  }

  // ---- purge_cent that finds nothing

  lemma {:induction false} SameCountSameSlots(sets: map<nat, RRSet>, gone: set<nat>, n: nat)
    ensures SlotsUsed(sets - gone, n) <= SlotsUsed(sets, n)
    ensures SlotsUsed(sets - gone, n) == SlotsUsed(sets, n) ==> forall i :: i in sets && i < n ==> i !in gone
  {
    if n > 0 { SameCountSameSlots(sets, gone, n - 1); }
  }

  /** When purge_cent returns 0, there is nothing that a real run would change. */
  lemma NothingToPurge(t: Table, c: Cent, delete: bool, now: int)
    requires Accounted(c) && PurgeCount(t, c, delete, now) == 0
    ensures Refreshed(t, c, now) == c
  {
    PurgedItemsNonNegative(c, now);
    PurgedFields(c, now);
    assert StaleRefs(t, c, now) == 0 && PurgedItems(c, now) == 0;
    if c.body.Positive? {
      var g := ExpiredSlots(c, now);
      SameCountSameSlots(c.body.sets, g, NRRTOT);
      assert Purged(c, now).numRRs == DropSlots(c, g).numRRs;
      DropSlotsNone(c, g);
    }
    hide Stale;
  }

  // ---- invalidate_record

  function InvalidSets(sets: map<nat, RRSet>): (r: map<nat, RRSet>)
    ensures r.Keys == sets.Keys
  {
    map i | i in sets :: sets[i].(ts := 0, flags := sets[i].flags - {CF_AUTH})
  }

  function Invalidated(c: Cent): (c': Cent)
  {
    var b := match c.body
      case Negative(_, _, _) => c.body.(ts := 0)
      case Positive(sets, _) => c.body.(sets := InvalidSets(sets));
    c.(body := b, flags := c.flags - {DF_AUTH})
  }

  lemma {:induction false} InvalidSize(sets: map<nat, RRSet>, n: nat)
    ensures SlotsSize(InvalidSets(sets), n) == SlotsSize(sets, n) && SlotsUsed(InvalidSets(sets), n) == SlotsUsed(sets, n)
  {
    if n > 0 { InvalidSize(sets, n - 1); }
  }

  lemma InvalidatedEntry(c: Cent)
    requires Accounted(c)
    ensures Accounted(Invalidated(c)) && Invalidated(c).qname == c.qname && Invalidated(c).cs == c.cs
    ensures forall i :: EntryLent(Invalidated(c), i) == EntryLent(c, i)
    ensures forall i :: Purgeable(Invalidated(c), i) == Purgeable(c, i)
    ensures forall i :: EntryTs(Invalidated(c), i) == 0
  {
    if c.body.Positive? { InvalidSize(c.body.sets, NRRTOT); }
  }

  lemma InvalidatedLinks(st: State, key: Name, c: Cent)
    requires Links(st) && key in st.table && forall i :: EntryLent(c, i) == EntryLent(st.table[key], i)
    ensures Links(Touched(st, key, c))
  {
    hide EntryLent;
    var st' := Touched(st, key, c);
    forall n | n in st'.age ensures n.key in st'.table && EntryLent(st'.table[n.key], n.idx) == Some(n.id) {
      assert EntryLent(st.table[n.key], n.idx) == Some(n.id);
    }
    forall k, i | k in st'.table && EntryLent(st'.table[k], i).Some?
      ensures Lent(EntryLent(st'.table[k], i).value, k, i) in st'.age
    {
      assert EntryLent(st'.table[k], i) == EntryLent(st.table[k], i);
    }
  }

  lemma InvalidatedListed(c: Cent)
    requires Accounted(c) && EntryListed(c)
    ensures EntryListed(Invalidated(c))
  {
    InvalidatedEntry(c);
    hide EntryLent;
    hide Purgeable;
    hide Invalidated;
  }

  /** The counters and the links are as good as before ... */
  lemma InvalidatedValid(st: State, key: Name)
    requires Valid(st) && key in st.table
    ensures Valid(Touched(st, key, Invalidated(st.table[key])))
  {
    hide Links;
    hide SumCs;
    hide Invalidated;
    hide EntryLent;
    hide Purgeable;
    hide EntryListed;
    hide Accounted;
    var c := st.table[key];
    InvalidatedEntry(c);
    InvalidatedListed(c);
    InvalidatedLinks(st, key, Invalidated(c));
    TableOkUpdate(st.table, key, Invalidated(c));
    SumCsUpdate(st.table, key, Invalidated(c));
  }

  /** ... but the age order is kept exactly when only records that were invalidated before
      are older than those of the entry. */
  lemma InvalidatedOrder(st: State, key: Name)
    requires Valid(st) && Ordered(st) && st.insertSort && key in st.table
    requires forall n :: n in st.age ==> NodeTs(st.table, n) >= 0
    ensures Ordered(Touched(st, key, Invalidated(st.table[key]))) <==>
      forall i, j :: 0 <= i < j < |st.age| && st.age[j].key == key && st.age[i].key != key ==> NodeTs(st.table, st.age[i]) == 0
  {
    var c := st.table[key];
    var st' := Touched(st, key, Invalidated(c));
    InvalidatedEntry(c);
    forall n | n in st.age
      ensures TsOf(st'.table)(n) == if n.key == key then 0 else TsOf(st.table)(n)
    {
    }
    hide Invalidated;
    hide Valid;
    forall i | 0 <= i < |st.age| ensures NodeTs(st.table, st.age[i]) >= 0 && st.age[i] in st.age {}
    if Ordered(st') {
      forall i, j | 0 <= i < j < |st.age| && st.age[j].key == key && st.age[i].key != key
        ensures NodeTs(st.table, st.age[i]) == 0
      {
        assert TsOf(st'.table)(st.age[i]) <= TsOf(st'.table)(st.age[j]);
      }
    }
    if forall i, j :: 0 <= i < j < |st.age| && st.age[j].key == key && st.age[i].key != key ==> NodeTs(st.table, st.age[i]) == 0 {
      forall i, j | 0 <= i < j < |st.age| ensures TsOf(st'.table)(st.age[i]) <= TsOf(st'.table)(st.age[j]) {
        assert TsOf(st.table)(st.age[i]) <= TsOf(st.table)(st.age[j]);
      }
    }
  }
}
