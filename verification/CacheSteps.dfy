/** The primitive operations keep the redundant structures of the cache in agreement. */
module CacheSteps {
  import opened Names
  import opened RRTypes
  import opened CacheEntry
  import opened CacheState
  import AgeSort

  lemma DropSetVacates(c: Cent, idx: nat)
    requires c.body.Positive? && idx in c.body.sets
    ensures Vacates(c, DropSet(c, idx), idx)
    ensures forall i :: i != idx ==> Purgeable(DropSet(c, idx), i) == Purgeable(c, i)
    ensures !Purgeable(DropSet(c, idx), idx)
  {}

  lemma AddSetVacates(c: Cent, idx: nat, ttl: int, ts: int, flags: set<CFlag>)
    requires idx !in AsPositive(c).sets
    ensures Vacates(c, AddSet(c, idx, ttl, ts, flags), -1)
    ensures EntryLent(AddSet(c, idx, ttl, ts, flags), idx) == None
    ensures forall i :: i != idx && i != -1 ==> Purgeable(AddSet(c, idx, ttl, ts, flags), i) == Purgeable(c, i)
    ensures !Purgeable(AddSet(c, idx, ttl, ts, flags), -1)
  {}

  lemma TableOkUpdate(t: Table, key: Name, c: Cent)
    requires TableOk(t) && Accounted(c) && FoldName(c.qname) == key
    ensures TableOk(t[key := c])
  {
    hide Accounted;
    hide FoldName;
  }

  /** Only the entry under key changes, and it stays accounted. */
  lemma WorkingUpdate(st: State, st': State, key: Name, c: Cent, open: set<int>, open': set<int>, pending: int)
    requires Working(st, key, open, pending)
    requires Accounted(c) && c.qname == st.table[key].qname && ListedExcept(c, open')
    requires Links(st') && st'.table == st.table[key := c] && st'.size == st.size && st'.num == st.num
    ensures Working(st', key, open', pending)
  {
    hide Accounted;
    hide ListedExcept;
    hide EntryListed;
    hide Links;
    hide SumCs;
    TableOkUpdate(st.table, key, c);
    SumCsUpdate(st.table, key, c);
  }

  /** del_cent_rrset_by_index inside an operation on the entry. */
  lemma DelSetWorking(st: State, key: Name, open: set<int>, pending: int, idx: nat)
    requires Working(st, key, open, pending)
    requires st.table[key].body.Positive? && idx in st.table[key].body.sets
    ensures Working(DelSet(st, key, idx), key, open - {idx}, pending)
    ensures Ordered(st) ==> Ordered(DelSet(st, key, idx))
    ensures DelSet(st, key, idx).table == st.table[key := DropSet(st.table[key], idx)]
  {
    hide Accounted;
    hide SumCs;
    hide Without;
    var c := st.table[key];
    DropSetAccounted(c, idx);
    DropSetListed(c, open, idx);
    ReplacedLinks(st, key, DropSet(c, idx), idx);
    if Ordered(st) { ReplacedOrdered(st, key, DropSet(c, idx), idx); }
    hide ListedExcept;
    hide Links;
    WorkingUpdate(st, DelSet(st, key, idx), key, DropSet(c, idx), open, open - {idx}, pending);
  }

  lemma DropSetListed(c: Cent, open: set<int>, idx: nat)
    requires c.body.Positive? && idx in c.body.sets && ListedExcept(c, open)
    ensures ListedExcept(DropSet(c, idx), open - {idx}) && Vacates(c, DropSet(c, idx), idx)
  {
    DropSetVacates(c, idx);
    hide EntryLent;
    hide Purgeable;
    hide DropSet;
  }

  /** add_cent_rrset_by_index: the new set has no node yet. */
  lemma NewSetWorking(st: State, key: Name, pending: int, idx: nat, ttl: int, ts: int, flags: set<CFlag>)
    requires Working(st, key, {}, pending) && idx < NRRTOT && idx !in AsPositive(st.table[key]).sets
    ensures Working(NewSet(st, key, idx, ttl, ts, flags), key, {idx as int}, pending)
    ensures Ordered(st) ==> Ordered(NewSet(st, key, idx, ttl, ts, flags))
  {
    hide Accounted;
    hide SumCs;
    hide Without;
    hide AsPositive;
    var c := st.table[key];
    var c' := AddSet(c, idx, ttl, ts, flags);
    AddSetAccounted(c, idx, ttl, ts, flags);
    AddSetListed(c, idx, ttl, ts, flags);
    hide AddSet;
    ReplacedLinks(st, key, c', -1);
    if Ordered(st) { ReplacedOrdered(st, key, c', -1); }
    hide ListedExcept;
    hide Links;
    WorkingUpdate(st, NewSet(st, key, idx, ttl, ts, flags), key, c', {}, {idx as int}, pending);
  }

  lemma AddSetListed(c: Cent, idx: nat, ttl: int, ts: int, flags: set<CFlag>)
    requires idx !in AsPositive(c).sets && ListedExcept(c, {})
    ensures var c' := AddSet(c, idx, ttl, ts, flags);
      ListedExcept(c', {idx as int}) && Vacates(c, c', -1) && c'.qname == c.qname
  {
    AddSetVacates(c, idx, ttl, ts, flags);
    var c' := AddSet(c, idx, ttl, ts, flags);
    assert c'.qname == c.qname;
    hide EntryLent;
    hide Purgeable;
    hide AddSet;
  }

  /** A change that concerns neither the nodes nor what belongs on the list. */
  ghost predicate Unlisted(c0: Cent, c: Cent)
  {
    SameNodes(c0, c) && forall i :: Purgeable(c, i) == Purgeable(c0, i)
  }

  lemma UnlistedListed(c0: Cent, c: Cent, open: set<int>)
    requires Unlisted(c0, c) && ListedExcept(c0, open)
    ensures ListedExcept(c, open)
  {
    hide EntryLent;
    hide EntryTs;
    hide Purgeable;
  }

  lemma TouchedWorking(st: State, key: Name, open: set<int>, pending: int, c: Cent)
    requires Working(st, key, open, pending)
    requires Accounted(c) && c.qname == st.table[key].qname && Unlisted(st.table[key], c)
    ensures Working(Touched(st, key, c), key, open, pending)
    ensures Ordered(st) ==> Ordered(Touched(st, key, c))
  {
    hide Accounted;
    hide SumCs;
    hide ListedExcept;
    hide SameNodes;
    hide Links;
    hide Ordered;
    TouchedLinks(st, key, c);
    UnlistedListed(st.table[key], c, open);
    WorkingUpdate(st, Touched(st, key, c), key, c, open, open, pending);
  }

  /** insert_rrl closes a slot. */
  lemma InsertRrlWorking(st: State, key: Name, open: set<int>, pending: int, idx: int)
    requires Working(st, key, open, pending) && idx in open
    ensures Working(InsertRrl(st, key, idx), key, open - {idx}, pending)
    ensures Ordered(st) ==> Ordered(InsertRrl(st, key, idx))
  {
    hide Accounted;
    hide SumCs;
    hide AgeSort.InsertByAge;
    InsertRrlLinks(st, key, idx);
    if Ordered(st) { InsertRrlOrdered(st, key, idx); }
    hide Links;
    hide Ordered;
    var c, st' := st.table[key], InsertRrl(st, key, idx);
    if Purgeable(c, idx) {
      SetLentListed(c, open, idx, st.nextId);
      hide ListedExcept;
      hide SetLent;
      WorkingUpdate(st, st', key, SetLent(c, idx, st.nextId), open, open - {idx}, pending);
    } else {
      assert ListedExcept(c, open - {idx});
    }
  }

  lemma SetLentListed(c: Cent, open: set<int>, idx: int, id: nat)
    requires Accounted(c) && Purgeable(c, idx) && ListedExcept(c, open)
    ensures var c' := SetLent(c, idx, id);
      Accounted(c') && c'.qname == c.qname && ListedExcept(c', open - {idx})
  {
    SetLentPoints(c, idx, id);
    if c.body.Positive? { PutSetAccounted(c, idx, c.body.sets[idx].(lent := Some(id))); }
    var c' := SetLent(c, idx, id);
    assert c'.qname == c.qname && Accounted(c');
    hide EntryLent;
    hide Purgeable;
    hide SetLent;
    hide Accounted;
  }

  // ---- free_cent, del_cent and del_cache_ent

  function WithoutKey(age: seq<Lent>, key: Name): (r: seq<Lent>)
  {
    if age == [] then [] else (if age[0].key == key then [] else [age[0]]) + WithoutKey(age[1..], key)
  }

  lemma {:induction false} WithoutKeyMember(age: seq<Lent>, key: Name, n: Lent)
    ensures n in WithoutKey(age, key) <==> n in age && n.key != key
  {
    if age != [] {
      WithoutKeyMember(age[1..], key, n);
      assert age == [age[0]] + age[1..];
    }
  }

  lemma {:induction false} WithoutKeyDistinct(age: seq<Lent>, key: Name)
    requires DistinctIds(age)
    ensures DistinctIds(WithoutKey(age, key))
  {
    if age != [] {
      WithoutKeyDistinct(age[1..], key);
      var r := WithoutKey(age[1..], key);
      forall j | 0 <= j < |r| ensures age[0].id != r[j].id {
        assert r[j] in r;
        WithoutKeyMember(age[1..], key, r[j]);
      }
    }
  }

  lemma {:induction false} WithoutKeySorted(age: seq<Lent>, key: Name, ts: Lent -> int)
    requires AgeSort.Sorted(age, ts)
    ensures AgeSort.Sorted(WithoutKey(age, key), ts)
  {
    if age != [] {
      AgeSort.SortedTail(age, ts);
      WithoutKeySorted(age[1..], key, ts);
      var r := WithoutKey(age[1..], key);
      forall y | y in r ensures ts(age[0]) <= ts(y) {
        WithoutKeyMember(age[1..], key, y);
        assert y in age;
      }
      AgeSort.SortedCons(age[0], r, ts);
    }
  }

  /** The entry and its nodes are freed; the global counters are left alone. */
  function FreeEnt(st: State, key: Name): (st': State)
  {
    st.(table := st.table - {key}, age := WithoutKey(st.age, key))
  }

  function DelEnt(st: State, key: Name): (st': State)
    requires key in st.table
  {
    FreeEnt(st, key).(size := st.size - st.table[key].cs, num := st.num - 1)
  }

  lemma FreeEntLinks(st: State, key: Name)
    requires Links(st)
    ensures Links(FreeEnt(st, key))
    ensures Ordered(st) ==> Ordered(FreeEnt(st, key))
  {
    hide EntryLent;
    hide EntryTs;
    hide WithoutKey;
    var st' := FreeEnt(st, key);
    WithoutKeyDistinct(st.age, key);
    forall n ensures n in st'.age <==> n in st.age && n.key != key { WithoutKeyMember(st.age, key, n); }
    forall k, i | k in st'.table && EntryLent(st'.table[k], i).Some?
      ensures Lent(EntryLent(st'.table[k], i).value, k, i) in st'.age
    {
      assert EntryLent(st.table[k], i).Some?;
    }
    if Ordered(st) && st.insertSort {
      WithoutKeySorted(st.age, key, TsOf(st.table));
      forall n | n in st'.age ensures TsOf(st.table)(n) == TsOf(st'.table)(n) {}
      SortedSameTs(st'.age, TsOf(st.table), TsOf(st'.table));
    }
  }

  /** The counters play no part in the links. */
  lemma CountersApart(st: State, st': State)
    requires st'.table == st.table && st'.age == st.age && st'.nextId == st.nextId && st'.insertSort == st.insertSort
    ensures Links(st') == Links(st) && Ordered(st') == Ordered(st)
  {}

  lemma OneLess(t: Table, key: Name)
    requires key in t
    ensures |t - {key}| == |t| - 1
  {
    assert (t - {key}).Keys == t.Keys - {key};
    assert |(t - {key}).Keys| == |t - {key}| && |t.Keys| == |t|;
  }

  /** Deleting an entry keeps everything in agreement. */
  lemma DelEntValid(st: State, key: Name)
    requires Valid(st) && key in st.table
    ensures Valid(DelEnt(st, key))
    ensures Ordered(st) ==> Ordered(DelEnt(st, key))
  {
    hide SumCs;
    hide Accounted;
    hide WithoutKey;
    hide Links;
    hide EntryListed;
    hide ListedExcept;
    hide Ordered;
    FreeEntLinks(st, key);
    SumCsRemove(st.table, key);
    CountersApart(FreeEnt(st, key), DelEnt(st, key));
    OneLess(st.table, key);
  }

  /** Giving up a new entry that could not be filed completely. */
  lemma FreeEntAborts(st: State, key: Name, open: set<int>)
    requires Working(st, key, open, 1)
    ensures Valid(FreeEnt(st, key))
    ensures Ordered(st) ==> Ordered(FreeEnt(st, key))
  {
    hide SumCs;
    hide Accounted;
    hide WithoutKey;
    hide Links;
    hide EntryListed;
    hide ListedExcept;
    hide Ordered;
    FreeEntLinks(st, key);
    SumCsRemove(st.table, key);
    OneLess(st.table, key);
  }

  /** Deleting a set of a cached entry and subtracting its size from cache_size. */
  lemma DelSetValid(st: State, key: Name, idx: nat)
    requires Valid(st) && key in st.table
    requires st.table[key].body.Positive? && idx in st.table[key].body.sets
    ensures Valid(DelSet(st, key, idx).(size := st.size - SetSize(st.table[key].body.sets[idx])))
    ensures Ordered(st) ==> Ordered(DelSet(st, key, idx))
  {
    var c := st.table[key];
    var st1 := st.(size := st.size - c.cs);
    StartWork(st, key);
    DelSetWorking(st1, key, {}, 0, idx);
    assert DelSet(st1, key, idx) == DelSet(st, key, idx).(size := st1.size);
    var st2 := DelSet(st1, key, idx);
    assert {} - {idx as int} == {};
    FinishWork(st2, key, 0);
    assert st2.table[key].cs == c.cs - SetSize(c.body.sets[idx]);
    assert st2.(size := st2.size + st2.table[key].cs, num := st2.num + 0)
        == DelSet(st, key, idx).(size := st.size - SetSize(c.body.sets[idx]));
  }

  /** The node of a deleted set is the only one that disappears. */
  lemma DelSetAge(st: State, key: Name, idx: nat, i: nat)
    requires Links(st) && key in st.table && i < |st.age|
    requires st.table[key].body.Positive? && idx in st.table[key].body.sets
    requires st.age[i].key == key && st.age[i].idx == idx
    ensures DelSet(st, key, idx).age == st.age[..i] + st.age[i + 1..]
  {
    assert st.age[i] in st.age;
    WithoutAt(st.age, i);
  }
}
