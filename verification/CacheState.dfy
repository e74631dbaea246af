/** The cache as a whole: the entries by name, the age list, and the two global counters.
    These structures are redundant; this module says how they must agree and what the
    primitive operations on them do. List entries are named by an id in place of their
    address; the doubly linked list is the sequence of its nodes. */
module CacheState {
  import opened Names
  import opened RRTypes
  import opened CacheEntry
  import AgeSort

  /** A node of the age list; idx is -1 for a negatively cached domain. */
  datatype Lent = Lent(id: nat, key: Name, idx: int)

  type Table = map<Name, Cent>

  datatype State = State(
    table: Table, age: seq<Lent>, size: int, num: int, insertSort: bool, nextId: nat)

  // ---- Accounting

  ghost function SumCs(t: Table): (n: int)
  {
    if t == map[] then 0 else
      var k :| k in t;
      t[k].cs + SumCs(t - {k})
  }

  lemma {:induction false} SumCsRemove(t: Table, k: Name)
    requires k in t
    ensures SumCs(t) == t[k].cs + SumCs(t - {k})
    decreases |t|
  {
    var j :| j in t && SumCs(t) == t[j].cs + SumCs(t - {j});
    if j != k {
      SumCsRemove(t - {j}, k);
      SumCsRemove(t - {k}, j);
      assert t - {j} - {k} == t - {k} - {j};
    }
  }

  lemma SumCsUpdate(t: Table, k: Name, c: Cent)
    ensures SumCs(t[k := c]) == SumCs(t) - (if k in t then t[k].cs else 0) + c.cs
  {
    SumCsRemove(t[k := c], k);
    assert t[k := c] - {k} == t - {k};
    if k in t { SumCsRemove(t, k); } else { assert t - {k} == t; }
  }

  /** Every entry is accounted and filed under its case-folded name. */
  ghost predicate TableOk(t: Table)
  {
    forall k :: k in t ==> Accounted(t[k]) && FoldName(t[k].qname) == k
  }

  /** cache_size is the total size of the entries and ent_num their number. */
  ghost predicate Books(st: State)
  {
    TableOk(st.table) && st.size == SumCs(st.table) && st.num == |st.table|
  }

  // ---- The age list

  /** The lent pointer of a slot (or of the negative entry, for idx -1). */
  function EntryLent(c: Cent, idx: int): (l: Option<nat>)
  {
    match c.body
    case Negative(lent, _, _) => if idx == -1 then lent else None
    case Positive(sets, _) => if idx >= 0 && idx in sets then sets[idx].lent else None
  }

  function EntryTs(c: Cent, idx: int): int
  {
    match c.body
    case Negative(_, _, ts) => ts
    case Positive(sets, _) => if idx >= 0 && idx in sets then sets[idx].ts else 0
  }

  /** This slot belongs on the age list: a set, or a negative entry, that is not local. */
  predicate Purgeable(c: Cent, idx: int)
  {
    DF_LOCAL !in c.flags &&
    match c.body
    case Negative(_, _, _) => idx == -1
    case Positive(sets, _) => idx >= 0 && idx in sets && !Local(sets[idx])
  }

  /** Each node is the one that its slot points back to. */
  ghost predicate NodesPoint(t: Table, age: seq<Lent>)
  {
    forall n :: n in age ==> n.key in t && EntryLent(t[n.key], n.idx) == Some(n.id)
  }

  /** Each lent pointer points to a node of the list. */
  ghost predicate LentsPoint(t: Table, age: seq<Lent>)
  {
    forall k, i :: k in t && EntryLent(t[k], i).Some? ==> Lent(EntryLent(t[k], i).value, k, i) in age
  }

  predicate DistinctIds(age: seq<Lent>)
  {
    forall i, j :: 0 <= i < j < |age| ==> age[i].id != age[j].id
  }

  ghost predicate Links(st: State)
  {
    && NodesPoint(st.table, st.age) && LentsPoint(st.table, st.age) && DistinctIds(st.age)
    && forall n :: n in st.age ==> n.id < st.nextId
  }

  /** Exactly the purgeable slots of this entry have a node. */
  ghost predicate EntryListed(c: Cent)
  {
    forall i :: EntryLent(c, i).Some? <==> Purgeable(c, i)
  }

  ghost predicate AllListed(t: Table) { forall k :: k in t ==> EntryListed(t[k]) }

  /** What holds between any two operations on the cache. */
  ghost predicate Valid(st: State) { Books(st) && Links(st) && AllListed(st.table) }

  /** As EntryListed, except that the slots in `open` have no node (yet). */
  ghost predicate ListedExcept(c: Cent, open: set<int>)
  {
    forall i :: if i in open then EntryLent(c, i) == None else EntryLent(c, i).Some? <==> Purgeable(c, i)
  }

  /** In the middle of an operation on the entry under key: the entry is not counted in
      cache_size, `pending` entries are not counted in ent_num, and the slots in `open`
      still lack their node. */
  ghost predicate Working(st: State, key: Name, open: set<int>, pending: int)
  {
    && TableOk(st.table) && key in st.table
    && st.size == SumCs(st.table) - st.table[key].cs && st.num + pending == |st.table|
    && Links(st)
    && ListedExcept(st.table[key], open)
    && forall k :: k in st.table && k != key ==> EntryListed(st.table[k])
  }

  lemma StartWork(st: State, key: Name)
    requires Valid(st) && key in st.table
    ensures Working(st.(size := st.size - st.table[key].cs), key, {}, 0)
  {}

  lemma FinishWork(st: State, key: Name, pending: int)
    requires Working(st, key, {}, pending)
    ensures Valid(st.(size := st.size + st.table[key].cs, num := st.num + pending))
  {}

  // ---- Order of the age list

  function NodeTs(t: Table, n: Lent): int { if n.key in t then EntryTs(t[n.key], n.idx) else 0 }

  /** get_rrlent_ts */
  function TsOf(t: Table): Lent -> int { (n: Lent) => NodeTs(t, n) }

  /** Oldest first. */
  ghost predicate Ordered(st: State)
  {
    st.insertSort ==> AgeSort.Sorted(st.age, TsOf(st.table))
  }

  lemma SameNode(age: seq<Lent>, m: Lent, n: Lent)
    requires DistinctIds(age) && m in age && n in age && m.id == n.id
    ensures m == n
  {
    var i :| 0 <= i < |age| && age[i] == m;
    var j :| 0 <= j < |age| && age[j] == n;
  }

  // ---- remove_rrl

  function Without(age: seq<Lent>, id: nat): (r: seq<Lent>)
  {
    if age == [] then [] else (if age[0].id == id then [] else [age[0]]) + Without(age[1..], id)
  }

  lemma {:induction false} WithoutMember(age: seq<Lent>, id: nat, n: Lent)
    ensures n in Without(age, id) <==> n in age && n.id != id
  {
    if age != [] {
      WithoutMember(age[1..], id, n);
      assert age == [age[0]] + age[1..];
    }
  }

  lemma {:induction false} WithoutDistinct(age: seq<Lent>, id: nat)
    requires DistinctIds(age)
    ensures DistinctIds(Without(age, id))
  {
    if age != [] {
      WithoutDistinct(age[1..], id);
      var r := Without(age[1..], id);
      forall j | 0 <= j < |r| ensures age[0].id != r[j].id {
        assert r[j] in r;
        WithoutMember(age[1..], id, r[j]);
      }
    }
  }

  /** Taking a node out of the middle of the list leaves the others in order. */
  lemma {:induction false} WithoutAt(age: seq<Lent>, i: nat)
    requires DistinctIds(age) && i < |age|
    ensures Without(age, age[i].id) == age[..i] + age[i + 1..]
  {
    if i == 0 {
      WithoutAbsent(age[1..], age[0].id);
    } else {
      WithoutAt(age[1..], i - 1);
      assert age[1..][..i - 1] == age[1..i] && age[1..][i..] == age[i + 1..];
      assert [age[0]] + age[1..i] == age[..i];
    }
  }

  lemma {:induction false} WithoutAbsent(age: seq<Lent>, id: nat)
    requires forall n :: n in age ==> n.id != id
    ensures Without(age, id) == age
  {
    if age != [] { WithoutAbsent(age[1..], id); }
  }

  function Unlinked(age: seq<Lent>, lent: Option<nat>): (r: seq<Lent>)
  {
    if lent.Some? then Without(age, lent.value) else age
  }

  // ---- Changing one entry

  /** Entry key becomes c, and the node of slot idx (if any) goes away with the slot. */
  function Replaced(st: State, key: Name, c: Cent, lent: Option<nat>): (st': State)
  {
    st.(table := st.table[key := c], age := Unlinked(st.age, lent))
  }

  /** c is c0 with slot idx vacated: its lent pointer is gone, the other slots keep theirs
      and their time stamps. */
  ghost predicate Vacates(c0: Cent, c: Cent, idx: int)
  {
    && EntryLent(c, idx) == None
    && (forall i :: i != idx ==> EntryLent(c, i) == EntryLent(c0, i))
    && (forall i :: i != idx && EntryLent(c0, i).Some? ==> EntryTs(c, i) == EntryTs(c0, i))
  }

  lemma ReplacedLinks(st: State, key: Name, c: Cent, idx: int)
    requires Links(st) && key in st.table && Vacates(st.table[key], c, idx)
    ensures Links(Replaced(st, key, c, EntryLent(st.table[key], idx)))
  {
    hide Without;
    hide EntryLent;
    var lent := EntryLent(st.table[key], idx);
    var st' := Replaced(st, key, c, lent);
    if lent.Some? { WithoutDistinct(st.age, lent.value); }
    forall n | n in st'.age
      ensures n in st.age && n.key in st'.table && EntryLent(st'.table[n.key], n.idx) == Some(n.id)
    {
      if lent.Some? { WithoutMember(st.age, lent.value, n); }
      assert EntryLent(st.table[n.key], n.idx) == Some(n.id);
    }
    forall k, i | k in st'.table && EntryLent(st'.table[k], i).Some?
      ensures Lent(EntryLent(st'.table[k], i).value, k, i) in st'.age
    {
      var n := Lent(EntryLent(st'.table[k], i).value, k, i);
      assert EntryLent(st'.table[k], i) == EntryLent(st.table[k], i);
      assert n in st.age;
      if lent.Some? {
        var m := Lent(lent.value, key, idx);
        WithoutMember(st.age, m.id, n);
        if n.id == m.id { SameNode(st.age, n, m); }
      }
    }
  }

  lemma {:induction false} WithoutIsSorted(age: seq<Lent>, id: nat, ts: Lent -> int)
    requires AgeSort.Sorted(age, ts)
    ensures AgeSort.Sorted(Without(age, id), ts)
  {
    if age != [] {
      AgeSort.SortedTail(age, ts);
      WithoutIsSorted(age[1..], id, ts);
      var r := Without(age[1..], id);
      forall y | y in r ensures ts(age[0]) <= ts(y) {
        WithoutMember(age[1..], id, y);
        assert y in age;
      }
      AgeSort.SortedCons(age[0], r, ts);
    }
  }

  lemma SortedSameTs(age: seq<Lent>, f: Lent -> int, g: Lent -> int)
    requires AgeSort.Sorted(age, f) && forall n :: n in age ==> f(n) == g(n)
    ensures AgeSort.Sorted(age, g)
  {
    forall i, j | 0 <= i < j < |age| ensures g(age[i]) <= g(age[j]) {
      assert age[i] in age && age[j] in age;
    }
  }

  lemma ReplacedOrdered(st: State, key: Name, c: Cent, idx: int)
    requires Links(st) && Ordered(st) && key in st.table && Vacates(st.table[key], c, idx)
    ensures Ordered(Replaced(st, key, c, EntryLent(st.table[key], idx)))
  {
    hide Without;
    var lent := EntryLent(st.table[key], idx);
    var st' := Replaced(st, key, c, lent);
    if st.insertSort {
      if lent.Some? { WithoutIsSorted(st.age, lent.value, TsOf(st.table)); }
      forall n | n in st'.age ensures TsOf(st.table)(n) == TsOf(st'.table)(n) {
        if lent.Some? { WithoutMember(st.age, lent.value, n); }
        assert EntryLent(st.table[n.key], n.idx) == Some(n.id);
      }
      SortedSameTs(st'.age, TsOf(st.table), TsOf(st'.table));
    }
  }

  // ---- The primitive operations

  /** del_cent_rrset_by_index; the caller adjusts cache_size by the result of del_rrset. */
  function DelSet(st: State, key: Name, idx: nat): (st': State)
    requires key in st.table && st.table[key].body.Positive? && idx in st.table[key].body.sets
  {
    Replaced(st, key, DropSet(st.table[key], idx), EntryLent(st.table[key], idx))
  }

  lemma DelSetTable(st: State, key: Name, idx: nat)
    requires key in st.table && st.table[key].body.Positive? && idx in st.table[key].body.sets
    ensures DelSet(st, key, idx).table == st.table[key := DropSet(st.table[key], idx)]
    ensures EntryLent(st.table[key], idx) == st.table[key].body.sets[idx].lent
  {}

  /** add_cent_rrset_by_index; a negative entry leaves the age list. */
  function NewSet(st: State, key: Name, idx: nat, ttl: int, ts: int, flags: set<CFlag>): (st': State)
    requires key in st.table
  {
    Replaced(st, key, AddSet(st.table[key], idx, ttl, ts, flags), EntryLent(st.table[key], -1))
  }

  /** A change of the entry that leaves its lent pointers alone. */
  function Touched(st: State, key: Name, c: Cent): (st': State)
  {
    st.(table := st.table[key := c])
  }

  ghost predicate SameNodes(c0: Cent, c: Cent)
  {
    forall i :: EntryLent(c, i) == EntryLent(c0, i)
             && (EntryLent(c0, i).Some? ==> EntryTs(c, i) == EntryTs(c0, i))
  }

  lemma TouchedLinks(st: State, key: Name, c: Cent)
    requires Links(st) && key in st.table && SameNodes(st.table[key], c)
    ensures Links(Touched(st, key, c))
    ensures Ordered(st) ==> Ordered(Touched(st, key, c))
  {
    hide EntryLent;
    hide EntryTs;
    var st' := Touched(st, key, c);
    forall n | n in st'.age ensures n.key in st'.table && EntryLent(st'.table[n.key], n.idx) == Some(n.id) {
      assert EntryLent(st.table[n.key], n.idx) == Some(n.id);
    }
    forall k, i | k in st'.table && EntryLent(st'.table[k], i).Some?
      ensures Lent(EntryLent(st'.table[k], i).value, k, i) in st'.age
    {
      assert EntryLent(st'.table[k], i) == EntryLent(st.table[k], i);
    }
    if Ordered(st) && st.insertSort {
      forall n | n in st.age ensures TsOf(st.table)(n) == TsOf(st'.table)(n) {
        assert EntryLent(st.table[n.key], n.idx) == Some(n.id);
      }
      SortedSameTs(st.age, TsOf(st.table), TsOf(st'.table));
    }
  }

  /** Filing a fresh entry that has no nodes. */
  lemma FiledLinks(st: State, key: Name, c: Cent)
    requires Links(st) && key !in st.table && forall i :: EntryLent(c, i) == None
    ensures Links(Touched(st, key, c))
    ensures Ordered(st) ==> Ordered(Touched(st, key, c))
  {
    hide EntryLent;
    hide EntryTs;
    var st' := Touched(st, key, c);
    if Ordered(st) && st.insertSort {
      forall n | n in st.age ensures TsOf(st.table)(n) == TsOf(st'.table)(n) {}
      SortedSameTs(st.age, TsOf(st.table), TsOf(st'.table));
    }
  }

  // ---- insert_rrl

  function SetLent(c: Cent, idx: int, id: nat): (c': Cent)
    requires Purgeable(c, idx)
  {
    match c.body
    case Negative(_, _, _) => c.(body := c.body.(lent := Some(id)))
    case Positive(sets, _) => PutSet(c, idx, sets[idx].(lent := Some(id)))
  }

  /** The list with a node for slot idx of entry key: in order, or at the end while the
      cache is being read from disk. */
  function InsertRrl(st: State, key: Name, idx: int): (st': State)
    requires key in st.table
  {
    if !Purgeable(st.table[key], idx) then st
    else
      var n := Lent(st.nextId, key, idx);
      st.(age := if st.insertSort then AgeSort.InsertByAge(st.age, n, TsOf(st.table)) else st.age + [n],
          table := st.table[key := SetLent(st.table[key], idx, st.nextId)],
          nextId := st.nextId + 1)
  }

  lemma InsertedMembers(age: seq<Lent>, n: Lent, ts: Lent -> int, m: Lent)
    ensures m in AgeSort.InsertByAge(age, n, ts) <==> m in age || m == n
  {
    var r := AgeSort.InsertByAge(age, n, ts);
    assert m in r <==> m in multiset(r);
    assert m in multiset(r) <==> m in multiset(age) + multiset{n};
    assert m in multiset(age) <==> m in age;
  }

  lemma {:induction false} InsertedDistinct(age: seq<Lent>, n: Lent, ts: Lent -> int)
    requires DistinctIds(age) && forall m :: m in age ==> m.id != n.id
    ensures DistinctIds(AgeSort.InsertByAge(age, n, ts))
  {
    if age != [] && ts(n) < ts(age[|age| - 1]) {
      var last, init := age[|age| - 1], age[..|age| - 1];
      InsertedDistinct(init, n, ts);
      var r := AgeSort.InsertByAge(init, n, ts);
      forall i | 0 <= i < |r| ensures r[i].id != last.id {
        InsertedMembers(init, n, ts, r[i]);
        assert r[i] in r;
        if r[i] in init { var j :| 0 <= j < |init| && init[j] == r[i]; }
      }
    }
  }

  lemma InsertRrlLinks(st: State, key: Name, idx: int)
    requires Links(st) && key in st.table && EntryLent(st.table[key], idx) == None
    ensures Links(InsertRrl(st, key, idx))
  {
    var st' := InsertRrl(st, key, idx);
    if Purgeable(st.table[key], idx) {
      var n := Lent(st.nextId, key, idx);
      var c := st.table[key];
      SetLentPoints(c, idx, st.nextId);
      hide EntryLent;
      hide SetLent;
      hide Purgeable;
      forall m ensures m in st'.age <==> m in st.age || m == n {
        InsertedMembers(st.age, n, TsOf(st.table), m);
      }
      InsertedDistinct(st.age, n, TsOf(st.table));
      forall m | m in st'.age ensures m.key in st'.table && EntryLent(st'.table[m.key], m.idx) == Some(m.id) {
        assert m != n ==> EntryLent(st.table[m.key], m.idx) == Some(m.id);
      }
      forall k, i | k in st'.table && EntryLent(st'.table[k], i).Some?
        ensures Lent(EntryLent(st'.table[k], i).value, k, i) in st'.age
      {
        assert k != key || i != idx ==> EntryLent(st'.table[k], i) == EntryLent(st.table[k], i);
      }
    }
  }

  lemma SetLentPoints(c: Cent, idx: int, id: nat)
    requires Purgeable(c, idx)
    ensures EntryLent(SetLent(c, idx, id), idx) == Some(id)
    ensures forall i :: i != idx ==> EntryLent(SetLent(c, idx, id), i) == EntryLent(c, i)
    ensures forall i :: Purgeable(SetLent(c, idx, id), i) <==> Purgeable(c, i)
    ensures forall i :: EntryTs(SetLent(c, idx, id), i) == EntryTs(c, i)
    ensures SetLent(c, idx, id).cs == c.cs
  {}

  lemma InsertRrlOrdered(st: State, key: Name, idx: int)
    requires Links(st) && Ordered(st) && key in st.table
    ensures Ordered(InsertRrl(st, key, idx))
  {
    var st' := InsertRrl(st, key, idx);
    if Purgeable(st.table[key], idx) && st.insertSort {
      var n := Lent(st.nextId, key, idx);
      SetLentPoints(st.table[key], idx, st.nextId);
      AgeSort.InsertKeepsSorted(st.age, n, TsOf(st.table));
      forall m | m in st'.age ensures TsOf(st.table)(m) == TsOf(st'.table)(m) {}
      SortedSameTs(st'.age, TsOf(st.table), TsOf(st'.table));
    }
  }
}
