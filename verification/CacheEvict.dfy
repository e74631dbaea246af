/** What purge_cache (cache.c) deletes: sets and negative entries, by their nodes on the age
    list. */
module CacheEvict {
  import opened Names
  import opened RRTypes
  import opened CacheEntry
  import opened CacheSteps
  import opened CacheWork
  import CacheState
  import AgeSort
  import opened Powers

  type State = CacheState.State

  /** The set of node n is deleted, if it has one. */
  function WithoutSet(st: State, n: Lent): (st': State)
    requires n.key in st.table
    ensures n.key in st'.table
  {
    var c := st.table[n.key];
    if n.idx >= 0 && c.body.Positive? && n.idx in c.body.sets
    then CacheState.DelSet(st, n.key, n.idx).(size := st.size - SetSize(c.body.sets[n.idx]))
    else st
  }

  /** The set or negative entry of node n is deleted, and its entry if nothing is left. */
  function DropNode(st: State, n: Lent): (st': State)
  {
    if n.key !in st.table then st
    else
      var st1 := WithoutSet(st, n);
      if st1.table[n.key].numRRs == 0 then DelEnt(st1, n.key) else st1
  }

  /** All these nodes, one after the other. */
  function Dropped(st: State, ns: seq<Lent>): (st': State)
  {
    if ns == [] then st else DropNode(Dropped(st, ns[..|ns| - 1]), ns[|ns| - 1])
  }

  /** What node n stands for may be purged because of its age. */
  predicate NodeExpired(t: CacheState.Table, n: Lent, now: int)
  {
    n.key in t &&
    match t[n.key].body
    case Negative(_, _, _) => TimedOutNX(t[n.key], now)
    case Positive(sets, _) => n.idx >= 0 && n.idx in sets && Expired(sets[n.idx], now)
  }

  function ExpiredNodes(t: CacheState.Table, ns: seq<Lent>, now: int): (r: seq<Lent>)
  {
    if ns == [] then []
    else ExpiredNodes(t, ns[..|ns| - 1], now) + (if NodeExpired(t, ns[|ns| - 1], now) then [ns[|ns| - 1]] else [])
  }

  function FreshNodes(t: CacheState.Table, ns: seq<Lent>, now: int): (r: seq<Lent>)
  {
    if ns == [] then []
    else FreshNodes(t, ns[..|ns| - 1], now) + (if NodeExpired(t, ns[|ns| - 1], now) then [] else [ns[|ns| - 1]])
  }

  // ---- The two walks

  /** The first walk has visited the first k nodes and deleted those that had timed out: all
      nodes, or, if it is lazy, no more than it takes to reach the size. */
  ghost predicate FirstWalk(st: State, st': State, k: nat, sz: int, lazy: bool, now: int)
  {
    && Visited(st, st', k, now)
    && (lazy ==> forall j :: 0 <= j < k ==> Dropped(st, ExpiredNodes(st.table, st.age[..j], now)).size > sz)
    && (k < |st.age| ==> lazy && st'.size <= sz)
  }

  /** The second walk has deleted the first k nodes, and no more than it takes to reach the
      size. */
  ghost predicate SecondWalk(st: State, st': State, k: nat, sz: int)
  {
    && k <= |st.age|
    && st' == Dropped(st, st.age[..k])
    && st'.age == st.age[k..]
    && (forall j :: 0 <= j < k ==> Dropped(st, st.age[..j]).size > sz)
    && (k < |st.age| ==> st'.size <= sz)
  }

  /** The age list is in order, or short enough for sort_rrl. */
  predicate CanSort(st: State) { st.insertSort || |st.age| < Pow2(AgeSort.NTMPSORT) }

  function Resorted(st: State): (st': State)
  {
    if st.insertSort then st
    else st.(age := AgeSort.InsertAll(st.age, CacheState.TsOf(st.table)), insertSort := true)
  }

  /** purge_cache: the first walk, and the second one if that was not enough. */
  ghost predicate PurgeSpec(st: State, st': State, ok: bool, sz: int, lazy: bool, now: int)
  {
    exists st1, k1 :: FirstWalk(st, st1, k1, sz, lazy, now) &&
      if st1.size <= sz then st' == st1 && ok
      else ok == CanSort(st1) && if ok then exists k2 :: SecondWalk(Resorted(st1), st', k2, sz) else st' == st1
  }

  // ---- Deleting one node

  /** The set of node i goes, with the node; a negative entry stays as it is. */
  lemma WithoutSetKeeps(st: State, i: nat)
    requires CacheState.Valid(st) && i < |st.age|
    ensures var n := st.age[i];
      var c, st1 := st.table[n.key], WithoutSet(st, n);
      && CacheState.Valid(st1) && Evicted(st.table, st1.table) && (CacheState.Ordered(st) ==> CacheState.Ordered(st1))
      && (if c.body.Negative? then st1 == st else st1.age == st.age[..i] + st.age[i + 1..])
      && n.key in st1.table && c.body.Negative? == st1.table[n.key].body.Negative? && DF_LOCAL !in st1.table[n.key].flags
      && st1.insertSort == st.insertSort
  {
    var n := st.age[i];
    NodeIsPurgeable(st, i);
    EvictedReflexive(st.table);
    LinksHold(st);
    hide CacheState.Valid;
    hide CacheState.Links;
    hide CacheState.Ordered;
    hide Evicted;
    hide DropSet;
    hide SetSize;
    if n.idx >= 0 {
      CacheState.DelSetTable(st, n.key, n.idx);
      DelSetAge(st, n.key, n.idx, i);
      EvictSet(st.table, n.key, n.idx);
      DelSetValid(st, n.key, n.idx);
      CountersApart(WithoutSet(st, n), CacheState.DelSet(st, n.key, n.idx));
      DropSetKind(st.table[n.key], n.idx);
    }
  }

  lemma DropSetKind(c: Cent, idx: nat)
    requires c.body.Positive? && idx in c.body.sets
    ensures DropSet(c, idx).body.Positive? && DropSet(c, idx).flags <= c.flags
  {}

  /** Node i leaves the list, and everything still agrees. */
  lemma DropNodeKeeps(st: State, i: nat)
    requires CacheState.Valid(st) && i < |st.age|
    ensures var st' := DropNode(st, st.age[i]);
      && CacheState.Valid(st') && (CacheState.Ordered(st) ==> CacheState.Ordered(st'))
      && st'.insertSort == st.insertSort && st'.age == st.age[..i] + st.age[i + 1..]
      && Evicted(st.table, st'.table)
  {
    var n := st.age[i];
    var c, st1 := st.table[n.key], WithoutSet(st, n);
    NodeIsPurgeable(st, i);
    EvictedReflexive(st.table);
    WithoutSetKeeps(st, i);
    hide CacheState.Ordered;
    hide Evicted;
    NegativeHasNoSets(st1, n.key);
    hide WithoutSet;
    if st1.table[n.key].numRRs == 0 {
      EmptyEntryNodes(st1, n.key);
      if c.body.Negative? { NegativeNode(st, i); }
      DelEntReady(st1, n.key);
      EvictEntry(st1.table, n.key);
      hide *;
      EvictedTransitive(st.table, st1.table, st1.table - {n.key});
    }
  }

  // ---- Steps of the walks

  lemma WalkStarts(st: State, now: int)
    ensures Visited(st, st, 0, now) && FreshNodes(st.table, st.age[..0], now) == []
  {}

  /** Where the first walk ends. */
  lemma WalkEnds(st0: State, st: State, k: nat, sz: int, lazy: bool, now: int)
    requires Visited(st0, st, k, now)
    requires lazy ==> forall j :: 0 <= j < k ==> Dropped(st0, ExpiredNodes(st0.table, st0.age[..j], now)).size > sz
    requires !(|FreshNodes(st0.table, st0.age[..k], now)| < |st.age| && (!lazy || st.size > sz))
    ensures FirstWalk(st0, st, k, sz, lazy, now)
  {
    hide Dropped;
    hide ExpiredNodes;
    hide FreshNodes;
  }

  /** A node that is still on the list stands for what it stood for before. */
  lemma NodeExpiredSame(st0: State, st: State, n: Lent, now: int)
    requires CacheState.Valid(st0) && CacheState.Valid(st) && Evicted(st0.table, st.table) && n in st0.age && n in st.age
    ensures NodeExpired(st.table, n, now) == NodeExpired(st0.table, n, now)
  {
    assert CacheState.EntryLent(st.table[n.key], n.idx).Some? && CacheState.EntryLent(st0.table[n.key], n.idx).Some?;
    assert SubEntry(st0.table[n.key], st.table[n.key]);
  }

  lemma ExpiredSnoc(t: CacheState.Table, ns: seq<Lent>, k: nat, now: int)
    requires k < |ns|
    ensures ExpiredNodes(t, ns[..k + 1], now) == ExpiredNodes(t, ns[..k], now) + (if NodeExpired(t, ns[k], now) then [ns[k]] else [])
    ensures FreshNodes(t, ns[..k + 1], now) == FreshNodes(t, ns[..k], now) + (if NodeExpired(t, ns[k], now) then [] else [ns[k]])
  {
    assert ns[..k + 1][..k] == ns[..k];
  }

  lemma DroppedSnoc(st: State, ns: seq<Lent>, n: Lent)
    ensures Dropped(st, ns + [n]) == DropNode(Dropped(st, ns), n) && Dropped(st, ns + []) == Dropped(st, ns)
  {
    assert (ns + [n])[..|ns|] == ns && ns + [] == ns;
  }

  /** The first walk has visited the first k nodes of the original list. */
  ghost predicate Visited(st0: State, st: State, k: nat, now: int)
  {
    && k <= |st0.age|
    && st == Dropped(st0, ExpiredNodes(st0.table, st0.age[..k], now))
    && st.age == FreshNodes(st0.table, st0.age[..k], now) + st0.age[k..]
  }

  lemma NextNode(st0: State, st: State, k: nat, i: nat, now: int)
    requires CacheState.Valid(st0) && CacheState.Valid(st) && Evicted(st0.table, st.table)
    requires Visited(st0, st, k, now) && i == |FreshNodes(st0.table, st0.age[..k], now)| < |st.age|
    ensures k < |st0.age| && st.age[i] == st0.age[k]
    ensures st == Dropped(st0, ExpiredNodes(st0.table, st0.age[..k], now))
    ensures NodeExpired(st.table, st.age[i], now) == NodeExpired(st0.table, st0.age[k], now)
  {
    assert st.age[i] == st0.age[k];
    NodeExpiredSame(st0, st, st0.age[k], now);
  }

  lemma WalkAge(t: CacheState.Table, age0: seq<Lent>, k: nat, now: int)
    requires k < |age0|
    ensures var i, age := |FreshNodes(t, age0[..k], now)|, FreshNodes(t, age0[..k], now) + age0[k..];
      (if NodeExpired(t, age0[k], now) then age[..i] + age[i + 1..] else age) == FreshNodes(t, age0[..k + 1], now) + age0[k + 1..]
  {
    var n, left := age0[k], FreshNodes(t, age0[..k], now);
    ExpiredSnoc(t, age0, k, now);
    hide *;
    assert age0[k..] == [n] + age0[k + 1..];
    TakeOut(left, n, age0[k + 1..]);
    assert left + [] == left;
  }

  lemma TakeOut(a: seq<Lent>, n: Lent, b: seq<Lent>)
    ensures var s := a + ([n] + b); s[..|a|] + s[|a| + 1..] == a + b && s == (a + [n]) + b
  {}

  lemma WalkDropped(st: State, t: CacheState.Table, age0: seq<Lent>, k: nat, now: int)
    requires k < |age0|
    ensures var st1 := Dropped(st, ExpiredNodes(t, age0[..k], now));
      Dropped(st, ExpiredNodes(t, age0[..k + 1], now)) == if NodeExpired(t, age0[k], now) then DropNode(st1, age0[k]) else st1
  {
    ExpiredSnoc(t, age0, k, now);
    hide *;
    DroppedSnoc(st, ExpiredNodes(t, age0[..k], now), age0[k]);
  }

  /** It comes to the next one, which is node i of those that are left. */
  lemma WalkStep(st0: State, st: State, st': State, k: nat, i: nat, now: int)
    requires Visited(st0, st, k, now) && i == |FreshNodes(st0.table, st0.age[..k], now)|
    requires k < |st0.age| && i < |st.age| && st.age[i] == st0.age[k]
    requires st' == if NodeExpired(st0.table, st0.age[k], now) then DropNode(st, st.age[i]) else st
    requires st'.age == if NodeExpired(st0.table, st0.age[k], now) then st.age[..i] + st.age[i + 1..] else st.age
    ensures Visited(st0, st', k + 1, now)
    ensures |FreshNodes(st0.table, st0.age[..k + 1], now)| == if NodeExpired(st0.table, st0.age[k], now) then i else i + 1
  {
    ExpiredSnoc(st0.table, st0.age, k, now);
    WalkAge(st0.table, st0.age, k, now);
    WalkDropped(st0, st0.table, st0.age, k, now);
    hide FreshNodes;
    hide ExpiredNodes;
    hide Dropped;
    hide DropNode;
    hide NodeExpired;
  }

  lemma DropsStart(st: State)
    ensures Dropped(st, st.age[..0]) == st && st.age[0..] == st.age
  {}

  /** The second walk visits node k of the original list. */
  lemma DropsNext(st: State, k: nat)
    requires k < |st.age|
    ensures Dropped(st, st.age[..k + 1]) == DropNode(Dropped(st, st.age[..k]), st.age[k])
    ensures st.age[k..][0] == st.age[k] && st.age[k..][..0] + st.age[k..][1..] == st.age[k + 1..]
  {
    assert st.age[..k + 1][..k] == st.age[..k];
  }

  // ---- What deleting nodes means

  /** One of these nodes stands for slot i of the entry under k. */
  ghost predicate Named(ns: seq<Lent>, k: Name, i: int)
  {
    exists n <- ns :: n.key == k && n.idx == i
  }

  ghost predicate Touches(ns: seq<Lent>, k: Name)
  {
    exists n <- ns :: n.key == k
  }

  /** What is left in table t of an entry c once its slots that have a node among ns are gone:
      the other sets, and no entry at all if there are none. */
  ghost predicate Stripped(c: Cent, t: CacheState.Table, k: Name, ns: seq<Lent>)
  {
    if !Touches(ns, k) then k in t && t[k] == c
    else if k in t then
      && c.body.Positive? && t[k].body.Positive?
      && (forall i :: i in t[k].body.sets <==> i in c.body.sets && !Named(ns, k, i))
      && (forall i :: i in t[k].body.sets ==> t[k].body.sets[i] == c.body.sets[i])
    else c.body.Positive? ==> forall i :: i in c.body.sets ==> Named(ns, k, i)
  }

  /** The table without one node: its entry has one slot less, or is gone. */
  lemma DropNodeTable(st: State, n: Lent)
    requires CacheState.Valid(st) && n in st.age
    ensures n.key in st.table
    ensures var c, t := st.table[n.key], DropNode(st, n).table;
      if c.body.Negative? then t == st.table - {n.key}
      else
        && n.idx >= 0 && n.idx in c.body.sets
        && t == if c.body.sets - {n.idx} == map[] then st.table - {n.key} else st.table[n.key := DropSet(c, n.idx)]
  {
    var i :| 0 <= i < |st.age| && st.age[i] == n;
    NodeIsPurgeable(st, i);
    NegativeHasNoSets(st, n.key);
    var c := st.table[n.key];
    KeyOfEntry(st.table, n.key);
    hide CacheState.Valid;
    if c.body.Positive? {
      DropSetAccounted(c, n.idx);
      CountZero(DropSet(c, n.idx));
      CacheState.DelSetTable(st, n.key, n.idx);
      hide Accounted;
      assert st.table[n.key := DropSet(c, n.idx)] - {n.key} == st.table - {n.key};
    }
  }

  /** Deleting one node strips its entry of one slot. */
  lemma DropNodeStrips(st: State, n: Lent, k: Name)
    requires CacheState.Valid(st) && n in st.age && k in st.table
    ensures Stripped(st.table[k], DropNode(st, n).table, k, [n])
  {
    DropNodeTable(st, n);
    NamedOne(n, k);
    var c := st.table[k];
    if k == n.key && c.body.Positive? { OnlySlot(c.body.sets, n.idx); }
    hide DropNode;
    hide CacheState.Valid;
    hide Named;
    hide Touches;
    hide CacheState.EntryLent;
  }

  lemma OnlySlot(m: map<nat, RRSet>, x: nat)
    ensures m - {x} == map[] ==> forall i :: i in m ==> i == x
  {
    assert (m - {x}).Keys == m.Keys - {x};
    forall i | i in m ensures i == x || i in (m - {x}).Keys {}
  }

  lemma NamedOne(n: Lent, k: Name)
    ensures Touches([n], k) <==> n.key == k
    ensures forall i :: Named([n], k, i) <==> n.key == k && n.idx == i
  {
    assert n in [n];
  }

  /** Stripping twice. */
  lemma StrippedTwice(c: Cent, t1: CacheState.Table, t2: CacheState.Table, k: Name, ns: seq<Lent>, n: Lent)
    requires Stripped(c, t1, k, ns)
    requires if k in t1 then Stripped(t1[k], t2, k, [n]) else k !in t2
    requires c.body.Negative? && k in t1 && Touches([n], k) ==> k !in t2
    ensures Stripped(c, t2, k, ns + [n])
  {
    NamedSnoc(ns, n, k);
    hide Named;
    hide Touches;
  }

  lemma NamedSnoc(ns: seq<Lent>, n: Lent, k: Name)
    ensures Touches(ns + [n], k) <==> Touches(ns, k) || Touches([n], k)
    ensures forall i :: Named(ns + [n], k, i) <==> Named(ns, k, i) || Named([n], k, i)
    ensures forall i :: Named(ns, k, i) ==> Touches(ns, k)
    ensures forall i :: Named([n], k, i) ==> Touches([n], k)
  {
    forall m ensures m in ns + [n] <==> m in ns || m in [n] {}
  }

  lemma AllButOne(st: State, st': State, i: nat)
    requires CacheState.Links(st) && i < |st.age| && st'.age == st.age[..i] + st.age[i + 1..]
    ensures forall m :: m in st'.age <==> m in st.age && m != st.age[i]
  {
    forall m ensures m in st'.age <==> m in st.age && m != st.age[i] {
      if m in st.age && m != st.age[i] {
        var j :| 0 <= j < |st.age| && st.age[j] == m;
        assert m == st'.age[if j < i then j else j - 1];
      }
    }
  }

  /** st' is st without the nodes of ns: exactly they have left the list, whose order is kept;
      their slots are empty and no others; an entry is gone exactly when nothing is left of
      it; and everything still agrees. */
  ghost predicate NodesGoneFrom(st: State, st': State, ns: seq<Lent>)
  {
    && CacheState.Valid(st') && (CacheState.Ordered(st) ==> CacheState.Ordered(st'))
    && st'.insertSort == st.insertSort && Evicted(st.table, st'.table)
    && (forall n :: n in st'.age <==> n in st.age && n !in ns)
    && forall k :: if k in st.table then Stripped(st.table[k], st'.table, k, ns) else k !in st'.table
  }

  lemma OneMoreGone(st: State, st1: State, ns: seq<Lent>, n: Lent)
    requires NodesGoneFrom(st, st1, ns) && n in st.age && n !in ns
    ensures NodesGoneFrom(st, DropNode(st1, n), ns + [n])
  {
    hide CacheState.Valid;
    hide CacheState.Ordered;
    hide Evicted;
    hide Stripped;
    hide DropNode;
    var st' := DropNode(st1, n);
    NodeLeaves(st1, n);
    forall m ensures m in ns + [n] <==> m in ns || m == n {}
    EvictedTransitive(st.table, st1.table, st'.table);
    EvictedKeys(st.table, st'.table);
    forall k | k in st.table ensures Stripped(st.table[k], st'.table, k, ns + [n]) {
      StrippedMore(st.table[k], st1, st', k, ns, n);
    }
  }

  lemma EvictedKeys(t0: CacheState.Table, t: CacheState.Table)
    requires Evicted(t0, t)
    ensures forall k :: k in t ==> k in t0
  {}

  lemma NodeLeaves(st: State, n: Lent)
    requires CacheState.Valid(st) && n in st.age
    ensures var st' := DropNode(st, n);
      && CacheState.Valid(st') && (CacheState.Ordered(st) ==> CacheState.Ordered(st'))
      && st'.insertSort == st.insertSort && Evicted(st.table, st'.table)
      && forall m :: m in st'.age <==> m in st.age && m != n
  {
    var i :| 0 <= i < |st.age| && st.age[i] == n;
    DropNodeKeeps(st, i);
    LinksHold(st);
    AllButOne(st, DropNode(st, n), i);
    hide *;
  }

  lemma StrippedMore(c: Cent, st1: State, st': State, k: Name, ns: seq<Lent>, n: Lent)
    requires CacheState.Valid(st1) && n in st1.age && st' == DropNode(st1, n)
    requires Stripped(c, st1.table, k, ns)
    ensures Stripped(c, st'.table, k, ns + [n])
  {
    if k in st1.table { DropNodeStrips(st1, n, k); }
    DropNodeTable(st1, n);
    NamedOne(n, k);
    hide DropNode;
    hide CacheState.Valid;
    hide Named;
    hide Touches;
    StrippedTwice(c, st1.table, st'.table, k, ns, n);
  }

  /** Deleting the nodes of ns does what it should. */
  lemma {:induction false} DroppedMeaning(st: State, ns: seq<Lent>)
    requires CacheState.Valid(st) && CacheState.DistinctIds(ns) && forall n <- ns :: n in st.age
    ensures NodesGoneFrom(st, Dropped(st, ns), ns)
  {
    if ns == [] {
      EvictedReflexive(st.table);
    } else {
      var init, n := ns[..|ns| - 1], ns[|ns| - 1];
      assert ns == init + [n] && n !in init;
      hide NodesGoneFrom;
      DroppedMeaning(st, init);
      OneMoreGone(st, Dropped(st, init), init, n);
    }
  }

  /** The nodes that either walk deletes are among those of the list, each once. */
  lemma {:induction false} ExpiredAmong(t: CacheState.Table, age: seq<Lent>, now: int)
    requires CacheState.DistinctIds(age)
    ensures var ns := ExpiredNodes(t, age, now);
      CacheState.DistinctIds(ns) && forall n :: n in ns <==> n in age && NodeExpired(t, n, now)
  {
    if age != [] {
      var init, n := age[..|age| - 1], age[|age| - 1];
      ExpiredAmong(t, init, now);
      assert age == init + [n];
      hide NodeExpired;
      var r := ExpiredNodes(t, init, now);
      forall i | 0 <= i < |r| ensures r[i].id != n.id { assert r[i] in r && r[i] in init; }
    }
  }

  ghost predicate ExactlyExpired(ns: seq<Lent>, st: State, k: nat, now: int)
    requires k <= |st.age|
  {
    forall n :: n in ns <==> n in st.age[..k] && NodeExpired(st.table, n, now)
  }

  /** The first walk removes exactly the timed-out nodes among those it visits. */
  lemma FirstWalkMeaning(st: State, st': State, k: nat, sz: int, lazy: bool, now: int)
    requires CacheState.Valid(st) && FirstWalk(st, st', k, sz, lazy, now)
    ensures exists ns :: NodesGoneFrom(st, st', ns) && ExactlyExpired(ns, st, k, now)
    ensures !lazy ==> k == |st.age|
  {
    FirstNodes(st, k);
    var ns := ExpiredNodes(st.table, st.age[..k], now);
    ExpiredAmong(st.table, st.age[..k], now);
    hide CacheState.Valid;
    hide CacheState.DistinctIds;
    hide Dropped;
    hide FreshNodes;
    hide NodesGoneFrom;
    hide ExpiredNodes;
    hide NodeExpired;
    hide ExactlyExpired;
    DroppedMeaning(st, ns);
    SameMembers(ns, st, k, now);
  }

  lemma SameMembers(ns: seq<Lent>, st: State, k: nat, now: int)
    requires k <= |st.age| && forall n :: n in ns <==> n in st.age[..k] && NodeExpired(st.table, n, now)
    ensures ExactlyExpired(ns, st, k, now)
  {}

  lemma FirstNodes(st: State, k: nat)
    requires CacheState.Valid(st) && k <= |st.age|
    ensures CacheState.DistinctIds(st.age[..k]) && forall n <- st.age[..k] :: n in st.age
  {}

  /** The second walk removes the oldest nodes: none of them is younger than one that stays. */
  lemma SecondWalkMeaning(st: State, st': State, k: nat, sz: int)
    requires CacheState.Valid(st) && SecondWalk(st, st', k, sz)
    ensures NodesGoneFrom(st, st', st.age[..k])
    ensures st.insertSort && CacheState.Ordered(st) ==>
      forall m, n :: m in st.age[..k] && n in st'.age ==> CacheState.NodeTs(st.table, m) <= CacheState.NodeTs(st.table, n)
  {
    FirstNodes(st, k);
    hide CacheState.Valid;
    hide CacheState.DistinctIds;
    hide Dropped;
    hide NodesGoneFrom;
    DroppedMeaning(st, st.age[..k]);
    OlderFirst(st, k);
  }

  lemma OlderFirst(st: State, k: nat)
    requires k <= |st.age|
    ensures st.insertSort && CacheState.Ordered(st) ==>
      forall m, n :: m in st.age[..k] && n in st.age[k..] ==> CacheState.NodeTs(st.table, m) <= CacheState.NodeTs(st.table, n)
  {
    hide CacheState.NodeTs;
    if st.insertSort && CacheState.Ordered(st) {
      forall m, n | m in st.age[..k] && n in st.age[k..]
        ensures CacheState.NodeTs(st.table, m) <= CacheState.NodeTs(st.table, n)
      {
        var i :| 0 <= i < k && st.age[i] == m;
        var j :| k <= j < |st.age| && st.age[j] == n;
        assert CacheState.TsOf(st.table)(st.age[i]) <= CacheState.TsOf(st.table)(st.age[j]);
      }
    }
  }
}
