/** The age list as cache.c keeps it: nodes linked in both directions, with pointers to the
    first and the last one, changed in place. Every operation is shown to do to the sequence
    of nodes what CacheState and AgeSort say. */
module AgeList {
  import opened AgeSort
  import opened Powers
  import opened Memory
  import CacheState

  type Lent = CacheState.Lent

  /** rr_lent_t; `lent` stands for the set or entry that the node belongs to. */
  class Node {
    const lent: Lent
    var next: Node?
    var prev: Node?

    constructor (lent: Lent)
      ensures this.lent == lent && next == null && prev == null
    {
      this.lent := lent;
      next, prev := null, null;
    }
  }

  /** The i-th node, or NULL beyond either end. */
  function At(s: seq<Node>, i: int): Node? { if 0 <= i < |s| then s[i] else null }

  /** What the nodes stand for, in list order. */
  function Lents(s: seq<Node>): (r: seq<Lent>)
    ensures |r| == |s| && forall i :: 0 <= i < |s| ==> r[i] == s[i].lent
  {
    seq(|s|, i requires 0 <= i < |s| => s[i].lent)
  }

  /** get_rrlent_ts */
  function AgeOf(ts: Lent -> int): Node -> int { (n: Node) => ts(n.lent) }

  /** Following next from p meets exactly the nodes of s. */
  ghost predicate Chain(p: Node?, s: seq<Node>)
    reads s
  {
    p == At(s, 0) && forall i {:trigger s[i].next} :: 0 <= i < |s| ==> s[i].next == At(s, i + 1)
  }

  /** The back links of s. */
  ghost predicate BackLinks(s: seq<Node>, n: nat)
    requires n <= |s|
    reads s
  {
    forall i {:trigger s[i].prev} :: 0 <= i < n ==> s[i].prev == At(s, i - 1)
  }

  ghost predicate Distinct(s: seq<Node>) { forall i, j :: 0 <= i < j < |s| ==> s[i] != s[j] }

  ghost predicate Apart(a: seq<Node>, b: seq<Node>) { forall i, j :: 0 <= i < |a| && 0 <= j < |b| ==> a[i] != b[j] }

  ghost predicate Within(s: seq<Node>, nodes: set<Node>) { forall i :: 0 <= i < |s| ==> s[i] in nodes }

  // ---- Nodes and what they stand for

  lemma LentsSnoc(s: seq<Node>, x: Node)
    ensures Lents(s + [x]) == Lents(s) + [x.lent]
  {}

  lemma LentsInit(s: seq<Node>)
    requires s != []
    ensures Lents(s)[..|s| - 1] == Lents(s[..|s| - 1])
  {}

  lemma InsertCases(s: seq<Node>, x: Node, ts: Lent -> int)
    requires s != []
    ensures var last, init := s[|s| - 1], s[..|s| - 1];
      && InsertByAge(s, x, AgeOf(ts)) ==
         (if ts(x.lent) >= ts(last.lent) then s + [x] else InsertByAge(init, x, AgeOf(ts)) + [last])
      && InsertByAge(Lents(s), x.lent, ts) ==
         (if ts(x.lent) >= ts(last.lent) then Lents(s) + [x.lent] else InsertByAge(Lents(init), x.lent, ts) + [last.lent])
  {
    LentsInit(s);
    assert Lents(s)[|s| - 1] == s[|s| - 1].lent;
  }

  lemma {:induction false} LentsInsert(s: seq<Node>, x: Node, ts: Lent -> int)
    ensures Lents(InsertByAge(s, x, AgeOf(ts))) == InsertByAge(Lents(s), x.lent, ts)
  {
    if s != [] {
      var init, last := s[..|s| - 1], s[|s| - 1];
      InsertCases(s, x, ts);
      hide *;
      LentsSnoc(s, x);
      if ts(x.lent) < ts(last.lent) {
        LentsInsert(init, x, ts);
        LentsSnoc(InsertByAge(init, x, AgeOf(ts)), last);
      }
    }
  }

  lemma {:induction false} LentsInsertAll(s: seq<Node>, ts: Lent -> int)
    ensures Lents(InsertAll(s, AgeOf(ts))) == InsertAll(Lents(s), ts)
  {
    if s != [] {
      var init := s[..|s| - 1];
      LentsInsertAll(init, ts);
      LentsInit(s);
      LentsInsert(InsertAll(init, AgeOf(ts)), s[|s| - 1], ts);
    }
  }

  // ---- listmerge

  /** The nodes merged so far are linked up to the last one, whose next pointer is next to
      be set. */
  ghost predicate Merged(l: Node?, last: Node?, done: seq<Node>)
    reads done
  {
    && l == At(done, 0) && last == At(done, |done| - 1)
    && forall i {:trigger done[i].next} :: 0 <= i < |done| - 1 ==> done[i].next == done[i + 1]
  }

  lemma MergeNodes(p: seq<Node>, q: seq<Node>, ts: Node -> int, nodes: set<Node>)
    requires Distinct(p) && Distinct(q) && Apart(p, q) && Within(p, nodes) && Within(q, nodes)
    ensures Distinct(Merge(p, q, ts)) && Within(Merge(p, q, ts), nodes)
    ensures forall r: seq<Node> :: Apart(r, p) && Apart(r, q) ==> Apart(r, Merge(p, q, ts))
  {
    var m := Merge(p, q, ts);
    hide Merge;
    forall i | 0 <= i < |m| ensures m[i] in p || m[i] in q { MergeMembers(p, q, ts, m[i]); }
    DistinctMultiset(p, q, m);
  }

  lemma DistinctMultiset(p: seq<Node>, q: seq<Node>, m: seq<Node>)
    requires Distinct(p) && Distinct(q) && Apart(p, q) && multiset(m) == multiset(p) + multiset(q)
    ensures Distinct(m)
  {
    forall i, j | 0 <= i < j < |m| ensures m[i] != m[j] {
      AtMostOnce(p, m[i]);
      AtMostOnce(q, m[i]);
      NotInBoth(p, q, m[i]);
      TwiceIsTwo(m, i, j);
    }
  }

  lemma NotInBoth(p: seq<Node>, q: seq<Node>, x: Node)
    requires Apart(p, q)
    ensures multiset(p)[x] == 0 || multiset(q)[x] == 0
  {
    if x in p { var a :| 0 <= a < |p| && p[a] == x; }
  }

  lemma TwiceIsTwo(m: seq<Node>, i: nat, j: nat)
    requires i < j < |m|
    ensures m[i] == m[j] ==> multiset(m)[m[i]] >= 2
  {
    assert m == m[..j] + [m[j]] + m[j + 1..];
    assert m[i] in m[..j];
  }

  lemma {:induction false} AtMostOnce(s: seq<Node>, x: Node)
    requires Distinct(s)
    ensures multiset(s)[x] <= 1
  {
    if s != [] {
      var init := s[..|s| - 1];
      assert s == init + [s[|s| - 1]];
      AtMostOnce(init, x);
      if x == s[|s| - 1] { assert x !in multiset(init); }
    }
  }

  /** Where listmerge stands: what is merged, and what is left of the two lists. */
  ghost predicate Merging(l: Node?, last: Node?, done: seq<Node>, p: Node?, ps: seq<Node>, q: Node?, qs: seq<Node>)
    reads done, ps, qs
  {
    && Merged(l, last, done) && Chain(p, ps) && Chain(q, qs)
    && Distinct(done) && Distinct(ps) && Distinct(qs) && Apart(done, ps) && Apart(done, qs) && Apart(ps, qs)
  }

  lemma Swapped(l: Node?, last: Node?, done: seq<Node>, p: Node?, ps: seq<Node>, q: Node?, qs: seq<Node>)
    requires Merging(l, last, done, p, ps, q, qs)
    ensures Merging(l, last, done, q, qs, p, ps)
  {}

  /** Hooks the first node of a list after the last merged one, and goes on to the next. */
  method TakeFirst(l0: Node?, last0: Node?, p0: Node, q: Node?, ghost done: seq<Node>, ghost ps: seq<Node>, ghost qs: seq<Node>)
    returns (l: Node?, p: Node?)
    requires Merging(l0, last0, done, p0, ps, q, qs)
    modifies done`next
    ensures ps != [] && ps[0] == p0 && Merging(l, p0, done + [p0], p, ps[1..], q, qs)
    ensures Merging(l, p0, done + [p0], q, qs, p, ps[1..])
    ensures p == null <==> ps[1..] == []
  {
    l := l0;
    if last0 == null { l := p0; } else { last0.next := p0; }
    p := p0.next;
  }

  /** Hooks what is left of the other list after the last merged node. */
  method TakeRest(l: Node?, last: Node, q: Node?, ghost done: seq<Node>, ghost qs: seq<Node>)
    requires Merging(l, last, done, null, [], q, qs)
    modifies last`next
    ensures Chain(l, done + qs)
  {
    last.next := q;
  }

  /** One round of listmerge. */
  method MergeStep(l0: Node?, last0: Node?, p0: Node, q0: Node, ts: Lent -> int,
                   ghost done0: seq<Node>, ghost ps0: seq<Node>, ghost qs0: seq<Node>, ghost nodes: set<Node>)
    returns (l: Node?, last: Node, p: Node?, q: Node?, ghost done: seq<Node>, ghost ps: seq<Node>, ghost qs: seq<Node>)
    requires Merging(l0, last0, done0, p0, ps0, q0, qs0)
    requires Within(done0, nodes) && Within(ps0, nodes) && Within(qs0, nodes)
    modifies nodes`next
    ensures Merging(l, last, done, p, ps, q, qs) && |ps| + |qs| < |ps0| + |qs0| && (p != null || q != null)
    ensures done + Merge(ps, qs, AgeOf(ts)) == done0 + Merge(ps0, qs0, AgeOf(ts))
    ensures Within(done, nodes) && Within(ps, nodes) && Within(qs, nodes)
  {
    p, q, ps, qs := p0, q0, ps0, qs0;
    Firsts(p0, ps0, q0, qs0);
    MergeUnfold(done0, ps0, qs0, AgeOf(ts));
    if ts(p0.lent) <= ts(q0.lent) {
      last, done, ps := p0, done0 + [p0], ps0[1..];
      assert Within(done, nodes) && Within(ps, nodes);
      InNodes(done0, nodes);
      hide *;
      l, p := TakeFirst(l0, last0, p0, q0, done0, ps0, qs0);
    } else {
      last, done, qs := q0, done0 + [q0], qs0[1..];
      assert Within(done, nodes) && Within(qs, nodes);
      Swapped(l0, last0, done0, p0, ps0, q0, qs0);
      InNodes(done0, nodes);
      hide *;
      l, q := TakeFirst(l0, last0, q0, p0, done0, qs0, ps0);
    }
  }

  lemma InNodes(s: seq<Node>, nodes: set<Node>)
    requires Within(s, nodes)
    ensures forall x :: x in s ==> x in nodes
  {}

  /** listmerge: merges two lists by redirecting next pointers. */
  method ListMerge(p0: Node?, q0: Node?, ts: Lent -> int, ghost ps0: seq<Node>, ghost qs0: seq<Node>, ghost nodes: set<Node>)
    returns (l: Node?)
    requires Chain(p0, ps0) && Chain(q0, qs0) && Distinct(ps0) && Distinct(qs0) && Apart(ps0, qs0)
    requires Within(ps0, nodes) && Within(qs0, nodes)
    modifies nodes`next
    ensures Chain(l, Merge(ps0, qs0, AgeOf(ts)))
  {
    if p0 == null { return q0; }
    if q0 == null { return p0; }
    var p, q, last: Node? := p0, q0, null;
    l := null;
    ghost var done: seq<Node>, ps, qs := [], ps0, qs0;
    assert done + Merge(ps, qs, AgeOf(ts)) == Merge(ps0, qs0, AgeOf(ts));
    assert Merging(l, last, done, p, ps, q, qs) && Within(done, nodes);
    hide *;
    while p != null && q != null
      invariant Merging(l, last, done, p, ps, q, qs)
      invariant Within(done, nodes) && Within(ps, nodes) && Within(qs, nodes)
      invariant done + Merge(ps, qs, AgeOf(ts)) == Merge(ps0, qs0, AgeOf(ts))
      invariant (p != null || q != null) && (p == null || q == null ==> last != null)
      decreases |ps| + |qs|
    {
      l, last, p, q, done, ps, qs := MergeStep(l, last, p, q, ts, done, ps, qs, nodes);
    }
    LastOne(l, last, done, p, ps, q, qs, nodes);
    if p == null {
      MergeEmpty(done, qs, AgeOf(ts));
      TakeRest(l, last, q, done, qs);
    } else {
      MergeEmpty(done, ps, AgeOf(ts));
      TakeRest(l, last, p, done, ps);
    }
  }

  lemma LastOne(l: Node?, last: Node?, done: seq<Node>, p: Node?, ps: seq<Node>, q: Node?, qs: seq<Node>, nodes: set<Node>)
    requires Within(done, nodes)
    requires Merging(l, last, done, p, ps, q, qs)
    ensures last != null ==> last in nodes
    ensures p == null ==> ps == [] && Merging(l, last, done, null, [], q, qs)
    ensures q == null ==> qs == [] && Merging(l, last, done, null, [], p, ps)
  {}

  lemma Firsts(p: Node, pr: seq<Node>, q: Node, qr: seq<Node>)
    requires Chain(p, pr) && Chain(q, qr)
    ensures pr != [] && qr != [] && pr[0] == p && qr[0] == q
  {}

  lemma MergeEmpty(done: seq<Node>, s: seq<Node>, ts: Node -> int)
    ensures done + Merge([], s, ts) == done + s == done + Merge(s, [], ts)
  {}

  // ---- sort_rrl

  ghost function NodesOf(s: seq<Node>): (r: set<Node>)
    ensures Within(s, r) && forall x <- s :: x in r
    ensures forall x <- r :: x in s
  {
    set x | x in s
  }

  /** The runs, the carry and the unread rest have no node in common. */
  ghost predicate Separate(runs: seq<seq<Node>>, carry: seq<Node>, rem: seq<Node>, nodes: set<Node>)
  {
    && (forall j :: 0 <= j < |runs| ==> Within(runs[j], nodes) && Distinct(runs[j]))
    && Within(carry, nodes) && Distinct(carry) && Within(rem, nodes) && Distinct(rem) && Apart(rem, carry)
    && (forall j :: 0 <= j < |runs| ==> Apart(runs[j], carry) && Apart(rem, runs[j]))
    && (forall i, j :: 0 <= i < |runs| && 0 <= j < |runs| && i != j ==> Apart(runs[i], runs[j]))
  }

  /** While sorting: tmp points to the runs, and together with the carry and the unread rest
      they are made of the nodes of the list. */
  ghost predicate Pieces(tmp: seq<Node?>, runs: seq<seq<Node>>, carry: seq<Node>, rem: seq<Node>, nodes: set<Node>)
    reads nodes
  {
    && |tmp| == |runs| && Separate(runs, carry, rem, nodes)
    && (forall j {:trigger tmp[j]} :: 0 <= j < |runs| ==> ChainIn(tmp[j], runs[j], nodes))
  }

  ghost predicate ChainIn(p: Node?, s: seq<Node>, nodes: set<Node>)
    reads nodes
  {
    Within(s, nodes) && (InNodes(s, nodes); Chain(p, s))
  }

  /** The pieces after the run of slot c was merged into the carry. */
  lemma PiecesMerged(tmp: seq<Node?>, runs: seq<seq<Node>>, c: nat, cs: seq<Node>, rs: seq<Node>, nodes: set<Node>, ts: Node -> int)
    requires c < |runs| && |tmp| == |runs| && Separate(runs, cs, rs, nodes)
    ensures Separate(runs[c := []], Merge(runs[c], cs, ts), rs, nodes)
  {
    assert Within([], nodes) && Distinct([]) && forall r :: Apart(r, []) && Apart([], r);
    hide Merge;
    hide Within;
    hide Distinct;
    hide Apart;
    MergeNodes(runs[c], cs, ts, nodes);
  }

  /** listmerge on the run in slot c and the carry. */
  method MergeRun(tmp: seq<Node?>, c: nat, carry0: Node?, ts: Lent -> int, ghost runs: seq<seq<Node>>,
                  ghost cs: seq<Node>, rem: Node?, ghost rs: seq<Node>, ghost nodes: set<Node>)
    returns (carry: Node?)
    requires c < |tmp| && Pieces(tmp, runs, cs, rs, nodes) && ChainIn(carry0, cs, nodes) && ChainIn(rem, rs, nodes)
    modifies nodes`next
    ensures Pieces(tmp[c := null], runs[c := []], Merge(runs[c], cs, AgeOf(ts)), rs, nodes)
    ensures ChainIn(carry, Merge(runs[c], cs, AgeOf(ts)), nodes) && ChainIn(rem, rs, nodes)
  {
    hide Merge;
    PiecesMerged(tmp, runs, c, cs, rs, nodes, AgeOf(ts));
    MergeNodes(runs[c], cs, AgeOf(ts), nodes);
    carry := ListMerge(tmp[c], carry0, ts, runs[c], cs, NodesOf(runs[c]) + NodesOf(cs));
    assert Chain(rem, rs);
    forall j | 0 <= j < |runs| && j != c ensures Chain(tmp[j], runs[j]) {}
  }

  /** Adds one more node to the binary counter of runs. Fails iff all slots are taken. */
  method AddRun(tmp0: seq<Node?>, fill0: nat, carry0: Node, rem: Node?, ts: Lent -> int, ghost runs0: seq<seq<Node>>,
                ghost rs: seq<Node>, ghost l: seq<Node>, ghost nodes: set<Node>)
    returns (ok: bool, tmp: seq<Node?>, fill: nat, ghost runs: seq<seq<Node>>)
    requires Slots(runs0, fill0, AgeOf(ts)) && Pieces(tmp0, runs0, [carry0], rs, nodes)
    requires ChainIn(carry0, [carry0], nodes) && ChainIn(rem, rs, nodes)
    requires Holds(runs0, [carry0], rs, l, AgeOf(ts))
    modifies nodes`next
    ensures !ok ==> Total(runs0) + 1 >= Pow2(NTMPSORT)
    ensures ok ==> Slots(runs, fill, AgeOf(ts)) && fill > 0 && Holds(runs, [], rs, l, AgeOf(ts))
    ensures ok ==> Total(runs) == Total(runs0) + 1 && Pieces(tmp, runs, [], rs, nodes) && ChainIn(rem, rs, nodes)
  {
    var carry: Node?, counter := carry0, 0;
    ghost var cs, f: Node -> int := [carry0], AgeOf(ts);
    tmp, fill, runs := tmp0, fill0, runs0;
    hide PickSlots;
    hide Pick;
    hide Holds;
    hide Merge;
    hide Separate;
    hide Chain;
    while counter != fill && tmp[counter] != null
      invariant counter <= fill && Slots(runs, fill, f) && Pieces(tmp, runs, cs, rs, nodes)
      invariant ChainIn(carry, cs, nodes) && ChainIn(rem, rs, nodes)
      invariant forall j :: 0 <= j < counter ==> runs[j] == []
      invariant Sorted(cs, f) && |cs| == Pow2(counter)
      invariant Holds(runs, cs, rs, l, f) && Total(runs) + |cs| == Total(runs0) + 1
      decreases fill - counter
    {
      RunThere(tmp[counter], runs[counter], nodes);
      CarryStep(runs, counter, cs, rs, l, f);
      MergeSorted(runs[counter], cs, f);
      TotalUpdate(runs, counter, []);
      carry := MergeRun(tmp, counter, carry, ts, runs, cs, rem, rs, nodes);
      cs, runs := Merge(runs[counter], cs, f), runs[counter := []];
      tmp := tmp[counter := null];
      counter := counter + 1;
    }
    ok := counter != NTMPSORT;
    if !ok { return; }
    RunThere(tmp[counter], runs[counter], nodes);
    StoreStep(runs, counter, cs, rs, l, f);
    TotalUpdate(runs, counter, cs);
    Stored(runs, counter, cs, rs, nodes);
    tmp, runs := tmp[counter := carry], runs[counter := cs];
    if counter == fill { fill := fill + 1; }
  }

  lemma RunThere(p: Node?, s: seq<Node>, nodes: set<Node>)
    requires ChainIn(p, s, nodes)
    ensures p == null <==> s == []
  {}

  /** The carry becomes the run of an empty slot. */
  lemma Stored(runs: seq<seq<Node>>, c: nat, cs: seq<Node>, rs: seq<Node>, nodes: set<Node>)
    requires c < |runs| && runs[c] == [] && Separate(runs, cs, rs, nodes)
    ensures Separate(runs[c := cs], [], rs, nodes)
  {
    assert Within([], nodes) && Distinct([]) && forall r :: Apart(r, []);
    forall j | 0 <= j < |runs| ensures Apart(cs, runs[j]) {}
    hide Within;
    hide Distinct;
    hide Apart;
  }

  lemma {:induction false} TotalFits(runs: seq<seq<Node>>, c: nat)
    requires c <= |runs| && forall j :: c <= j < |runs| ==> |runs[j]| <= Pow2(j)
    ensures Total(runs[c..]) + Pow2(c) <= Pow2(|runs|)
    decreases |runs| - c
  {
    if c < |runs| {
      TotalFits(runs, c + 1);
      assert runs[c..][1..] == runs[c + 1..];
    }
  }

  /** Merges the remaining fragments. */
  method MergeSlots(tmp: seq<Node?>, fill: nat, ts: Lent -> int, ghost runs0: seq<seq<Node>>, ghost l: seq<Node>, ghost nodes: set<Node>)
    returns (carry: Node?, ghost cs: seq<Node>)
    requires Slots(runs0, fill, AgeOf(ts)) && fill > 0 && Holds(runs0, [], [], l, AgeOf(ts))
    requires Pieces(tmp, runs0, [], [], nodes)
    modifies nodes`next
    ensures StableSort(l, cs, AgeOf(ts)) && ChainIn(carry, cs, nodes)
  {
    carry := tmp[0];
    var counter, rest := 1, tmp[0 := null];
    ghost var runs, f: Node -> int := runs0[0 := []], AgeOf(ts);
    cs := runs0[0];
    FirstRun(runs0, l, nodes, f);
    hide PickSlots;
    hide Pick;
    hide Merge;
    hide Separate;
    hide Chain;
    while counter != fill
      invariant 1 <= counter <= fill && Sorted(cs, f) && |runs| == NTMPSORT
      invariant Pieces(rest, runs, cs, [], nodes) && ChainIn(carry, cs, nodes)
      invariant forall j :: counter <= j < NTMPSORT ==> runs[j] == runs0[j]
      invariant forall k :: PickSlots(runs0[counter..], f, k) + Pick(cs, f, k) == Pick(l, f, k)
    {
      FinalStep(runs0, counter, cs, l, f);
      MergeSorted(runs0[counter], cs, f);
      carry := MergeRun(rest, counter, carry, ts, runs, cs, null, [], nodes);
      cs, runs, rest := Merge(runs[counter], cs, f), runs[counter := []], rest[counter := null];
      counter := counter + 1;
    }
    Emptied(runs0, fill, cs, l, f);
  }

  lemma FirstRun(runs: seq<seq<Node>>, l: seq<Node>, nodes: set<Node>, ts: Node -> int)
    requires |runs| > 0 && Separate(runs, [], [], nodes) && Holds(runs, [], [], l, ts)
    ensures forall k :: PickSlots(runs[1..], ts, k) + Pick(runs[0], ts, k) == Pick(l, ts, k)
    ensures Separate(runs[0 := []], runs[0], [], nodes)
  {
    forall k ensures PickSlots(runs[1..], ts, k) + Pick(runs[0], ts, k) == Pick(l, ts, k) {
      assert Pick<Node>([], ts, k) == [];
    }
    assert Within([], nodes) && Distinct([]) && forall r :: Apart(r, []) && Apart([], r);
    hide Within;
    hide Distinct;
    hide Apart;
    hide Pick;
    hide PickSlots;
  }

  /** Takes the list apart and sorts it, ignoring the back links. */
  method SortForward(head: Node, ts: Lent -> int, ghost l: seq<Node>) returns (ok: bool, first: Node?, ghost r: seq<Node>)
    requires Chain(head, l) && Distinct(l)
    modifies (NodesOf(l))`next
    ensures ok <==> |l| < Pow2(NTMPSORT)
    ensures ok ==> StableSort(l, r, AgeOf(ts)) && Chain(first, r)
  {
    ghost var nodes, f: Node -> int := NodesOf(l), AgeOf(ts);
    var tmp: seq<Node?> := seq(NTMPSORT, i => null);
    var fill, rem: Node? := 0, head;
    ghost var runs: seq<seq<Node>>, rs := seq(NTMPSORT, i => []), l;
    first, r := null, [];
    SortStarts(tmp, runs, head, l, f);
    hide Holds;
    hide Pieces;
    hide ChainIn;
    hide Slots;
    hide Total;
    hide StableSort;
    hide Distinct;
    hide Chain;
    while rem != null
      invariant Slots(runs, fill, f) && (rs != l ==> fill > 0)
      invariant Pieces(tmp, runs, [], rs, nodes) && ChainIn(rem, rs, nodes)
      invariant Holds(runs, [], rs, l, f) && Total(runs) + |rs| == |l|
      decreases |rs|
    {
      var carry := rem;
      RunThere(rem, rs, nodes);
      TakeStep(runs, rs, l, f);
      TakeNode(tmp, runs, rem, rs, nodes);
      rem := rem.next;
      carry.next := null;
      ok, tmp, fill, runs := AddRun(tmp, fill, carry, rem, ts, runs, rs[1..], l, nodes);
      if !ok { return; }
      rs := rs[1..];
    }
    RunThere(rem, rs, nodes);
    AllFits(runs, fill, f);
    first, r := MergeSlots(tmp, fill, ts, runs, l, nodes);
    ChainThere(first, r, nodes);
    ok := true;
  }

  lemma SortStarts(tmp: seq<Node?>, runs: seq<seq<Node>>, head: Node, l: seq<Node>, f: Node -> int)
    requires Chain(head, l) && Distinct(l) && |tmp| == |runs| == NTMPSORT
    requires forall j :: 0 <= j < NTMPSORT ==> tmp[j] == null && runs[j] == []
    ensures l != [] && Slots(runs, 0, f) && Holds(runs, [], l, l, f) && Total(runs) == 0
    ensures Pieces(tmp, runs, [], l, NodesOf(l)) && ChainIn(head, l, NodesOf(l))
  {
    EmptySlots(runs, l, f);
    hide Holds;
    hide Slots;
    hide Total;
  }

  lemma ChainThere(p: Node?, s: seq<Node>, nodes: set<Node>)
    requires ChainIn(p, s, nodes)
    ensures Chain(p, s)
  {}

  lemma AllFits(runs: seq<seq<Node>>, fill: nat, ts: Node -> int)
    requires Slots(runs, fill, ts)
    ensures Total(runs) < Pow2(NTMPSORT)
  {
    assert runs[0..] == runs;
    TotalFits(runs, 0);
  }

  /** The next node comes off the unread rest. */
  lemma TakeNode(tmp: seq<Node?>, runs: seq<seq<Node>>, p: Node, rs: seq<Node>, nodes: set<Node>)
    requires Pieces(tmp, runs, [], rs, nodes) && ChainIn(p, rs, nodes)
    ensures rs != [] && rs[0] == p && Separate(runs, [p], rs[1..], nodes)
    ensures forall j :: 0 <= j < |runs| ==> p !in runs[j]
  {}

  // ---- The list

  class RRList {
    var head: Node?  // rrset_l
    var tail: Node?  // rrset_l_tail
    ghost var nodes: seq<Node>

    /** The links in both directions and the two ends agree with the sequence of nodes. */
    ghost predicate Valid()
      reads this, nodes
    {
      && Distinct(nodes) && Chain(head, nodes) && BackLinks(nodes, |nodes|)
      && tail == At(nodes, |nodes| - 1)
    }

    constructor ()
      ensures Valid() && nodes == []
    {
      head, tail, nodes := null, null, [];
    }

    /** insert_rrl: the new node goes behind the last one that is not younger, which is searched
        from the tail, or simply to the end while the cache is being read from disk. */
    method InsertRrl(lent: Lent, ts: Lent -> int, insertSort: bool, enough: bool) returns (ne: Node?)
      requires Valid()
      modifies this, nodes
      ensures Valid()
      ensures ne == null ==> !enough && nodes == old(nodes)
      ensures ne != null ==> fresh(ne) && ne.lent == lent
      ensures ne != null ==>
        nodes == if insertSort then InsertByAge<Node>(old(nodes), ne, AgeOf(ts)) else old(nodes) + [ne]
      ensures ne != null ==>
        Lents(nodes) == if insertSort then InsertByAge(Lents(old(nodes)), lent, ts) else Lents(old(nodes)) + [lent]
    {
      var ok := Allocate(enough);
      if !ok { return null; }
      var e := new Node(lent);
      var le := tail;
      ghost var n := |nodes|;
      LentsSnoc(nodes, e);
      LentsInsert(nodes, e, ts);
      assert nodes[..n] + [e] + nodes[n..] == nodes + [e];
      if insertSort { le, n := FindPlace(e, ts); }
      hide *;
      LinkBehind(e, le, n);
      ne := e;
    }

    /** The search of insert_rrl, back to front. */
    method FindPlace(ne: Node, ts: Lent -> int) returns (le: Node?, ghost n: nat)
      requires Valid()
      ensures n <= |nodes| && le == At(nodes, n - 1)
      ensures nodes[..n] + [ne] + nodes[n..] == InsertByAge(nodes, ne, AgeOf(ts))
    {
      le, n := tail, |nodes|;
      ghost var r: seq<Node> := InsertByAge(nodes, ne, AgeOf(ts));
      ghost var s := nodes;
      assert BackLinks(s, |s|) && le == At(s, n - 1);
      hide *;
      StartBack(s, ne, AgeOf(ts));
      while le != null && ts(ne.lent) < ts(le.lent)
        invariant 0 <= n <= |s| && le == At(s, n - 1)
        invariant r == InsertByAge(s[..n], ne, AgeOf(ts)) + s[n..]
        decreases n
      {
        StepBack(s, n, le, ne, ts);
        le := le.prev;
        n := n - 1;
      }
      StopBack(s, n, le, ne, ts);
    }

    /** Links a new node behind le, or at the start. */
    method LinkBehind(ne: Node, le: Node?, ghost n: nat)
      requires Valid() && n <= |nodes| && le == At(nodes, n - 1) && ne !in nodes
      modifies this, nodes, ne
      ensures Valid() && nodes == old(nodes)[..n] + [ne] + old(nodes)[n..]
    {
      if le == null {
        assert nodes[..0] + [ne] + nodes[0..] == [ne] + nodes;
        LinkFirst(ne);
      } else {
        LinkAfter(ne, le, n);
      }
    }

    method LinkFirst(ne: Node)
      requires Valid() && ne !in nodes
      modifies this, nodes, ne
      ensures Valid() && nodes == [ne] + old(nodes)
    {
      ne.next, ne.prev := head, null;
      if head != null { head.prev := ne; } else { tail := ne; }
      head := ne;
      nodes := [ne] + nodes;
    }

    method LinkAfter(ne: Node, le: Node, ghost n: nat)
      requires Valid() && 0 < n <= |nodes| && le == nodes[n - 1] && ne !in nodes
      modifies this, nodes, ne
      ensures Valid() && nodes == old(nodes)[..n] + [ne] + old(nodes)[n..]
    {
      ne.next, ne.prev := le.next, le;
      if le.next != null { le.next.prev := ne; } else { tail := ne; }
      le.next := ne;
      Spliced(head, tail, nodes, ne, n);
      nodes := nodes[..n] + [ne] + nodes[n..];
    }

    /** remove_rrl: the node leaves the list, whichever place it has. */
    method RemoveRrl(le: Node)
      requires Valid() && le in nodes
      modifies this, nodes
      ensures Valid() && le !in nodes && |nodes| == |old(nodes)| - 1
      ensures CacheState.DistinctIds(Lents(old(nodes))) ==>
        Lents(nodes) == CacheState.Without(Lents(old(nodes)), le.lent.id)
    {
      ghost var i :| 0 <= i < |nodes| && nodes[i] == le;
      LentsWithout(nodes, i);
      hide *;
      Unlink(le, i);
    }

    /** Redirects the neighbours of node i to each other. */
    method Unlink(le: Node, ghost i: nat)
      requires Valid() && i < |nodes| && le == nodes[i]
      modifies this, nodes
      ensures Valid() && nodes == old(nodes)[..i] + old(nodes)[i + 1..] && le !in nodes
    {
      var next, prev := le.next, le.prev;
      if next != null { next.prev := prev; } else { tail := prev; }
      if prev != null { prev.next := next; } else { head := next; }
      Bypassed(head, tail, nodes, i);
      nodes := nodes[..i] + nodes[i + 1..];
    }

    /** The second pass of sort_rrl, which restores the back links and the tail. */
    method RestoreBackLinks(first: Node?, ghost r: seq<Node>)
      requires Distinct(r) && Chain(first, r)
      modifies this, r`prev
      ensures Valid() && nodes == r
    {
      head := first;
      var p, q: Node? := first, null;
      ghost var i := 0;
      while p != null
        invariant 0 <= i <= |r| && p == At(r, i) && q == At(r, i - 1)
        invariant Chain(head, r) && BackLinks(r, i)
        decreases |r| - i
      {
        p.prev := q;
        q := p;
        p := p.next;
        i := i + 1;
      }
      tail, nodes := q, r;
    }

    /** sort_rrl: afterwards the list is what inserting its nodes one by one would have made
        of it, with all links restored. It succeeds exactly for lists that 32 slots can sort;
        otherwise an assertion ends the program. */
    method SortRrl(ts: Lent -> int) returns (ok: bool)
      requires Valid()
      modifies this, nodes
      ensures ok <==> |old(nodes)| < Pow2(NTMPSORT)
      ensures ok ==> Valid() && StableSort(old(nodes), nodes, AgeOf(ts))
      ensures ok ==> nodes == InsertAll(old(nodes), AgeOf(ts)) && Lents(nodes) == InsertAll(Lents(old(nodes)), ts)
    {
      Ends(head, nodes);
      if head == null || head.next == null {
        ShortSorted(nodes, ts);
        SortedNodes(nodes, nodes, ts);
        return true;
      }
      ok := SortLinks(ts);
      if ok { SortedNodes(old(nodes), nodes, ts); }
    }

    /** Sorts along the next pointers, then restores the other links. */
    method SortLinks(ts: Lent -> int) returns (ok: bool)
      requires Valid() && head != null
      modifies this, nodes
      ensures ok <==> |old(nodes)| < Pow2(NTMPSORT)
      ensures ok ==> Valid() && StableSort(old(nodes), nodes, AgeOf(ts))
    {
      ghost var l := nodes;
      var first;
      ghost var r;
      assert Chain(head, l) && Distinct(l);
      hide *;
      ok, first, r := SortForward(head, ts, l);
      if ok {
        SortedNodes(l, r, ts);
        RestoreBackLinks(first, r);
      }
    }
  }

  lemma ShortSorted(l: seq<Node>, ts: Lent -> int)
    requires |l| < 2
    ensures StableSort(l, l, AgeOf(ts)) && |l| < Pow2(NTMPSORT)
  {
    assert Pow2(2) == 4;
    GrowingPow2(2, NTMPSORT);
  }

  lemma {:induction false} GrowingPow2(m: nat, n: nat)
    requires m <= n
    ensures Pow2(m) <= Pow2(n)
  {
    if m < n { GrowingPow2(m, n - 1); }
  }

  /** There is only one stable sort of the list, and it consists of the nodes of the list. */
  lemma SortedNodes(l: seq<Node>, r: seq<Node>, ts: Lent -> int)
    requires Distinct(l) && StableSort(l, r, AgeOf(ts))
    ensures r == InsertAll(l, AgeOf(ts)) && Lents(r) == InsertAll(Lents(l), ts)
    ensures Distinct(r) && forall x <- r :: x in l
  {
    InsertAllStable(l, AgeOf(ts));
    StableSortUnique(r, InsertAll(l, AgeOf(ts)), AgeOf(ts));
    LentsInsertAll(l, ts);
    hide *;
    SameNodes(l, r);
  }

  /** The list without node i, whose neighbours point past it. */
  lemma Bypassed(head: Node?, tail: Node?, s: seq<Node>, i: nat)
    requires i < |s| && Distinct(s)
    requires forall k {:trigger s[k].next} :: 0 <= k < |s| && k != i ==> s[k].next == At(s, if k + 1 == i then i + 1 else k + 1)
    requires forall k {:trigger s[k].prev} :: 0 <= k < |s| && k != i ==> s[k].prev == At(s, if k - 1 == i then i - 1 else k - 1)
    requires head == At(s, if i == 0 then 1 else 0) && tail == At(s, if i == |s| - 1 then i - 1 else |s| - 1)
    ensures var r := s[..i] + s[i + 1..];
      Distinct(r) && Chain(head, r) && BackLinks(r, |r|) && tail == At(r, |r| - 1) && s[i] !in r
  {
    var r := s[..i] + s[i + 1..];
    AtBypass(s, i, 0);
    AtBypass(s, i, |r| - 1);
    assert Distinct(r) && s[i] !in r;
    hide Distinct;
    hide At;
    forall k {:trigger r[k].next} | 0 <= k < |r| ensures r[k].next == At(r, k + 1) { AtBypass(s, i, k); AtBypass(s, i, k + 1); }
    forall k {:trigger r[k].prev} | 0 <= k < |r| ensures r[k].prev == At(r, k - 1) { AtBypass(s, i, k); AtBypass(s, i, k - 1); }
  }

  lemma AtBypass(s: seq<Node>, i: nat, k: int)
    requires i < |s|
    ensures var r := s[..i] + s[i + 1..];
      At(r, k) == At(s, if k < i then k else k + 1) && (0 <= k < |r| ==> r[k] == s[if k < i then k else k + 1])
  {}

  /** The list with a new node behind the first n > 0 ones. */
  lemma Spliced(head: Node?, tail: Node?, s: seq<Node>, ne: Node, n: nat)
    requires 0 < n <= |s| && Distinct(s) && ne !in s && ne.next == At(s, n) && ne.prev == At(s, n - 1)
    requires forall k {:trigger s[k].next} :: 0 <= k < |s| ==> s[k].next == if k == n - 1 then ne else At(s, k + 1)
    requires forall k {:trigger s[k].prev} :: 0 <= k < |s| ==> s[k].prev == if k == n then ne else At(s, k - 1)
    requires head == At(s, 0) && tail == if n == |s| then ne else At(s, |s| - 1)
    ensures var r := s[..n] + [ne] + s[n..];
      Distinct(r) && Chain(head, r) && BackLinks(r, |r|) && tail == At(r, |r| - 1)
  {
    var r := s[..n] + [ne] + s[n..];
    forall k | 0 <= k < |r| ensures r[k].next == At(r, k + 1) && r[k].prev == At(r, k - 1) {
      assert r[k] == if k < n then s[k] else if k == n then ne else s[k - 1];
    }
  }

  lemma StartBack(s: seq<Node>, ne: Node, f: Node -> int)
    ensures InsertByAge(s, ne, f) == InsertByAge(s[..|s|], ne, f) + s[|s|..]
  {
    hide *;
    assert s[..|s|] == s && s[|s|..] == [];
  }

  lemma StepBack(s: seq<Node>, n: nat, le: Node, x: Node, ts: Lent -> int)
    requires n <= |s| && le == At(s, n - 1) && BackLinks(s, |s|) && ts(x.lent) < ts(le.lent)
    ensures n > 0 && le.prev == At(s, n - 2)
    ensures InsertByAge(s[..n], x, AgeOf(ts)) + s[n..] == InsertByAge(s[..n - 1], x, AgeOf(ts)) + s[n - 1..]
  {
    InsertStep(s, n, x, AgeOf(ts));
  }

  lemma StopBack(s: seq<Node>, n: nat, le: Node?, x: Node, ts: Lent -> int)
    requires n <= |s| && le == At(s, n - 1) && (le == null || ts(x.lent) >= ts(le.lent))
    ensures InsertByAge(s[..n], x, AgeOf(ts)) == s[..n] + [x]
  {
    InsertHere(s, n, x, AgeOf(ts));
  }

  lemma SameNodes(l: seq<Node>, r: seq<Node>)
    requires Distinct(l) && multiset(l) == multiset(r)
    ensures Distinct(r) && forall x <- r :: x in l
  {
    assert multiset(r) == multiset(l) + multiset([]);
    DistinctMultiset(l, [], r);
    forall x <- r ensures x in l {
      assert x in multiset(r);
    }
  }

  lemma Ends(p: Node?, l: seq<Node>)
    requires Chain(p, l)
    ensures (p == null || p.next == null) <==> |l| < 2
  {
    if p != null { assert p == l[0]; }
  }

  lemma LentsWithout(s: seq<Node>, i: nat)
    requires i < |s|
    ensures CacheState.DistinctIds(Lents(s)) ==>
      Lents(s[..i] + s[i + 1..]) == CacheState.Without(Lents(s), s[i].lent.id)
  {
    if CacheState.DistinctIds(Lents(s)) {
      CacheState.WithoutAt(Lents(s), i);
      assert Lents(s[..i] + s[i + 1..]) == Lents(s)[..i] + Lents(s)[i + 1..];
    }
  }
}
