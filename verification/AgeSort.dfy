/** The order of the age list (cache.c): insertion by time stamp as insert_rrl does it, and
    the bottom-up merge sort of sort_rrl. Lists of list entries are sequences; ts gives the
    time stamp of an entry (get_rrlent_ts). */
module AgeSort {
  import opened Powers

  const NTMPSORT := 32

  ghost predicate Sorted<T>(l: seq<T>, ts: T -> int)
  {
    forall i, j :: 0 <= i < j < |l| ==> ts(l[i]) <= ts(l[j])
  }

  /** The entries with time stamp k, in list order. */
  ghost function Pick<T>(l: seq<T>, ts: T -> int, k: int): (p: seq<T>)
  {
    if l == [] then [] else (if ts(l[0]) == k then [l[0]] else []) + Pick(l[1..], ts, k)
  }

  /** res is orig sorted by time stamp, entries of equal age keeping their order. */
  ghost predicate StableSort<T>(orig: seq<T>, res: seq<T>, ts: T -> int)
  {
    Sorted(res, ts) && forall k :: Pick(res, ts, k) == Pick(orig, ts, k)
  }

  lemma {:induction false} PickConcat<T>(a: seq<T>, b: seq<T>, ts: T -> int, k: int)
    ensures Pick(a + b, ts, k) == Pick(a, ts, k) + Pick(b, ts, k)
  {
    if a == [] {
      assert a + b == b;
    } else {
      assert (a + b)[1..] == a[1..] + b && (a + b)[0] == a[0];
      PickConcat(a[1..], b, ts, k);
      Regroup(if ts(a[0]) == k then [a[0]] else [], Pick(a[1..], ts, k), Pick(b, ts, k));
    }
  }

  lemma {:induction false} PickNone<T>(l: seq<T>, ts: T -> int, k: int)
    requires forall i :: 0 <= i < |l| ==> ts(l[i]) != k
    ensures Pick(l, ts, k) == []
  {
    if l != [] { PickNone(l[1..], ts, k); }
  }

  lemma {:induction false} PickSome<T>(l: seq<T>, ts: T -> int, k: int) returns (i: nat)
    requires Pick(l, ts, k) != []
    ensures i < |l| && ts(l[i]) == k
  {
    if ts(l[0]) == k { i := 0; } else { i := PickSome(l[1..], ts, k); i := i + 1; }
  }

  lemma PickHead<T>(l: seq<T>, ts: T -> int)
    requires l != []
    ensures Pick(l, ts, ts(l[0])) == [l[0]] + Pick(l[1..], ts, ts(l[0]))
  {}

  lemma HeadNotLater<T>(a: seq<T>, b: seq<T>, ts: T -> int)
    requires StableSort(a, b, ts) && Sorted(a, ts) && a != []
    ensures b != [] && ts(b[0]) <= ts(a[0])
  {
    PickHead(a, ts);
    var i := PickSome(b, ts, ts(a[0]));
  }

  /** A stable sort is unique. */
  lemma {:induction false} StableSortUnique<T>(a: seq<T>, b: seq<T>, ts: T -> int)
    requires Sorted(a, ts) && Sorted(b, ts) && forall k :: Pick(a, ts, k) == Pick(b, ts, k)
    ensures a == b
    decreases |a|
  {
    if a == [] {
      if b != [] { PickHead(b, ts); }
    } else {
      HeadNotLater(a, b, ts);
      HeadNotLater(b, a, ts);
      PickHead(a, ts);
      PickHead(b, ts);
      assert a[0] == Pick(a, ts, ts(a[0]))[0] == b[0];
      forall k ensures Pick(a[1..], ts, k) == Pick(b[1..], ts, k) {
        var pa, pb := Pick(a, ts, k), Pick(b, ts, k);
        if ts(a[0]) == k {
          assert pa[1..] == Pick(a[1..], ts, k) && pb[1..] == Pick(b[1..], ts, k);
        } else {
          assert pa == Pick(a[1..], ts, k) && pb == Pick(b[1..], ts, k);
        }
      }
      StableSortUnique(a[1..], b[1..], ts);
      assert a == [a[0]] + a[1..] && b == [b[0]] + b[1..];
    }
  }

  // ---- insert_rrl

  /** The list with x inserted before the trailing entries that are younger than x. */
  function InsertByAge<T>(l: seq<T>, x: T, ts: T -> int): (r: seq<T>)
    ensures multiset(r) == multiset(l) + multiset{x}
  {
    if l == [] then [x]
    else if ts(x) >= ts(l[|l| - 1]) then l + [x]
    else
      assert l == l[..|l| - 1] + [l[|l| - 1]];
      InsertByAge(l[..|l| - 1], x, ts) + [l[|l| - 1]]
  }

  function InsertAll<T>(l: seq<T>, ts: T -> int): (r: seq<T>)
    ensures multiset(r) == multiset(l)
  {
    if l == [] then []
    else
      assert l == l[..|l| - 1] + [l[|l| - 1]];
      InsertByAge(InsertAll(l[..|l| - 1], ts), l[|l| - 1], ts)
  }

  lemma InsertMembers<T>(l: seq<T>, x: T, ts: T -> int, y: T)
    requires y in InsertByAge(l, x, ts)
    ensures y in l || y == x
  {
    assert y in multiset(InsertByAge(l, x, ts));
    assert y in multiset(l) + multiset{x};
  }

  lemma SortedSnoc<T>(l: seq<T>, x: T, ts: T -> int)
    requires Sorted(l, ts) && forall y :: y in l ==> ts(y) <= ts(x)
    ensures Sorted(l + [x], ts)
  {
    forall i, j | 0 <= i < j < |l + [x]| ensures ts((l + [x])[i]) <= ts((l + [x])[j]) {
      assert (l + [x])[i] in l;
    }
  }

  lemma SortedInit<T>(l: seq<T>, ts: T -> int)
    requires Sorted(l, ts) && l != []
    ensures Sorted(l[..|l| - 1], ts) && forall y :: y in l ==> ts(y) <= ts(l[|l| - 1])
  {
    forall y | y in l ensures ts(y) <= ts(l[|l| - 1]) {
      var i :| 0 <= i < |l| && l[i] == y;
    }
  }

  /** Insertion keeps the list ordered. */
  lemma {:induction false} InsertKeepsSorted<T>(l: seq<T>, x: T, ts: T -> int)
    requires Sorted(l, ts)
    ensures Sorted(InsertByAge(l, x, ts), ts)
  {
    if l != [] {
      SortedInit(l, ts);
      var last, init := l[|l| - 1], l[..|l| - 1];
      if ts(x) >= ts(last) {
        SortedSnoc(l, x, ts);
      } else {
        InsertKeepsSorted(init, x, ts);
        var r := InsertByAge(init, x, ts);
        forall y | y in r ensures ts(y) <= ts(last) { InsertMembers(init, x, ts, y); }
        SortedSnoc(r, last, ts);
      }
    }
  }

  lemma PickApart<T>(x: T, y: T, ts: T -> int, k: int)
    requires ts(x) != ts(y)
    ensures Pick([x], ts, k) == [] || Pick([y], ts, k) == []
  {
    PickNone(if ts(x) == k then [y] else [x], ts, k);
  }

  lemma SwapIfEmpty<T>(a: seq<T>, b: seq<T>, c: seq<T>)
    requires b == [] || c == []
    ensures (a + b) + c == (a + c) + b
  {}

  /** Insertion puts x after the entries of its own age. */
  lemma {:induction false} InsertPick<T>(l: seq<T>, x: T, ts: T -> int, k: int)
    ensures Pick(InsertByAge(l, x, ts), ts, k) == Pick(l, ts, k) + Pick([x], ts, k)
  {
    if l == [] {
      assert InsertByAge(l, x, ts) == [] + [x];
      PickConcat([], [x], ts, k);
    } else if ts(x) >= ts(l[|l| - 1]) {
      PickConcat(l, [x], ts, k);
    } else {
      hide Pick;
      var last, init := l[|l| - 1], l[..|l| - 1];
      InsertPick(init, x, ts, k);
      PickConcat(InsertByAge(init, x, ts), [last], ts, k);
      PickConcat(init, [last], ts, k);
      assert l == init + [last];
      PickApart(x, last, ts, k);
      SwapIfEmpty(Pick(init, ts, k), Pick([x], ts, k), Pick([last], ts, k));
    }
  }

  lemma {:induction false} InsertAllStable<T>(l: seq<T>, ts: T -> int)
    ensures StableSort(l, InsertAll(l, ts), ts)
  {
    if l != [] {
      var last, init := l[|l| - 1], l[..|l| - 1];
      InsertAllStable(init, ts);
      InsertKeepsSorted(InsertAll(init, ts), last, ts);
      forall k ensures Pick(InsertAll(l, ts), ts, k) == Pick(l, ts, k) {
        InsertPick(InsertAll(init, ts), last, ts, k);
        PickConcat(init, [last], ts, k);
        assert l == init + [last];
      }
    }
  }

  lemma InsertStep<T>(l: seq<T>, n: nat, x: T, ts: T -> int)
    requires 0 < n <= |l| && ts(x) < ts(l[n - 1])
    ensures InsertByAge(l[..n], x, ts) + l[n..] == InsertByAge(l[..n - 1], x, ts) + l[n - 1..]
  {
    var head := InsertByAge(l[..n - 1], x, ts);
    assert l[..n][..n - 1] == l[..n - 1];
    assert InsertByAge(l[..n], x, ts) == head + [l[n - 1]];
    assert head + [l[n - 1]] + l[n..] == head + l[n - 1..];
  }

  lemma InsertHere<T>(l: seq<T>, n: nat, x: T, ts: T -> int)
    requires n <= |l| && (n == 0 || ts(x) >= ts(l[n - 1]))
    ensures InsertByAge(l[..n], x, ts) == l[..n] + [x]
  {}

  // ---- listmerge

  function Merge<T>(p: seq<T>, q: seq<T>, ts: T -> int): (r: seq<T>)
    ensures |r| == |p| + |q|
    ensures multiset(r) == multiset(p) + multiset(q)
    decreases |p| + |q|
  {
    if p == [] then q
    else if q == [] then p
    else if ts(p[0]) <= ts(q[0]) then
      assert p == [p[0]] + p[1..];
      [p[0]] + Merge(p[1..], q, ts)
    else
      assert q == [q[0]] + q[1..];
      [q[0]] + Merge(p, q[1..], ts)
  }

  lemma SortedCons<T>(x: T, l: seq<T>, ts: T -> int)
    requires Sorted(l, ts) && forall y :: y in l ==> ts(x) <= ts(y)
    ensures Sorted([x] + l, ts)
  {
    forall i, j | 0 <= i < j < |[x] + l| ensures ts(([x] + l)[i]) <= ts(([x] + l)[j]) {
      assert ([x] + l)[j] in l;
    }
  }

  lemma SortedTail<T>(l: seq<T>, ts: T -> int)
    requires Sorted(l, ts) && l != []
    ensures Sorted(l[1..], ts) && forall y :: y in l ==> ts(l[0]) <= ts(y)
  {
    forall y | y in l ensures ts(l[0]) <= ts(y) {
      var i :| 0 <= i < |l| && l[i] == y;
    }
  }

  lemma MergeMembers<T>(p: seq<T>, q: seq<T>, ts: T -> int, y: T)
    requires y in Merge(p, q, ts)
    ensures y in p || y in q
  {
    assert y in multiset(Merge(p, q, ts));
    assert y in multiset(p) + multiset(q);
  }

  lemma {:induction false} MergeSorted<T>(p: seq<T>, q: seq<T>, ts: T -> int)
    requires Sorted(p, ts) && Sorted(q, ts)
    ensures Sorted(Merge(p, q, ts), ts)
    decreases |p| + |q|
  {
    if p != [] && q != [] {
      SortedTail(p, ts);
      SortedTail(q, ts);
      var (p', q') := if ts(p[0]) <= ts(q[0]) then (p[1..], q) else (p, q[1..]);
      var x := if ts(p[0]) <= ts(q[0]) then p[0] else q[0];
      MergeSorted(p', q', ts);
      forall y | y in Merge(p', q', ts) ensures ts(x) <= ts(y) {
        MergeMembers(p', q', ts, y);
        assert y in p || y in q;
      }
      SortedCons(x, Merge(p', q', ts), ts);
    }
  }

  lemma Regroup<T>(a: seq<T>, b: seq<T>, c: seq<T>)
    ensures a + (b + c) == (a + b) + c
  {}

  lemma SortedAbove<T>(p: seq<T>, ts: T -> int, k: int)
    requires Sorted(p, ts) && p != [] && ts(p[0]) > k
    ensures Pick(p, ts, k) == []
  {
    SortedTail(p, ts);
    forall i | 0 <= i < |p| ensures ts(p[i]) != k { assert p[i] in p; }
    PickNone(p, ts, k);
  }

  /** Merging is stable: entries of p come before entries of q with the same age. */
  lemma {:induction false} MergePick<T>(p: seq<T>, q: seq<T>, ts: T -> int, k: int)
    requires Sorted(p, ts)
    ensures Pick(Merge(p, q, ts), ts, k) == Pick(p, ts, k) + Pick(q, ts, k)
    decreases |p| + |q|
  {
    if p == [] {
      assert Pick(p, ts, k) == [];
    } else if q == [] {
      assert Pick(q, ts, k) == [];
    } else {
      hide Pick;
      SortedTail(p, ts);
      if ts(p[0]) <= ts(q[0]) {
        MergePick(p[1..], q, ts, k);
        PickConcat([p[0]], Merge(p[1..], q, ts), ts, k);
        PickConcat([p[0]], p[1..], ts, k);
        assert p == [p[0]] + p[1..];
        Regroup(Pick([p[0]], ts, k), Pick(p[1..], ts, k), Pick(q, ts, k));
      } else {
        MergePick(p, q[1..], ts, k);
        PickConcat([q[0]], Merge(p, q[1..], ts), ts, k);
        PickConcat([q[0]], q[1..], ts, k);
        assert q == [q[0]] + q[1..];
        if ts(q[0]) == k {
          SortedAbove(p, ts, k);
        } else {
          PickNone([q[0]], ts, k);
        }
        Shuffle(Pick(p, ts, k), Pick([q[0]], ts, k), Pick(q[1..], ts, k));
      }
    }
  }

  lemma Shuffle<T>(a: seq<T>, b: seq<T>, c: seq<T>)
    requires a == [] || b == []
    ensures b + (a + c) == a + (b + c)
  {}

  lemma MergeUnfold<T>(l: seq<T>, p: seq<T>, q: seq<T>, ts: T -> int)
    requires p != [] && q != []
    ensures ts(p[0]) <= ts(q[0]) ==> l + Merge(p, q, ts) == (l + [p[0]]) + Merge(p[1..], q, ts)
    ensures ts(p[0]) > ts(q[0]) ==> l + Merge(p, q, ts) == (l + [q[0]]) + Merge(p, q[1..], ts)
  {}

  // ---- sort_rrl

  /** The entries with time stamp k in all slots; higher slots hold earlier entries. */
  ghost function PickSlots<T>(tmp: seq<seq<T>>, ts: T -> int, k: int): (p: seq<T>)
  {
    if tmp == [] then [] else PickSlots(tmp[1..], ts, k) + Pick(tmp[0], ts, k)
  }

  lemma {:induction false} PickSlotsAbove<T>(tmp: seq<seq<T>>, c: nat, ts: T -> int, k: int)
    requires c <= |tmp| && forall j :: 0 <= j < c ==> tmp[j] == []
    ensures PickSlots(tmp, ts, k) == PickSlots(tmp[c..], ts, k)
  {
    if c > 0 {
      PickSlotsAbove(tmp[1..], c - 1, ts, k);
      assert tmp[1..][c - 1..] == tmp[c..];
      assert Pick(tmp[0], ts, k) == [];
    } else {
      assert tmp[c..] == tmp;
    }
  }

  /** A slot holds nothing or a sorted run of 2^j entries. */
  ghost predicate IsRun<T>(s: seq<T>, j: nat, ts: T -> int)
  {
    s == [] || (Sorted(s, ts) && |s| == Pow2(j))
  }

  ghost predicate Slots<T>(tmp: seq<seq<T>>, fill: nat, ts: T -> int)
  {
    && |tmp| == NTMPSORT && fill <= NTMPSORT
    && (forall j :: 0 <= j < NTMPSORT ==> IsRun(tmp[j], j, ts))
    && (forall j :: fill <= j < NTMPSORT ==> tmp[j] == [])
  }

  /** The slots, the carried run and the unread rest hold the entries of l, in this order. */
  ghost predicate Holds<T>(tmp: seq<seq<T>>, carry: seq<T>, rem: seq<T>, l: seq<T>, ts: T -> int)
  {
    forall k :: PickSlots(tmp, ts, k) + Pick(carry, ts, k) + Pick(rem, ts, k) == Pick(l, ts, k)
  }

  /** Merging the run of slot c into the carry. */
  lemma CarryStep<T>(tmp: seq<seq<T>>, c: nat, carry: seq<T>, rem: seq<T>, l: seq<T>, ts: T -> int)
    requires c < |tmp| && (forall j :: 0 <= j < c ==> tmp[j] == []) && Sorted(tmp[c], ts)
    requires Holds(tmp, carry, rem, l, ts)
    ensures Holds(tmp[c := []], Merge(tmp[c], carry, ts), rem, l, ts)
  {
    forall k ensures
      PickSlots(tmp[c := []], ts, k) + Pick(Merge(tmp[c], carry, ts), ts, k) + Pick(rem, ts, k) == Pick(l, ts, k)
    {
      PickSlotsAbove(tmp, c, ts, k);
      PickSlotsAbove(tmp[c := []], c + 1, ts, k);
      assert tmp[c..][1..] == tmp[c + 1..] == tmp[c := []][c + 1..];
      MergePick(tmp[c], carry, ts, k);
      Regroup(PickSlots(tmp[c + 1..], ts, k), Pick(tmp[c], ts, k), Pick(carry, ts, k));
    }
  }

  /** Storing the carry in an empty slot above empty slots. */
  lemma StoreStep<T>(tmp: seq<seq<T>>, c: nat, carry: seq<T>, rem: seq<T>, l: seq<T>, ts: T -> int)
    requires c < |tmp| && forall j :: 0 <= j <= c ==> tmp[j] == []
    requires Holds(tmp, carry, rem, l, ts)
    ensures Holds(tmp[c := carry], [], rem, l, ts)
  {
    forall k ensures
      PickSlots(tmp[c := carry], ts, k) + Pick<T>([], ts, k) + Pick(rem, ts, k) == Pick(l, ts, k)
    {
      PickSlotsAbove(tmp, c + 1, ts, k);
      PickSlotsAbove(tmp[c := carry], c, ts, k);
      assert tmp[c := carry][c..][1..] == tmp[c + 1..];
      assert tmp[c := carry][c..][0] == carry;
    }
  }

  lemma TakePick<T>(a: seq<T>, rem: seq<T>, ts: T -> int, k: int)
    requires rem != []
    ensures a + Pick<T>([], ts, k) + Pick(rem, ts, k) == a + Pick([rem[0]], ts, k) + Pick(rem[1..], ts, k)
  {
    PickConcat([rem[0]], rem[1..], ts, k);
    assert rem == [rem[0]] + rem[1..];
    assert Pick<T>([], ts, k) == [];
    hide Pick;
    assert a + [] == a;
    Regroup(a, Pick([rem[0]], ts, k), Pick(rem[1..], ts, k));
  }

  /** Taking the next entry off the unread rest. */
  lemma TakeStep<T>(tmp: seq<seq<T>>, rem: seq<T>, l: seq<T>, ts: T -> int)
    requires rem != [] && Holds(tmp, [], rem, l, ts)
    ensures Holds(tmp, [rem[0]], rem[1..], l, ts)
  {
    hide Pick;
    hide PickSlots;
    forall k ensures PickSlots(tmp, ts, k) + Pick([rem[0]], ts, k) + Pick(rem[1..], ts, k) == Pick(l, ts, k) {
      TakePick(PickSlots(tmp, ts, k), rem, ts, k);
    }
  }

  function Total<T>(tmp: seq<seq<T>>): (n: nat)
  {
    if tmp == [] then 0 else |tmp[0]| + Total(tmp[1..])
  }

  lemma {:induction false} TotalUpdate<T>(tmp: seq<seq<T>>, c: nat, s: seq<T>)
    requires c < |tmp|
    ensures Total(tmp[c := s]) == Total(tmp) - |tmp[c]| + |s|
  {
    if c > 0 {
      TotalUpdate(tmp[1..], c - 1, s);
      assert tmp[c := s][1..] == tmp[1..][c - 1 := s];
    } else {
      assert tmp[c := s][1..] == tmp[1..];
    }
  }

  /** All slots up to `counter` are merged into the carry. */
  lemma FinalStep<T>(tmp: seq<seq<T>>, c: nat, carry: seq<T>, l: seq<T>, ts: T -> int)
    requires c < |tmp| && Sorted(tmp[c], ts)
    requires forall k :: PickSlots(tmp[c..], ts, k) + Pick(carry, ts, k) == Pick(l, ts, k)
    ensures forall k :: PickSlots(tmp[c + 1..], ts, k) + Pick(Merge(tmp[c], carry, ts), ts, k) == Pick(l, ts, k)
  {
    forall k ensures PickSlots(tmp[c + 1..], ts, k) + Pick(Merge(tmp[c], carry, ts), ts, k) == Pick(l, ts, k) {
      assert tmp[c..][1..] == tmp[c + 1..] && tmp[c..][0] == tmp[c];
      MergePick(tmp[c], carry, ts, k);
      Regroup(PickSlots(tmp[c + 1..], ts, k), Pick(tmp[c], ts, k), Pick(carry, ts, k));
    }
  }

  lemma Emptied<T>(tmp: seq<seq<T>>, fill: nat, carry: seq<T>, l: seq<T>, ts: T -> int)
    requires Slots(tmp, fill, ts) && Sorted(carry, ts)
    requires forall k :: PickSlots(tmp[fill..], ts, k) + Pick(carry, ts, k) == Pick(l, ts, k)
    ensures StableSort(l, carry, ts)
  {
    forall k ensures Pick(carry, ts, k) == Pick(l, ts, k) {
      PickSlotsAbove(tmp[fill..], |tmp[fill..]|, ts, k);
      assert tmp[fill..][|tmp[fill..]|..] == [];
    }
  }

  lemma {:induction false} NoRuns<T>(tmp: seq<seq<T>>, ts: T -> int)
    requires forall j :: 0 <= j < |tmp| ==> tmp[j] == []
    ensures Total(tmp) == 0 && forall k :: PickSlots(tmp, ts, k) == []
  {
    if tmp != [] { NoRuns(tmp[1..], ts); }
  }

  lemma EmptySlots<T>(tmp: seq<seq<T>>, l: seq<T>, ts: T -> int)
    requires |tmp| == NTMPSORT && forall j :: 0 <= j < |tmp| ==> tmp[j] == []
    ensures Slots(tmp, 0, ts) && Holds(tmp, [], l, l, ts) && Total(tmp) == 0
  {
    NoRuns(tmp, ts);
    forall k ensures PickSlots(tmp, ts, k) + Pick<T>([], ts, k) + Pick(l, ts, k) == Pick(l, ts, k) {
      assert Pick<T>([], ts, k) == [];
    }
  }
}
