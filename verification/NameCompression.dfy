/** domain_match and compress_name, and the round trip with decompression. */
module NameCompression {
  import opened Memory
  import opened Names
  import opened NameCodec

  // ---- domain_match

  /** The length bytes of a name, and the offset of its terminating null byte. */
  method CollectLengths(n: Name) returns (ls: seq<byte>, end: nat)
    requires ValidName(n)
    ensures |ls| == |n| && forall j :: 0 <= j < |n| ==> ls[j] == |n[j]|
    ensures end == Offset(n, |n|)
  {
    var w := Wire(n);
    ls, end := [], 0;
    WireSplit(n, |n|);
    if n != [] { OffsetStep(n, 0); }
    while w[end] != 0
      invariant |ls| <= |n| && end == Offset(n, |ls|) && end < |w|
      invariant forall j :: 0 <= j < |ls| ==> ls[j] == |n[j]|
      invariant w[end] == 0 <==> |ls| == |n|
      decreases |n| - |ls|
    {
      LabelCount(n);
      OffsetStep(n, |ls|);
      ls, end := ls + [w[end]], end + w[end] + 1;
      if |ls| < |n| { OffsetStep(n, |ls|); }
      WireSplit(n, |n|);
    }
  }

  lemma LabelBytes(n: Name, k: nat, t: nat)
    requires ValidLabels(n) && k < |n| && t < |n[k]|
    ensures Offset(n, k + 1) == Offset(n, k) + 1 + |n[k]| && Offset(n, k + 1) < |Wire(n)|
    ensures Wire(n)[Offset(n, k) + 1 + t] == n[k][t]
  {
    OffsetStep(n, k);
    assert Wire(n)[Offset(n, k) + 1..Offset(n, k + 1)][t] == Wire(n)[Offset(n, k) + 1 + t];
  }

  /** Compares label ks of s with label kd of d back to front, both of length lb. */
  method SameLabelBackwards(s: Name, d: Name, ks: nat, kd: nat, lb: byte) returns (same: bool)
    requires ValidLabels(s) && ValidLabels(d) && ks < |s| && kd < |d|
    requires lb == |s[ks]| == |d[kd]|
    ensures same == (FoldLabel(s[ks]) == FoldLabel(d[kd]))
  {
    hide WirePrefix;
    hide FoldLabel;
    var ms, md := Wire(s), Wire(d);
    var i, j, left := Offset(s, ks + 1), Offset(d, kd + 1), lb;
    OffsetStep(s, ks);
    OffsetStep(d, kd);
    SameLabelPointwise(s[ks], d[kd]);
    while left > 0
      invariant 0 <= left <= lb
      invariant i == Offset(s, ks) + 1 + left && j == Offset(d, kd) + 1 + left
      invariant forall t :: left <= t < lb ==> Lower(s[ks][t]) == Lower(d[kd][t])
    {
      i, j, left := i - 1, j - 1, left - 1;
      LabelBytes(s, ks, left);
      LabelBytes(d, kd, left);
      if Lower(ms[i]) != Lower(md[j]) { return false; }
    }
    return true;
  }

  /** Does the next label towards the front match too? */
  method NextMatches(s: Name, d: Name, m: nat, ls: byte, ld: byte) returns (same: bool)
    requires ValidLabels(s) && ValidLabels(d) && m < |s| && m < |d| && m <= Match(s, d)
    requires ls == |s[|s| - 1 - m]| && ld == |d[|d| - 1 - m]|
    ensures same <==> m + 1 <= Match(s, d)
    ensures same ==> ls == ld
  {
    MatchExtends(s, d, m);
    if ls != ld {
      SameLabelPointwise(s[|s| - 1 - m], d[|d| - 1 - m]);
      return false;
    }
    same := SameLabelBackwards(s, d, |s| - 1 - m, |d| - 1 - m, ls);
  }

  /** The number of trailing labels in common, and where they start in each name. */
  method DomainMatch(s: Name, d: Name) returns (m: nat, os: nat, od: nat)
    requires ValidName(s) && ValidName(d)
    ensures m == Match(s, d)
    ensures os == Offset(s, |s| - m) && od == Offset(d, |d| - m)
  {
    hide Match;
    hide WirePrefix;
    hide FoldLabel;
    var ls, i := CollectLengths(s);
    var ld, j := CollectLengths(d);
    var n := if |ls| > |ld| then |ld| else |ls|;
    m, os, od := 0, i, j;
    while m < n
      invariant m <= n && m <= Match(s, d)
      invariant os == Offset(s, |s| - m) && od == Offset(d, |d| - m)
    {
      var lb := ls[|ls| - 1 - m];
      var same := NextMatches(s, d, m, lb, ld[|ld| - 1 - m]);
      if !same { return; }
      OffsetStep(s, |s| - m - 1);
      OffsetStep(d, |d| - m - 1);
      m, os, od := m + 1, os - lb - 1, od - lb - 1;
    }
  }

  // ---- compress_name

  /** An element of the compression list: a name and the offset it was placed at. */
  datatype CompEl = CompEl(index: nat, name: Name)

  type Table = seq<CompEl>

  predicate ValidTable(cb: Table) { forall i :: 0 <= i < |cb| ==> ValidName(cb[i].name) }

  /** Where the last m labels of element i start, if it stood literally in the message. */
  function SuffixPos(cb: Table, i: nat, m: nat): (p: nat)
    requires ValidTable(cb) && i < |cb| && m <= |cb[i].name|
  {
    cb[i].index + Offset(cb[i].name, |cb[i].name| - m)
  }

  datatype Best = Best(longest: nat, coffs: nat)

  /** The choice compress_name makes among the first n elements. */
  function Choose(cb: Table, n: nat, name: Name): (b: Best)
    requires ValidTable(cb) && n <= |cb|
    ensures b.longest <= |name|
    ensures b.longest > 0 ==> b.coffs <= MAXPTR
  {
    if n == 0 then Best(0, 0)
    else
      var b := Choose(cb, n - 1, name);
      var m := Match(name, cb[n - 1].name);
      if m > b.longest && SuffixPos(cb, n - 1, m) <= MAXPTR then Best(m, SuffixPos(cb, n - 1, m)) else b
  }

  function PointerBytes(o: nat): (p: seq<byte>)
    requires o <= MAXPTR
    ensures |p| == 2 && p[0] >= 0xc0 && Target(p[0], p[1]) == o
  {
    [0xc0 + o / 256, o % 256]
  }

  /** The bytes that compress_name emits. */
  function Emitted(cb: Table, name: Name): (out: seq<byte>)
    requires ValidTable(cb) && ValidName(name)
  {
    var b := Choose(cb, |cb|, name);
    if b.longest > 0 then WirePrefix(name[..|name| - b.longest]) + PointerBytes(b.coffs) else Wire(name)
  }

  /** The compression list afterwards: names that became a bare pointer are not added. */
  function Grown(cb: Table, name: Name, offs: nat): (cb': Table)
    requires ValidTable(cb) && ValidName(name)
    ensures ValidTable(cb') && cb <= cb'
  {
    var b := Choose(cb, |cb|, name);
    if b.longest == 0 || b.longest < |name| then cb + [CompEl(offs, name)] else cb
  }

  /** "The output is smaller or equal in size to the input." */
  lemma EmittedNotLonger(cb: Table, name: Name)
    requires ValidTable(cb) && ValidName(name)
    ensures 1 <= |Emitted(cb, name)| <= |Wire(name)|
  {
    var b := Choose(cb, |cb|, name);
    if b.longest > 0 {
      WireSplit(name, |name| - b.longest);
    }
  }

  lemma LiteralPart(name: Name, longest: nat)
    requires ValidName(name) && longest <= |name|
    ensures var lrem := Offset(name, |name| - longest);
      && lrem <= |Wire(name)|
      && Wire(name)[..lrem] == WirePrefix(name[..|name| - longest])
      && (lrem == 0 <==> longest == |name|)
  {
    WireSplit(name, |name| - longest);
    OffsetMonotone(name, 0, |name| - longest);
  }

  lemma ChooseStep(cb: Table, n: nat, name: Name, m: nat, to: nat)
    requires ValidTable(cb) && n < |cb|
    requires m == Match(name, cb[n].name) && to == Offset(cb[n].name, |cb[n].name| - m)
    ensures var b := Choose(cb, n, name);
      Choose(cb, n + 1, name) ==
      if m > b.longest && cb[n].index + to <= MAXPTR then Best(m, cb[n].index + to) else b
  {}

  /** One round of the search through the list. */
  method Consider(name: Name, cb: Table, i: nat, best: Best, rem0: nat) returns (best': Best, lrem: nat)
    requires ValidName(name) && ValidTable(cb) && i < |cb| && best == Choose(cb, i, name)
    requires best.longest > 0 ==> rem0 == Offset(name, |name| - best.longest)
    ensures best' == Choose(cb, i + 1, name)
    ensures best'.longest > 0 ==> lrem == Offset(name, |name| - best'.longest)
  {
    hide Match;
    hide Offset;
    hide Choose;
    hide WirePrefix;
    best', lrem := best, rem0;
    var rv, rem, to := DomainMatch(name, cb[i].name);
    ChooseStep(cb, i, name, rv, to);
    if rv > best.longest {
      var newoffs := cb[i].index + to;
      // Only use it if the offset is not too large.
      if newoffs <= MAXPTR { best', lrem := Best(rv, newoffs), rem; }
    }
  }

  /** compress_name; the list may fail to grow. */
  method CompressName(name: Name, offs: nat, cb: Table, enough: bool) returns (ok: bool, out: seq<byte>, cb': Table)
    requires ValidName(name) && ValidTable(cb)
    ensures ok ==> out == Emitted(cb, name) && cb' == Grown(cb, name, offs) && |out| <= |Wire(name)|
    ensures !ok ==> !enough && cb' == cb && Grown(cb, name, offs) != cb
  {
    var best, lrem: nat, add := Best(0, 0), 0, true;
    for i := 0 to |cb|
      invariant best == Choose(cb, i, name)
      invariant best.longest > 0 ==> lrem == Offset(name, |name| - best.longest)
    {
      best, lrem := Consider(name, cb, i, best, lrem);
    }
    if best.longest > 0 {
      LiteralPart(name, best.longest);
      out := Wire(name)[..lrem] + PointerBytes(best.coffs);
      add := lrem != 0;
    } else {
      out := Wire(name);
    }
    EmittedNotLonger(cb, name);
    ok, cb' := true, cb;
    if add {
      ok := Allocate(enough);
      if ok { cb' := cb + [CompEl(offs, name)]; }
    }
  }
}
