/** Domain names in length-byte notation, ASCII case folding and trailing-label
    matching (helpers.h and the matching half of dns.c). */
module Names {

  datatype Option<+T> = None | Some(value: T)

  type byte = b: int | 0 <= b < 256

  type Label = seq<byte>
  type Name = seq<Label>

  /** Size of every buffer that holds a name, terminating null byte included. */
  const DNSNAMEBUFSIZE := 256

  predicate ValidLabel(l: Label) { 1 <= |l| <= 63 }

  predicate ValidLabels(n: Name) { forall i :: 0 <= i < |n| ==> ValidLabel(n[i]) }

  /** A name that fits the buffers: labels of 1 to 63 bytes, at most 256 bytes encoded. */
  predicate ValidName(n: Name) { ValidLabels(n) && |Wire(n)| <= DNSNAMEBUFSIZE }

  /** Labels without the terminating null byte. */
  function WirePrefix(n: Name): (w: seq<byte>)
    requires ValidLabels(n)
    ensures |w| >= 2 * |n|
  {
    if n == [] then [] else [|n[0]|] + n[0] + WirePrefix(n[1..])
  }

  /** The length-byte string notation of a name. */
  function Wire(n: Name): (w: seq<byte>)
    requires ValidLabels(n)
  {
    WirePrefix(n) + [0]
  }

  /** Byte offset of label k inside Wire(n). */
  function Offset(n: Name, k: nat): (o: nat)
    requires ValidLabels(n) && k <= |n|
  {
    if k == 0 then 0 else Offset(n, k - 1) + 1 + |n[k - 1]|
  }

  // ---- ASCII case folding

  function Lower(b: byte): byte { if 65 <= b <= 90 then b + 32 else b }

  function Upper(b: byte): byte { if 97 <= b <= 122 then b - 32 else b }

  function FoldLabel(l: Label): (f: Label)
  {
    if l == [] then [] else [Lower(l[0])] + FoldLabel(l[1..])
  }

  function FoldName(n: Name): (f: Name)
  {
    if n == [] then [] else [FoldLabel(n[0])] + FoldName(n[1..])
  }

  /** Equal up to ASCII case. */
  predicate SameName(a: Name, b: Name) { FoldName(a) == FoldName(b) }

  lemma {:induction false} FoldLabelIndex(l: Label)
    ensures |FoldLabel(l)| == |l| && forall i :: 0 <= i < |l| ==> FoldLabel(l)[i] == Lower(l[i])
  {
    if l != [] { FoldLabelIndex(l[1..]); }
  }

  lemma SameLabelPointwise(a: Label, b: Label)
    ensures FoldLabel(a) == FoldLabel(b) <==>
      |a| == |b| && forall i :: 0 <= i < |a| ==> Lower(a[i]) == Lower(b[i])
  {
    FoldLabelIndex(a);
    FoldLabelIndex(b);
    if FoldLabel(a) == FoldLabel(b) {
      forall i | 0 <= i < |a| ensures Lower(a[i]) == Lower(b[i]) {
        assert FoldLabel(a)[i] == FoldLabel(b)[i];
      }
    }
  }

  lemma {:induction false} FoldNameIndex(n: Name)
    ensures |FoldName(n)| == |n| && forall i :: 0 <= i < |n| ==> FoldName(n)[i] == FoldLabel(n[i])
  {
    if n != [] { FoldNameIndex(n[1..]); }
  }

  lemma {:induction false} FoldConcat(a: Name, b: Name)
    ensures FoldName(a + b) == FoldName(a) + FoldName(b)
  {
    if a == [] {
      assert a + b == b;
    } else {
      FoldConcat(a[1..], b);
      assert (a + b)[1..] == a[1..] + b;
    }
  }

  // ---- Wire lemmas

  lemma {:induction false} WirePrefixConcat(a: Name, b: Name)
    requires ValidLabels(a) && ValidLabels(b)
    ensures ValidLabels(a + b) && WirePrefix(a + b) == WirePrefix(a) + WirePrefix(b)
  {
    LabelsConcat(a, b);
    hide ValidLabel;
    if a == [] {
      assert a + b == b;
    } else {
      WirePrefixConcat(a[1..], b);
      var h, t := [|a[0]|] + a[0], WirePrefix(a[1..]);
      assert (a + b)[1..] == a[1..] + b && (a + b)[0] == a[0];
      assert h + (t + WirePrefix(b)) == (h + t) + WirePrefix(b);
    }
  }

  lemma LabelsConcat(a: Name, b: Name)
    ensures ValidLabels(a + b) <==> ValidLabels(a) && ValidLabels(b)
  {
    hide ValidLabel;
    if ValidLabels(a + b) {
      forall i | 0 <= i < |a| ensures ValidLabel(a[i]) { assert ValidLabel((a + b)[i]); }
      forall i | 0 <= i < |b| ensures ValidLabel(b[i]) { assert ValidLabel((a + b)[|a| + i]); }
    }
  }

  lemma {:induction false} OffsetIsLength(n: Name, k: nat)
    requires ValidLabels(n) && k <= |n|
    ensures Offset(n, k) == |WirePrefix(n[..k])|
  {
    if k > 0 {
      OffsetIsLength(n, k - 1);
      WirePrefixConcat(n[..k - 1], [n[k - 1]]);
      assert n[..k] == n[..k - 1] + [n[k - 1]];
      assert WirePrefix([n[k - 1]]) == [|n[k - 1]|] + n[k - 1] + WirePrefix([n[k - 1]][1..]);
    }
  }

  lemma WirePrefixSplit(n: Name, k: nat)
    requires ValidLabels(n) && k <= |n|
    ensures ValidLabels(n[..k]) && ValidLabels(n[k..])
    ensures WirePrefix(n) == WirePrefix(n[..k]) + WirePrefix(n[k..])
  {
    hide *;
    var a, b := n[..k], n[k..];
    assert a + b == n;
    LabelsConcat(a, b);
    WirePrefixConcat(a, b);
  }

  lemma WireSplit(n: Name, k: nat)
    requires ValidLabels(n) && k <= |n|
    ensures ValidLabels(n[..k]) && ValidLabels(n[k..])
    ensures WirePrefix(n) == WirePrefix(n[..k]) + WirePrefix(n[k..])
    ensures Wire(n) == WirePrefix(n[..k]) + Wire(n[k..])
    ensures Offset(n, k) == |WirePrefix(n[..k])|
    ensures Offset(n, k) + |Wire(n[k..])| == |Wire(n)|
  {
    OffsetIsLength(n, k);
    WirePrefixSplit(n, k);
    var x, y := WirePrefix(n[..k]), WirePrefix(n[k..]);
    assert x + y + [0] == x + (y + [0]);
  }

  lemma {:induction false} OffsetMonotone(n: Name, j: nat, k: nat)
    requires ValidLabels(n) && j <= k <= |n|
    ensures Offset(n, j) + 2 * (k - j) <= Offset(n, k)
  {
    if j < k { OffsetMonotone(n, j, k - 1); }
  }

  /** Label k stands in Wire(n) at Offset(n, k), after its length byte. */
  lemma OffsetStep(n: Name, k: nat)
    requires ValidLabels(n) && k < |n|
    ensures Offset(n, k + 1) < |Wire(n)|
    ensures Wire(n)[Offset(n, k)] == |n[k]|
    ensures Wire(n)[Offset(n, k) + 1..Offset(n, k + 1)] == n[k]
  {
    WireSplit(n, k);
    WireSplit(n, k + 1);
    assert n[k..][0] == n[k] && n[k..][1..] == n[k + 1..];
    assert WirePrefix(n[k..]) == [|n[k]|] + n[k] + WirePrefix(n[k + 1..]);
  }

  lemma LabelCount(n: Name)
    requires ValidName(n)
    ensures |n| <= 127
  {}

  /** Names that agree up to case have the same shape. */
  lemma {:induction false} SameNameShape(a: Name, b: Name)
    requires ValidLabels(a) && SameName(a, b)
    ensures |a| == |b| && ValidLabels(b) && |WirePrefix(a)| == |WirePrefix(b)|
  {
    FoldNameIndex(a);
    FoldNameIndex(b);
    if a != [] {
      SameNameHead(a, b);
      FoldLabelIndex(a[0]);
      FoldLabelIndex(b[0]);
      SameNameShape(a[1..], b[1..]);
    }
  }

  // ---- Trailing-label matching

  /** Number of trailing labels that two names share, ignoring case. */
  function Match(a: Name, b: Name): (m: nat)
    ensures m <= |a| && m <= |b|
  {
    if a == [] || b == [] || FoldLabel(a[|a| - 1]) != FoldLabel(b[|b| - 1]) then 0
    else 1 + Match(a[..|a| - 1], b[..|b| - 1])
  }

  /** A shared suffix of m labels can grow by one exactly when the next labels agree. */
  lemma {:induction false} MatchExtends(a: Name, b: Name, m: nat)
    requires m <= Match(a, b) && m < |a| && m < |b|
    ensures m + 1 <= Match(a, b) <==> FoldLabel(a[|a| - m - 1]) == FoldLabel(b[|b| - m - 1])
  {
    if m > 0 { MatchExtends(a[..|a| - 1], b[..|b| - 1], m - 1); }
  }

  lemma SameNameHead(a: Name, b: Name)
    requires a != [] && b != []
    ensures SameName(a, b) <==> FoldLabel(a[0]) == FoldLabel(b[0]) && SameName(a[1..], b[1..])
  {
    var x, y := FoldName(a), FoldName(b);
    assert x[0] == FoldLabel(a[0]) && x[1..] == FoldName(a[1..]);
    assert y[0] == FoldLabel(b[0]) && y[1..] == FoldName(b[1..]);
  }

  /** Match is the longest shared suffix: m trailing labels agree exactly when m <= Match. */
  lemma {:induction false} MatchSuffix(a: Name, b: Name, m: nat)
    requires m <= |a| && m <= |b|
    ensures SameName(a[|a| - m..], b[|b| - m..]) <==> m <= Match(a, b)
  {
    if m > 0 {
      MatchSuffix(a, b, m - 1);
      var x, y := a[|a| - m..], b[|b| - m..];
      SameNameHead(x, y);
      assert x[1..] == a[|a| - (m - 1)..] && y[1..] == b[|b| - (m - 1)..];
      if m - 1 <= Match(a, b) { MatchExtends(a, b, m - 1); }
    }
  }

  lemma MatchUltrametric(a: Name, b: Name, c: Name, m: nat)
    requires m <= Match(a, b) && m <= Match(b, c)
    ensures m <= Match(a, c)
  {
    MatchSuffix(a, b, m);
    MatchSuffix(b, c, m);
    MatchSuffix(a, c, m);
  }

  lemma {:induction false} MatchSymmetric(a: Name, b: Name)
    ensures Match(a, b) == Match(b, a)
  {
    if a != [] && b != [] { MatchSymmetric(a[..|a| - 1], b[..|b| - 1]); }
  }
}
