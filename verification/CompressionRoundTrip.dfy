/** Every name that compress_name places in a growing message can be read back.

    The argument that dns.c only hints at: an element of the compression list is
    used for a suffix only if that suffix stands literally in the message where the
    element was placed, even when candidates were rejected for being out of reach. */
module CompressionRoundTrip {
  import opened Names
  import opened NameCodec
  import opened NameCompression

  /** Decoding at pos gives `name`, up to case, within h jumps. */
  predicate Reads(msg: seq<byte>, pos: nat, name: Name, h: nat)
  {
    var d := DecodeAt(msg, pos, h);
    d.Some? && SameName(d.value, name)
  }

  lemma ReadsExtend(msg: seq<byte>, ext: seq<byte>, pos: nat, name: Name, h: nat)
    requires Reads(msg, pos, name, h)
    ensures Reads(msg + ext, pos, name, h) && Extent(msg + ext, pos) == Extent(msg, pos)
    ensures pos + Extent(msg, pos) <= |msg|
  {
    DecodeExtend(msg, ext, pos, h);
  }

  /** The last m labels of element i were written as literal bytes. */
  predicate Literal(cb: Table, i: nat, m: nat)
    requires ValidTable(cb) && i < |cb|
  {
    m <= |cb[i].name| && m > Choose(cb, i, cb[i].name).longest
  }

  function Suffix(n: Name, m: nat): (s: Name)
    requires m <= |n|
  {
    n[|n| - m..]
  }

  /** Once a literal suffix lies out of reach, so does every later element. */
  ghost predicate Ordered(cb: Table)
    requires ValidTable(cb)
  {
    forall i, m, j {:trigger Literal(cb, i, m), cb[j]} :: 0 <= i < j < |cb| && 0 <= m && Literal(cb, i, m) && SuffixPos(cb, i, m) > MAXPTR
      ==> cb[j].index > MAXPTR
  }

  /** The compression list agrees with the message. */
  ghost predicate Consistent(msg: seq<byte>, cb: Table)
  {
    && ValidTable(cb)
    && Ordered(cb)
    && (forall i, m {:trigger Literal(cb, i, m)} :: 0 <= i < |cb| && 0 <= m && Literal(cb, i, m) && SuffixPos(cb, i, m) <= MAXPTR
          ==> Reads(msg, SuffixPos(cb, i, m), Suffix(cb[i].name, m), m - 1))
    && (forall i, m {:trigger Literal(cb, i, m)} :: 0 <= i < |cb| && 0 <= m && Literal(cb, i, m) && SuffixPos(cb, i, m) > MAXPTR
          ==> |msg| > MAXPTR)
  }

  // ---- What the choice depends on

  lemma {:induction false} ChoosePrefix(cb: Table, ext: Table, n: nat, name: Name)
    requires ValidTable(cb) && ValidTable(cb + ext) && n <= |cb|
    ensures Choose(cb + ext, n, name) == Choose(cb, n, name)
  {
    hide Match;
    hide Offset;
    hide WirePrefix;
    if n > 0 { ChoosePrefix(cb, ext, n - 1, name); }
  }

  /** Every element was used, beaten, or out of reach. */
  lemma {:induction false} Considered(cb: Table, n: nat, name: Name, i: nat)
    requires ValidTable(cb) && i < n <= |cb|
    ensures var m := Match(name, cb[i].name);
      m <= Choose(cb, n, name).longest || SuffixPos(cb, i, m) > MAXPTR
  {
    if i < n - 1 { Considered(cb, n - 1, name, i); }
  }

  /** The first element that shares at least m labels with name. */
  lemma {:induction false} FirstSharing(cb: Table, n: nat, name: Name, m: nat, g: nat) returns (f: nat)
    requires g < n <= |cb| && Match(name, cb[g].name) >= m
    ensures f <= g && Match(name, cb[f].name) >= m
    ensures forall i :: 0 <= i < f ==> Match(name, cb[i].name) < m
  {
    f := 0;
    while Match(name, cb[f].name) < m
      invariant f <= g
      invariant forall i :: 0 <= i < f ==> Match(name, cb[i].name) < m
      decreases g - f
    {
      f := f + 1;
    }
  }

  /** The element that compress_name picks carries the matched suffix literally. */
  lemma {:induction false} ChooseLiteral(cb: Table, n: nat, name: Name) returns (i: nat)
    requires ValidTable(cb) && Ordered(cb) && n <= |cb|
    requires Choose(cb, n, name).longest > 0
    ensures var b := Choose(cb, n, name);
      && i < n && Match(name, cb[i].name) == b.longest
      && Literal(cb, i, b.longest) && b.coffs == SuffixPos(cb, i, b.longest)
    decreases n, 2
  {
    hide Match;
    hide Offset;
    hide WirePrefix;
    var b := Choose(cb, n - 1, name);
    var m := Match(name, cb[n - 1].name);
    if m > b.longest && SuffixPos(cb, n - 1, m) <= MAXPTR {
      i := n - 1;
      if Choose(cb, n - 1, cb[n - 1].name).longest >= m { BeatenIsFar(cb, n - 1, name, m); }
    } else {
      i := ChooseLiteral(cb, n - 1, name);
    }
  }

  /** If element j shares m labels with name but carries them through a pointer, and no
      earlier element was usable for them, then element j is out of reach too. */
  lemma {:induction false} BeatenIsFar(cb: Table, j: nat, name: Name, m: nat)
    requires ValidTable(cb) && Ordered(cb) && j < |cb|
    requires 0 < m == Match(name, cb[j].name) <= Choose(cb, j, cb[j].name).longest
    requires m > Choose(cb, j, name).longest
    ensures cb[j].index > MAXPTR
    decreases j, 3
  {
    hide Match;
    hide Offset;
    hide WirePrefix;
    hide Choose;
    var g := ChooseLiteral(cb, j, cb[j].name);
    MatchUltrametric(name, cb[j].name, cb[g].name, m);
    var f := FirstSharing(cb, j, name, m, g);
    FirstIsLiteral(cb, f, name, m);
    Considered(cb, j, name, f);
  }

  lemma {:induction false} FirstIsLiteral(cb: Table, f: nat, name: Name, m: nat)
    requires ValidTable(cb) && Ordered(cb) && f < |cb| && 0 < m <= Match(name, cb[f].name)
    requires forall i :: 0 <= i < f ==> Match(name, cb[i].name) < m
    ensures Literal(cb, f, Match(name, cb[f].name))
    decreases f, 4
  {
    if Choose(cb, f, cb[f].name).longest >= Match(name, cb[f].name) {
      var h := ChooseLiteral(cb, f, cb[f].name);
      MatchUltrametric(name, cb[f].name, cb[h].name, m);
    }
  }

  // ---- Reading back one placed name

  lemma PointerReads(msg: seq<byte>, p: nat, o: nat, t: Name, g: nat, h: nat)
    requires p + 1 < |msg| && o <= MAXPTR && msg[p] == PointerBytes(o)[0] && msg[p + 1] == PointerBytes(o)[1]
    requires Reads(msg, o, t, g) && g < h
    ensures Reads(msg, p, t, h) && Extent(msg, p) == 2
  {
    DecodeMoreHops(msg, o, g, h - 1);
  }

  lemma LabelsRead(msg: seq<byte>, p: nat, ls: Name, t: Name, h: nat)
    requires ValidLabels(ls) && LabelsAt(msg, p, ls)
    requires Reads(msg, p + |WirePrefix(ls)|, t, h)
    ensures Reads(msg, p, ls + t, h)
    ensures Extent(msg, p) == |WirePrefix(ls)| + Extent(msg, p + |WirePrefix(ls)|)
  {
    DecodeLiteral(msg, p, ls, h);
    var d := DecodeAt(msg, p + |WirePrefix(ls)|, h).value;
    FoldConcat(ls, d);
    FoldConcat(ls, t);
  }

  /** What follows the literal labels of an emitted name. */
  function Tail(b: Best): (t: seq<byte>)
    requires b.longest > 0 ==> b.coffs <= MAXPTR
  {
    if b.longest > 0 then PointerBytes(b.coffs) else [0]
  }

  lemma SameReads(msg: seq<byte>, pos: nat, s: Name, t: Name, h: nat)
    requires Reads(msg, pos, s, h) && SameName(s, t)
    ensures Reads(msg, pos, t, h)
  {}

  lemma ElementReads(msg: seq<byte>, cb: Table, i: nat, m: nat)
    requires Consistent(msg, cb) && i < |cb| && Literal(cb, i, m) && SuffixPos(cb, i, m) <= MAXPTR
    ensures Reads(msg, SuffixPos(cb, i, m), Suffix(cb[i].name, m), m - 1)
  {}

  lemma MatchReads(msg: seq<byte>, pos: nat, e: Name, name: Name, m: nat)
    requires 0 < m <= Match(name, e) && Reads(msg, pos, Suffix(e, m), m - 1)
    ensures Reads(msg, pos, Suffix(name, m), m - 1)
  {
    MatchSuffix(name, e, m);
    SameReads(msg, pos, Suffix(e, m), Suffix(name, m), m - 1);
  }

  lemma ChosenReads(msg: seq<byte>, cb: Table, name: Name)
    requires Consistent(msg, cb) && Choose(cb, |cb|, name).longest > 0
    ensures var b := Choose(cb, |cb|, name); Reads(msg, b.coffs, Suffix(name, b.longest), b.longest - 1)
  {
    var i := ChooseLiteral(cb, |cb|, name);
    var m := Match(name, cb[i].name);
    ElementReads(msg, cb, i, m);
    MatchReads(msg, SuffixPos(cb, i, m), cb[i].name, name, m);
  }

  /** After the literal part comes a pointer or the terminating null byte. */
  lemma TailReads(msg: seq<byte>, b: Best, t: Name, p: nat, h: nat)
    requires b.longest > 0 ==> b.coffs <= MAXPTR && Reads(msg, b.coffs, t, b.longest - 1)
    requires |t| == b.longest <= h && p <= |msg| && msg[p..] == Tail(b)
    ensures Reads(msg, p, t, h) && p + Extent(msg, p) == |msg|
  {
    var w := Tail(b);
    assert msg[p] == msg[p..][0] == w[0];
    if b.longest > 0 {
      assert msg[p + 1] == msg[p..][1] == w[1];
      PointerReads(msg, p, b.coffs, t, b.longest - 1, h);
    } else {
      assert DecodeAt(msg, p, h) == Some([]);
      assert t == [];
    }
  }

  /** Literal labels, then the tail. */
  lemma LabelsThenTail(base: seq<byte>, mid: Name, b: Best, t: Name, h: nat)
    requires ValidLabels(mid) && |t| == b.longest <= h
    requires b.longest > 0 ==> b.coffs <= MAXPTR && Reads(base, b.coffs, t, b.longest - 1)
    ensures var msg := base + (WirePrefix(mid) + Tail(b));
      Reads(msg, |base|, mid + t, h) && |base| + Extent(msg, |base|) == |msg|
  {
    hide DecodeAt;
    hide Extent;
    hide WirePrefix;
    hide FoldName;
    hide PointerBytes;
    var w := WirePrefix(mid);
    var msg, p := base + (w + Tail(b)), |base|;
    if b.longest > 0 { ReadsExtend(base, w + Tail(b), b.coffs, t, b.longest - 1); }
    assert msg[p + |w|..] == Tail(b);
    TailReads(msg, b, t, p + |w|, h);
    assert msg[p..p + |w|] == w;
    WirePrefixAt(msg, p, mid);
    LabelsRead(msg, p, mid, t, h);
  }

  lemma Reassociate(base: seq<byte>, x: seq<byte>, y: seq<byte>, t: seq<byte>)
    ensures base + ((x + y) + t) == (base + x) + (y + t)
  {}

  lemma EmittedForm(cb: Table, name: Name)
    requires ValidTable(cb) && ValidName(name)
    ensures var b := Choose(cb, |cb|, name);
      Emitted(cb, name) == WirePrefix(name[..|name| - b.longest]) + Tail(b)
  {
    hide Choose;
    hide WirePrefix;
    hide PointerBytes;
    hide ValidTable;
    hide Offset;
    hide Match;
    hide FoldName;
    hide DecodeAt;
    assert name[..|name|] == name;
  }

  lemma WirePrefixCut(name: Name, k: nat, l: nat)
    requires ValidLabels(name) && k <= l <= |name|
    ensures ValidLabels(name[..k]) && ValidLabels(name[k..l])
    ensures WirePrefix(name[..l]) == WirePrefix(name[..k]) + WirePrefix(name[k..l])
  {
    hide WirePrefix;
    WirePrefixConcat(name[..k], name[k..l]);
    assert name[..k] + name[k..l] == name[..l];
  }

  /** The emitted bytes, cut at literal label k. */
  lemma EmittedCut(base: seq<byte>, cb: Table, name: Name, k: nat)
    requires ValidTable(cb) && ValidName(name) && k <= |name| - Choose(cb, |cb|, name).longest
    ensures var b := Choose(cb, |cb|, name);
      && ValidLabels(name[..k]) && ValidLabels(name[k..|name| - b.longest])
      && Offset(name, k) == |WirePrefix(name[..k])|
      && base + Emitted(cb, name) ==
         (base + WirePrefix(name[..k])) + (WirePrefix(name[k..|name| - b.longest]) + Tail(b))
  {
    hide Choose;
    hide WirePrefix;
    hide Offset;
    hide Emitted;
    hide Tail;
    var b := Choose(cb, |cb|, name);
    var l := |name| - b.longest;
    var x, y, t := WirePrefix(name[..k]), WirePrefix(name[k..l]), Tail(b);
    OffsetIsLength(name, k);
    WirePrefixCut(name, k, l);
    EmittedForm(cb, name);
    assert Emitted(cb, name) == (x + y) + t;
    Reassociate(base, x, y, t);
  }

  lemma CutReads(base: seq<byte>, x: seq<byte>, name: Name, b: Best, k: nat, h: nat)
    requires ValidLabels(name) && b.longest <= |name| && k <= |name| - b.longest && b.longest <= h
    requires b.longest > 0 ==>
      b.coffs <= MAXPTR && Reads(base, b.coffs, Suffix(name, b.longest), b.longest - 1)
    ensures ValidLabels(name[k..|name| - b.longest])
    ensures var msg := (base + x) + (WirePrefix(name[k..|name| - b.longest]) + Tail(b));
      Reads(msg, |base| + |x|, name[k..], h) && |base| + |x| + Extent(msg, |base| + |x|) == |msg|
  {
    var mid, t := name[k..|name| - b.longest], Suffix(name, b.longest);
    if b.longest > 0 { ReadsExtend(base, x, b.coffs, t, b.longest - 1); }
    LabelsThenTail(base + x, mid, b, t, h);
    assert mid + t == name[k..];
  }

  /** Reading from any literal label of the placed name. */
  lemma PlacedReads(base: seq<byte>, cb: Table, name: Name, k: nat, h: nat)
    requires Consistent(base, cb) && ValidName(name)
    requires var b := Choose(cb, |cb|, name); h >= b.longest && k <= |name| - b.longest
    ensures var msg := base + Emitted(cb, name);
      var p := |base| + Offset(name, k);
      && Reads(msg, p, name[k..], h)
      && p + Extent(msg, p) == |msg|
  {
    hide DecodeAt;
    hide Extent;
    hide Choose;
    hide Match;
    hide WirePrefix;
    hide Offset;
    hide Emitted;
    hide Tail;
    hide FoldName;
    var b := Choose(cb, |cb|, name);
    EmittedCut(base, cb, name, k);
    if b.longest > 0 { ChosenReads(base, cb, name); }
    CutReads(base, WirePrefix(name[..k]), name, b, k, h);
  }

  // ---- Keeping the list and the message in agreement

  lemma ConsistentExtend(msg: seq<byte>, ext: seq<byte>, cb: Table)
    requires Consistent(msg, cb)
    ensures Consistent(msg + ext, cb)
  {
    hide DecodeAt;
    hide Extent;
    hide Choose;
    hide Offset;
    hide FoldName;
    hide WirePrefix;
    forall i, m | 0 <= i < |cb| && 0 <= m && Literal(cb, i, m) && SuffixPos(cb, i, m) <= MAXPTR
      ensures Reads(msg + ext, SuffixPos(cb, i, m), Suffix(cb[i].name, m), m - 1)
    {
      ReadsExtend(msg, ext, SuffixPos(cb, i, m), Suffix(cb[i].name, m), m - 1);
    }
  }

  /** Adding an element does not change what the earlier ones stand for. */
  lemma LiteralPrefix(cb: Table, e: CompEl, i: nat, m: nat)
    requires ValidTable(cb) && ValidName(e.name) && i < |cb|
    ensures ValidTable(cb + [e]) && (cb + [e])[i] == cb[i]
    ensures Literal(cb + [e], i, m) == Literal(cb, i, m)
    ensures m <= |cb[i].name| ==> SuffixPos(cb + [e], i, m) == SuffixPos(cb, i, m)
  {
    hide Choose;
    hide Offset;
    hide WirePrefix;
    ChoosePrefix(cb, [e], i, cb[i].name);
  }

  /** The literal suffixes of a freshly placed name can be read. */
  lemma NewElementReads(base: seq<byte>, cb: Table, name: Name, m: nat)
    requires Consistent(base, cb) && ValidName(name)
    requires Choose(cb, |cb|, name).longest < m <= |name|
    ensures var msg := base + Emitted(cb, name);
      var p := |base| + Offset(name, |name| - m);
      Reads(msg, p, Suffix(name, m), m - 1) && p < |msg|
  {
    hide Choose;
    hide Offset;
    hide Emitted;
    hide FoldName;
    hide Extent;
    PlacedReads(base, cb, name, |name| - m, m - 1);
  }

  /** compress_name keeps the list consistent with the message it writes to. */
  lemma GrownConsistent(base: seq<byte>, cb: Table, name: Name)
    requires Consistent(base, cb) && ValidName(name)
    ensures Consistent(base + Emitted(cb, name), Grown(cb, name, |base|))
  {
    hide DecodeAt;
    hide Choose;
    hide Offset;
    hide FoldName;
    hide WirePrefix;
    hide Emitted;
    var msg := base + Emitted(cb, name);
    var cb' := Grown(cb, name, |base|);
    ConsistentExtend(base, Emitted(cb, name), cb);
    if cb' != cb {
      var e := CompEl(|base|, name);
      assert cb' == cb + [e];
      ChoosePrefix(cb, [e], |cb|, name);
      forall i, m | 0 <= i < |cb'| && 0 <= m && Literal(cb', i, m)
        ensures SuffixPos(cb', i, m) <= MAXPTR ==>
          Reads(msg, SuffixPos(cb', i, m), Suffix(cb'[i].name, m), m - 1)
        ensures SuffixPos(cb', i, m) > MAXPTR ==> |msg| > MAXPTR
      {
        if i < |cb| {
          LiteralPrefix(cb, e, i, m);
        } else {
          NewElementReads(base, cb, name, m);
        }
      }
      forall i, m, j | 0 <= i < j < |cb'| && 0 <= m && Literal(cb', i, m) && SuffixPos(cb', i, m) > MAXPTR
        ensures cb'[j].index > MAXPTR
      {
        LiteralPrefix(cb, e, i, m);
      }
    }
  }

  // ---- Whole messages

  /** Any bytes, then a name. */
  datatype Placement = Placement(gap: seq<byte>, name: Name)

  datatype Message = Message(bytes: seq<byte>, cb: Table)

  ghost predicate ValidMessage(m: Message) { Consistent(m.bytes, m.cb) }

  function Put(m: Message, p: Placement): (m': Message)
    requires ValidTable(m.cb) && ValidName(p.name)
    ensures ValidTable(m'.cb)
  {
    Message(m.bytes + p.gap + Emitted(m.cb, p.name), Grown(m.cb, p.name, |m.bytes + p.gap|))
  }

  predicate ValidPlacements(ps: seq<Placement>) { forall i :: 0 <= i < |ps| ==> ValidName(ps[i].name) }

  function PutAll(m: Message, ps: seq<Placement>): (m': Message)
    requires ValidTable(m.cb) && ValidPlacements(ps)
    ensures ValidTable(m'.cb)
    decreases |ps|
  {
    if ps == [] then m else Put(PutAll(m, ps[..|ps| - 1]), ps[|ps| - 1])
  }

  lemma EmptyTableConsistent(bytes: seq<byte>)
    ensures ValidMessage(Message(bytes, []))
  {}

  lemma PutValid(m: Message, p: Placement)
    requires ValidMessage(m) && ValidName(p.name)
    ensures ValidMessage(Put(m, p))
  {
    ConsistentExtend(m.bytes, p.gap, m.cb);
    GrownConsistent(m.bytes + p.gap, m.cb, p.name);
  }

  lemma {:induction false} PutAllValid(m: Message, ps: seq<Placement>)
    requires ValidMessage(m) && ValidPlacements(ps)
    ensures ValidMessage(PutAll(m, ps))
    decreases |ps|
  {
    assert ValidTable(m.cb);
    hide Consistent;
    hide Put;
    if ps != [] {
      PutAllValid(m, ps[..|ps| - 1]);
      PutValid(PutAll(m, ps[..|ps| - 1]), ps[|ps| - 1]);
    }
  }

  lemma {:induction false} PutAllExtends(m: Message, ps: seq<Placement>, i: nat)
    requires ValidTable(m.cb) && ValidPlacements(ps) && i <= |ps|
    ensures PutAll(m, ps[..i]).bytes <= PutAll(m, ps).bytes
    decreases |ps|
  {
    hide Emitted;
    hide Grown;
    if i < |ps| {
      var init := ps[..|ps| - 1];
      PutAllExtends(m, init, i);
      assert init[..i] == ps[..i];
    } else {
      assert ps[..i] == ps;
    }
  }

  /** The data field of sz bytes at pos reads as `name`, up to case, and takes `used` bytes. */
  predicate FieldReads(msg: seq<byte>, pos: nat, sz: nat, name: Name, used: nat)
  {
    var f := FieldName(msg, pos, sz);
    f.Some? && SameName(f.value, name) && Extent(msg, pos) == used
  }

  lemma ReadsField(msg: seq<byte>, pos: nat, sz: nat, name: Name)
    requires ValidName(name) && Reads(msg, pos, name, |name|) && Extent(msg, pos) <= sz
    ensures FieldReads(msg, pos, sz, name, Extent(msg, pos))
  {
    hide DecodeAt;
    hide Extent;
    LabelCount(name);
    DecodeMoreHops(msg, pos, |name|, 255);
    SameNameShape(name, DecodeAt(msg, pos, 255).value);
  }

  /** The name just placed reads back, and takes exactly the emitted bytes. */
  lemma PutReads(m: Message, p: Placement, ext: seq<byte>, sz: nat)
    requires ValidMessage(m) && ValidName(p.name) && sz >= |Emitted(m.cb, p.name)|
    ensures FieldReads(Put(m, p).bytes + ext, |m.bytes + p.gap|, sz, p.name, |Emitted(m.cb, p.name)|)
  {
    hide DecodeAt;
    hide Extent;
    hide Choose;
    hide Offset;
    hide FoldName;
    hide Emitted;
    hide WirePrefix;
    var base, name := m.bytes + p.gap, p.name;
    var msg := base + Emitted(m.cb, name);
    ConsistentExtend(m.bytes, p.gap, m.cb);
    PlacedReads(base, m.cb, name, 0, |name|);
    OffsetMonotone(name, 0, 0);
    assert name[0..] == name;
    OffsetIsLength(name, 0);
    WirePrefixEmpty(name[..0]);
    ReadsExtend(msg, ext, |base|, name, |name|);
    ReadsField(msg + ext, |base|, sz, name);
  }

  lemma WirePrefixEmpty(n: Name)
    requires n == []
    ensures ValidLabels(n) && WirePrefix(n) == []
  {}

  /** Compression round trip: for every sequence of names placed by compress_name at growing
      offsets of one message, with any bytes before and between them, reading the finished
      message at each offset succeeds, consumes exactly the bytes that were emitted there,
      and returns the name that was placed, up to ASCII case. */
  lemma CompressionRoundTrip(bytes: seq<byte>, ps: seq<Placement>, i: nat, sz: nat)
    requires ValidPlacements(ps) && i < |ps|
    requires sz >= |Emitted(PutAll(Message(bytes, []), ps[..i]).cb, ps[i].name)|
    ensures var m := PutAll(Message(bytes, []), ps[..i]);
      var final := PutAll(Message(bytes, []), ps).bytes;
      FieldReads(final, |m.bytes + ps[i].gap|, sz, ps[i].name, |Emitted(m.cb, ps[i].name)|)
  {
    hide Consistent;
    hide Put;
    hide FieldReads;
    hide Emitted;
    var m0 := Message(bytes, []);
    var m := PutAll(m0, ps[..i]);
    EmptyTableConsistent(bytes);
    PutAllValid(m0, ps[..i]);
    PutAllExtends(m0, ps, i + 1);
    assert ps[..i + 1][..i] == ps[..i];
    var final, here := PutAll(m0, ps).bytes, Put(m, ps[i]).bytes;
    assert here <= final;
    assert final == here + final[|here|..];
    PutReads(m, ps[i], final[|here|..], sz);
  }
}
