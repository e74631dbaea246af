/** Name compression and decompression (dns.c, section 4.1.4 of RFC 1035). */
module NameCodec {
  import opened Names

  /** The largest offset a compression pointer can hold. */
  const MAXPTR := 0x3fff

  // ---- Reference decoder

  function Prepend(l: Label, rest: Option<Name>): (r: Option<Name>)
  {
    match rest
    case None => None
    case Some(n) => Some([l] + n)
  }

  function PrependAll(ls: Name, rest: Option<Name>): (r: Option<Name>)
  {
    match rest
    case None => None
    case Some(n) => Some(ls + n)
  }

  /** The offset that a two-byte compression pointer denotes. */
  function Target(hi: byte, lo: byte): (o: nat)
    requires hi >= 0xc0
    ensures o <= MAXPTR
  {
    (hi as int - 0xc0) * 256 + lo as int
  }

  /** The name that starts at pos, following at most `hops` pointers. */
  function DecodeAt(msg: seq<byte>, pos: nat, hops: nat): (r: Option<Name>)
    ensures r.Some? ==> ValidLabels(r.value)
    decreases hops, |msg| - pos
  {
    if pos >= |msg| then None
    else
      var b := msg[pos];
      if b >= 0xc0 then
        if hops == 0 || pos + 1 >= |msg| then None
        else DecodeAt(msg, Target(b, msg[pos + 1]), hops - 1)
      else if b == 0 then Some([])
      else if b > 63 || pos + 1 + b >= |msg| then None
      else Prepend(msg[pos + 1..pos + 1 + b], DecodeAt(msg, pos + 1 + b, hops))
  }

  /** Bytes that the encoding at pos occupies in place (pointer included). */
  function Extent(msg: seq<byte>, pos: nat): (e: nat)
    decreases |msg| - pos
  {
    if pos >= |msg| then 0
    else if msg[pos] >= 0xc0 then 2
    else if msg[pos] == 0 then 1
    else 1 + msg[pos] + Extent(msg, pos + 1 + msg[pos])
  }

  lemma {:induction false} DecodeMoreHops(msg: seq<byte>, pos: nat, h: nat, h': nat)
    requires h <= h' && DecodeAt(msg, pos, h).Some?
    ensures DecodeAt(msg, pos, h') == DecodeAt(msg, pos, h)
    decreases h, |msg| - pos
  {
    var b := msg[pos];
    if b >= 0xc0 {
      DecodeMoreHops(msg, Target(b, msg[pos + 1]), h - 1, h' - 1);
    } else if b != 0 {
      DecodeMoreHops(msg, pos + 1 + b, h, h');
    }
  }

  lemma {:induction false} DecodeExtend(msg: seq<byte>, ext: seq<byte>, pos: nat, h: nat)
    requires DecodeAt(msg, pos, h).Some?
    ensures DecodeAt(msg + ext, pos, h) == DecodeAt(msg, pos, h)
    ensures Extent(msg + ext, pos) == Extent(msg, pos)
    ensures pos + Extent(msg, pos) <= |msg|
    decreases h, |msg| - pos
  {
    var b := msg[pos];
    assert (msg + ext)[pos] == b;
    if b >= 0xc0 {
      assert (msg + ext)[pos + 1] == msg[pos + 1];
      DecodeExtend(msg, ext, Target(b, msg[pos + 1]), h - 1);
    } else if b != 0 {
      DecodeExtend(msg, ext, pos + 1 + b, h);
      assert (msg + ext)[pos + 1..pos + 1 + b] == msg[pos + 1..pos + 1 + b];
    }
  }

  /** One label that stands literally in the message. */
  lemma DecodeOneLabel(msg: seq<byte>, pos: nat, l: Label, h: nat)
    requires ValidLabel(l) && pos + 1 + |l| < |msg|
    requires msg[pos] == |l| && msg[pos + 1..pos + 1 + |l|] == l
    ensures DecodeAt(msg, pos, h) == Prepend(l, DecodeAt(msg, pos + 1 + |l|, h))
    ensures Extent(msg, pos) == 1 + |l| + Extent(msg, pos + 1 + |l|)
  {}

  lemma PrependAllHead(ls: Name, rest: Option<Name>)
    requires ls != []
    ensures PrependAll(ls, rest) == Prepend(ls[0], PrependAll(ls[1..], rest))
  {
    match rest
    case None =>
    case Some(n) => assert [ls[0]] + (ls[1..] + n) == ls + n;
  }

  /** The labels ls stand literally at pos, with at least one more byte after them. */
  predicate LabelsAt(msg: seq<byte>, pos: nat, ls: Name)
    decreases |ls|
  {
    if ls == [] then pos < |msg|
    else
      var l := ls[0];
      && ValidLabel(l)
      && pos + 1 + |l| < |msg|
      && msg[pos] == |l|
      && msg[pos + 1..pos + 1 + |l|] == l
      && LabelsAt(msg, pos + 1 + |l|, ls[1..])
  }

  lemma {:induction false} WirePrefixAt(msg: seq<byte>, pos: nat, ls: Name)
    requires ValidLabels(ls)
    requires pos + |WirePrefix(ls)| < |msg|
    requires msg[pos..pos + |WirePrefix(ls)|] == WirePrefix(ls)
    ensures LabelsAt(msg, pos, ls)
    decreases |ls|
  {
    if ls != [] {
      var w, l, w' := WirePrefix(ls), ls[0], WirePrefix(ls[1..]);
      var sub := msg[pos..pos + |w|];
      assert w == [|l|] + l + w';
      assert msg[pos] == sub[0];
      assert msg[pos + 1..pos + 1 + |l|] == sub[1..1 + |l|] == l;
      assert msg[pos + 1 + |l|..pos + 1 + |l| + |w'|] == sub[1 + |l|..] == w';
      WirePrefixAt(msg, pos + 1 + |l|, ls[1..]);
    }
  }

  /** Reading over labels that stand literally in the message. */
  lemma {:induction false} DecodeLiteral(msg: seq<byte>, pos: nat, ls: Name, h: nat)
    requires ValidLabels(ls) && LabelsAt(msg, pos, ls)
    ensures DecodeAt(msg, pos, h) == PrependAll(ls, DecodeAt(msg, pos + |WirePrefix(ls)|, h))
    ensures Extent(msg, pos) == |WirePrefix(ls)| + Extent(msg, pos + |WirePrefix(ls)|)
    ensures pos + |WirePrefix(ls)| < |msg|
    decreases |ls|
  {
    if ls == [] {
      var d := DecodeAt(msg, pos, h);
      if d.Some? { assert ls + d.value == d.value; }
    } else {
      var l := ls[0];
      DecodeLiteral(msg, pos + 1 + |l|, ls[1..], h);
      DecodeOneLabel(msg, pos, l, h);
      PrependAllHead(ls, DecodeAt(msg, pos + |WirePrefix(ls)|, h));
    }
  }

  // ---- decompress_name

  /** RC_OK with the name and the bytes consumed, RC_TRUNC, or RC_FORMAT. */
  datatype Decoded = Decoded(name: seq<byte>, used: nat) | Truncated | Malformed

  /** The data field of sz bytes at pos ends inside the name, and nothing is wrong
      with the message before that point; tpos bytes are already in the buffer. */
  predicate RunsOut(msg: seq<byte>, pos: nat, sz: nat, tpos: nat)
    decreases |msg| - pos
  {
    if sz == 0 then true
    else if pos >= |msg| then false
    else if msg[pos] >= 0xc0 then sz == 1
    else if msg[pos] == 0 || msg[pos] > 63 then false
    else if sz - 1 <= msg[pos] then true
    else
      var next := 1 + msg[pos];
      && pos + next < |msg|
      && tpos + next <= DNSNAMEBUFSIZE - 1
      && RunsOut(msg, pos + next, sz - next, tpos + next)
  }

  lemma RunsOutStep(msg: seq<byte>, pos: nat, sz: nat, tpos: nat)
    requires pos < |msg| && 1 <= msg[pos] <= 63 && msg[pos] < sz - 1
    requires pos + 1 + msg[pos] < |msg| && tpos + 1 + msg[pos] <= DNSNAMEBUFSIZE - 1
    ensures RunsOut(msg, pos, sz, tpos)
         == RunsOut(msg, pos + 1 + msg[pos], sz - 1 - msg[pos], tpos + 1 + msg[pos])
  {}

  /** The name that a data field of sz bytes at pos denotes, if it denotes one. */
  function FieldName(msg: seq<byte>, pos: nat, sz: nat): (r: Option<Name>)
  {
    match DecodeAt(msg, pos, 255)
    case None => None
    case Some(n) => if |Wire(n)| <= DNSNAMEBUFSIZE && Extent(msg, pos) <= sz then Some(n) else None
  }

  lemma PrependAllStep(acc: Name, l: Label, rest: Option<Name>)
    ensures PrependAll(acc, Prepend(l, rest)) == PrependAll(acc + [l], rest)
  {
    match rest
    case None =>
    case Some(n) => assert acc + ([l] + n) == acc + [l] + n;
  }

  lemma WirePrefixSnoc(acc: Name, l: Label)
    requires ValidLabels(acc) && ValidLabel(l)
    ensures ValidLabels(acc + [l]) && WirePrefix(acc + [l]) == WirePrefix(acc) + [|l|] + l
  {
    WirePrefixConcat(acc, [l]);
    assert WirePrefix([l]) == [|l|] + l + WirePrefix([l][1..]);
  }

  lemma TooLong(acc: Name, rest: Option<Name>)
    requires ValidLabels(acc) && (rest.Some? ==> ValidLabels(rest.value))
    requires |WirePrefix(acc)| > DNSNAMEBUFSIZE - 1
    ensures PrependAll(acc, rest).Some? ==> |Wire(PrependAll(acc, rest).value)| > DNSNAMEBUFSIZE
  {
    if rest.Some? { WirePrefixConcat(acc, rest.value); }
  }

  /** `full`, if its encoding fits the name buffer. */
  function Fitting(full: Option<Name>): (r: Option<Name>)
    requires full.Some? ==> ValidLabels(full.value)
  {
    if full.Some? && |Wire(full.value)| <= DNSNAMEBUFSIZE then full else None
  }

  /** Copying one more literal label into the buffer, or finding that it does not fit. */
  lemma CopyLabel(msg: seq<byte>, pos: nat, h: nat, acc: Name, full: Option<Name>)
    requires ValidLabels(acc) && pos < |msg| && 1 <= msg[pos] <= 63 && pos + 1 + msg[pos] < |msg|
    requires full == PrependAll(acc, DecodeAt(msg, pos, h))
    ensures var l := msg[pos + 1..pos + 1 + msg[pos]];
      && ValidLabels(acc + [l])
      && WirePrefix(acc + [l]) == WirePrefix(acc) + [msg[pos]] + l
      && full == PrependAll(acc + [l], DecodeAt(msg, pos + 1 + msg[pos], h))
      && (full.Some? ==> ValidLabels(full.value))
      && (|WirePrefix(acc)| + 1 + msg[pos] > DNSNAMEBUFSIZE - 1 ==> Fitting(full) == None)
  {
    var l := msg[pos + 1..pos + 1 + msg[pos]];
    var rest := DecodeAt(msg, pos + 1 + msg[pos], h);
    WirePrefixSnoc(acc, l);
    PrependAllStep(acc, l, rest);
    if |WirePrefix(acc)| + 1 + msg[pos] > DNSNAMEBUFSIZE - 1 { TooLong(acc + [l], rest); }
  }

  /** The part of decompress_name after its first jump. */
  method FollowPointers(msg: seq<byte>, start: nat, buf: seq<byte>, ghost acc0: Name, ghost full: Option<Name>)
    returns (r: Option<seq<byte>>)
    requires start < |msg|
    requires ValidLabels(acc0) && buf == WirePrefix(acc0) && |buf| <= DNSNAMEBUFSIZE - 1
    requires full == PrependAll(acc0, DecodeAt(msg, start, 254)) && (full.Some? ==> ValidLabels(full.value))
    ensures r.Some? <==> Fitting(full).Some?
    ensures r.Some? ==> r.value == Wire(full.value)
  {
    var lptr, hops, tgt := start, 1, buf;
    ghost var acc := acc0;
    while true
      invariant 1 <= hops <= 255 && 0 <= lptr < |msg|
      invariant ValidLabels(acc) && tgt == WirePrefix(acc) && |tgt| <= DNSNAMEBUFSIZE - 1
      invariant full == PrependAll(acc, DecodeAt(msg, lptr, 255 - hops))
      decreases 255 - hops, |msg| - lptr
    {
      var lb := msg[lptr];
      if lb > 0x3f {
        if lb < 0xc0 { return None; }
        if lptr + 1 >= |msg| { return None; }
        hops := hops + 1;
        if hops > 255 { return None; }
        lptr := Target(lb, msg[lptr + 1]);
        if lptr >= |msg| { return None; }
      } else if lb == 0 {
        assert acc + [] == acc;
        return Some(tgt + [0]);
      } else {
        if lptr + 1 + lb >= |msg| { return None; }
        CopyLabel(msg, lptr, 255 - hops, acc, full);
        if |tgt| + 1 + lb > DNSNAMEBUFSIZE - 1 { return None; }
        tgt := tgt + [lb] + msg[lptr + 1..lptr + 1 + lb];
        acc := acc + [msg[lptr + 1..lptr + 1 + lb]];
        lptr := lptr + 1 + lb;
      }
    }
  }

  /** Succeeds exactly when the field denotes a name, and then returns its encoding;
      RC_TRUNC is reserved for a data field that ends inside the name. */
  method DecompressName(msg: seq<byte>, src: nat, sz: nat) returns (r: Decoded)
    ensures r.Decoded? <==> FieldName(msg, src, sz).Some?
    ensures r.Decoded? ==> r.name == Wire(FieldName(msg, src, sz).value) && r.used == Extent(msg, src)
    ensures r.Decoded? ==> |r.name| <= DNSNAMEBUFSIZE && 1 <= r.used <= sz
    ensures r.Truncated? <==> RunsOut(msg, src, sz, 0)
  {
    hide Target;
    var lptr, newsz := src, sz;
    var tgt: seq<byte> := [];
    ghost var acc: Name := [];
    ghost var full := DecodeAt(msg, src, 255);
    if newsz == 0 { return Truncated; }
    if lptr >= |msg| { return Malformed; }
    assert full == PrependAll([], full) by {
      if full.Some? { assert [] + full.value == full.value; }
    }
    while true
      invariant 0 < newsz <= sz && src <= lptr < |msg|
      invariant lptr - src == sz - newsz
      invariant ValidLabels(acc) && tgt == WirePrefix(acc) && |tgt| <= DNSNAMEBUFSIZE - 1
      invariant full == PrependAll(acc, DecodeAt(msg, lptr, 255))
      invariant Extent(msg, src) == (lptr - src) + Extent(msg, lptr)
      invariant RunsOut(msg, src, sz, 0) == RunsOut(msg, lptr, newsz, |tgt|)
      decreases |msg| - lptr
    {
      var lb := msg[lptr];
      if lb > 0x3f {
        if lb < 0xc0 { return Malformed; }
        if newsz == 1 { return Truncated; }
        if lptr + 1 >= |msg| { return Malformed; }
        var offs := Target(lb, msg[lptr + 1]);
        if offs >= |msg| { return Malformed; }
        var t := FollowPointers(msg, offs, tgt, acc, full);
        if t == None { return Malformed; }
        return Decoded(t.value, sz - newsz + 2);
      }
      if lb == 0 {
        assert acc + [] == acc;
        return Decoded(tgt + [0], sz - newsz + 1);
      }
      if newsz - 1 <= lb { return Truncated; }
      if lptr + 1 + lb >= |msg| { return Malformed; }
      CopyLabel(msg, lptr, 255, acc, full);
      if |tgt| + 1 + lb > DNSNAMEBUFSIZE - 1 { return Malformed; }
      RunsOutStep(msg, lptr, newsz, |tgt|);
      tgt := tgt + [lb] + msg[lptr + 1..lptr + 1 + lb];
      acc := acc + [msg[lptr + 1..lptr + 1 + lb]];
      lptr, newsz := lptr + 1 + lb, newsz - 1 - lb;
    }
  }
}
