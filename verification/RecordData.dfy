/** Record data as the cache holds it: raw bytes and uncompressed names, laid out by type.
    The writer (add_rr in dns_answer.c) and the reader (rrs2cent in dns_query.c) each have
    their own switch over the types. */
module RecordData {
  import opened DnsConstants
  import opened Names
  import opened NameCodec

  /** One stretch of record data: n bytes, a name, the four bytes and three strings of NAPTR,
      or whatever is left. */
  datatype Seg = Fixed(n: nat) | DomainName | Strings | Rest

  datatype Part = Raw(bytes: seq<byte>) | Dom(name: Name)

  /** The arms of the switch in add_rr. */
  function WriteLayout(tp: int): (l: seq<Seg>)
  {
    if tp in {T_CNAME, T_MB, T_MD, T_MF, T_MG, T_MR, T_NS, T_PTR} then [DomainName]
    else if tp in {T_MINFO, T_RP} then [DomainName, DomainName]
    else if tp in {T_MX, T_AFSDB, T_RT, T_KX} then [Fixed(2), DomainName]
    else if tp == T_SOA then [DomainName, DomainName, Fixed(20)]
    else if tp == T_PX then [Fixed(2), DomainName, DomainName]
    else if tp == T_SRV then [Fixed(6), DomainName]
    else if tp == T_NXT then [DomainName, Rest]
    else if tp == T_NAPTR then [Strings, DomainName]
    else [Rest]
  }

  // ---- Parsing uncompressed data

  /** The end of k strings that start at len; they have to end within b. */
  function StringsEnd(b: seq<byte>, len: nat, k: nat): (e: Option<nat>)
    ensures e.Some? ==> len <= e.value <= |b|
    decreases k
  {
    if k == 0 then (if len <= |b| then Some(len) else None)
    else if len >= |b| then None
    else StringsEnd(b, len + b[len] + 1, k - 1)
  }

  predicate PartFits(s: Seg, p: Part)
  {
    match s
    case Fixed(n) => p.Raw? && |p.bytes| == n
    case DomainName => p.Dom? && ValidName(p.name)
    case Strings => p.Raw? && StringsEnd(p.bytes, 4, 3) == Some(|p.bytes|)
    case Rest => p.Raw?
  }

  /** The parts are laid out as l says; Rest can only come last. */
  predicate Fits(l: seq<Seg>, ps: seq<Part>)
  {
    if l == [] || ps == [] then l == [] && ps == []
    else PartFits(l[0], ps[0]) && (l[0].Rest? ==> |l| == 1) && Fits(l[1..], ps[1..])
  }

  /** The bytes of a part as the cache holds it. */
  function PartFlat(p: Part): (b: seq<byte>)
    requires p.Dom? ==> ValidLabels(p.name)
  {
    match p
    case Raw(b) => b
    case Dom(n) => Wire(n)
  }

  predicate ValidParts(ps: seq<Part>) { forall i :: 0 <= i < |ps| && ps[i].Dom? ==> ValidName(ps[i].name) }

  function Flat(ps: seq<Part>): (b: seq<byte>)
    requires ValidParts(ps)
  {
    if ps == [] then [] else PartFlat(ps[0]) + Flat(ps[1..])
  }

  lemma {:induction false} FitsValid(l: seq<Seg>, ps: seq<Part>)
    requires Fits(l, ps)
    ensures ValidParts(ps) && |ps| == |l|
  {
    if ps != [] && l != [] {
      FitsValid(l[1..], ps[1..]);
      assert ps == [ps[0]] + ps[1..];
    }
  }

  /** The name that stands uncompressed at the start of b. */
  function LeadingName(b: seq<byte>): (n: Option<Name>)
    ensures n.Some? ==> ValidName(n.value)
  {
    match DecodeAt(b, 0, 0)
    case None => None
    case Some(n) => if |Wire(n)| <= DNSNAMEBUFSIZE then Some(n) else None
  }

  /** The first part of uncompressed data. */
  function Head(s: Seg, d: seq<byte>): (p: Option<Part>)
  {
    match s
    case Fixed(n) => if |d| < n then None else Some(Raw(d[..n]))
    case DomainName => (match LeadingName(d) case None => None case Some(n) => Some(Dom(n)))
    case Strings => (match StringsEnd(d, 4, 3) case None => None case Some(e) => Some(Raw(d[..e])))
    case Rest => Some(Raw(d))
  }

  /** The parts of uncompressed data, as add_rr walks over it with rhnlen. */
  function Parse(l: seq<Seg>, d: seq<byte>): (ps: Option<seq<Part>>)
    decreases |l|
  {
    if l == [] then (if d == [] then Some([]) else None)
    else
      var h := Head(l[0], d);
      if h.None? || (l[0].Rest? && |l| > 1) then None
      else
        HeadFits(l[0], d);
        Cons(h.value, Parse(l[1..], d[|PartFlat(h.value)|..]))
  }

  lemma HeadFits(s: Seg, d: seq<byte>)
    requires Head(s, d).Some?
    ensures var p := Head(s, d).value;
      PartFits(s, p) && |PartFlat(p)| <= |d| && d[..|PartFlat(p)|] == PartFlat(p) && (s.Rest? ==> PartFlat(p) == d)
  {
    match s
    case Fixed(n) =>
    case DomainName => LeadingBytes(d);
    case Strings => StringsEndCut(d, 4, 3, StringsEnd(d, 4, 3).value);
    case Rest =>
  }

  lemma HeadBack(s: Seg, p: Part, x: seq<byte>)
    requires PartFits(s, p) && (s.Rest? ==> x == [])
    ensures Head(s, PartFlat(p) + x) == Some(p)
  {
    var d := PartFlat(p) + x;
    assert d[..|PartFlat(p)|] == PartFlat(p);
    match s
    case Fixed(n) =>
    case DomainName => LeadingWire(p.name, x);
    case Strings => StringsEndExtend(p.bytes, x, 4, 3);
    case Rest => assert d == PartFlat(p);
  }

  function Cons(p: Part, ps: Option<seq<Part>>): (r: Option<seq<Part>>)
  {
    match ps
    case None => None
    case Some(t) => Some([p] + t)
  }

  // ---- Parsing and flattening are inverse

  lemma {:induction false} StringsEndExtend(b: seq<byte>, x: seq<byte>, len: nat, k: nat)
    requires StringsEnd(b, len, k).Some?
    ensures StringsEnd(b + x, len, k) == StringsEnd(b, len, k)
    decreases k
  {
    if k > 0 { StringsEndExtend(b, x, len + b[len] + 1, k - 1); }
  }

  lemma {:induction false} StringsEndCut(b: seq<byte>, len: nat, k: nat, e: nat)
    requires StringsEnd(b, len, k) == Some(e)
    ensures e <= |b| && StringsEnd(b[..e], len, k) == Some(e)
    decreases k
  {
    if k > 0 { StringsEndCut(b, len + b[len] + 1, k - 1, e); }
  }

  /** A name that stands uncompressed at pos is there byte by byte. */
  lemma {:induction false} LiteralBytes(b: seq<byte>, pos: nat)
    requires DecodeAt(b, pos, 0).Some?
    ensures var n := DecodeAt(b, pos, 0).value;
      pos + |Wire(n)| <= |b| && b[pos..pos + |Wire(n)|] == Wire(n)
    decreases |b| - pos
  {
    if b[pos] == 0 {
      assert DecodeAt(b, pos, 0) == Some([]);
      assert b[pos..pos + 1] == [0];
    } else {
      var next := pos + 1 + b[pos];
      LiteralBytes(b, next);
      var t := DecodeAt(b, next, 0).value;
      var l := b[pos + 1..next];
      assert DecodeAt(b, pos, 0) == Some([l] + t);
      hide DecodeAt;
      WireCons(l, t);
      assert b[pos..next + |Wire(t)|] == [b[pos]] + l + b[next..next + |Wire(t)|];
    }
  }

  lemma WireCons(l: Label, t: Name)
    requires ValidLabel(l) && ValidLabels(t)
    ensures ValidLabels([l] + t) && Wire([l] + t) == [|l|] + l + Wire(t)
  {
    assert ([l] + t)[1..] == t;
  }

  lemma {:induction false} WireDecodes(b: seq<byte>, pos: nat, n: Name, h: nat)
    requires ValidLabels(n) && pos + |Wire(n)| <= |b| && b[pos..pos + |Wire(n)|] == Wire(n)
    ensures DecodeAt(b, pos, h) == Some(n) && Extent(b, pos) == |Wire(n)|
  {
    var w := |WirePrefix(n)|;
    assert b[pos..pos + w] == b[pos..pos + |Wire(n)|][..w] == WirePrefix(n);
    assert b[pos + w] == b[pos..pos + |Wire(n)|][w] == 0;
    WirePrefixAt(b, pos, n);
    DecodeLiteral(b, pos, n, h);
    assert n + [] == n;
  }

  lemma LeadingWire(n: Name, x: seq<byte>)
    requires ValidName(n)
    ensures LeadingName(Wire(n) + x) == Some(n)
  {
    assert (Wire(n) + x)[0..|Wire(n)|] == Wire(n);
    WireDecodes(Wire(n) + x, 0, n, 0);
  }

  lemma LeadingBytes(d: seq<byte>)
    requires LeadingName(d).Some?
    ensures var w := Wire(LeadingName(d).value); |w| <= |d| && d[..|w|] == w
  {
    LiteralBytes(d, 0);
  }

  /** Flattening what was parsed gives the data back. */
  lemma {:induction false} ParseFlat(l: seq<Seg>, d: seq<byte>)
    requires Parse(l, d).Some?
    ensures Fits(l, Parse(l, d).value) && ValidParts(Parse(l, d).value) && Flat(Parse(l, d).value) == d
    decreases |l|
  {
    if l != [] {
      hide Head;
      hide PartFits;
      hide PartFlat;
      HeadFits(l[0], d);
      var p := Head(l[0], d).value;
      var w := |PartFlat(p)|;
      ParseFlat(l[1..], d[w..]);
      var t := Parse(l[1..], d[w..]).value;
      assert ([p] + t)[1..] == t;
      assert d == d[..w] + d[w..];
      FitsValid(l, [p] + t);
    }
  }

  /** Parsing what was flattened gives the parts back. */
  lemma {:induction false} FlatParse(l: seq<Seg>, ps: seq<Part>)
    requires Fits(l, ps)
    ensures ValidParts(ps) && Parse(l, Flat(ps)) == Some(ps)
    decreases |l|
  {
    FitsValid(l, ps);
    if l != [] {
      hide Head;
      hide PartFits;
      var p, t := ps[0], ps[1..];
      FlatParse(l[1..], t);
      HeadBack(l[0], p, Flat(t));
      assert (PartFlat(p) + Flat(t))[|PartFlat(p)|..] == Flat(t);
      assert [p] + t == ps;
    }
  }

  // ---- Equality up to the case of names

  predicate SamePart(p: Part, q: Part)
  {
    match p
    case Raw(b) => q == p
    case Dom(n) => q.Dom? && SameName(q.name, n)
  }

  predicate SameParts(ps: seq<Part>, qs: seq<Part>)
  {
    |ps| == |qs| && forall i :: 0 <= i < |ps| ==> SamePart(ps[i], qs[i])
  }

  /** Equal data, names up to case. */
  predicate SameData(tp: int, d: seq<byte>, d': seq<byte>)
  {
    var p, p' := Parse(WriteLayout(tp), d), Parse(WriteLayout(tp), d');
    p.Some? && p'.Some? && SameParts(p.value, p'.value)
  }

  // ---- What rrs2cent lets into the cache

  /** isnormalencdomname: an uncompressed name within the first 256 bytes. */
  predicate Normal(b: seq<byte>)
  {
    DecodeAt(if |b| > DNSNAMEBUFSIZE then b[..DNSNAMEBUFSIZE] else b, 0, 0).Some?
  }

  /** The checks on an IPSECKEY gateway. */
  predicate GatewayOk(d: seq<byte>)
  {
    && |d| >= 3
    && (d[1] == 1 ==> |d| >= 7)
    && (d[1] == 2 ==> |d| >= 19)
    && (d[1] == 3 ==> Normal(d[3..]))
    && d[1] <= 3
  }

  /** Data that the cache may hold for this type. */
  predicate ValidData(tp: int, d: seq<byte>)
  {
    && Parse(WriteLayout(tp), d).Some?
    && (tp == T_A ==> |d| == 4)
    && (tp == T_AAAA ==> |d| == 16)
    && (tp == T_NXT ==> |d| <= 1040)
    && (tp == T_IPSECKEY ==> GatewayOk(d))
    && (tp == T_RRSIG ==> |d| >= 18 && Normal(d[18..]))
    && (tp == T_NSEC ==> Normal(d))
  }

  lemma NormalIsName(n: Name, x: seq<byte>)
    requires ValidName(n)
    ensures Normal(Wire(n) + x)
  {
    var b := Wire(n) + x;
    var c := if |b| > DNSNAMEBUFSIZE then b[..DNSNAMEBUFSIZE] else b;
    assert c[0..|Wire(n)|] == Wire(n);
    WireDecodes(c, 0, n, 0);
  }
}
