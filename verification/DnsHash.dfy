/** The hash table of cache entries (hash.c): 1024 chains ordered by a second, 64-bit hash.
    It behaves as a finite map whose keys are names up to case. */
module DnsHash {
  import opened Powers
  import opened Memory
  import opened Names
  import opened CacheEntry
  import CacheState

  // ---- Comparing names (rhnicmp)

  /** Bytes that toupper maps to the same value, at every position. */
  predicate SameUpper(a: seq<byte>, b: seq<byte>)
  {
    |a| == |b| && forall i :: 0 <= i < |a| ==> Upper(a[i]) == Upper(b[i])
  }

  /** rhnicmp on two names in length-byte notation. */
  method RhnIcmp(a: seq<byte>, b: seq<byte>, ghost na: Name, ghost nb: Name) returns (same: bool)
    requires ValidLabels(na) && ValidLabels(nb) && a == Wire(na) && b == Wire(nb)
    ensures same <==> SameName(na, nb)
  {
    var i := 0;
    ghost var k := 0;
    while true
      invariant k <= |na| && k <= |nb| && i == Offset(na, k) == Offset(nb, k)
      invariant FoldName(na[..k]) == FoldName(nb[..k])
      decreases |na| - k
    {
      SplitHere(na, k);
      SplitHere(nb, k);
      var lb: int := a[i];
      if lb != b[i] {
        if k < |na| && k < |nb| { SameLabelPointwise(na[k], nb[k]); }
        DifferHere(na, nb, k);
        return false;
      }
      if lb == 0 {
        assert na == na[..k] && nb == nb[..k];
        return true;
      }
      i := i + 1;
      ghost var j := 0;
      while lb > 0
        invariant 0 <= lb <= |na[k]| == |nb[k]| && j == |na[k]| - lb && i == Offset(na, k) + 1 + j
        invariant forall x :: 0 <= x < j ==> Lower(na[k][x]) == Lower(nb[k][x])
      {
        if Lower(a[i]) != Lower(b[i]) {
          assert Lower(na[k][j]) != Lower(nb[k][j]);
          SameLabelPointwise(na[k], nb[k]);
          DifferHere(na, nb, k);
          return false;
        }
        i, lb, j := i + 1, lb - 1, j + 1;
      }
      SameLabelPointwise(na[k], nb[k]);
      SameSoFar(na, nb, k);
      k := k + 1;
    }
  }

  /** The bytes of label k, or the null byte at the end. */
  lemma SplitHere(n: Name, k: nat)
    requires ValidLabels(n) && k <= |n|
    ensures var o, w := Offset(n, k), Wire(n);
      && o < |w|
      && (k == |n| ==> w[o] == 0)
      && (k < |n| ==> o + 1 + |n[k]| < |w| && w[o] == |n[k]| && Offset(n, k + 1) == o + 1 + |n[k]|)
      && (k < |n| ==> forall x :: 0 <= x < |n[k]| ==> w[o + 1 + x] == n[k][x])
  {
    OffsetIsLength(n, k);
    assert n == n[..k] + n[k..];
    WirePrefixConcat(n[..k], n[k..]);
    if k < |n| {
      assert WirePrefix(n[k..]) == [|n[k]|] + n[k] + WirePrefix(n[k..][1..]);
    }
  }

  lemma DifferHere(a: Name, b: Name, k: nat)
    requires k <= |a| && k <= |b|
    requires (k == |a|) != (k == |b|) || (k < |a| && k < |b| && FoldLabel(a[k]) != FoldLabel(b[k]))
    ensures !SameName(a, b)
  {
    FoldNameIndex(a);
    FoldNameIndex(b);
  }

  lemma SameSoFar(a: Name, b: Name, k: nat)
    requires k < |a| && k < |b| && FoldName(a[..k]) == FoldName(b[..k]) && FoldLabel(a[k]) == FoldLabel(b[k])
    ensures FoldName(a[..k + 1]) == FoldName(b[..k + 1])
  {
    assert a[..k + 1] == a[..k] + [a[k]] && b[..k + 1] == b[..k] + [b[k]];
    FoldConcat(a[..k], [a[k]]);
    FoldConcat(b[..k], [b[k]]);
  }

  // ---- dns_hash

  const HASH_SZ := 10
  const HASH_NUM_BUCKETS := 1024
  const UINT := 0x1_0000_0000
  const ULONG := 0x1_0000_0000_0000_0000

  /** An upper-cased byte, shifted left. */
  function Shifted(b: byte, k: nat): nat { Upper(b) * Pow2(k) }

  /** Sum of the upper-cased bytes below n, byte i shifted by i modulo m. */
  function ShiftSum(w: seq<byte>, n: nat, m: nat): (s: nat)
    requires n <= |w| && m > 0
  {
    if n == 0 then 0 else ShiftSum(w, n - 1, m) + Shifted(w[n - 1], (n - 1) % m)
  }

  /** The bits above HASH_SZ are added in once. */
  function FoldBits(s: nat): (r: nat) { s % HASH_NUM_BUCKETS + s / HASH_NUM_BUCKETS }

  /** The bucket number and the long hash of a name. */
  function Bucket(n: Name): (b: nat)
    requires ValidLabels(n)
    ensures b < HASH_NUM_BUCKETS
  {
    FoldBits(FoldBits(ShiftSum(Wire(n), |Wire(n)| - 1, HASH_SZ - 5) % UINT)) % HASH_NUM_BUCKETS
  }

  function RHash(n: Name): (r: nat)
    requires ValidLabels(n)
  {
    ShiftSum(Wire(n), |Wire(n)| - 1, 8 * 8 - 7) % ULONG
  }

  lemma AddModUint(a: nat, b: nat)
    ensures (a % UINT + b) % UINT == (a + b) % UINT
  {}

  lemma AddModUlong(a: nat, b: nat)
    ensures (a % ULONG + b) % ULONG == (a + b) % ULONG
  {}

  /** One byte is hashed, with the additions of the unsigned types. */
  method HashByte(s: nat, r: nat, w: seq<byte>, i: nat) returns (s': nat, r': nat)
    requires i < |w| && s == ShiftSum(w, i, HASH_SZ - 5) % UINT && r == ShiftSum(w, i, 8 * 8 - 7) % ULONG
    ensures s' == ShiftSum(w, i + 1, HASH_SZ - 5) % UINT && r' == ShiftSum(w, i + 1, 8 * 8 - 7) % ULONG
  {
    hide Pow2;
    hide Upper;
    var a, b := Shifted(w[i], i % (HASH_SZ - 5)), Shifted(w[i], i % (8 * 8 - 7));
    hide Shifted;
    AddModUint(ShiftSum(w, i, HASH_SZ - 5), a);
    AddModUlong(ShiftSum(w, i, 8 * 8 - 7), b);
    s', r' := (s + a) % UINT, (r + b) % ULONG;
  }

  /** dns_hash. Length bytes are not letters, so toupper leaves them alone. */
  method Hash(w: seq<byte>, ghost n: Name) returns (s: nat, rhash: nat)
    requires ValidLabels(n) && w == Wire(n)
    ensures s == Bucket(n) && rhash == RHash(n)
  {
    hide ShiftSum;
    var i := 0;
    ghost var k := 0;
    s, rhash := HashStart(w);
    SplitHere(n, 0);
    while w[i] != 0
      invariant k <= |n| && i == Offset(n, k) < |w| && (w[i] == 0 <==> k == |n|)
      invariant s == ShiftSum(w, i, HASH_SZ - 5) % UINT && rhash == ShiftSum(w, i, 8 * 8 - 7) % ULONG
      decreases |n| - k
    {
      SplitHere(n, k);
      var lb: int := w[i];
      s, rhash := HashByte(s, rhash, w, i);
      i := i + 1;
      while lb > 0
        invariant 0 <= lb <= |n[k]| && i == Offset(n, k) + 1 + |n[k]| - lb < |w|
        invariant s == ShiftSum(w, i, HASH_SZ - 5) % UINT && rhash == ShiftSum(w, i, 8 * 8 - 7) % ULONG
      {
        s, rhash := HashByte(s, rhash, w, i);
        i, lb := i + 1, lb - 1;
      }
      k := k + 1;
      SplitHere(n, k);
    }
    OffsetIsLength(n, k);
    assert n[..k] == n;
    s := s % HASH_NUM_BUCKETS + s / HASH_NUM_BUCKETS;
    s := s % HASH_NUM_BUCKETS + s / HASH_NUM_BUCKETS;
    s := s % HASH_NUM_BUCKETS;
  }

  method HashStart(w: seq<byte>) returns (s: nat, r: nat)
    ensures s == ShiftSum(w, 0, HASH_SZ - 5) % UINT && r == ShiftSum(w, 0, 8 * 8 - 7) % ULONG
  {
    s, r := 0, 0;
  }

  // ---- Names that are equal up to case have equal hashes

  lemma {:induction false} SameNameSameUpper(a: Name, b: Name)
    requires ValidLabels(a) && ValidLabels(b) && SameName(a, b)
    ensures SameUpper(WirePrefix(a), WirePrefix(b))
  {
    FoldNameIndex(a);
    FoldNameIndex(b);
    if a != [] {
      assert FoldName(a)[1..] == FoldName(a[1..]) && FoldName(b)[1..] == FoldName(b[1..]);
      SameNameSameUpper(a[1..], b[1..]);
      assert FoldName(a)[0] == FoldName(b)[0];
      SameLabelPointwise(a[0], b[0]);
      SameUpperConcat([|a[0]|] + a[0], WirePrefix(a[1..]), [|b[0]|] + b[0], WirePrefix(b[1..]));
    }
  }

  lemma SameUpperConcat(a: seq<byte>, b: seq<byte>, c: seq<byte>, d: seq<byte>)
    requires SameUpper(a, c) && SameUpper(b, d)
    ensures SameUpper(a + b, c + d)
  {}

  lemma {:induction false} SameUpperSameSum(a: seq<byte>, b: seq<byte>, n: nat, m: nat)
    requires n <= |a| && n <= |b| && m > 0 && forall i :: 0 <= i < n ==> Upper(a[i]) == Upper(b[i])
    ensures ShiftSum(a, n, m) == ShiftSum(b, n, m)
  {
    if n > 0 { SameUpperSameSum(a, b, n - 1, m); }
  }

  /** Names that rhnicmp takes for equal are found in the same bucket under the same hash. */
  lemma SameNameSameHash(a: Name, b: Name)
    requires ValidLabels(a) && ValidLabels(b) && SameName(a, b)
    ensures Bucket(a) == Bucket(b) && RHash(a) == RHash(b)
  {
    SameNameSameUpper(a, b);
    var n := |WirePrefix(a)|;
    SameUpperSameSum(Wire(a), Wire(b), n, HASH_SZ - 5);
    SameUpperSameSum(Wire(a), Wire(b), n, 8 * 8 - 7);
    hide ShiftSum;
  }

  // ---- Chains

  datatype HashEnt = HashEnt(rhash: nat, data: Cent)

  type Chain = seq<HashEnt>

  function Key(e: HashEnt): Name { FoldName(e.data.qname) }

  /** Every entry belongs to this bucket and carries its long hash. */
  predicate Belongs(c: Chain, b: nat)
  {
    forall i :: 0 <= i < |c| ==>
      ValidLabels(c[i].data.qname) && Bucket(c[i].data.qname) == b && c[i].rhash == RHash(c[i].data.qname)
  }

  /** Ordered by long hash, at most one entry for each name. */
  predicate Ascending(c: Chain)
  {
    forall i, j :: 0 <= i < j < |c| ==> c[i].rhash <= c[j].rhash && Key(c[i]) != Key(c[j])
  }

  predicate ChainOk(c: Chain, b: nat) { Belongs(c, b) && Ascending(c) }

  /** The chain holds exactly the entries of the map t that fall into bucket b. */
  ghost predicate Holds(c: Chain, b: nat, t: CacheState.Table)
  {
    && (forall i :: 0 <= i < |c| ==> Key(c[i]) in t && t[Key(c[i])] == c[i].data)
    && (forall k :: k in t && InBucket(k, b) ==> exists i :: 0 <= i < |c| && Key(c[i]) == k)
  }

  ghost predicate InBucket(k: Name, b: nat) { ValidLabels(k) && Bucket(k) == b }

  /** Where dns_lookup stopped in the chain. */
  datatype Loc = Loc(bucket: nat, pos: nat, rhash: nat)

  /** A place where an entry with this long hash may be inserted. */
  predicate InsertPoint(c: Chain, pos: nat, rhash: nat)
  {
    && pos <= |c|
    && (forall i :: 0 <= i < pos ==> c[i].rhash <= rhash)
    && (forall i :: pos <= i < |c| ==> rhash < c[i].rhash)
  }

  /** The search through one chain. */
  method Scan(c: Chain, b: nat, name: Name, rh: nat) returns (found: bool, pos: nat)
    requires ChainOk(c, b) && ValidLabels(name) && rh == RHash(name) && b == Bucket(name)
    ensures found ==> pos < |c| && Key(c[pos]) == FoldName(name)
    ensures !found ==> InsertPoint(c, pos, rh) && forall i :: 0 <= i < |c| ==> Key(c[i]) != FoldName(name)
  {
    hide RHash;
    hide Bucket;
    hide FoldName;
    pos := 0;
    while pos < |c| && c[pos].rhash <= rh
      invariant pos <= |c|
      invariant forall i :: 0 <= i < pos ==> c[i].rhash <= rh && Key(c[i]) != FoldName(name)
    {
      if c[pos].rhash == rh {
        var same := RhnIcmp(Wire(name), Wire(c[pos].data.qname), name, c[pos].data.qname);
        if same { return true, pos; }
      } else {
        OtherHash(c[pos], b, name);
      }
      pos := pos + 1;
    }
    forall i | pos <= i < |c| ensures Key(c[i]) != FoldName(name) && rh < c[i].rhash {
      OtherHash(c[i], b, name);
    }
    found := false;
  }

  /** Different long hashes, different names. */
  lemma OtherHash(e: HashEnt, b: nat, name: Name)
    requires ValidLabels(e.data.qname) && e.rhash == RHash(e.data.qname) && ValidLabels(name) && e.rhash != RHash(name)
    ensures Key(e) != FoldName(name)
  {
    hide RHash;
    hide Bucket;
    if Key(e) == FoldName(name) { SameNameSameHash(e.data.qname, name); }
  }

  /** Folding a name changes neither its bucket nor its hash. */
  lemma FoldedHash(n: Name)
    requires ValidLabels(n)
    ensures ValidLabels(FoldName(n)) && SameName(n, FoldName(n)) && Bucket(FoldName(n)) == Bucket(n)
  {
    FoldTwice(n);
    FoldNameIndex(n);
    forall i | 0 <= i < |n| ensures |FoldName(n)[i]| == |n[i]| { FoldLabelIndex(n[i]); }
    SameNameSameHash(n, FoldName(n));
  }

  lemma {:induction false} FoldTwice(n: Name)
    ensures FoldName(FoldName(n)) == FoldName(n)
  {
    if n != [] {
      FoldTwice(n[1..]);
      FoldLabelTwice(n[0]);
      assert FoldName(n)[1..] == FoldName(n[1..]);
    }
  }

  lemma {:induction false} FoldLabelTwice(l: Label)
    ensures FoldLabel(FoldLabel(l)) == FoldLabel(l)
  {
    if l != [] {
      FoldLabelTwice(l[1..]);
      assert FoldLabel(l)[1..] == FoldLabel(l[1..]);
    }
  }

  // ---- Insertion and deletion in one chain

  function Inserted(c: Chain, pos: nat, e: HashEnt): (c': Chain)
    requires pos <= |c|
  {
    c[..pos] + [e] + c[pos..]
  }

  function Deleted(c: Chain, pos: nat): (c': Chain)
    requires pos < |c|
  {
    c[..pos] + c[pos + 1..]
  }

  lemma InsertedOk(c: Chain, b: nat, pos: nat, e: HashEnt)
    requires ChainOk(c, b) && InsertPoint(c, pos, e.rhash) && forall i :: 0 <= i < |c| ==> Key(c[i]) != Key(e)
    requires ValidLabels(e.data.qname) && Bucket(e.data.qname) == b && e.rhash == RHash(e.data.qname)
    ensures ChainOk(Inserted(c, pos, e), b)
  {
    hide RHash;
    hide Bucket;
    hide FoldName;
  }

  lemma DeletedOk(c: Chain, b: nat, pos: nat)
    requires ChainOk(c, b) && pos < |c|
    ensures ChainOk(Deleted(c, pos), b)
  {
    hide RHash;
    hide Bucket;
    hide FoldName;
  }

  lemma InsertedHolds(c: Chain, b: nat, pos: nat, e: HashEnt, t: CacheState.Table)
    requires Holds(c, b, t) && pos <= |c| && Key(e) !in t
    ensures Holds(Inserted(c, pos, e), b, t[Key(e) := e.data])
  {
    hide FoldName;
    hide InBucket;
    hide Key;
    var c', t' := Inserted(c, pos, e), t[Key(e) := e.data];
    forall i | 0 <= i < |c'| ensures Key(c'[i]) in t' && t'[Key(c'[i])] == c'[i].data {
      assert i != pos ==> c'[i] == c[if i < pos then i else i - 1];
    }
    forall k | k in t' && InBucket(k, b) ensures exists i :: 0 <= i < |c'| && Key(c'[i]) == k {
      if k == Key(e) {
        assert c'[pos] == e;
      } else {
        var i :| 0 <= i < |c| && Key(c[i]) == k;
        assert c'[if i < pos then i else i + 1] == c[i];
      }
    }
  }

  lemma DeletedHolds(c: Chain, b: nat, pos: nat, t: CacheState.Table)
    requires Holds(c, b, t) && Ascending(c) && pos < |c|
    ensures Holds(Deleted(c, pos), b, t - {Key(c[pos])})
  {
    hide FoldName;
    hide InBucket;
    hide Key;
    var c', t' := Deleted(c, pos), t - {Key(c[pos])};
    forall i | 0 <= i < |c'| ensures Key(c'[i]) in t' && t'[Key(c'[i])] == c'[i].data {
      assert c'[i] == c[if i < pos then i else i + 1];
    }
    forall k | k in t' && InBucket(k, b) ensures exists i :: 0 <= i < |c'| && Key(c'[i]) == k {
      var i :| 0 <= i < |c| && Key(c[i]) == k;
      assert c'[if i < pos then i else i - 1] == c[i];
    }
  }

  /** The other chains do not notice. */
  lemma OtherHolds(c: Chain, b: nat, t: CacheState.Table, k: Name, d: Cent)
    requires Holds(c, b, t) && Belongs(c, b) && ValidLabels(k) && Bucket(k) != b
    ensures Holds(c, b, t[k := d]) && Holds(c, b, t - {k})
  {
    forall i | 0 <= i < |c| ensures Key(c[i]) != k { FoldedHash(c[i].data.qname); }
    hide FoldName;
    hide Bucket;
    hide RHash;
    hide Key;
  }

  // ---- The table

  /** A position for fetch_next: the rest of the current chain. */
  datatype Pos = Pos(bucket: nat, rest: Chain)

  /** All entries of the chains from bucket b on, in order. */
  function Flat(bs: seq<Chain>, b: nat): (c: Chain)
    requires b <= |bs|
    decreases |bs| - b
  {
    if b == |bs| then [] else bs[b] + Flat(bs, b + 1)
  }

  /** What fetch_next will return from this position on. */
  function Remaining(bs: seq<Chain>, p: Pos): (c: Chain)
    requires p.bucket < |bs|
  {
    p.rest + Flat(bs, p.bucket + 1)
  }

  /** The first non-empty chain from bucket b on. */
  method NextChain(bs: seq<Chain>, b: nat) returns (r: Option<Cent>, p: Pos)
    requires b <= |bs|
    ensures r.None? ==> Flat(bs, b) == []
    ensures r.Some? ==> p.bucket < |bs| && Flat(bs, b) != []
    ensures r.Some? ==> Flat(bs, b)[0].data == r.value && Remaining(bs, p) == Flat(bs, b)[1..]
  {
    var i := b;
    p := Pos(0, []);
    while i < |bs|
      invariant b <= i <= |bs| && Flat(bs, b) == Flat(bs, i)
    {
      if bs[i] != [] {
        p := Pos(i, bs[i][1..]);
        assert Flat(bs, i)[1..] == bs[i][1..] + Flat(bs, i + 1);
        return Some(bs[i][0].data), p;
      }
      assert bs[i] + Flat(bs, i + 1) == Flat(bs, i + 1);
      i := i + 1;
    }
    r := None;
  }

  class HashTable {
    const buckets: array<Chain>
    ghost var view: CacheState.Table

    /** Every chain is in order, and together they hold the map `view`. */
    ghost predicate Valid()
      reads this, buckets
    {
      && buckets.Length == HASH_NUM_BUCKETS
      && (forall b :: 0 <= b < HASH_NUM_BUCKETS ==> ChainOk(buckets[b], b) && Holds(buckets[b], b, view))
      && (forall k :: k in view ==> ValidLabels(k))
    }

    /** mk_dns_hash */
    constructor ()
      ensures Valid() && view == map[] && fresh(buckets)
    {
      buckets := new Chain[HASH_NUM_BUCKETS](i => []);
      view := map[];
    }

    /** dns_lookup */
    method Lookup(name: Name) returns (r: Option<Cent>, loc: Loc)
      requires Valid() && ValidLabels(name)
      ensures r == if FoldName(name) in view then Some(view[FoldName(name)]) else None
      ensures loc.bucket == Bucket(name) && loc.rhash == RHash(name)
      ensures if r.Some?
        then loc.pos < |buckets[loc.bucket]| && Key(buckets[loc.bucket][loc.pos]) == FoldName(name)
        else InsertPoint(buckets[loc.bucket], loc.pos, loc.rhash)
    {
      FoldedHash(name);
      hide Bucket;
      hide RHash;
      hide FoldName;
      hide ChainOk;
      var idx, rh := Hash(Wire(name), name);
      var found, pos := Scan(buckets[idx], idx, name, rh);
      loc := Loc(idx, pos, rh);
      r := if found then Some(buckets[idx][pos].data) else None;
      assert InBucket(FoldName(name), idx);
    }

    /** add_dns_hash at the place that dns_lookup has returned; allocation may fail. */
    method Add(data: Cent, loc: Loc, enough: bool) returns (ok: bool)
      requires Valid() && ValidLabels(data.qname) && FoldName(data.qname) !in view
      requires loc.bucket == Bucket(data.qname) && loc.rhash == RHash(data.qname)
      requires InsertPoint(buckets[loc.bucket], loc.pos, loc.rhash)
      modifies this, buckets
      ensures enough ==> ok
      ensures Valid() && view == if ok then old(view)[FoldName(data.qname) := data] else old(view)
    {
      ok := Allocate(enough);
      if !ok { return; }
      var he := HashEnt(loc.rhash, data);
      var c := buckets[loc.bucket];
      FoldedHash(data.qname);
      InsertedOk(c, loc.bucket, loc.pos, he);
      InsertedHolds(c, loc.bucket, loc.pos, he, view);
      hide Bucket;
      hide RHash;
      hide FoldName;
      hide ChainOk;
      hide Holds;
      forall b | 0 <= b < HASH_NUM_BUCKETS && b != loc.bucket
        ensures Holds(buckets[b], b, view[FoldName(data.qname) := data])
      {
        OkBelongs(buckets[b], b);
        OtherHolds(buckets[b], b, view, FoldName(data.qname), data);
      }
      buckets[loc.bucket] := Inserted(c, loc.pos, he);
      view := view[FoldName(data.qname) := data];
    }

    /** del_dns_hash_ent */
    method DelAt(loc: Loc) returns (data: Cent)
      requires Valid() && loc.bucket < HASH_NUM_BUCKETS && loc.pos < |buckets[loc.bucket]|
      modifies this, buckets
      ensures Valid() && FoldName(data.qname) in old(view) && data == old(view)[FoldName(data.qname)]
      ensures view == old(view) - {FoldName(data.qname)}
      ensures FoldName(data.qname) == Key(old(buckets[loc.bucket])[loc.pos])
      ensures buckets[loc.bucket] == Deleted(old(buckets[loc.bucket]), loc.pos)
      ensures forall b :: 0 <= b < HASH_NUM_BUCKETS && b != loc.bucket ==> buckets[b] == old(buckets[b])
    {
      var c := buckets[loc.bucket];
      data := c[loc.pos].data;
      DeletedOk(c, loc.bucket, loc.pos);
      DeletedHolds(c, loc.bucket, loc.pos, view);
      FoldedHash(data.qname);
      hide Bucket;
      hide RHash;
      hide FoldName;
      forall b | 0 <= b < HASH_NUM_BUCKETS && b != loc.bucket
        ensures Holds(buckets[b], b, view - {FoldName(data.qname)})
      {
        OkBelongs(buckets[b], b);
        hide Holds;
        OtherHolds(buckets[b], b, view, FoldName(data.qname), data);
      }
      buckets[loc.bucket] := Deleted(c, loc.pos);
      view := view - {FoldName(data.qname)};
    }

    /** del_dns_hash */
    method Del(name: Name) returns (r: Option<Cent>)
      requires Valid() && ValidLabels(name)
      modifies this, buckets
      ensures Valid() && view == old(view) - {FoldName(name)}
      ensures r == if FoldName(name) in old(view) then Some(old(view)[FoldName(name)]) else None
    {
      hide Bucket;
      hide RHash;
      hide FoldName;
      hide ChainOk;
      hide Holds;
      var found, loc := Lookup(name);
      if found.Some? {
        var data := DelAt(loc);
        r := Some(data);
      } else {
        assert view - {FoldName(name)} == view;
        r := None;
      }
    }

    /** fetch_first */
    method FetchFirst() returns (r: Option<Cent>, p: Pos)
      ensures r.None? ==> Flat(buckets[..], 0) == []
      ensures r.Some? ==> p.bucket < buckets.Length && Flat(buckets[..], 0) != []
      ensures r.Some? ==> Flat(buckets[..], 0)[0].data == r.value && Remaining(buckets[..], p) == Flat(buckets[..], 0)[1..]
    {
      r, p := NextChain(buckets[..], 0);
    }

    /** fetch_next */
    method FetchNext(p: Pos) returns (r: Option<Cent>, p': Pos)
      requires p.bucket < buckets.Length
      ensures r.None? ==> Remaining(buckets[..], p) == []
      ensures r.Some? ==> p'.bucket < buckets.Length && Remaining(buckets[..], p) != []
      ensures r.Some? ==>
        Remaining(buckets[..], p)[0].data == r.value && Remaining(buckets[..], p') == Remaining(buckets[..], p)[1..]
    {
      if p.rest != [] {
        p' := p.(rest := p.rest[1..]);
        assert Remaining(buckets[..], p)[1..] == Remaining(buckets[..], p');
        return Some(p.rest[0].data), p';
      }
      assert Remaining(buckets[..], p) == Flat(buckets[..], p.bucket + 1);
      r, p' := NextChain(buckets[..], p.bucket + 1);
    }

    /** A walk with fetch_first and fetch_next meets every entry exactly once. */
    method Walk() returns (all: seq<Cent>)
      requires Valid()
      ensures forall i, j :: 0 <= i < j < |all| ==> FoldName(all[i].qname) != FoldName(all[j].qname)
      ensures forall i :: 0 <= i < |all| ==> FoldName(all[i].qname) in view && view[FoldName(all[i].qname)] == all[i]
      ensures forall k :: k in view ==> exists i :: 0 <= i < |all| && FoldName(all[i].qname) == k
    {
      hide Flat;
      hide Remaining;
      hide Bucket;
      hide RHash;
      hide ChainOk;
      hide Holds;
      hide FoldName;
      ghost var flat := Flat(buckets[..], 0);
      FlatIsView(buckets[..], view);
      var r, p := FetchFirst();
      all := [];
      while r.Some?
        invariant r.Some? ==> |all| < |flat| && r.value == flat[|all|].data && p.bucket < buckets.Length
        invariant r.Some? ==> Remaining(buckets[..], p) == flat[|all| + 1..]
        invariant r.None? ==> |all| == |flat|
        invariant |all| <= |flat| && forall i :: 0 <= i < |all| ==> all[i] == flat[i].data
        decreases |flat| - |all|, r.Some?
      {
        all := all + [r.value];
        r, p := FetchNext(p);
      }
      forall k | k in view ensures exists i :: 0 <= i < |all| && FoldName(all[i].qname) == k {
        var i :| 0 <= i < |flat| && Key(flat[i]) == k;
        assert FoldName(all[i].qname) == k;
      }
    }
  }

  lemma OkBelongs(c: Chain, b: nat)
    requires ChainOk(c, b)
    ensures Belongs(c, b) && Ascending(c)
  {}

  /** The chains in sequence hold every entry of the map exactly once. */
  lemma FlatIsView(bs: seq<Chain>, t: CacheState.Table)
    requires |bs| == HASH_NUM_BUCKETS && forall k :: k in t ==> ValidLabels(k)
    requires forall b :: 0 <= b < |bs| ==> ChainOk(bs[b], b) && Holds(bs[b], b, t)
    ensures var f := Flat(bs, 0);
      && DistinctKeys(f)
      && (forall i :: 0 <= i < |f| ==> Key(f[i]) in t && t[Key(f[i])] == f[i].data)
      && (forall k :: k in t ==> exists i :: 0 <= i < |f| && Key(f[i]) == k)
  {
    hide Bucket;
    hide Key;
    hide Flat;
    hide ChainOk;
    var f := Flat(bs, 0);
    FlatDistinct(bs, 0);
    forall i | 0 <= i < |f| ensures Key(f[i]) in t && t[Key(f[i])] == f[i].data {
      var b, j := FlatSource(bs, 0, i);
    }
    forall k | k in t ensures exists i :: 0 <= i < |f| && Key(f[i]) == k {
      var b := Bucket(k);
      assert InBucket(k, b);
      var j :| 0 <= j < |bs[b]| && Key(bs[b][j]) == k;
      var i := FlatTarget(bs, 0, b, j);
    }
  }

  lemma {:induction false} FlatSource(bs: seq<Chain>, b: nat, i: nat) returns (x: nat, j: nat)
    requires b <= |bs| && i < |Flat(bs, b)|
    ensures b <= x < |bs| && j < |bs[x]| && bs[x][j] == Flat(bs, b)[i]
    decreases |bs| - b
  {
    if i < |bs[b]| {
      x, j := b, i;
    } else {
      x, j := FlatSource(bs, b + 1, i - |bs[b]|);
    }
  }

  lemma {:induction false} FlatTarget(bs: seq<Chain>, b: nat, x: nat, j: nat) returns (i: nat)
    requires b <= x < |bs| && j < |bs[x]|
    ensures i < |Flat(bs, b)| && Flat(bs, b)[i] == bs[x][j]
    decreases |bs| - b
  {
    if x == b {
      i := j;
    } else {
      i := FlatTarget(bs, b + 1, x, j);
      i := i + |bs[b]|;
    }
  }

  predicate DistinctKeys(c: Chain)
  {
    forall i, j :: 0 <= i < j < |c| ==> Key(c[i]) != Key(c[j])
  }

  lemma DistinctConcat(c: Chain, d: Chain)
    requires DistinctKeys(c) && DistinctKeys(d)
    requires forall i, j :: 0 <= i < |c| && 0 <= j < |d| ==> Key(c[i]) != Key(d[j])
    ensures DistinctKeys(c + d)
  {
    hide FoldName;
    forall i, j | 0 <= i < j < |c + d| ensures Key((c + d)[i]) != Key((c + d)[j]) {
      if i >= |c| { assert (c + d)[i] == d[i - |c|] && (c + d)[j] == d[j - |c|]; }
    }
  }

  lemma {:induction false} FlatDistinct(bs: seq<Chain>, b: nat)
    requires b <= |bs| && forall x :: 0 <= x < |bs| ==> ChainOk(bs[x], x)
    ensures DistinctKeys(Flat(bs, b))
    decreases |bs| - b
  {
    hide FoldName;
    hide Bucket;
    hide RHash;
    if b < |bs| {
      FlatDistinct(bs, b + 1);
      var g := Flat(bs, b + 1);
      forall i, j | 0 <= i < |bs[b]| && 0 <= j < |g| ensures Key(bs[b][i]) != Key(g[j]) {
        var x, y := FlatSource(bs, b + 1, j);
        OtherBucket(bs[b][i], bs[x][y]);
      }
      DistinctConcat(bs[b], g);
    }
  }

  lemma OtherBucket(e: HashEnt, d: HashEnt)
    requires ValidLabels(e.data.qname) && ValidLabels(d.data.qname) && Bucket(e.data.qname) != Bucket(d.data.qname)
    ensures Key(e) != Key(d)
  {
    hide Bucket;
    if Key(e) == Key(d) { SameNameSameHash(e.data.qname, d.data.qname); }
  }

  /** An entry that was fetched may be deleted: what is left to fetch stays the same. */
  lemma DeleteFetched(bs: seq<Chain>, p: Pos, b: nat, d: nat)
    requires p.bucket < |bs| && b <= p.bucket && d < |bs[b]|
    requires |p.rest| <= |bs[p.bucket]| && p.rest == bs[p.bucket][|bs[p.bucket]| - |p.rest|..]
    requires b == p.bucket ==> d < |bs[b]| - |p.rest|
    ensures var bs' := bs[b := Deleted(bs[b], d)];
      && Remaining(bs', p) == Remaining(bs, p)
      && |p.rest| <= |bs'[p.bucket]| && p.rest == bs'[p.bucket][|bs'[p.bucket]| - |p.rest|..]
  {
    FlatSame(bs, bs[b := Deleted(bs[b], d)], p.bucket + 1);
  }

  lemma {:induction false} FlatSame(bs: seq<Chain>, bs': seq<Chain>, b: nat)
    requires b <= |bs| == |bs'| && forall x :: b <= x < |bs| ==> bs[x] == bs'[x]
    ensures Flat(bs, b) == Flat(bs', b)
    decreases |bs| - b
  {
    if b < |bs| { FlatSame(bs, bs', b + 1); }
  }
}
