/** The answer under construction (dns_answer.c) as an object. Memory may run out at any point
    (ok is false); the answer is thrown away then. */
module AnswerMessage {
  import opened DnsConstants
  import opened Memory
  import opened Names
  import opened NameCodec
  import opened NameCompression
  import opened CompressionRoundTrip
  import opened RecordData
  import opened RecordCodec
  import opened RecordRoundTrip
  import opened RRTypes
  import opened AnswerRun
  import opened AnswerPlan

  const ALLOCCHUNKSIZE := 0x80

  /** The space to allocate for newsz bytes: a multiple of the chunk size. */
  function RoundUp(newsz: nat): (n: nat)
    ensures newsz <= n < newsz + ALLOCCHUNKSIZE && n % ALLOCCHUNKSIZE == 0
  {
    (newsz + (ALLOCCHUNKSIZE - 1)) / ALLOCCHUNKSIZE * ALLOCCHUNKSIZE
  }

  /** A 16-bit counter in the header. */
  function Bump(n: nat, counts: bool): nat { if counts then (n + 1) % 0x1_0000 else n }

  /** The list agrees with the message, whatever the header says. */
  ghost predicate Good(body: seq<byte>, cb: Table)
  {
    forall hdr: seq<byte> :: |hdr| == DNS_HDR ==> Consistent(hdr + body, cb)
  }

  class Answer {
    const udp: Option<nat>
    const enough: bool           // memory never runs out
    var body: seq<byte>          // what follows the header
    var cb: Table
    var allocsz: nat
    var qdcount: nat
    var ancount: nat
    var nscount: nat
    var arcount: nat

    /** Size of the message. */
    function Size(): nat
      reads this
    {
      DNS_HDR + |body|
    }

    /** The buffer is large enough, and the compression list agrees with it. */
    ghost predicate Valid()
      reads this
    {
      ValidTable(cb) && Good(body, cb) && LENGTH_PREFIX + Size() <= allocsz
    }

    constructor (udp: Option<nat>, enough: bool)
      ensures Valid() && body == [] && cb == [] && this.udp == udp && this.enough == enough
      ensures qdcount == 0 && ancount == 0 && nscount == 0 && arcount == 0
    {
      this.udp, this.enough := udp, enough;
      body, cb, allocsz, qdcount, ancount, nscount, arcount := [], [], 256, 0, 0, 0, 0;
      new;
      forall hdr: seq<byte> | |hdr| == DNS_HDR ensures Consistent(hdr + body, cb) { EmptyTableConsistent(hdr + body); }
    }

    /** Makes room for n more bytes; a buffer that is too small becomes the least multiple of
        the chunk size that holds them. */
    method Reserve(n: nat) returns (ok: bool)
      requires LENGTH_PREFIX + Size() <= allocsz
      modifies this`allocsz
      ensures enough ==> ok
      ensures ok ==> LENGTH_PREFIX + Size() + n <= allocsz
      ensures allocsz != old(allocsz) ==>
        ok && allocsz > old(allocsz) && allocsz % ALLOCCHUNKSIZE == 0 && allocsz < LENGTH_PREFIX + Size() + n + ALLOCCHUNKSIZE
      ensures LENGTH_PREFIX + Size() + n <= old(allocsz) ==> ok && allocsz == old(allocsz)
    {
      var newsz := LENGTH_PREFIX + Size() + n;
      ok := true;
      if newsz > allocsz {
        ok := Allocate(enough);
        if ok { allocsz := RoundUp(newsz); }
      }
    }

    /** Copies bytes to the end of the message; they have to fit into the buffer. */
    method Append(b: seq<byte>)
      requires LENGTH_PREFIX + Size() + |b| <= allocsz
      modifies this`body
      ensures body == old(body) + b
    {
      body := body + b;
    }

    /** compress_name straight into the buffer. */
    method AppendName(n: Name) returns (ok: bool, len: nat)
      requires ValidTable(cb) && ValidName(n) && LENGTH_PREFIX + Size() + |Wire(n)| <= allocsz
      modifies this`body, this`cb
      ensures enough ==> ok
      ensures ok ==> body == old(body) + Emitted(old(cb), n) && cb == Grown(old(cb), n, old(Size()))
      ensures ok ==> len == |Emitted(old(cb), n)| <= |Wire(n)|
    {
      hide Emitted;
      hide Grown;
      hide WirePrefix;
      var out, cb';
      ok, out, cb' := CompressName(n, Size(), cb, enough);
      len := 0;
      if !ok { return; }
      Append(out);
      cb := cb';
      len := |out|;
    }

    /** The switch of add_rr: the record data, part by part. */
    method AppendData(ps: seq<Part>) returns (ok: bool, rdlen: nat)
      requires ValidTable(cb) && ValidParts(ps) && LENGTH_PREFIX + Size() + |Flat(ps)| <= allocsz
      modifies this`body, this`cb
      ensures enough ==> ok
      ensures ok ==> body == old(body) + PartsBytes(old(cb), old(Size()), ps)
      ensures ok ==> cb == PartsTable(old(cb), old(Size()), ps)
      ensures ok ==> rdlen == |PartsBytes(old(cb), old(Size()), ps)| && LENGTH_PREFIX + Size() <= allocsz
    {
      hide Emitted;
      hide Grown;
      hide WirePrefix;
      hide PartsBytes;
      hide PartsTable;
      hide Flat;
      rdlen := 0;
      ghost var all := PartsBytes(cb, Size(), ps);
      var i := 0;
      assert ps[0..] == ps;
      while i < |ps|
        invariant i <= |ps| && ValidTable(cb) && |body| == |old(body)| + rdlen
        invariant LENGTH_PREFIX + Size() + |Flat(ps[i..])| <= allocsz
        invariant old(body) + all == body + PartsBytes(cb, Size(), ps[i..])
        invariant PartsTable(old(cb), old(Size()), ps) == PartsTable(cb, Size(), ps[i..])
      {
        ghost var b0, s0 := body, PartBytes(cb, ps[i]);
        PartsStep(cb, Size(), ps[i..]);
        assert ps[i..][1..] == ps[i + 1..];
        match ps[i] {
          case Raw(b) =>
            Append(b);
            rdlen := rdlen + |b|;
          case Dom(n) =>
            var blen;
            ok, blen := AppendName(n);
            if !ok { return; }
            rdlen := rdlen + blen;
        }
        assert body == b0 + s0;
        assert b0 + (s0 + PartsBytes(cb, Size(), ps[i + 1..])) == body + PartsBytes(cb, Size(), ps[i + 1..]);
        i := i + 1;
      }
      PartsEnd(cb, Size(), ps[i..]);
      assert body + [] == body;
      ok := true;
    }

    /** The owner name and space for the fixed fields; there will be room for the data. */
    method AppendOwner(owner: Name, dlen: nat) returns (ok: bool, rrht: nat)
      requires ValidTable(cb) && ValidName(owner) && LENGTH_PREFIX + Size() <= allocsz
      modifies this`body, this`cb, this`allocsz
      ensures enough ==> ok
      ensures ok ==> LENGTH_PREFIX + Size() + dlen <= allocsz
      ensures ok ==> rrht == |old(body)| + |Emitted(old(cb), owner)|
      ensures ok ==> body == old(body) + Emitted(old(cb), owner) + Blank() && cb == Grown(old(cb), owner, old(Size()))
    {
      hide Emitted;
      hide Grown;
      hide WirePrefix;
      hide Blank;
      var nbuf, cb';
      ok, nbuf, cb' := CompressName(owner, Size(), cb, enough);
      rrht := 0;
      if !ok { return; }
      cb := cb';
      ok := Reserve(|nbuf| + HDR + dlen);
      if !ok { return; }
      Append(nbuf);
      rrht := |body|;
      Append(Blank());
    }

    /** The owner name, space for the fixed fields, and the data of a record. */
    method AppendRecord(r: Record) returns (ok: bool, rrht: nat, rdlen: nat)
      requires ValidTable(cb) && ValidRecord(r) && LENGTH_PREFIX + Size() <= allocsz
      modifies this`body, this`cb, this`allocsz
      ensures enough ==> ok
      ensures ok ==> LENGTH_PREFIX + Size() <= allocsz && cb == RecordTable(old(cb), old(Size()), r)
      ensures ok ==> rrht == |old(body)| + |Emitted(old(cb), r.owner)| && rdlen == |DataBytes(old(cb), old(Size()), r)|
      ensures ok ==> body == old(body) + Emitted(old(cb), r.owner) + Blank() + DataBytes(old(cb), old(Size()), r)
    {
      hide Emitted;
      hide Grown;
      hide PartsBytes;
      hide PartsTable;
      hide ValidTable;
      hide ValidData;
      hide ValidParts;
      hide Parts;
      hide Flat;
      hide DataBytes;
      hide RecordTable;
      hide Blank;
      OwnerAndData(r);
      DataAfterOwner(cb, Size(), r);
      rdlen := 0;
      ok, rrht := AppendOwner(r.owner, |r.data|);
      if ok { ok, rdlen := AppendData(Parts(r)); }
    }

    /** One more record in this section. */
    method Count(sect: Section)
      modifies this`ancount, this`nscount, this`arcount
      ensures ancount == Bump(old(ancount), sect.S_ANSWER?)
      ensures nscount == Bump(old(nscount), sect.S_AUTHORITY?)
      ensures arcount == Bump(old(arcount), sect.S_ADDITIONAL?)
    {
      match sect {
        case S_ANSWER => ancount := (ancount + 1) % 0x1_0000;
        case S_AUTHORITY => nscount := (nscount + 1) % 0x1_0000;
        case S_ADDITIONAL => arcount := (arcount + 1) % 0x1_0000;
      }
    }

    /** The end of add_rr: the record is taken back, or its fixed fields are filled in. */
    method Finish(kept: bool, osz: nat, rrht: nat, h: seq<byte>, ghost base: seq<byte>, ghost e: seq<byte>, ghost d: seq<byte>)
      requires body == base + e + Blank() + d && osz == |base| && rrht == |base| + |e| && |h| == HDR
      modifies this`body
      ensures body == base + if kept then e + h + d else []
    {
      Patched(base, e, Blank(), d, h);
      assert base + [] == base;
      hide Blank;
      body := if kept then body[..rrht] + h + body[rrht + HDR..] else body[..osz];
    }

    /** The bytes of a record, unless it is an additional record and too much. */
    method WriteRr(sect: Section, r: Record) returns (ok: bool, kept: bool)
      requires ValidTable(cb) && ValidRecord(r) && LENGTH_PREFIX + Size() <= allocsz
      modifies this`body, this`cb, this`allocsz
      ensures enough ==> ok
      ensures ok ==> LENGTH_PREFIX + Size() <= allocsz && cb == RecordTable(old(cb), old(Size()), r)
      ensures ok ==> var e, d := Emitted(old(cb), r.owner), DataBytes(old(cb), old(Size()), r);
        && kept == !(udp.Some? && old(Size()) + |e| + HDR + |d| > udp.value && sect.S_ADDITIONAL?)
        && body == old(body) + if kept then e + RecordHeader(r.tp, r.ttl, |d|) + d else []
    {
      hide Emitted;
      hide DataBytes;
      hide RecordTable;
      hide RecordHeader;
      hide ValidTable;
      hide ValidData;
      hide ValidName;
      hide Blank;
      ghost var e, d := Emitted(cb, r.owner), DataBytes(cb, Size(), r);
      var osz := |body|;
      var rrht, rdlen;
      kept := false;
      ok, rrht, rdlen := AppendRecord(r);
      if !ok { return; }
      kept := !(udp.Some? && Size() > udp.value && sect.S_ADDITIONAL?);
      Finish(kept, osz, rrht, RecordHeader(r.tp, r.ttl, rdlen), old(body), e, d);
    }

    /** add_rr */
    method AddRr(sect: Section, r: Record) returns (ok: bool)
      requires Valid() && ValidRecord(r) && StepOk(cb, Size(), Rr(sect, r))
      modifies this
      ensures enough ==> ok
      ensures ok ==> Valid()
      ensures ok ==> body == old(body) + OutBytes(old(cb), old(Size()), Rr(sect, r), udp)
      ensures ok ==> cb == StepTable(old(cb), old(Size()), Rr(sect, r)) && qdcount == old(qdcount)
      ensures ok ==> var kept := !TakenBack(old(cb), old(Size()), Rr(sect, r), udp);
        && ancount == Bump(old(ancount), kept && sect.S_ANSWER?)
        && nscount == Bump(old(nscount), kept && sect.S_AUTHORITY?)
        && arcount == Bump(old(arcount), kept && sect.S_ADDITIONAL?)
    {
      hide Good;
      hide StepOk;
      hide StepTable;
      hide OutBytes;
      hide TakenBack;
      hide Emitted;
      hide DataBytes;
      hide RecordTable;
      hide RecordHeader;
      hide ValidTable;
      RecordPieces(cb, Size(), sect, r, udp);
      GoodStep(body, cb, Rr(sect, r), udp);
      var kept;
      ok, kept := WriteRr(sect, r);
      if ok && kept { Count(sect); }
    }

    /** add_opt_pseudo_rr */
    method AddOpt(udpsize: int, rcode: nat, version: nat, zflags: int) returns (ok: bool)
      requires Valid() && 0 <= udpsize < 0x1_0000
      modifies this
      ensures enough ==> ok
      ensures Valid() && cb == old(cb) && ancount == old(ancount) && nscount == old(nscount)
      ensures if ok then body == old(body) + OptBytes(udpsize, rcode, version, zflags) && arcount == Bump(old(arcount), true)
        else body == old(body) && arcount == old(arcount)
    {
      GoodStep(body, cb, Opt(udpsize, rcode, version, zflags), udp);
      hide Good;
      hide OptBytes;
      ok := Reserve(OPT_SIZE);
      if !ok { return; }
      Append(OptBytes(udpsize, rcode, version, zflags));
      Count(S_ADDITIONAL);
    }

    /** remove_opt_pseudo_rr: the last thing in the message, if it is an OPT record. */
    method RemoveOpt() returns (ok: bool)
      requires Valid()
      modifies this`body, this`arcount
      ensures ok <==> (old(arcount) > 0 && EndsWithOpt(old(body)))
      ensures ok ==> body == old(body)[..|old(body)| - OPT_SIZE] && arcount == old(arcount) - 1
      ensures !ok ==> body == old(body) && arcount == old(arcount)
    {
      ok := false;
      if !(arcount > 0 && Size() >= DNS_HDR + OPT_SIZE) { return; }
      var sz := |body| - OPT_SIZE;
      if body[sz] != 0 || Get16(body, sz + 1) != T_OPT { return; }
      arcount := arcount - 1;
      body := body[..sz];
      ok := true;
    }

    // ---- compose_answer

    /** Since the question section (log.body0), the steps of the log have been taken. */
    ghost predicate Follows(log: Log)
      reads this
    {
      Logged(log, udp, body, cb) && Counted(log, udp, ancount, nscount, arcount)
    }

    /** add_rr, with the step logged. */
    method AddLogged(sect: Section, r: Record, ghost log: Log) returns (ok: bool, ghost log': Log)
      requires Valid() && Follows(log) && ValidRecord(r) && StepOk(cb, Size(), Rr(sect, r))
      modifies this
      ensures enough ==> ok
      ensures log' == log.(steps := log.steps + [Rr(sect, r)])
      ensures ok ==> Valid() && Follows(log') && old(cb) <= cb && old(Size()) <= Size()
      ensures ok && sect != S_ADDITIONAL && NamesServer(r.tp) ==> Known(cb, Size(), Server(r))
      ensures ok && udp.Some? && old(Size()) <= udp.value && sect == S_ADDITIONAL ==> Size() <= udp.value
    {
      hide Good;
      hide ValidTable;
      hide ValidRecord;
      hide StepOk;
      hide Known;
      hide OutBytes;
      hide StepTable;
      hide RunBytes;
      hide RunTable;
      hide RunOk;
      hide Server;
      hide TakenBack;
      hide Logged;
      hide Counted;
      hide Bump;
      var s := Rr(sect, r);
      LogStep(log, s, udp, body, cb);
      StepCounts(log, s, udp, body, cb, ancount, nscount, arcount);
      AddedStep(cb, Size(), sect, r, udp);
      ok := AddRr(sect, r);
      log' := log.(steps := log.steps + [s]);
    }

    /** The search of add_additional_rr. */
    method FindAlike(sva: seq<Record>, r: Record) returns (listed: bool)
      ensures listed == Listed(sva, r)
    {
      for i := 0 to |sva|
        invariant forall j :: 0 <= j < i ==> !Alike(sva[j], r)
      {
        if Alike(sva[i], r) { return true; }
      }
      listed := false;
    }

    /** add_additional_rr: nothing happens if the record was added before; otherwise it is added
        and marked. */
    method AddOnce(sect: Section, r: Record, sva: seq<Record>, ghost log: Log)
      returns (ok: bool, sva': seq<Record>, ghost log': Log)
      requires Valid() && Follows(log) && ValidRecord(r) && StepOk(cb, Size(), Rr(sect, r)) && SvaOk(cb, Size(), sva)
      modifies this
      ensures enough ==> ok
      ensures ok && Listed(sva, r) ==> sva' == sva && log' == log && body == old(body) && cb == old(cb)
      ensures ok && !Listed(sva, r) ==> sva' == sva + [r] && log' == log.(steps := log.steps + [Rr(sect, r)])
      ensures ok ==> Valid() && Follows(log') && SvaOk(cb, Size(), sva') && old(cb) <= cb && old(Size()) <= Size()
      ensures ok && sect != S_ADDITIONAL && NamesServer(r.tp) ==> Known(cb, Size(), Server(r))
      ensures ok && udp.Some? && old(Size()) <= udp.value && sect == S_ADDITIONAL ==> Size() <= udp.value
    {
      assert sect == S_ADDITIONAL ==> !NamesServer(r.tp);
      hide Logged;
      hide Counted;
      hide Good;
      hide ValidTable;
      hide ValidRecord;
      hide StepOk;
      hide RunBytes;
      hide RunTable;
      hide RunOk;
      hide Known;
      hide Server;
      hide SvaOk;
      hide NamesServer;
      hide Listed;
      var listed := FindAlike(sva, r);
      if listed {
        KnownBefore(cb, Size(), sva, r);
        return true, sva, log;
      }
      ok, log' := AddLogged(sect, r, log);
      sva' := sva + [r];
      if ok { SvaGrows(old(cb), cb, old(Size()), Size(), sva, sect, r); }
    }

    /** The part of add_rrset for one record: it goes into the answer section; a name server or
        address is marked as added; the server it names is noted. */
    method AddAnswer(r: Record, sva: seq<Record>, ar: seq<Ext>, ghost log: Log)
      returns (ok: bool, sva': seq<Record>, ar': seq<Ext>, ghost log': Log)
      requires Valid() && Follows(log) && ValidRecord(r) && SvaOk(cb, Size(), sva) && ArOk(cb, Size(), ar, 0)
      modifies this
      ensures enough ==> ok
      ensures ok ==> log' == log.(steps := log.steps + [Rr(S_ANSWER, r)])
      ensures ok ==> sva' == sva + if r.tp == T_NS || IsAddress(r.tp) then [r] else []
      ensures ok ==> ar' == ar + if NamesServer(r.tp) then [ExtAdd(Server(r))] else []
      ensures ok ==> Valid() && Follows(log') && SvaOk(cb, Size(), sva') && ArOk(cb, Size(), ar', 0)
    {
      assert StepOk(cb, Size(), Rr(S_ANSWER, r));
      hide Logged;
      hide Counted;
      hide Good;
      hide ValidTable;
      hide StepOk;
      hide RunBytes;
      hide RunTable;
      hide RunOk;
      hide Known;
      hide Server;
      hide SvaOk;
      hide ArOk;
      hide ValidRecord;
      hide IsAddress;
      hide NamesServer;
      sva', ar' := sva, ar;
      ok, log' := AddLogged(S_ANSWER, r, log);
      if !ok { return; }
      ArGrows(old(cb), cb, old(Size()), Size(), ar, 0);
      AnswerSva(old(cb), cb, old(Size()), Size(), sva, r);
      if NamesServer(r.tp) { ArServer(cb, Size(), ar, Server(r)); }
      assert sva + [] == sva && ar + [] == ar;
      if r.tp == T_NS || IsAddress(r.tp) {
        ok := Allocate(enough);
        sva' := sva + [r];
      }
      if ok && NamesServer(r.tp) {
        ok := Allocate(enough);
        ar' := ar + [ExtAdd(Server(r))];
      }
    }

    /** add_additional_a: the cached addresses of a server that are not in the message yet. */
    method AddAddresses(server: Name, addrs: seq<Record>, sva: seq<Record>, ghost log: Log)
      returns (ok: bool, sva': seq<Record>, ghost log': Log)
      requires Valid() && Follows(log) && SvaOk(cb, Size(), sva) && Known(cb, Size(), server)
      requires forall i :: 0 <= i < |addrs| ==> AddressOf(server, addrs[i])
      modifies this
      ensures enough ==> ok
      ensures ok ==> sva' == sva + NewOnes(sva, addrs)
      ensures ok ==> log' == log.(steps := log.steps + InSect(S_ADDITIONAL, NewOnes(sva, addrs)))
      ensures ok ==> Valid() && Follows(log') && SvaOk(cb, Size(), sva') && old(cb) <= cb && old(Size()) <= Size()
      ensures ok && udp.Some? && old(Size()) <= udp.value ==> Size() <= udp.value
    {
      hide Logged;
      hide Counted;
      hide Good;
      hide ValidTable;
      hide ValidRecord;
      hide RunBytes;
      hide RunTable;
      hide RunOk;
      hide Known;
      hide SvaOk;
      hide Listed;
      hide NewOnes;
      sva', log', ok := sva, log, true;
      NewOnesStart(S_ADDITIONAL, sva, addrs, log.steps);
      for i := 0 to |addrs|
        invariant sva' == sva + NewOnes(sva, addrs[..i])
        invariant log' == log.(steps := log.steps + InSect(S_ADDITIONAL, NewOnes(sva, addrs[..i])))
        invariant Valid() && Follows(log') && SvaOk(cb, Size(), sva')
        invariant Known(cb, Size(), server) && old(cb) <= cb && old(Size()) <= Size()
        invariant udp.Some? && old(Size()) <= udp.value ==> Size() <= udp.value
      {
        ghost var cb1, sz1 := cb, Size();
        NewOnesNext(S_ADDITIONAL, sva, addrs, i, log.steps);
        ok, sva', log' := AddOnce(S_ADDITIONAL, addrs[i], sva', log');
        if !ok { return; }
        KnownGrows(cb1, cb, sz1, Size(), server);
      }
    }

    /** The authority section: the NS and SOA records on the list that are not in the message
        yet. */
    method AddAuthority(ar: seq<Ext>, sva: seq<Record>, ghost log: Log)
      returns (ok: bool, sva': seq<Record>, ghost log': Log)
      requires Valid() && Follows(log) && SvaOk(cb, Size(), sva) && ArOk(cb, Size(), ar, 0)
      modifies this
      ensures enough ==> ok
      ensures ok ==> sva' == sva + NewOnes(sva, AuthorityRecords(ar))
      ensures ok ==> log' == log.(steps := log.steps + InSect(S_AUTHORITY, NewOnes(sva, AuthorityRecords(ar))))
      ensures ok ==> Valid() && Follows(log') && SvaOk(cb, Size(), sva') && ArOk(cb, Size(), ar, |ar|)
    {
      hide Logged;
      hide Counted;
      hide Good;
      hide ValidTable;
      hide ValidRecord;
      hide RunBytes;
      hide RunTable;
      hide RunOk;
      hide Known;
      hide SvaOk;
      hide Server;
      hide Listed;
      hide NewOnes;
      hide AuthorityRecords;
      sva', log', ok := sva, log, true;
      AuthorityStart(ar, sva, log.steps);
      for i := 0 to |ar|
        invariant sva' == sva + NewOnes(sva, AuthorityRecords(ar[..i]))
        invariant log' == log.(steps := log.steps + InSect(S_AUTHORITY, NewOnes(sva, AuthorityRecords(ar[..i]))))
        invariant Valid() && Follows(log') && SvaOk(cb, Size(), sva') && ArOk(cb, Size(), ar, i)
      {
        ghost var cb1, sz1 := cb, Size();
        AuthorityNext(ar, i, sva, log.steps);
        if InAuthority(ar[i]) {
          ok, sva', log' := AddOnce(S_AUTHORITY, ar[i].r, sva', log');
          if !ok { return; }
          ArGrows(cb1, cb, sz1, Size(), ar, i);
        }
      }
    }

    /** The addresses of all servers on the list, without repeats. */
    method AddServers(ar: seq<Ext>, addr: Name -> seq<Record>, sva: seq<Record>, ghost log: Log)
      returns (ok: bool, ghost log': Log)
      requires Valid() && Follows(log) && SvaOk(cb, Size(), sva) && ArOk(cb, Size(), ar, |ar|)
      requires AddressBook(addr) && ValidExts(ar)
      modifies this
      ensures enough ==> ok
      ensures ok ==> log' == log.(steps := log.steps + InSect(S_ADDITIONAL, NewOnes(sva, Addresses(ar, addr))))
      ensures ok ==> Valid() && Follows(log') && old(Size()) <= Size()
      ensures ok && udp.Some? && old(Size()) <= udp.value ==> Size() <= udp.value
    {
      hide Logged;
      hide Counted;
      hide Good;
      hide ValidTable;
      hide ValidRecord;
      hide RunBytes;
      hide RunTable;
      hide RunOk;
      hide Known;
      hide SvaOk;
      hide Server;
      hide AddressOf;
      hide Listed;
      hide NewOnes;
      hide Addresses;
      log', ok := log, true;
      var sva' := sva;
      ServersStart(ar, addr, sva, log.steps);
      for i := 0 to |ar|
        invariant sva' == sva + NewOnes(sva, Addresses(ar[..i], addr))
        invariant log' == log.(steps := log.steps + InSect(S_ADDITIONAL, NewOnes(sva, Addresses(ar[..i], addr))))
        invariant Valid() && Follows(log')
        invariant SvaOk(cb, Size(), sva') && ArOk(cb, Size(), ar, |ar|) && old(Size()) <= Size()
        invariant udp.Some? && old(Size()) <= udp.value ==> Size() <= udp.value
      {
        ghost var cb1, sz1 := cb, Size();
        var server := ServerOf(ar[i]);
        ServersNext(ar, i, addr, sva, log.steps);
        if server.Some? {
          ok, sva', log' := AddAddresses(server.value, addr(server.value), sva', log');
          if !ok { return; }
          ArGrows(cb1, cb, sz1, Size(), ar, |ar|);
        }
      }
    }

    /** add_opt_pseudo_rr, with the step logged. */
    method AddOptLogged(udpsize: int, rcode: nat, ghost log: Log) returns (ok: bool, ghost log': Log)
      requires Valid() && Follows(log) && 0 <= udpsize < 0x1_0000
      modifies this
      ensures enough ==> ok
      ensures ok ==> Valid() && Follows(log') && log' == log.(steps := log.steps + [Opt(udpsize, rcode, 0, 0)])
      ensures ok ==> cb == old(cb) && Size() == old(Size()) + OPT_SIZE
    {
      ghost var s := Opt(udpsize, rcode, 0, 0);
      OptPieces(cb, Size(), s, udp);
      hide Logged;
      hide Counted;
      hide Good;
      hide ValidTable;
      hide OptBytes;
      hide OutBytes;
      hide StepTable;
      hide StepOk;
      hide TakenBack;
      hide Bump;
      LogStep(log, s, udp, body, cb);
      StepCounts(log, s, udp, body, cb, ancount, nscount, arcount);
      ok := AddOpt(udpsize, rcode, 0, 0);
      log' := log.(steps := log.steps + [s]);
    }

    /** One entry of the question section. */
    method AddQuestion(name: Name, qtype: int, qclass: int) returns (ok: bool)
      requires Valid() && ValidName(name)
      modifies this
      ensures enough ==> ok
      ensures ancount == old(ancount) && nscount == old(nscount) && arcount == old(arcount)
      ensures ok ==> Valid() && qdcount == Bump(old(qdcount), true)
      ensures ok ==> body == old(body) + Emitted(old(cb), name) + (Put16(qtype) + Put16(qclass))
      ensures ok ==> cb == Grown(old(cb), name, old(Size()))
    {
      GoodStep(body, cb, Question(name, qtype, qclass), udp);
      QuestionPieces(cb, Size(), name, qtype, qclass, udp, body);
      hide Good;
      hide ValidTable;
      hide Emitted;
      hide Grown;
      hide OutBytes;
      hide StepTable;
      hide Put16;
      hide WirePrefix;
      ok := Reserve(|Wire(name)| + 4);
      if !ok { return; }
      var len;
      ok, len := AppendName(name);
      if !ok { return; }
      Append(Put16(qtype) + Put16(qclass));
      qdcount := (qdcount + 1) % 0x1_0000;
    }

    /** The sections of compose_answer, after the question section: `found` lists in order the
        records for the answer section and those remembered for the authority section, up to
        the end of the look-ups; addr looks up the addresses of a server in the cache. Exactly
        the records of the plan are added, section by section, and the header counts what was
        not taken back for lack of space. That is exactly what a reader finds in the finished
        message, in order, if and only if RDLENGTH can hold the size of the data of each record.
        The message is within the UDP limit if and only if its first two sections are, and an
        OPT record after a name error does not exceed it. */
    method Compose(found: seq<Found>, ending: Ending, addr: Name -> seq<Record>, edns: Option<nat>, rcode: nat)
      returns (ok: bool, ghost log: Log)
      requires Valid() && AddressBook(addr) && ancount == nscount == arcount == 0 && ValidFound(found) && ValidEnding(ending)
      requires edns.Some? ==> edns.value < 0x1_0000
      modifies this
      ensures enough ==> ok
      ensures ValidSteps(FirstSections(found, ending))
      ensures var first := Since(old(body), old(cb), FirstSections(found, ending), udp);
        && (ok ==> log == Log(old(body), old(cb),
              Plan(found, ending, addr, edns, rcode, udp.None? || first + OPT_SIZE <= udp.value)))
        && (ok && udp.Some? ==> (Size() <= udp.value <==>
              first <= udp.value && (ending.NameError? && edns.Some? ==> first + OPT_SIZE <= udp.value)))
      ensures ok ==> Valid() && Follows(log) && (ReadsBack(log, udp, body) <==> AllFit(KeptOf(log, udp)))
    {
      PlanValid(found, ending);
      hide Logged;
      hide Counted;
      hide Good;
      hide ValidTable;
      hide ValidRecord;
      hide SvaOk;
      hide ArOk;
      hide AnswerRecords;
      hide AuthorityRecords;
      hide Marked;
      hide Wanted;
      hide NewOnes;
      hide RunBytes;
      hide AllFit;
      hide KeptOf;
      ghost var body0, cb0 := body, cb;
      ghost var first := Since(body, cb, FirstSections(found, ending), udp);
      PlanEnds(found, ending, addr, edns, rcode, udp.None? || first + OPT_SIZE <= udp.value);
      hide Plan;
      var sva, ar;
      ok, sva, ar, log := AddFound(found);
      if !ok { return; }
      match ending {
        case AllFound =>
          ok, sva, log := AddAuthority(ar, sva, log);
          if !ok { return; }
          assert log == Log(body0, cb0, FirstSections(found, ending));
          SizeSince(log, udp, body, cb);
          // The additional section, but only if we stay within the UDP buffer limit.
          ok, log := AddAdditional(ar, addr, edns, rcode, sva, log);
        case NameError(soa) =>
          ok, log := AddSoa(soa, log);
          if !ok { return; }
          assert log == Log(body0, cb0, FirstSections(found, ending));
          SizeSince(log, udp, body, cb);
          if edns.Some? { ok, log := AddOptLogged(edns.value, rcode, log); } else { assert log.steps + [] == log.steps; }
        case OtherError =>
          assert InSect(S_ANSWER, AnswerRecords(found)) + [] == InSect(S_ANSWER, AnswerRecords(found));
          SizeSince(log, udp, body, cb);
          assert log.steps + [] == log.steps;
      }
      if ok { LogReads(log, body0, cb0, udp, body, cb); }
    }

    /** The SOA records of a domain in which a name does not exist; they are not marked. */
    method AddSoa(soa: seq<Record>, ghost log: Log) returns (ok: bool, ghost log': Log)
      requires Valid() && Follows(log) && forall i :: 0 <= i < |soa| ==> ValidRecord(soa[i])
      modifies this
      ensures enough ==> ok
      ensures ok ==> log' == log.(steps := log.steps + InSect(S_AUTHORITY, soa)) && Valid() && Follows(log')
    {
      hide Logged;
      hide Counted;
      hide Good;
      hide ValidTable;
      hide ValidRecord;
      hide Known;
      hide Server;
      ok, log' := true, log;
      assert soa[..0] == [] && soa[..|soa|] == soa && log.steps + [] == log.steps;
      for i := 0 to |soa|
        invariant ok && Valid() && Follows(log') && log' == log.(steps := log.steps + InSect(S_AUTHORITY, soa[..i]))
      {
        SoaStep(soa, i, log.steps);
        ok, log' := AddLogged(S_AUTHORITY, soa[i], log');
        if !ok { return; }
      }
    }

    /** The answer section, and the lists for the other ones. */
    method AddFound(found: seq<Found>) returns (ok: bool, sva: seq<Record>, ar: seq<Ext>, ghost log: Log)
      requires Valid() && ancount == nscount == arcount == 0 && ValidFound(found)
      modifies this
      ensures enough ==> ok
      ensures ok ==> log == Log(old(body), old(cb), InSect(S_ANSWER, AnswerRecords(found)))
      ensures ok ==> sva == Marked(found) && ar == Wanted(found)
      ensures ok ==> Valid() && Follows(log) && SvaOk(cb, Size(), sva) && ArOk(cb, Size(), ar, 0)
    {
      StartLog(body, cb, udp);
      hide Logged;
      hide Counted;
      hide Good;
      hide ValidTable;
      hide ValidRecord;
      hide SvaOk;
      hide ArOk;
      hide AnswerRecords;
      hide Marked;
      hide Wanted;
      hide Server;
      log := Log(body, cb, []);
      sva, ar, ok := [], [], true;
      FoundStart(found);
      for i := 0 to |found|
        invariant log == Log(old(body), old(cb), InSect(S_ANSWER, AnswerRecords(found[..i])))
        invariant ValidFound(found[..i]) && sva == Marked(found[..i]) && ar == Wanted(found[..i])
        invariant Valid() && Follows(log) && SvaOk(cb, Size(), sva) && ArOk(cb, Size(), ar, 0)
      {
        FoundNext(found, i);
        match found[i] {
          case InAnswer(r) =>
            ok, sva, ar, log := AddAnswer(r, sva, ar, log);
            if !ok { return; }
          case ForAuthority(r) =>
            ok := Allocate(enough);
            if !ok { return; }
            ArSnoc(cb, Size(), ar, r);
            ar := ar + [ExtAuth(r)];
        }
      }
    }

    /** The additional section: a message that was within the limit stays within it. */
    method AddAdditional(ar: seq<Ext>, addr: Name -> seq<Record>, edns: Option<nat>, rcode: nat, sva: seq<Record>,
                         ghost log: Log) returns (ok: bool, ghost log': Log)
      requires Valid() && Follows(log) && SvaOk(cb, Size(), sva) && ArOk(cb, Size(), ar, |ar|)
      requires AddressBook(addr) && ValidExts(ar) && (edns.Some? ==> edns.value < 0x1_0000)
      modifies this
      ensures enough ==> ok
      ensures ok ==> log' == log.(steps := log.steps +
        if udp.None? || old(Size()) + OPT_SIZE <= udp.value
        then OptStep(edns, rcode) + InSect(S_ADDITIONAL, NewOnes(sva, Addresses(ar, addr))) else [])
      ensures ok ==> Valid() && Follows(log') && old(Size()) <= Size()
      ensures ok && udp.Some? && old(Size()) <= udp.value ==> Size() <= udp.value
    {
      hide Logged;
      hide Counted;
      hide Good;
      hide ValidTable;
      hide SvaOk;
      hide ArOk;
      hide NewOnes;
      hide Addresses;
      log', ok := log, true;
      // If a pseudo record does not fit, nothing else will.
      if !(udp.Some? && Size() + OPT_SIZE > udp.value) {
        if edns.Some? {
          ok, log' := AddOptLogged(edns.value, rcode, log');
          if !ok { return; }
          SvaLater(cb, old(Size()), Size(), sva);
          ArGrows(cb, cb, old(Size()), Size(), ar, |ar|);
        }
        assert log'.steps == log.steps + OptStep(edns, rcode);
        ok, log' := AddServers(ar, addr, sva, log');
      }
    }
  }

  // ---- Building the plan

  /** Size of the message after these steps. */
  function Since(body0: seq<byte>, cb0: Table, steps: seq<Step>, udp: Option<nat>): (n: nat)
    requires ValidTable(cb0) && ValidSteps(steps)
  {
    DNS_HDR + |body0| + |RunBytes(cb0, DNS_HDR + |body0|, steps, udp)|
  }

  lemma SizeSince(log: Log, udp: Option<nat>, body: seq<byte>, cb: Table)
    requires Logged(log, udp, body, cb)
    ensures ValidTable(log.cb0) && ValidSteps(log.steps) && DNS_HDR + |body| == Since(log.body0, log.cb0, log.steps, udp)
  {}

  lemma SoaStep(soa: seq<Record>, i: nat, steps: seq<Step>)
    requires i < |soa|
    ensures steps + InSect(S_AUTHORITY, soa[..i + 1]) == steps + InSect(S_AUTHORITY, soa[..i]) + [Rr(S_AUTHORITY, soa[i])]
  {
    assert soa[..i + 1] == soa[..i] + [soa[i]];
    InSectConcat(S_AUTHORITY, soa[..i], [soa[i]]);
  }

  lemma PlanValid(found: seq<Found>, ending: Ending)
    requires ValidFound(found) && ValidEnding(ending)
    ensures ValidSteps(FirstSections(found, ending)) && ValidExts(Wanted(found))
  {
    AnswerValid(found);
    forall i | 0 <= i < |ForAuthoritySection(found)| ensures ValidRecord(ForAuthoritySection(found)[i]) {
      NewOnesNew(Marked(found), AuthorityRecords(Wanted(found)), i);
      AuthorityValid(Wanted(found));
    }
    hide ValidRecord;
    hide ForAuthoritySection;
    hide AnswerRecords;
  }

  lemma {:induction false} AnswerValid(found: seq<Found>)
    requires ValidFound(found)
    ensures forall r <- AnswerRecords(found) :: ValidRecord(r)
  {
    hide ValidRecord;
    if found != [] { AnswerValid(found[..|found| - 1]); }
  }

  lemma {:induction false} AuthorityValid(ar: seq<Ext>)
    requires ValidExts(ar)
    ensures forall r <- AuthorityRecords(ar) :: ValidRecord(r)
  {
    hide ValidRecord;
    if ar != [] { AuthorityValid(ar[..|ar| - 1]); }
  }

  lemma FoundStart(found: seq<Found>)
    ensures InSect(S_ANSWER, AnswerRecords(found[..0])) == [] && Marked(found[..0]) == [] && Wanted(found[..0]) == []
    ensures found[..|found|] == found
  {}

  lemma FoundNext(found: seq<Found>, i: nat)
    requires i < |found| && ValidFound(found)
    ensures ValidFound(found[..i]) && ValidFound(found[..i + 1]) && ValidRecord(found[i].r)
    ensures var r := found[i].r;
      if found[i].InAnswer? then
        && InSect(S_ANSWER, AnswerRecords(found[..i + 1])) == InSect(S_ANSWER, AnswerRecords(found[..i])) + [Rr(S_ANSWER, r)]
        && Marked(found[..i + 1]) == Marked(found[..i]) + (if r.tp == T_NS || IsAddress(r.tp) then [r] else [])
        && Wanted(found[..i + 1]) == Wanted(found[..i]) + if NamesServer(r.tp) then [ExtAdd(Server(r))] else []
      else
        && InSect(S_ANSWER, AnswerRecords(found[..i + 1])) == InSect(S_ANSWER, AnswerRecords(found[..i]))
        && Marked(found[..i + 1]) == Marked(found[..i]) && Wanted(found[..i + 1]) == Wanted(found[..i]) + [ExtAuth(r)]
  {
    var a, b := found[..i], found[..i + 1];
    assert b[..i] == a && b[i] == found[i] && |b| == i + 1;
    assert ValidFound(a) && ValidFound(b);
    LastFound(b);
    hide *;
    InSectConcat(S_ANSWER, AnswerRecords(a), [found[i].r]);
    assert InSect(S_ANSWER, [found[i].r]) == [Rr(S_ANSWER, found[i].r)];
  }

  lemma LastFound(found: seq<Found>)
    requires found != [] && ValidFound(found)
    ensures var init, f := found[..|found| - 1], found[|found| - 1];
      && ValidFound(init) && ValidRecord(f.r)
      && AnswerRecords(found) == (if f.InAnswer? then AnswerRecords(init) + [f.r] else AnswerRecords(init))
      && Marked(found) == Marked(init) + (if f.InAnswer? && (f.r.tp == T_NS || IsAddress(f.r.tp)) then [f.r] else [])
      && Marked(init) + [] == Marked(init)
      && Wanted(found) == Wanted(init) +
           (if f.ForAuthority? then [ExtAuth(f.r)] else if NamesServer(f.r.tp) then [ExtAdd(Server(f.r))] else [])
  {
    hide ValidRecord;
    hide Server;
    hide NamesServer;
    hide IsAddress;
  }

  lemma NewOnesStart(sect: Section, sva: seq<Record>, rs: seq<Record>, steps: seq<Step>)
    ensures sva + NewOnes(sva, rs[..0]) == sva && steps + InSect(sect, NewOnes(sva, rs[..0])) == steps
    ensures rs[..|rs|] == rs
  {}

  lemma NewOnesNext(sect: Section, sva: seq<Record>, rs: seq<Record>, i: nat, steps: seq<Step>)
    requires i < |rs|
    ensures var n, n' := NewOnes(sva, rs[..i]), NewOnes(sva, rs[..i + 1]);
      if Listed(sva + n, rs[i]) then n' == n
      else sva + n' == sva + n + [rs[i]] && steps + InSect(sect, n') == steps + InSect(sect, n) + [Rr(sect, rs[i])]
  {
    assert rs[..i + 1] == rs[..i] + [rs[i]];
    NewOnesSnoc(sva, rs[..i], rs[i]);
    InSectConcat(sect, NewOnes(sva, rs[..i]), [rs[i]]);
    hide NewOnes;
    hide Listed;
  }

  lemma AuthorityStart(ar: seq<Ext>, sva: seq<Record>, steps: seq<Step>)
    ensures sva + NewOnes(sva, AuthorityRecords(ar[..0])) == sva
    ensures steps + InSect(S_AUTHORITY, NewOnes(sva, AuthorityRecords(ar[..0]))) == steps
    ensures ar[..|ar|] == ar
  {}

  lemma AuthorityNext(ar: seq<Ext>, i: nat, sva: seq<Record>, steps: seq<Step>)
    requires i < |ar|
    ensures var n, n' := NewOnes(sva, AuthorityRecords(ar[..i])), NewOnes(sva, AuthorityRecords(ar[..i + 1]));
      if !InAuthority(ar[i]) || Listed(sva + n, ar[i].r) then n' == n
      else sva + n' == sva + n + [ar[i].r] && steps + InSect(S_AUTHORITY, n') == steps + InSect(S_AUTHORITY, n) + [Rr(S_AUTHORITY, ar[i].r)]
  {
    assert ar[..i + 1][..i] == ar[..i];
    var rs := AuthorityRecords(ar[..i]);
    if InAuthority(ar[i]) {
      NewOnesNext(S_AUTHORITY, sva, rs + [ar[i].r], |rs|, steps);
      assert (rs + [ar[i].r])[..|rs|] == rs && (rs + [ar[i].r])[..|rs| + 1] == rs + [ar[i].r];
    } else {
      assert rs + [] == rs;
    }
    hide NewOnes;
    hide Listed;
  }

  lemma ServersStart(ar: seq<Ext>, addr: Name -> seq<Record>, sva: seq<Record>, steps: seq<Step>)
    requires ValidExts(ar)
    ensures sva + NewOnes(sva, Addresses(ar[..0], addr)) == sva
    ensures steps + InSect(S_ADDITIONAL, NewOnes(sva, Addresses(ar[..0], addr))) == steps
    ensures ar[..|ar|] == ar
  {}

  lemma ServersNext(ar: seq<Ext>, i: nat, addr: Name -> seq<Record>, sva: seq<Record>, steps: seq<Step>)
    requires i < |ar| && ValidExts(ar)
    ensures ValidExts(ar[..i]) && ValidExts(ar[..i + 1]) && (ar[i].ExtAuth? ==> ValidRecord(ar[i].r))
    ensures var n, n', s := NewOnes(sva, Addresses(ar[..i], addr)), NewOnes(sva, Addresses(ar[..i + 1], addr)), ServerOf(ar[i]);
      if s.None? then n' == n
      else var m := NewOnes(sva + n, addr(s.value));
        sva + n' == sva + n + m && steps + InSect(S_ADDITIONAL, n') == steps + InSect(S_ADDITIONAL, n) + InSect(S_ADDITIONAL, m)
  {
    AddressesStep(ar, i, addr);
    hide *;
    var rs, s := Addresses(ar[..i], addr), ServerOf(ar[i]);
    var more := if s.Some? then addr(s.value) else [];
    NewOnesConcat(sva, rs, more);
    if s.None? {
      assert rs + [] == rs;
    } else {
      var n, m := NewOnes(sva, rs), NewOnes(sva + NewOnes(sva, rs), more);
      InSectConcat(S_ADDITIONAL, n, m);
      Joined(sva, n, m);
      Joined(steps, InSect(S_ADDITIONAL, n), InSect(S_ADDITIONAL, m));
    }
  }

  lemma Joined<T>(a: seq<T>, b: seq<T>, c: seq<T>)
    ensures a + (b + c) == a + b + c
  {}

  lemma AddressesStep(ar: seq<Ext>, i: nat, addr: Name -> seq<Record>)
    requires i < |ar| && ValidExts(ar)
    ensures ValidExts(ar[..i]) && ValidExts(ar[..i + 1]) && (ar[i].ExtAuth? ==> ValidRecord(ar[i].r))
    ensures var s := ServerOf(ar[i]);
      Addresses(ar[..i + 1], addr) == Addresses(ar[..i], addr) + if s.Some? then addr(s.value) else []
  {
    assert ar[..i + 1][..i] == ar[..i] && ar[..i + 1][i] == ar[i];
    hide ValidRecord;
    hide ServerOf;
  }

  /** Servers of records that were marked as added are known. */
  predicate SvaOk(cb: Table, offs: nat, sva: seq<Record>)
    requires ValidTable(cb)
  {
    forall i :: 0 <= i < |sva| ==> ValidRecord(sva[i]) && (NamesServer(sva[i].tp) ==> Known(cb, offs, Server(sva[i])))
  }

  /** Servers on the list are known, once the first k elements are in the authority section. */
  predicate ArOk(cb: Table, offs: nat, ar: seq<Ext>, k: nat)
    requires ValidTable(cb)
  {
    forall i :: 0 <= i < |ar| ==>
      match ar[i]
      case ExtAdd(n) => Known(cb, offs, n)
      case ExtAuth(r) => ValidRecord(r) && (i < k && r.tp == T_NS ==> Known(cb, offs, Server(r)))
  }

  lemma KnownBefore(cb: Table, offs: nat, sva: seq<Record>, r: Record)
    requires ValidTable(cb) && SvaOk(cb, offs, sva) && ValidRecord(r) && Listed(sva, r)
    ensures NamesServer(r.tp) ==> Known(cb, offs, Server(r))
  {
    var i :| 0 <= i < |sva| && Alike(sva[i], r);
    hide Known;
  }

  lemma SvaGrows(cb: Table, cb': Table, offs: nat, offs': nat, sva: seq<Record>, sect: Section, r: Record)
    requires ValidTable(cb) && ValidTable(cb') && cb <= cb' && offs <= offs' && SvaOk(cb, offs, sva) && ValidRecord(r)
    requires sect != S_ADDITIONAL && NamesServer(r.tp) ==> Known(cb', offs', Server(r))
    requires sect == S_ADDITIONAL ==> !NamesServer(r.tp)
    ensures SvaOk(cb', offs', sva + [r]) && SvaOk(cb', offs', sva)
  {
    hide Known;
    hide Server;
    hide ValidTable;
    forall i | 0 <= i < |sva| ensures ValidRecord(sva[i]) && (NamesServer(sva[i].tp) ==> Known(cb', offs', Server(sva[i]))) {
      if NamesServer(sva[i].tp) { KnownGrows(cb, cb', offs, offs', Server(sva[i])); }
    }
  }

  lemma AnswerSva(cb: Table, cb': Table, offs: nat, offs': nat, sva: seq<Record>, r: Record)
    requires ValidTable(cb) && ValidTable(cb') && cb <= cb' && offs <= offs' && SvaOk(cb, offs, sva) && ValidRecord(r)
    requires NamesServer(r.tp) ==> Known(cb', offs', Server(r))
    ensures SvaOk(cb', offs', sva + [r]) && SvaOk(cb', offs', sva)
  {
    SvaGrows(cb, cb', offs, offs', sva, S_ANSWER, r);
  }

  lemma ArGrows(cb: Table, cb': Table, offs: nat, offs': nat, ar: seq<Ext>, k: nat)
    requires ValidTable(cb) && ValidTable(cb') && cb <= cb' && offs <= offs' && ArOk(cb, offs, ar, k)
    ensures ArOk(cb', offs', ar, k)
  {
    hide Known;
    hide Server;
    hide ValidTable;
    hide ValidRecord;
    forall i | 0 <= i < |ar|
      ensures match ar[i]
        case ExtAdd(n) => Known(cb', offs', n)
        case ExtAuth(r) => ValidRecord(r) && (i < k && r.tp == T_NS ==> Known(cb', offs', Server(r)))
    {
      match ar[i]
      case ExtAdd(n) => KnownGrows(cb, cb', offs, offs', n);
      case ExtAuth(r) => if i < k && r.tp == T_NS { KnownGrows(cb, cb', offs, offs', Server(r)); }
    }
  }

  /** What was not taken back. */
  function KeptOf(log: Log, udp: Option<nat>): (ks: seq<Step>)
    requires ValidTable(log.cb0) && ValidSteps(log.steps)
  {
    Kept(log.cb0, DNS_HDR + |log.body0|, log.steps, udp)
  }

  /** Under this header, a reader finds exactly what was kept. */
  predicate ReadsUnder(hdr: seq<byte>, log: Log, udp: Option<nat>, body: seq<byte>)
    requires ValidTable(log.cb0) && ValidSteps(log.steps) && |hdr| == DNS_HDR
  {
    var start, ks := DNS_HDR + |log.body0|, KeptOf(log, udp);
    start <= |hdr + body| &&
    var items := ReadItems(hdr + body, start, |ks|);
    items.Some? && SameItems(ks, items.value)
  }

  /** A reader finds exactly the records that were kept, whatever the header holds. */
  ghost predicate ReadsBack(log: Log, udp: Option<nat>, body: seq<byte>)
    requires ValidTable(log.cb0) && ValidSteps(log.steps)
  {
    forall hdr: seq<byte> :: |hdr| == DNS_HDR ==> ReadsUnder(hdr, log, udp, body)
  }

  lemma LogReads(log: Log, body0: seq<byte>, cb0: Table, udp: Option<nat>, body: seq<byte>, cb: Table)
    requires Logged(log, udp, body, cb) && log.body0 == body0 && log.cb0 == cb0 && Good(body0, cb0)
    ensures ValidTable(log.cb0) && ValidSteps(log.steps)
    ensures ReadsBack(log, udp, body) <==> AllFit(KeptOf(log, udp))
  {
    hide ReadsUnder;
    hide KeptOf;
    hide AllFit;
    hide ValidStep;
    hide ValidTable;
    hide Logged;
    hide Good;
    LoggedTable(log, udp, body, cb);
    var zeros := seq<byte>(DNS_HDR, i => 0);
    LogReadsUnder(zeros, log, udp, body, cb);
    forall hdr: seq<byte> | |hdr| == DNS_HDR ensures ReadsUnder(hdr, log, udp, body) <==> AllFit(KeptOf(log, udp)) {
      LogReadsUnder(hdr, log, udp, body, cb);
    }
  }

  lemma LoggedTable(log: Log, udp: Option<nat>, body: seq<byte>, cb: Table)
    requires Logged(log, udp, body, cb)
    ensures ValidTable(log.cb0) && ValidSteps(log.steps) && |log.body0| <= |body|
  {}

  lemma LogReadsUnder(hdr: seq<byte>, log: Log, udp: Option<nat>, body: seq<byte>, cb: Table)
    requires Logged(log, udp, body, cb) && Good(log.body0, log.cb0) && |hdr| == DNS_HDR
    ensures ValidTable(log.cb0) && ValidSteps(log.steps)
    ensures ReadsUnder(hdr, log, udp, body) <==> AllFit(KeptOf(log, udp))
  {
    hide Consistent;
    hide RunBytes;
    hide RunTable;
    hide RunOk;
    hide Kept;
    hide ReadItems;
    hide SameItems;
    hide AllFit;
    hide ValidStep;
    hide ValidTable;
    AnswerReads(hdr + log.body0, log.cb0, log.steps, udp);
    assert hdr + log.body0 + RunBytes(log.cb0, DNS_HDR + |log.body0|, log.steps, udp) == hdr + body;
  }

  lemma StartLog(body: seq<byte>, cb: Table, udp: Option<nat>)
    requires ValidTable(cb)
    ensures Logged(Log(body, cb, []), udp, body, cb) && Counted(Log(body, cb, []), udp, 0, 0, 0)
    ensures SvaOk(cb, DNS_HDR + |body|, []) && ArOk(cb, DNS_HDR + |body|, [], 0)
  {
    assert body + [] == body;
  }

  lemma ArServer(cb: Table, offs: nat, ar: seq<Ext>, n: Name)
    requires ValidTable(cb) && ArOk(cb, offs, ar, 0) && Known(cb, offs, n)
    ensures ArOk(cb, offs, ar + [ExtAdd(n)], 0)
  {
    hide Known;
    hide ValidRecord;
    hide Server;
  }

  lemma ArSnoc(cb: Table, offs: nat, ar: seq<Ext>, r: Record)
    requires ValidTable(cb) && ArOk(cb, offs, ar, 0) && ValidRecord(r)
    ensures ArOk(cb, offs, ar + [ExtAuth(r)], 0)
  {
    hide Known;
    hide ValidRecord;
    hide Server;
  }

  lemma SvaLater(cb: Table, offs: nat, offs': nat, sva: seq<Record>)
    requires ValidTable(cb) && SvaOk(cb, offs, sva) && offs <= offs'
    ensures SvaOk(cb, offs', sva)
  {
    hide Known;
    hide Server;
    forall i | 0 <= i < |sva| ensures ValidRecord(sva[i]) && (NamesServer(sva[i].tp) ==> Known(cb, offs', Server(sva[i]))) {
      if NamesServer(sva[i].tp) { KnownGrows(cb, cb, offs, offs', Server(sva[i])); }
    }
  }

  lemma OptPieces(cb: Table, offs: nat, s: Step, udp: Option<nat>)
    requires ValidTable(cb) && s.Opt? && ValidStep(s)
    ensures OutBytes(cb, offs, s, udp) == OptBytes(s.udpsize, s.rcode, s.version, s.zflags)
    ensures !TakenBack(cb, offs, s, udp)
    ensures StepTable(cb, offs, s) == cb && StepOk(cb, offs, s)
  {}

  lemma QuestionPieces(cb: Table, offs: nat, name: Name, qtype: int, qclass: int, udp: Option<nat>, body: seq<byte>)
    requires ValidTable(cb) && ValidName(name)
    ensures var s := Question(name, qtype, qclass);
      && StepTable(cb, offs, s) == Grown(cb, name, offs)
      && body + OutBytes(cb, offs, s, udp) == body + Emitted(cb, name) + (Put16(qtype) + Put16(qclass))
  {
    hide Emitted;
    hide Grown;
    hide Put16;
    var e, x, y := Emitted(cb, name), Put16(qtype), Put16(qclass);
    assert body + (e + x + y) == body + e + (x + y);
  }

  /** The question section, and what was added after it. */
  datatype Log = Log(body0: seq<byte>, cb0: Table, steps: seq<Step>)

  ghost predicate Logged(log: Log, udp: Option<nat>, body: seq<byte>, cb: Table)
  {
    && ValidTable(log.cb0) && ValidSteps(log.steps) && NoQuestions(log.steps)
    && RunOk(log.cb0, DNS_HDR + |log.body0|, log.steps, udp)
    && body == log.body0 + RunBytes(log.cb0, DNS_HDR + |log.body0|, log.steps, udp)
    && cb == RunTable(log.cb0, DNS_HDR + |log.body0|, log.steps, udp)
  }

  /** The header counts the records that were kept. */
  ghost predicate Counted(log: Log, udp: Option<nat>, ancount: nat, nscount: nat, arcount: nat)
    requires ValidTable(log.cb0) && ValidSteps(log.steps)
  {
    var ks := KeptOf(log, udp);
    && ancount == Tally(ks, S_ANSWER) % 0x1_0000
    && nscount == Tally(ks, S_AUTHORITY) % 0x1_0000
    && arcount == Tally(ks, S_ADDITIONAL) % 0x1_0000
  }

  predicate NoQuestions(steps: seq<Step>) { forall i :: 0 <= i < |steps| ==> !steps[i].Question? }

  lemma LogStep(log: Log, s: Step, udp: Option<nat>, body: seq<byte>, cb: Table)
    requires Logged(log, udp, body, cb) && ValidStep(s) && !s.Question?
    ensures ValidTable(cb) && ValidSteps(log.steps + [s])
    ensures StepOk(cb, DNS_HDR + |body|, s) ==>
      Logged(log.(steps := log.steps + [s]), udp,
             body + OutBytes(cb, DNS_HDR + |body|, s, udp), StepTable(cb, DNS_HDR + |body|, s))
  {
    hide OutBytes;
    hide StepTable;
    hide StepOk;
    hide RunBytes;
    hide RunTable;
    hide RunOk;
    hide ValidStep;
    hide ValidTable;
    hide Kept;
    RunSnoc(log.cb0, DNS_HDR + |log.body0|, log.steps, s, udp);
  }

  predicate InSection(s: Step, sect: Section)
  {
    (s.Rr? && s.sect == sect) || (s.Opt? && sect.S_ADDITIONAL?)
  }

  /** How many of these are in the section. */
  function Tally(ks: seq<Step>, sect: Section): (n: nat)
  {
    if ks == [] then 0 else Tally(ks[..|ks| - 1], sect) + (if InSection(ks[|ks| - 1], sect) then 1 else 0)
  }

  lemma BumpMod(n: nat)
    ensures (n + 1) % 0x1_0000 == (n % 0x1_0000 + 1) % 0x1_0000
  {}

  /** Counting on in 16 bits. */
  lemma TallySnoc(ks: seq<Step>, s: Step, sect: Section)
    ensures Tally(ks + [s], sect) % 0x1_0000 == Bump(Tally(ks, sect) % 0x1_0000, InSection(s, sect))
  {
    assert (ks + [s])[..|ks|] == ks;
    hide InSection;
    BumpMod(Tally(ks, sect));
  }

  lemma StepCounts(log: Log, s: Step, udp: Option<nat>, body: seq<byte>, cb: Table, n: nat, m: nat, l: nat)
    requires Logged(log, udp, body, cb) && ValidStep(s) && Counted(log, udp, n, m, l)
    ensures ValidSteps(log.steps + [s]) && ValidTable(cb)
    ensures var kept := !TakenBack(cb, DNS_HDR + |body|, s, udp);
      Counted(log.(steps := log.steps + [s]), udp, Bump(n, kept && InSection(s, S_ANSWER)),
              Bump(m, kept && InSection(s, S_AUTHORITY)), Bump(l, kept && InSection(s, S_ADDITIONAL)))
  {
    hide OutBytes;
    hide StepTable;
    hide StepOk;
    hide TakenBack;
    hide RunBytes;
    hide RunTable;
    hide RunOk;
    hide ValidStep;
    hide ValidTable;
    hide Kept;
    hide InSection;
    hide Tally;
    RunSnoc(log.cb0, DNS_HDR + |log.body0|, log.steps, s, udp);
    var ks := KeptOf(log, udp);
    assert ks + [] == ks;
    TallySnoc(ks, s, S_ANSWER);
    TallySnoc(ks, s, S_AUTHORITY);
    TallySnoc(ks, s, S_ADDITIONAL);
    hide Bump;
  }

  lemma AddedStep(cb: Table, offs: nat, sect: Section, r: Record, udp: Option<nat>)
    requires ValidTable(cb) && ValidRecord(r)
    ensures var s := Rr(sect, r);
      && cb <= StepTable(cb, offs, s) && ValidTable(StepTable(cb, offs, s))
      && (sect != S_ADDITIONAL && NamesServer(r.tp) ==>
            Known(StepTable(cb, offs, s), offs + |OutBytes(cb, offs, s, udp)|, Server(r)))
      && (udp.Some? && offs <= udp.value && sect == S_ADDITIONAL ==> offs + |OutBytes(cb, offs, s, udp)| <= udp.value)
  {
    hide Known;
    hide RecordTable;
    hide RecordBytes;
    hide ValidRecord;
    hide ValidTable;
    hide NamesServer;
    hide Server;
    if sect != S_ADDITIONAL && NamesServer(r.tp) { ServerKnown(cb, offs, r); }
  }


  /** The last eleven bytes look like an OPT pseudo record. */
  predicate EndsWithOpt(body: seq<byte>)
  {
    |body| >= OPT_SIZE && body[|body| - OPT_SIZE] == 0 && Get16(body, |body| - OPT_SIZE + 1) == T_OPT
  }

  /** An OPT record that was added last is found, and taking it away restores the message. */
  lemma OptComesOff(body: seq<byte>, udpsize: int, rcode: nat, version: nat, zflags: int)
    ensures var b := body + OptBytes(udpsize, rcode, version, zflags);
      EndsWithOpt(b) && b[..|b| - OPT_SIZE] == body
  {
    var o := OptBytes(udpsize, rcode, version, zflags);
    var b := body + o;
    assert b[|body|] == o[0] && b[|body| + 1] == o[1] && b[|body| + 2] == o[2];
    GetPut16(b, |body| + 1, T_OPT);
  }

  /** Space reserved for the fixed fields. */
  function Blank(): (b: seq<byte>)
    ensures |b| == HDR
  {
    [0, 0, 0, 0, 0, 0, 0, 0, 0, 0]
  }

  lemma OwnerAndData(r: Record)
    requires ValidRecord(r)
    ensures ValidName(r.owner) && ValidData(r.tp, r.data) && Flat(Parts(r)) == r.data
  {
    ParseFlat(WriteLayout(r.tp), r.data);
  }

  lemma DataAfterOwner(cb: Table, offs: nat, r: Record)
    requires ValidTable(cb) && ValidRecord(r)
    ensures ValidName(r.owner) && ValidParts(Parts(r))
    ensures var cb1, o := Grown(cb, r.owner, offs), offs + |Emitted(cb, r.owner)| + HDR;
      DataBytes(cb, offs, r) == PartsBytes(cb1, o, Parts(r)) && RecordTable(cb, offs, r) == PartsTable(cb1, o, Parts(r))
  {
    hide Emitted;
    hide Grown;
    hide PartsBytes;
    hide PartsTable;
    hide Parts;
    hide ValidData;
  }

  lemma RecordPieces(cb: Table, offs: nat, sect: Section, r: Record, udp: Option<nat>)
    requires ValidTable(cb) && ValidRecord(r)
    ensures ValidName(r.owner) && StepTable(cb, offs, Rr(sect, r)) == RecordTable(cb, offs, r)
    ensures var e, d := Emitted(cb, r.owner), DataBytes(cb, offs, r);
      var back := udp.Some? && offs + |e| + HDR + |d| > udp.value && sect.S_ADDITIONAL?;
      && TakenBack(cb, offs, Rr(sect, r), udp) == back
      && OutBytes(cb, offs, Rr(sect, r), udp) == if back then [] else e + RecordHeader(r.tp, r.ttl, |d|) + d
  {
    hide Emitted;
    hide DataBytes;
    hide RecordTable;
    hide RecordHeader;
    hide ValidData;
  }

  /** Filling in the fixed fields afterwards. */
  lemma Patched(base: seq<byte>, e: seq<byte>, blank: seq<byte>, d: seq<byte>, h: seq<byte>)
    requires |h| == |blank|
    ensures var m := base + e + blank + d;
      && m[..|base| + |e|] + h + m[|base| + |e| + |h|..] == base + (e + h + d)
      && m[..|base|] == base && |m| == |base| + |e + h + d|
  {
    var m := base + e + blank + d;
    assert m[..|base| + |e|] == base + e;
    assert m[|base| + |e| + |h|..] == d;
  }

  lemma GoodStep(body: seq<byte>, cb: Table, s: Step, udp: Option<nat>)
    requires Good(body, cb) && ValidTable(cb) && ValidStep(s) && StepOk(cb, DNS_HDR + |body|, s)
    ensures Good(body + OutBytes(cb, DNS_HDR + |body|, s, udp), StepTable(cb, DNS_HDR + |body|, s))
  {
    hide Consistent;
    hide OutBytes;
    hide StepTable;
    hide StepOk;
    hide ValidStep;
    hide ValidTable;
    var b := OutBytes(cb, DNS_HDR + |body|, s, udp);
    forall hdr: seq<byte> | |hdr| == DNS_HDR ensures Consistent(hdr + (body + b), StepTable(cb, DNS_HDR + |body|, s)) {
      assert |hdr + body| == DNS_HDR + |body|;
      StepConsistent(hdr + body, cb, s, udp);
      assert hdr + (body + b) == hdr + body + b;
    }
  }

  lemma PartsEnd(cb: Table, offs: nat, ps: seq<Part>)
    requires ValidTable(cb) && ps == []
    ensures PartsBytes(cb, offs, ps) == [] && PartsTable(cb, offs, ps) == cb && Flat(ps) == []
  {}
}
