/** Outgoing queries (dns_query.c): one query to one server over TCP or UDP, with its
    fallbacks and retries, as an object that owns a socket and two buffers. System calls and
    replies are arbitrary; two particular networks are among the possibilities. */
module QueryMachine {
  import opened DnsConstants
  import opened Memory

  datatype State =
    | QS_INITIAL | QS_TCPINITIAL | QS_TCPWRITE | QS_TCPREAD | QS_UDPINITIAL | QS_UDPRECEIVE | QS_CANCELED | QS_DONE

  datatype Protocol = UDP_ONLY | TCP_ONLY | TCP_UDP | UDP_TCP

  /** -1 stands for "call again". */
  datatype Result = Again | Code(rc: RC)

  /** A pointer to allocated memory: owned, null, or left over after free. */
  datatype Ptr = Null | Live | Dangling

  /** What the machine has to do with. Arbitrary: anything may happen. In the other two there are
      sockets and memory, and datagrams leave. Silent: TCP connections stay in progress, and
      nothing comes back, except datagrams that do not belong to the query. Curt: TCP connects
      at once and takes and gives every byte; the first answer over TCP asks for another try if
      one is possible, and on that try a message of no bytes is announced; an answer over UDP is
      truncated. */
  datatype Network = Arbitrary | Silent | Curt

  predicate UseUdp(qm: Protocol) { qm == UDP_ONLY || qm == UDP_TCP }

  /** In these states a socket is open. */
  predicate Waiting(s: State) { s == QS_TCPWRITE || s == QS_TCPREAD || s == QS_UDPRECEIVE }

  /** How often the protocol may still be changed. */
  function Switches(qm: Protocol): nat { if qm == TCP_UDP || qm == UDP_TCP then 1 else 0 }

  /** A query is sent at most three times over each protocol: as it is, without "recursion
      desired", and without EDNS. */
  function MaxSends(qm: Protocol): nat { 3 * (1 + Switches(qm)) }

  /** The longest message that a length prefix can announce, with the prefix. */
  const MAXRECV := LENGTH_PREFIX + 0xffff

  /** Less is left to do. */
  predicate Down(u: nat, p: nat, noise: nat, u': nat, p': nat, noise': nat)
  {
    noise' <= noise && (u' < u || (u' == u && p' < p) || (u' == u && p' == p && noise' < noise))
  }

  class QueryStat {
    const net: Network
    const trusted: bool
    const authServ: int
    const qm0: Protocol       // the configured protocol
    const edns0: bool         // as configured
    const named: bool         // p_exec_query is called with a name
    const nameLen: nat        // and this is its size
    var state: State
    var qm: Protocol
    var sockOpen: bool
    var msg: Ptr
    var recvbuf: Ptr
    var transl: nat
    var recvl: nat
    var iolen: int
    var rd: bool              // msg->hdr.rd
    var arcount: nat          // msg->hdr.arcount
    var edns: bool
    var aa: bool
    var tc: bool
    var ra: bool
    var failed: int
    var needsTesting: int
    ghost var sends: nat
    ghost var retried: bool     // since the message was set up
    ghost var freedTwice: bool  // some buffer was passed to free twice

    /** Retries left for the current protocol. */
    function Retries(): nat
      reads this`rd, this`edns, this`arcount
    {
      (if rd then 1 else 0) + (if edns && arcount > 0 then 1 else 0)
    }

    /** How often the query may be sent again. */
    function Later(): nat
      reads this`qm, this`rd, this`edns, this`arcount
    {
      3 * Switches(qm) + Retries()
    }

    /** The same, counting the transmission that comes next. */
    function Units(): nat
      reads this`state, this`qm, this`rd, this`edns, this`arcount
    {
      if state == QS_INITIAL then MaxSends(qm)
      else Later() + if state == QS_TCPINITIAL || state == QS_UDPINITIAL then 1 else 0
    }

    /** What is still to be written and read in this transmission. */
    function Phase(): nat
      reads this`state, this`iolen, this`transl, this`recvl
    {
      match state
      case QS_TCPWRITE => MAXRECV + 1 + (if iolen < LENGTH_PREFIX + transl then LENGTH_PREFIX + transl - iolen else 0)
      case QS_TCPREAD =>
        if iolen == 0 then MAXRECV + 1 else if iolen < LENGTH_PREFIX + recvl then LENGTH_PREFIX + recvl - iolen else 0
      case QS_UDPRECEIVE => 1
      case _ => 0
    }

    /** The size of the query message. */
    function MaxTransl(): nat { DNS_HDR + nameLen + 4 + OPT_SIZE }

    /** The number of transmissions is bounded in advance. */
    ghost predicate Room(n: nat)
      reads this`qm, this`rd, this`edns, this`arcount, this`sends
    {
      sends + Later() + n <= MaxSends(qm0)
    }

    /** Between two calls: a socket is open exactly while the query waits for it, and the
        buffers are owned exactly while the query is under way. */
    ghost predicate Valid()
      reads this
    {
      && (sockOpen <==> Waiting(state))
      && (if Waiting(state) then msg == Live && recvbuf != Dangling else msg != Live && recvbuf != Live)
      && state != QS_TCPINITIAL && state != QS_UDPINITIAL
      && Io() && Freed() && Origin()
      && (if state == QS_INITIAL then sends + MaxSends(qm) <= MaxSends(qm0) else Room(0))
      && (Waiting(state) ==> Held())
      && (state == QS_INITIAL ==> sends == 0 || qm == TCP_ONLY)
    }

    /** A buffer can be freed twice in the life of this query. */
    predicate MayFreeTwice() { qm0 != UDP_ONLY && named && (trusted || edns0) }

    ghost predicate Freed()
      reads this`freedTwice
    {
      freedTwice ==> MayFreeTwice()
    }

    /** What the query was made from. */
    ghost predicate Origin()
      reads this`qm, this`rd, this`edns, this`arcount, this`transl, this`retried
    {
      && (retried ==> named && (trusted || edns0))
      && (rd ==> trusted && named) && (edns ==> edns0) && (arcount > 0 ==> named)
      && (!UseUdp(qm) ==> qm0 != UDP_ONLY) && (Switches(qm) > 0 ==> qm == qm0)
      && transl <= MaxTransl()
    }

    /** Before the length of an answer is read over TCP, the buffer of an earlier one is held
        only if the message was sent in another form then. */
    ghost predicate Held()
      reads this`state, this`iolen, this`recvbuf, this`retried
    {
      recvbuf == Live && (state == QS_TCPINITIAL || state == QS_TCPWRITE || (state == QS_TCPREAD && iolen == 0)) ==> retried
    }

    /** Bytes written or read so far. */
    predicate Io()
      reads this`state, this`iolen, this`transl, this`recvl, this`recvbuf, this`qm
    {
      && (state == QS_TCPWRITE ==> 0 <= iolen < LENGTH_PREFIX + transl && !UseUdp(qm))
      && (state == QS_TCPREAD ==> !UseUdp(qm))
      && (state == QS_TCPREAD ==> iolen == 0 || (LENGTH_PREFIX <= iolen < LENGTH_PREFIX + recvl <= MAXRECV && recvbuf == Live))
      && (state == QS_UDPRECEIVE ==> UseUdp(qm))
    }

    /** The query was not started. */
    ghost predicate Fresh()
      reads this
    {
      Valid() && state == QS_INITIAL && sends == 0 && qm == qm0
    }

    /** The query is over and holds nothing. */
    ghost predicate Over()
      reads this
    {
      Valid() && (state == QS_DONE || state == QS_CANCELED)
    }

    /** add_qserv; the name is that of the later calls. */
    constructor (net: Network, qm: Protocol, edns: bool, trusted: bool, authServ: int, needsTesting: int, named: bool, nameLen: nat)
      ensures Fresh() && arcount == 0 && !freedTwice
      ensures this.net == net && this.qm == this.qm0 == qm && this.edns == this.edns0 == edns
      ensures this.trusted == trusted && this.named == named && this.nameLen == nameLen
    {
      this.net, this.qm, this.qm0, this.edns, this.edns0 := net, qm, qm, edns, edns;
      this.trusted, this.authServ, this.needsTesting, this.named, this.nameLen := trusted, authServ, needsTesting, named, nameLen;
      state, sockOpen, msg, recvbuf, sends := QS_INITIAL, false, Dangling, Dangling, 0;
      transl, recvl, iolen, rd, arcount := 0, 0, 0, false, 0;
      aa, tc, ra, failed := false, false, false, 0;
      retried, freedTwice := false, false;
    }

    // ---- Resources

    /** socket and bind (and fcntl) */
    method OpenSocket() returns (ok: bool)
      requires !sockOpen
      modifies this`sockOpen
      ensures sockOpen == ok && (!net.Arbitrary? ==> ok)
    {
      ok := *;
      ok := ok || !net.Arbitrary?;
      sockOpen := ok;
      if ok {
        var bound: bool := *;
        if !bound && net.Arbitrary? {
          CloseSocket();
          ok := false;
        }
      }
    }

    /** A socket is closed only while it is open. */
    method CloseSocket()
      requires sockOpen
      modifies this`sockOpen
      ensures !sockOpen
    {
      sockOpen := false;
    }

    /** free; passing on a pointer that was freed before is an error. */
    method Free(p: Ptr)
      modifies this`freedTwice
      ensures freedTwice == (old(freedTwice) || p == Dangling)
    {
      if p == Dangling { freedTwice := true; }
    }

    method FreeBuffers()
      requires msg == Live && recvbuf != Dangling
      modifies this`msg, this`recvbuf, this`freedTwice
      ensures msg == Dangling && recvbuf != Live && freedTwice == old(freedTwice)
    {
      Free(msg);
      msg := Dangling;
      Free(recvbuf);
      if recvbuf == Live { recvbuf := Dangling; }
    }

    /** realloc_or_cleanup on the receive buffer. To give an owned block no bytes means to free
        it, and the result is null then, as it is when there is no memory. */
    method ReallocRecvbuf(size: nat) returns (ok: bool)
      requires recvbuf != Dangling
      modifies this`recvbuf, this`freedTwice
      ensures recvbuf == if ok then Live else Null
      ensures freedTwice == (old(freedTwice) || (size == 0 && old(recvbuf) == Live))
      ensures size == 0 && old(recvbuf) == Live ==> !ok
      ensures !net.Arbitrary? && !(size == 0 && old(recvbuf) == Live) ==> ok
    {
      var ptr := recvbuf;
      if size == 0 && ptr == Live {
        ok, ptr := false, Dangling;  // realloc has freed it
      } else {
        ok := Allocate(!net.Arbitrary?);
      }
      if !ok { Free(ptr); }
      recvbuf := if ok then Live else Null;
    }

    // ---- p_query_sm

    /** The query has been set up: its buffers are owned, and the socket is open exactly if it
        should be. */
    ghost predicate Running()
      reads this
    {
      && msg == Live && recvbuf != Dangling && Io() && Freed() && Origin() && Held()
      && (sockOpen <==> Waiting(state))
      && (Waiting(state) || (state == QS_TCPINITIAL && !UseUdp(qm)) || (state == QS_UDPINITIAL && UseUdp(qm)))
      && Room(if Waiting(state) then 0 else 1)
    }

    /** The query is finished, its buffers are not released yet. */
    ghost predicate Finished()
      reads this
    {
      msg == Live && recvbuf != Dangling && !sockOpen && state == QS_DONE && Room(0) && Freed() && Origin()
    }

    /** case QS_TCPINITIAL. After progress, one more event without effect costs nothing. */
    method TcpStart(noise: nat) returns (r: Result, failed: bool, noise': nat)
      requires Running() && state == QS_TCPINITIAL
      modifies this`state, this`sockOpen, this`recvbuf, this`iolen, this`recvl, this`sends, this`freedTwice
      ensures sends == old(sends) + 1 && noise' <= noise
      ensures if failed then TcpFailed() else if r == Again then Running() && Waiting(state) else Finished()
      ensures !failed && r == Code(RC_OK) ==> recvbuf == Live
      ensures net.Silent? ==> r == Again && !failed && state == QS_TCPWRITE && noise' == noise
      ensures net.Curt? ==> !failed && CurtReply(r, old(recvbuf))
    {
      hide QueryStat.Origin;
      hide QueryStat.Freed;
      hide QueryStat.Phase;
      failed, noise' := false, noise;
      sends := sends + 1;
      var ok := OpenSocket();
      if !ok {
        state := QS_DONE;
        return Code(RC_SERVFAIL), false, noise;
      }
      iolen := 0;
      var connected: bool := *;
      if (!connected || net.Silent?) && !net.Curt? {
        var inProgress: bool, refused := *, *;
        if inProgress || net.Silent? {
          state := QS_TCPWRITE;
          return Again, false, noise;
        }
        CloseSocket();
        if refused { return Code(RC_SERVFAIL), true, noise; }
        state := QS_DONE;
        return Code(RC_SERVFAIL), false, noise;
      }
      state := QS_TCPWRITE;
      r, failed, noise' := TcpWrite(noise + 1);
      if noise' > noise { noise' := noise; }
    }

    /** The answer of a curt server. */
    ghost predicate CurtReply(r: Result, held: Ptr)
      reads this
    {
      if held == Live then r == Code(RC_FATALERR) && freedTwice else r == Code(RC_OK) && recvl == DNS_HDR
    }

    /** The query was sent, as far as a silent network lets it. */
    predicate Unanswered()
      reads this
    {
      state == if UseUdp(qm) then QS_UDPRECEIVE else QS_TCPWRITE
    }

    /** A TCP query has failed in a way that allows another try with UDP. */
    ghost predicate TcpFailed()
      reads this
    {
      && msg == Live && recvbuf != Dangling && !sockOpen && !UseUdp(qm) && Room(0) && Freed() && Origin()
    }

    /** case QS_TCPWRITE */
    method TcpWrite(noise: nat) returns (r: Result, failed: bool, noise': nat)
      requires Running() && state == QS_TCPWRITE
      modifies this`state, this`sockOpen, this`recvbuf, this`iolen, this`recvl, this`freedTwice
      ensures if failed then TcpFailed() else if r == Again then Running() && Waiting(state) else Finished()
      ensures !failed && r == Code(RC_OK) ==> recvbuf == Live
      ensures noise' <= noise
      ensures r == Again && !failed ==> Down(0, old(Phase()), noise, 0, Phase(), noise')
      ensures net.Silent? && noise > 0 ==> r == Again && !failed && unchanged(this) && noise' == noise - 1
      ensures net.Curt? ==> !failed && CurtReply(r, old(recvbuf))
    {
      hide QueryStat.Room;
      hide QueryStat.Origin;
      hide QueryStat.Freed;
      noise' := noise;
      var rem := LENGTH_PREFIX + transl - iolen;
      var rv: int := *;
      if net.Curt? { rv := rem; }
      if rv < 0 || (net.Silent? && noise > 0) {
        var wouldBlock: bool, reset := *, *;
        if noise > 0 && (wouldBlock || net.Silent?) { return Again, false, noise - 1; }
        CloseSocket();
        if iolen == 0 && reset { return Code(RC_SERVFAIL), true, noise; }
        state := QS_DONE;
        return Code(RC_SERVFAIL), false, noise;
      }
      rv := if rv > rem then rem else if rv == 0 && noise == 0 then 1 else rv;
      if rv == 0 { return Again, false, noise - 1; }  // nothing was written
      if rv < rem {
        iolen := iolen + rv;
        return Again, false, noise;
      }
      state := QS_TCPREAD;
      iolen := 0;
      r, failed, noise' := TcpRead(noise + 1);
      if noise' > noise { noise' := noise; }
    }

    /** case QS_TCPREAD. A buffer is freed twice exactly when an empty message is announced while
        the buffer of the answer before is held. */
    method TcpRead(noise: nat) returns (r: Result, failed: bool, noise': nat)
      requires Running() && state == QS_TCPREAD
      modifies this`state, this`sockOpen, this`recvbuf, this`iolen, this`recvl, this`freedTwice
      ensures if failed then TcpFailed() else if r == Again then Running() && Waiting(state) else Finished()
      ensures !failed && r == Code(RC_OK) ==> recvbuf == Live
      ensures r == Again ==> state == QS_TCPREAD
      ensures freedTwice ==
        (old(freedTwice) || (old(iolen) == 0 && old(recvbuf) == Live && !failed && r == Code(RC_FATALERR) && recvl == 0))
      ensures noise' <= noise
      ensures r == Again && !failed ==> Down(0, old(Phase()), noise, 0, Phase(), noise')
      ensures net.Curt? && old(iolen) == 0 ==> !failed && CurtReply(r, old(recvbuf))
    {
      hide QueryStat.Room;
      failed, noise' := false, noise;
      var wouldBlock: bool, idle, left := *, noise > 0, noise;
      if iolen == 0 {
        if wouldBlock && idle && !net.Curt? { return Again, false, noise - 1; }
        var rv: int, len: nat := *, *;
        if net.Curt? { rv, len := LENGTH_PREFIX, if recvbuf == Live then 0 else DNS_HDR; }
        if rv != LENGTH_PREFIX {
          CloseSocket();
          return Code(RC_SERVFAIL), true, noise;
        }
        recvl := len % 0x1_0000;
        var ok := ReallocRecvbuf(recvl);
        if !ok {
          CloseSocket();
          state := QS_DONE;
          return Code(RC_FATALERR), false, noise;
        }
        iolen, idle, left := LENGTH_PREFIX, true, noise + 1;
      }
      var rem := recvl - (iolen - LENGTH_PREFIX);
      if rem > 0 {
        wouldBlock := *;
        if wouldBlock && idle && !net.Curt? { return Again, false, left - 1; }
        var rv: int := *;
        if net.Curt? { rv := rem; }
        rv := if rv > rem then rem else rv;
        if rv <= 0 {
          CloseSocket();
          return Code(RC_SERVFAIL), true, noise;
        }
        if rv < rem {
          iolen := iolen + rv;
          return Again, false, noise;
        }
      }
      CloseSocket();
      state := QS_DONE;
      r := Code(RC_OK);
    }

    /** case QS_UDPINITIAL */
    method UdpStart() returns (r: Result)
      requires Running() && state == QS_UDPINITIAL
      modifies this`state, this`sockOpen, this`sends
      ensures sends == old(sends) + 1
      ensures if r == Again then Running() && Waiting(state) else Finished()
      ensures r != Code(RC_OK) && (!net.Arbitrary? ==> r == Again)
    {
      hide QueryStat.Origin;
      hide QueryStat.Freed;
      sends := sends + 1;
      var ok := OpenSocket();
      if !ok {
        state := QS_DONE;
        return Code(RC_SERVFAIL);
      }
      var sent: bool := *;  // connect and send
      if !sent && net.Arbitrary? {
        CloseSocket();
        state := QS_DONE;
        return Code(RC_SERVFAIL);
      }
      state := QS_UDPRECEIVE;
      r := Again;
    }

    /** case QS_UDPRECEIVE; udpbufsize is positive. */
    method UdpReceive(udpbufsize: nat, noise: nat) returns (r: Result, noise': nat)
      requires Running() && state == QS_UDPRECEIVE && udpbufsize > 0
      modifies this`state, this`sockOpen, this`recvbuf, this`recvl, this`freedTwice
      ensures if r == Again then Running() && Waiting(state) else Finished()
      ensures r == Code(RC_OK) ==> recvbuf == Live
      ensures freedTwice == old(freedTwice) && noise' <= noise
      ensures r == Again ==> state == QS_UDPRECEIVE && noise' == noise - 1
      ensures net.Silent? && noise > 0 ==> r == Again
      ensures net.Curt? ==> r == Code(RC_OK) && recvl == DNS_HDR
    {
      hide QueryStat.Room;
      hide QueryStat.Origin;
      hide QueryStat.Freed;
      noise' := noise;
      var ok := ReallocRecvbuf(udpbufsize);
      if !ok {
        CloseSocket();
        state := QS_DONE;
        return Code(RC_FATALERR), noise;
      }
      var received: bool, foreign: bool := *, *;
      if !received && net.Arbitrary? {
        CloseSocket();
        state := QS_DONE;
        return Code(RC_SERVFAIL), noise;
      }
      recvl := *;
      if noise > 0 && !net.Curt? && (recvl < DNS_HDR || foreign || net.Silent?) {
        return Again, noise - 1;  // a bad answer is ignored
      }
      if recvl < DNS_HDR || net.Curt? { recvl := DNS_HDR; }
      CloseSocket();
      state := QS_DONE;
      r := Code(RC_OK);
    }

    /** switch_to_udp */
    method SwitchToUdp()
      requires TcpFailed() && qm == TCP_UDP
      modifies this`qm, this`state
      ensures Running() && state == QS_UDPINITIAL && qm == UDP_ONLY
    {
      hide QueryStat.Freed;
      qm := UDP_ONLY;
      state := QS_UDPINITIAL;
    }

    /** The switch of p_query_sm. */
    method Step(noise: nat) returns (r: Result, failed: bool, noise': nat)
      requires Running()
      modifies this`state, this`sockOpen, this`recvbuf, this`iolen, this`recvl, this`sends, this`freedTwice
      ensures if failed then TcpFailed() else if r == Again then Running() && Waiting(state) else Finished()
      ensures !failed && r == Code(RC_OK) ==> recvbuf == Live
      ensures sends == old(sends) + (if Waiting(old(state)) then 0 else 1)
      ensures noise' <= noise && (old(Units()) > Later() || old(Phase()) > 0)
      ensures !failed ==> Down(old(Units()), old(Phase()), noise, Units(), Phase(), noise')
      ensures net.Silent? && !Waiting(old(state)) ==> !failed && r == Again && Unanswered() && noise' == noise
      ensures net.Silent? && Waiting(old(state)) && old(Unanswered()) && noise > 0 ==>
        !failed && r == Again && Unanswered() && noise' == noise - 1
      ensures net.Curt? && old(state) == QS_TCPINITIAL ==> !failed && CurtReply(r, old(recvbuf))
      ensures net.Curt? && old(state) == QS_UDPINITIAL ==> !failed && r == Again && state == QS_UDPRECEIVE
      ensures net.Curt? && old(state) == QS_UDPRECEIVE ==> !failed && r == Code(RC_OK) && recvl == DNS_HDR
    {
      hide QueryStat.MaxTransl;
      hide QueryStat.MayFreeTwice;
      hide QueryStat.Room;
      hide QueryStat.Origin;
      hide QueryStat.Freed;
      hide QueryStat.Later;
      failed, noise' := false, noise;
      match state {
        case QS_TCPINITIAL => r, failed, noise' := TcpStart(noise);
        case QS_TCPWRITE => r, failed, noise' := TcpWrite(noise);
        case QS_TCPREAD => r, failed, noise' := TcpRead(noise);
        case QS_UDPINITIAL => r := UdpStart();
        case QS_UDPRECEIVE =>
          var udpbufsize :| udpbufsize > 0;
          r, noise' := UdpReceive(udpbufsize, noise);
      }
    }

    /** p_query_sm */
    method QuerySm(noise: nat) returns (r: Result, noise': nat)
      requires Running()
      modifies this
      ensures if r == Again then Running() && Waiting(state) else Finished()
      ensures r == Code(RC_OK) ==> recvbuf == Live
      ensures qm == old(qm) || (old(qm) == TCP_UDP && qm == UDP_ONLY)
      ensures rd == old(rd) && arcount == old(arcount) && edns == old(edns) && failed == old(failed)
      ensures sends == old(sends) + (if Waiting(old(state)) then 0 else 1) + (if qm == old(qm) then 0 else 1)
      ensures Down(old(Units()), old(Phase()), noise, Units(), Phase(), noise')
      ensures net.Silent? && !Waiting(old(state)) ==> r == Again && Unanswered() && qm == old(qm) && noise' == noise
      ensures net.Silent? && Waiting(old(state)) && old(Unanswered()) && noise > 0 ==>
        r == Again && Unanswered() && qm == old(qm) && noise' == noise - 1
      ensures net.Curt? && old(state) == QS_TCPINITIAL ==> CurtReply(r, old(recvbuf)) && qm == old(qm)
      ensures net.Curt? && old(state) == QS_UDPINITIAL ==> r == Again && state == QS_UDPRECEIVE
      ensures net.Curt? && old(state) == QS_UDPRECEIVE ==> r == Code(RC_OK) && recvl == DNS_HDR && qm == old(qm)
    {
      hide QueryStat.MaxTransl;
      hide QueryStat.MayFreeTwice;
      hide QueryStat.Room;
      hide QueryStat.Origin;
      hide QueryStat.Freed;
      hide QueryStat.Io;
      hide QueryStat.Held;
      var tcpFailed;
      r, tcpFailed, noise' := Step(noise);
      if tcpFailed { r := TcpFailure(); }
    }

    /** The label tcp_failed. */
    method TcpFailure() returns (r: Result)
      requires TcpFailed()
      modifies this`qm, this`state, this`sockOpen, this`sends
      ensures if r == Again then Running() && Waiting(state) else Finished()
      ensures r != Code(RC_OK)
      ensures if old(qm) == TCP_UDP then qm == UDP_ONLY && sends == old(sends) + 1 else r != Again && qm == old(qm) && sends == old(sends)
    {
      hide QueryStat.Freed;
      if qm == TCP_UDP {
        SwitchToUdp();
        r := UdpStart();
      } else {
        state := QS_DONE;
        r := Code(RC_SERVFAIL);
      }
    }

    // ---- p_exec_query

    /** The case QS_INITIAL: the query message. */
    method SetUp() returns (ok: bool)
      requires Valid() && state == QS_INITIAL && arcount <= 1
      modifies this`state, this`msg, this`recvbuf, this`rd, this`arcount, this`transl, this`retried
      ensures if ok then Running() && recvbuf == Null else Valid() && state == QS_DONE
      ensures arcount <= 1 && Units() <= MaxSends(qm) && Phase() == 0 && (!ok ==> Units() < MaxSends(qm))
      ensures ok ==> !Waiting(state)
      ensures ok ==> rd == (named && trusted) && arcount == (if named && edns then 1 else 0)
      ensures !net.Arbitrary? ==> ok
    {
      hide QueryStat.MayFreeTwice;
      hide QueryStat.Freed;
      hide QueryStat.MaxTransl;
      ok := Allocate(!net.Arbitrary?);
      if !ok {
        msg, state := Null, QS_DONE;
        return;
      }
      msg, retried := Live, false;
      FillIn();
      recvbuf := Null;
      state := if UseUdp(qm) then QS_UDPINITIAL else QS_TCPINITIAL;
    }

    /** The contents of the message. */
    method FillIn()
      requires edns ==> edns0
      modifies this`rd, this`arcount, this`transl
      ensures rd == (named && trusted) && arcount == (if named && edns then 1 else 0) && transl <= MaxTransl()
      ensures sends + MaxSends(qm) <= MaxSends(qm0) ==> Room(1)
    {
      rd, arcount, transl := named && trusted, 0, DNS_HDR;
      if named {
        transl := transl + nameLen + 4;
        if edns { arcount, transl := 1, transl + OPT_SIZE; }
      }
    }

    /** resetstate_tryagain: the buffer with the answer stays. */
    method TryAgain()
      requires msg == Live && recvbuf != Dangling && !sockOpen && state == QS_DONE && Room(1) && Freed() && Origin()
      requires named && (trusted || edns0)
      modifies this`state, this`retried
      ensures Running() && !Waiting(state) && retried
    {
      state := if UseUdp(qm) then QS_UDPINITIAL else QS_TCPINITIAL;
      retried := true;
    }

    /** What to do with a reply that was received. */
    method Judge(wantEnt: bool) returns (v: Verdict)
      requires Finished() && recvbuf == Live && arcount <= 1
      modifies this`rd, this`edns, this`arcount, this`transl, this`failed, this`needsTesting
      ensures Finished() && arcount <= 1
      ensures v.Retry? ==> Retries() < old(Retries()) && Room(1) && named && (trusted || edns0)
      ensures v.Retry? ==> if old(rd) && !rd then edns == old(edns) && arcount == old(arcount)
        else rd == old(rd) && old(edns) && !edns && arcount == 0
      ensures !v.Retry? ==> rd == old(rd) && edns == old(edns) && arcount == old(arcount)
      ensures failed == old(failed) || (failed == 3 && v.Accept? && authServ == 2)
      ensures net.Curt? && recvl >= DNS_HDR && wantEnt && !UseUdp(qm) && old(Retries()) > 0 ==> v.Retry?
      ensures net.Curt? && recvl >= DNS_HDR && UseUdp(qm) ==> v == Accept(RC_OK)
    {
      hide QueryStat.Freed;
      hide QueryStat.MaxTransl;
      hide QueryStat.MayFreeTwice;
      hide QueryStat.Phase;
      hide QueryStat.Held;
      hide QueryStat.Io;
      var sane: bool, rcode: RC := *, *;
      if net.Curt? { sane, rcode := true, if UseUdp(qm) then RC_OK else if rd then RC_SERVFAIL else RC_FORMAT; }
      if recvl < DNS_HDR || !sane { return Discard(RC_SERVFAIL); }
      if needsTesting != 0 { needsTesting := 0; }
      if rcode == RC_OK || rcode == RC_NAMEERR { return Accept(rcode); }
      if wantEnt {
        var recursionAvailable: bool, anyAnswer := *, *;
        if rcode == RC_SERVFAIL || rcode == RC_NOTSUPP || rcode == RC_REFUSED {
          if rd && (!recursionAvailable || net.Curt?) {
            rd := false;
            return Retry;
          } else if rcode != RC_SERVFAIL && edns && arcount > 0 {
            DropEdns();
            return Retry;
          } else if anyAnswer && authServ == 2 {
            failed := 3;
            return Accept(rcode);
          }
        } else if rcode == RC_FORMAT && edns && arcount > 0 {
          DropEdns();
          return Retry;
        }
      }
      v := Discard(rcode);
    }

    /** The query without its OPT record: as the last record of its additional section, it
        comes off. */
    method DropEdns()
      requires arcount == 1
      modifies this`edns, this`arcount, this`transl
      ensures !edns && arcount == 0 && transl <= old(transl)
    {
      arcount := arcount - 1;
      transl := if transl >= OPT_SIZE then transl - OPT_SIZE else 0;
      edns := false;
    }

    /** p_exec_query; the analysis of an accepted reply is arbitrary. Every call brings the query
        closer to its end, unless it uses up one of the `noise` events without effect that are
        still to come. */
    method Exec(wantEnt: bool, noise: nat) returns (rv: Result, noise': nat)
      requires Valid() && arcount <= 1
      modifies this
      ensures Valid() && arcount <= 1
      ensures if rv == Again then Waiting(state) else state == QS_DONE
      ensures qm == old(qm) || (old(qm) == TCP_UDP && qm == UDP_ONLY)
      ensures old(state) == QS_INITIAL && rv != Code(RC_FATALERR) ==> sends > old(sends)
      ensures old(state) == QS_DONE || old(state) == QS_CANCELED ==> rv == Code(RC_SERVFAIL) && sends == old(sends)
      ensures if old(state) == QS_DONE || old(state) == QS_CANCELED
        then Units() == old(Units()) && Phase() == old(Phase()) && noise' == noise
        else Down(old(Units()), old(Phase()), noise, Units(), Phase(), noise')
      ensures net.Silent? && old(state) == QS_INITIAL ==> rv == Again && Unanswered() && qm == old(qm) && noise' == noise
      ensures net.Silent? && Waiting(old(state)) && old(Unanswered()) && noise > 0 ==>
        rv == Again && Unanswered() && qm == old(qm) && noise' == noise - 1
      ensures net.Curt? && wantEnt && old(state) == QS_INITIAL && !UseUdp(old(qm)) && named && (trusted || old(edns)) ==> freedTwice
      ensures net.Curt? && old(state) == QS_INITIAL && UseUdp(old(qm)) ==> rv == Again && state == QS_UDPRECEIVE
      ensures net.Curt? && old(state) == QS_INITIAL && UseUdp(old(qm)) ==> qm == old(qm) && edns == old(edns)
      ensures net.Curt? && old(state) == QS_UDPRECEIVE ==> rv == Code(RC_OK) && tc && qm == old(qm) && edns == old(edns)
    {
      hide QueryStat.Origin;
      hide QueryStat.Freed;
      noise' := noise;
      if state == QS_DONE || state == QS_CANCELED {
        state := QS_DONE;
        return Code(RC_SERVFAIL), noise;
      }
      if state == QS_INITIAL {
        var ok := SetUp();
        if !ok { return Code(RC_FATALERR), noise; }
      }
      rv, noise' := RunAndJudge(wantEnt, noise);
    }

    /** The reply is used up: what Judge has decided is carried out. */
    method Conclude(v: Verdict) returns (rv: Result)
      requires Finished() && !v.Retry? && arcount <= 1
      modifies this`msg, this`recvbuf, this`freedTwice, this`aa, this`tc, this`ra, this`failed
      ensures Valid() && state == QS_DONE && rv != Again && freedTwice == old(freedTwice)
      ensures net.Curt? && v == Accept(RC_OK) ==> rv == Code(RC_OK) && tc
    {
      hide QueryStat.MaxTransl;
      hide QueryStat.MayFreeTwice;
      hide QueryStat.Held;
      hide QueryStat.Room;
      hide QueryStat.Origin;
      hide QueryStat.Freed;
      FreeBuffers();
      rv := if v.Discard? then Code(if v.rc == RC_OK then RC_SERVFAIL else v.rc) else Code(RC_OK);
      if v.Accept? { rv := Analyse(); }
    }

    /** What the reply says: arbitrary. */
    method Analyse() returns (rv: Result)
      modifies this`aa, this`tc, this`ra, this`failed
      ensures rv != Again && (net.Curt? ==> rv == Code(RC_OK) && tc)
    {
      var analysis: RC, inconsistent := *, *;
      aa, tc, ra := *, *, *;
      if net.Curt? { tc, analysis := true, RC_OK; }
      if inconsistent && failed == 0 { failed := 1; }
      rv := Code(analysis);
    }

    /** A reply was received: the query is sent again in another form, or it is over. */
    method Settle(wantEnt: bool) returns (rv: Result, again: bool)
      requires Finished() && recvbuf == Live && arcount <= 1
      modifies this
      ensures arcount <= 1 && qm == old(qm) && sends == old(sends) && freedTwice == old(freedTwice)
      ensures Units() <= old(Units()) && Phase() == 0
      ensures again ==> !Waiting(state) && Running() && Retries() < old(Retries()) && recvbuf == Live
      ensures !again ==> Valid() && state == QS_DONE && rv != Again
      ensures net.Curt? && old(recvl) >= DNS_HDR && wantEnt && !UseUdp(qm) && old(Retries()) > 0 ==> again
      ensures net.Curt? && old(recvl) >= DNS_HDR && UseUdp(qm) ==> !again && rv == Code(RC_OK) && tc && edns == old(edns)
    {
      hide QueryStat.Origin;
      hide QueryStat.Freed;
      var v := Judge(wantEnt);
      rv, again := Again, false;
      if v.Retry? {
        TryAgain();
        again := true;
      } else {
        rv := Conclude(v);
      }
    }

    /** One transmission, or one step of it. */
    method Attempt(wantEnt: bool, noise: nat) returns (rv: Result, again: bool, noise': nat)
      requires Running() && arcount <= 1
      modifies this
      ensures arcount <= 1 && (qm == old(qm) || (old(qm) == TCP_UDP && qm == UDP_ONLY))
      ensures sends >= old(sends) && (!Waiting(old(state)) ==> sends > old(sends))
      ensures again ==> !Waiting(state) && Running() && Retries() < old(Retries())
      ensures !again ==> Valid() && if rv == Again then Waiting(state) else state == QS_DONE
      ensures Down(old(Units()), old(Phase()), noise, Units(), Phase(), noise')
      ensures net.Silent? && !Waiting(old(state)) ==>
        !again && rv == Again && Unanswered() && qm == old(qm) && noise' == noise
      ensures net.Silent? && Waiting(old(state)) && old(Unanswered()) && noise > 0 ==>
        !again && rv == Again && Unanswered() && qm == old(qm) && noise' == noise - 1
      ensures net.Curt? && old(state) == QS_TCPINITIAL && old(recvbuf) == Live ==> !again && freedTwice
      ensures net.Curt? && wantEnt && old(state) == QS_TCPINITIAL && old(recvbuf) != Live && old(Retries()) > 0 ==>
        again && state == QS_TCPINITIAL && recvbuf == Live
      ensures net.Curt? && old(state) == QS_UDPINITIAL ==> !again && rv == Again && state == QS_UDPRECEIVE && qm == old(qm) && edns == old(edns)
      ensures net.Curt? && old(state) == QS_UDPRECEIVE ==> !again && rv == Code(RC_OK) && tc && qm == old(qm) && edns == old(edns)
    {
      hide QueryStat.Room;
      hide QueryStat.Origin;
      hide QueryStat.Freed;
      again := false;
      rv, noise' := QuerySm(noise);
      if rv == Again { return; }
      if rv != Code(RC_OK) {
        FreeBuffers();
        return;
      }
      rv, again := Settle(wantEnt);
    }

    /** From the label tryagain on. */
    method RunAndJudge(wantEnt: bool, noise: nat) returns (rv: Result, noise': nat)
      requires Running() && arcount <= 1
      modifies this
      ensures Valid() && arcount <= 1
      ensures if rv == Again then Waiting(state) else state == QS_DONE
      ensures qm == old(qm) || (old(qm) == TCP_UDP && qm == UDP_ONLY)
      ensures sends >= old(sends) && (!Waiting(old(state)) ==> sends > old(sends))
      ensures Down(old(Units()), old(Phase()), noise, Units(), Phase(), noise')
      ensures net.Silent? && !Waiting(old(state)) ==> rv == Again && Unanswered() && qm == old(qm) && noise' == noise
      ensures net.Silent? && Waiting(old(state)) && old(Unanswered()) && noise > 0 ==>
        rv == Again && Unanswered() && qm == old(qm) && noise' == noise - 1
      ensures net.Curt? && wantEnt && old(state) == QS_TCPINITIAL && (old(recvbuf) == Live || old(Retries()) > 0) ==> freedTwice
      ensures net.Curt? && old(state) == QS_UDPINITIAL ==> rv == Again && state == QS_UDPRECEIVE && qm == old(qm) && edns == old(edns)
      ensures net.Curt? && old(state) == QS_UDPRECEIVE ==> rv == Code(RC_OK) && tc && qm == old(qm) && edns == old(edns)
    {
      hide QueryStat.Room;
      hide QueryStat.Origin;
      hide QueryStat.Freed;
      var again;
      rv, again, noise' := Attempt(wantEnt, noise);
      while again
        invariant arcount <= 1 && (qm == old(qm) || (old(qm) == TCP_UDP && qm == UDP_ONLY))
        invariant again ==> Running() && !Waiting(state)
        invariant sends >= old(sends) && (!Waiting(old(state)) ==> sends > old(sends))
        invariant !again ==> Valid() && if rv == Again then Waiting(state) else state == QS_DONE
        invariant Down(old(Units()), old(Phase()), noise, Units(), Phase(), noise')
        invariant net.Silent? && (!Waiting(old(state)) || (old(Unanswered()) && noise > 0)) ==>
          !again && rv == Again && Unanswered() && qm == old(qm) && noise' == if Waiting(old(state)) then noise - 1 else noise
        invariant net.Curt? && wantEnt && old(state) == QS_TCPINITIAL && (old(recvbuf) == Live || old(Retries()) > 0) ==>
          if again then state == QS_TCPINITIAL && recvbuf == Live else freedTwice
        invariant net.Curt? && old(state) == QS_UDPINITIAL ==>
          !again && rv == Again && state == QS_UDPRECEIVE && qm == old(qm) && edns == old(edns)
        invariant net.Curt? && old(state) == QS_UDPRECEIVE ==> !again && rv == Code(RC_OK) && tc && qm == old(qm) && edns == old(edns)
        decreases again, Retries()
      {
        rv, again, noise' := Attempt(wantEnt, noise');
      }
    }

    // ---- p_cancel_query and switch_to_tcp

    /** p_cancel_query: in any state, everything is released. */
    method Cancel()
      requires Valid()
      modifies this
      ensures old(state) != QS_INITIAL ==> Over()
      ensures old(state) != QS_INITIAL ==> state == if old(state) == QS_DONE then QS_DONE else QS_CANCELED
      ensures old(state) == QS_INITIAL ==> Valid() && state == QS_INITIAL && sends == old(sends) && qm == old(qm)
      ensures freedTwice == old(freedTwice)
    {
      if Waiting(state) {
        CloseSocket();
        FreeBuffers();
      }
      if state != QS_INITIAL && state != QS_DONE { state := QS_CANCELED; }
    }

    /** switch_to_tcp: a truncated UDP reply; the query starts over, and asks for recursion
        again. */
    method SwitchToTcp()
      requires Valid() && state == QS_DONE && qm == UDP_TCP
      modifies this
      ensures Valid() && state == QS_INITIAL && qm == TCP_ONLY && arcount == old(arcount) && edns == old(edns)
      ensures Units() <= old(Units()) && Phase() == old(Phase())
    {
      qm := TCP_ONLY;
      state := QS_INITIAL;
      failed := 0;
    }

    /** A TCP connection that has timed out is given up for UDP. */
    predicate Tentative()
      reads this
    {
      qm == TCP_UDP && (state == QS_TCPWRITE || (state == QS_TCPREAD && iolen == 0))
    }

    /** close and switch_to_udp, then p_exec_query. */
    method FallBack(noise: nat) returns (rv: Result, noise': nat)
      requires Valid() && Tentative() && arcount <= 1
      modifies this
      ensures Valid() && arcount <= 1 && qm == UDP_ONLY && sends > old(sends)
      ensures if rv == Again then Waiting(state) else state == QS_DONE
      ensures Down(old(Units()), old(Phase()), noise, Units(), Phase(), noise')
      ensures net.Silent? ==> rv == Again && Unanswered() && noise' == noise
    {
      CloseSocket();
      SwitchToUdp();
      rv, noise' := RunAndJudge(true, noise);
    }
  }

  /** What p_exec_query does with a reply. */
  datatype Verdict = Retry | Discard(rc: RC) | Accept(rc: RC)

  /** Every query that may free a buffer twice does so in a curt network. */
  method FreesTwice(qm: Protocol, edns: bool, trusted: bool, authServ: int, needsTesting: int, nameLen: nat) returns (s: QueryStat)
    requires qm != UDP_ONLY && (trusted || edns)
    ensures s.qm0 == qm && s.edns0 == edns && s.trusted == trusted && s.named && s.nameLen == nameLen && s.freedTwice
  {
    s := new QueryStat(Curt, qm, edns, trusted, authServ, needsTesting, true, nameLen);
    var rv, noise := s.Exec(true, 0);
    if UseUdp(qm) {
      rv, noise := s.Exec(true, noise);
      s.SwitchToTcp();
      rv, noise := s.Exec(true, noise);
    }
  }
}
