/** The recursive resolver (dns_query.c): asking the name servers that a reply refers to,
    whose addresses may have to be resolved first. What the cache and the servers answer is
    arbitrary; the recursion is bounded by the hop count all the same. How long one batch of
    queries is polled is not a matter of this module. */
module Resolver {
  import opened DnsConstants
  import opened Names

  const MAX_HOPS := 20

  type Addr = int

  /** A server in a query list; done stands for QS_DONE. */
  datatype Server = Server(addr: Addr, done: bool)

  type Servers = seq<Server>

  /** A name that is being resolved, and the type wanted. */
  datatype Hint = Hint(nm: Name, tp: int)

  /** The domains of an NS list, each with its name servers. */
  datatype Referral = Referral(domain: Name, servers: seq<Name>)

  /** What is known about the server that answered, and about its answer. */
  datatype Reply = Reply(
    failed: int, authServ: int, aa: bool, nsdomain: Option<Name>,
    negative: bool, aaNeeded: bool, ns: seq<Referral>)

  // ---- The authority flag

  /** d lies strictly below the domain that the server is responsible for. */
  predicate ProperSubdomain(d: Name, of: Name) { Match(d, of) == |of| && |d| > |of| }

  /** d is the queried name or an enclosing domain. */
  predicate Encloses(d: Name, name: Name) { Match(d, name) == |d| }

  /** Every referral is a better match for the name than the server itself. */
  predicate AllCloser(ns: seq<Referral>, nsdomain: Name, name: Name)
  {
    forall i :: 0 <= i < |ns| ==> ProperSubdomain(ns[i].domain, nsdomain) && Encloses(ns[i].domain, name)
  }

  /** The aa flag of a reply is believed unless the referrals contradict it. */
  predicate AaBelieved(r: Reply, name: Name)
  {
    r.aa && (r.nsdomain == None || r.ns == [] || !AllCloser(r.ns, r.nsdomain.value, name))
  }

  /** The servers in the authority section should be asked. */
  predicate WantsAuthority(r: Reply, name: Name)
  {
    r.authServ != 0 && !r.negative && r.aaNeeded && !AaBelieved(r, name)
  }

  /** The loop over the referrals in auth_ok. */
  method CheckAa(r: Reply, name: Name) returns (believed: bool)
    requires r.aa
    ensures believed == AaBelieved(r, name)
  {
    if r.nsdomain == None || r.ns == [] { return true; }
    for i := 0 to |r.ns|
      invariant AllCloser(r.ns[..i], r.nsdomain.value, name)
    {
      var rem := |r.ns[i].domain| - Match(r.ns[i].domain, r.nsdomain.value);
      var crem := |r.nsdomain.value| - Match(r.ns[i].domain, r.nsdomain.value);
      if !(rem > 0 && crem == 0) { return true; }
      rem := |r.ns[i].domain| - Match(r.ns[i].domain, name);
      if rem != 0 { return true; }
    }
    assert r.ns[..|r.ns|] == r.ns;
    believed := false;
  }

  // ---- Chains of lookups

  /** Along a chain, addresses are looked up for different names. */
  predicate DistinctAddresses(chain: seq<Hint>)
  {
    forall i, j :: 0 <= i < j < |chain| && chain[i].tp == T_A && chain[j].tp == T_A ==> !SameName(chain[i].nm, chain[j].nm)
  }

  /** A resolution that took place: what for, with how many hops left, under which others. */
  datatype Event = Event(hint: Hint, hops: int, above: seq<Hint>)

  /** The event is within bounds for a resolution with these hops and hints. */
  predicate EventOk(e: Event, hops: int, depth: nat)
  {
    && 0 <= e.hops <= hops
    && DistinctAddresses([e.hint] + e.above)
    && |e.above| <= depth + (hops - e.hops)
  }

  predicate LogOk(log: seq<Event>, hops: int, depth: nat)
  {
    forall i :: 0 <= i < |log| ==> EventOk(log[i], hops, depth)
  }

  lemma LogJoins(a: seq<Event>, b: seq<Event>, hops: int, depth: nat)
    requires LogOk(a, hops, depth) && LogOk(b, hops, depth)
    ensures LogOk(a + b, hops, depth)
  {}

  lemma LogOneDown(log: seq<Event>, hops: int, depth: nat)
    requires LogOk(log, hops - 1, depth + 1)
    ensures LogOk(log, hops, depth)
  {}

  lemma LogSameDepth(log: seq<Event>, hops: int, depth: nat)
    requires LogOk(log, hops - 1, depth)
    ensures LogOk(log, hops, depth)
  {}

  /** The address of this name is being resolved already. */
  predicate Wanted(nsname: Name, chain: seq<Hint>)
  {
    exists i :: 0 <= i < |chain| && chain[i].tp == T_A && SameName(chain[i].nm, nsname)
  }

  /** The test of auth_ok against infinite recursion: it never resolves the address of a name
      whose address is being resolved already. */
  method AlreadyWanted(nsname: Name, chain: seq<Hint>) returns (found: bool)
    ensures found <==> Wanted(nsname, chain)
  {
    for i := 0 to |chain|
      invariant forall j :: 0 <= j < i ==> !(chain[j].tp == T_A && SameName(chain[j].nm, nsname))
    {
      if SameName(chain[i].nm, nsname) && chain[i].tp == T_A { return true; }
    }
    found := false;
  }

  // ---- Collecting servers

  /** The address was queried already by a server list in use. */
  predicate Queried(a: Addr, lists: seq<Servers>)
  {
    exists i, k :: 0 <= i < |lists| && 0 <= k < |lists[i]| && lists[i][k].done && lists[i][k].addr == a
  }

  predicate Holds(s: Servers, a: Addr) { exists i :: 0 <= i < |s| && s[i].addr == a }

  /** Fresh servers: not local, not queried before. */
  ghost predicate AllNew(serv: Servers, lists: seq<Servers>, isLocal: Addr -> bool)
  {
    forall i :: 0 <= i < |serv| ==> !serv[i].done && !isLocal(serv[i].addr) && !Queried(serv[i].addr, lists)
  }

  predicate NoRepeats(addrs: seq<Addr>) { forall i, j :: 0 <= i < j < |addrs| ==> addrs[i] != addrs[j] }

  predicate NoTwins(s: Servers) { forall i, j :: 0 <= i < j < |s| ==> s[i].addr != s[j].addr }

  method WasQueried(a: Addr, lists: seq<Servers>) returns (r: bool)
    ensures r == Queried(a, lists)
  {
    for i := 0 to |lists|
      invariant forall k, m :: 0 <= k < i && 0 <= m < |lists[k]| ==> !(lists[k][m].done && lists[k][m].addr == a)
    {
      for m := 0 to |lists[i]|
        invariant forall x :: 0 <= x < m ==> !(lists[i][x].done && lists[i][x].addr == a)
      {
        if lists[i][m].done && lists[i][m].addr == a { return true; }
      }
    }
    r := false;
  }

  /** The addresses of one name server join the list, unless they are local, on the list
      already, or were queried before. */
  method AddAddresses(serv: Servers, addrs: seq<Addr>, lists: seq<Servers>, isLocal: Addr -> bool) returns (serv': Servers)
    requires AllNew(serv, lists, isLocal)
    ensures AllNew(serv', lists, isLocal) && serv <= serv'
    ensures forall i :: 0 <= i < |addrs| && !isLocal(addrs[i]) && !Queried(addrs[i], lists) ==> Holds(serv', addrs[i])
    ensures NoTwins(serv) && NoRepeats(addrs) ==> NoTwins(serv')
  {
    serv' := serv;
    var n := |serv|;  // the list is searched as it was before
    for ia := 0 to |addrs|
      invariant AllNew(serv', lists, isLocal) && serv <= serv'
      invariant forall i :: 0 <= i < ia && !isLocal(addrs[i]) && !Queried(addrs[i], lists) ==> Holds(serv', addrs[i])
      invariant forall k :: n <= k < |serv'| ==> exists i :: 0 <= i < ia && addrs[i] == serv'[k].addr
      invariant NoTwins(serv) && NoRepeats(addrs) ==> NoTwins(serv')
    {
      var a := addrs[ia];
      var known, queried := Holds(serv, a), false;
      ghost var before := serv';
      if !isLocal(a) && !known { queried := WasQueried(a, lists); }
      if !isLocal(a) && !known && !queried { serv' := serv' + [Server(a, false)]; }
      KeepsHolding(before, serv', addrs, ia);
      if known && !isLocal(a) {
        var k :| 0 <= k < |serv| && serv[k].addr == a;
        assert serv'[k].addr == a;
      }
      if !isLocal(a) && !known && !queried { assert serv'[|before|].addr == a; }
    }
  }

  lemma KeepsHolding(s: Servers, s': Servers, addrs: seq<Addr>, n: nat)
    requires s <= s' && n <= |addrs|
    ensures forall i :: 0 <= i < n && Holds(s, addrs[i]) ==> Holds(s', addrs[i])
  {
    forall i | 0 <= i < n && Holds(s, addrs[i]) ensures Holds(s', addrs[i]) {
      var k :| 0 <= k < |s| && s[k].addr == addrs[i];
      assert s'[k].addr == addrs[i];
    }
  }

  // ---- The mutual recursion

  /** A cached or resolved entry, as far as it matters here. */
  datatype Ent = Ent(negative: bool, addrs: seq<Addr>)

  /** What does not change during a resolution: local addresses, the paranoid option, and the
      locally defined name servers of domains, which override those of remote servers. */
  datatype Env = Env(isLocal: Addr -> bool, paranoid: bool, localNs: Name -> Option<seq<Name>>)

  /** The name servers that are asked about a referral. */
  function ServersOf(d: Referral, name: Name, env: Env): (names: seq<Name>)
  {
    if env.paranoid && !Encloses(d.domain, name) then []
    else match env.localNs(d.domain)
      case None => d.servers
      case Some(names) => names
  }

  /** All these names whose addresses are not being resolved already have been looked up. */
  predicate LookedUp(log: seq<Event>, names: seq<Name>, hops: int, chain: seq<Hint>)
  {
    forall i :: 0 <= i < |names| && !Wanted(names[i], chain) ==> Event(Hint(names[i], T_A), hops - 1, chain) in log
  }

  lemma LookedUpJoins(a: seq<Event>, b: seq<Event>, names: seq<Name>, hops: int, chain: seq<Hint>)
    requires LookedUp(a, names, hops, chain) || LookedUp(b, names, hops, chain)
    ensures LookedUp(a + b, names, hops, chain)
  {}

  const MAXNAMESERVIPS := 10

  /** auth_ok: 1 if the answer will do or if there are servers to ask, 0 if neither, -1 on an
      error. Servers are found only while hops are left, and none of them was asked before. */
  method AuthOk(q: Servers, name: Name, thint: int, r: Reply, hops: int, qslist: seq<Servers>, qhlist: seq<Hint>, env: Env)
    returns (retval: int, serv: Servers, ghost log: seq<Event>)
    requires hops >= 0 && DistinctAddresses([Hint(name, thint)] + qhlist)
    ensures -1 <= retval <= 1
    ensures retval == 1 ==> r.failed <= 1 && (serv != [] <==> WantsAuthority(r, name))
    ensures retval == 0 ==> serv == [] && (r.failed > 1 || WantsAuthority(r, name))
    ensures serv != [] ==> hops > 0
    ensures AllNew(serv, [q] + qslist, env.isLocal)
    ensures LogOk(log, hops, |qhlist|)
    ensures retval >= 0 && r.failed <= 1 && WantsAuthority(r, name) && hops > 0 ==>
      forall i :: 0 <= i < |r.ns| ==> LookedUp(log, ServersOf(r.ns[i], name, env), hops, [Hint(name, thint)] + qhlist)
    decreases hops, 1, 0
  {
    retval, serv, log := 0, [], [];
    if r.failed > 1 { return; }
    if !(r.authServ != 0 && !r.negative && r.aaNeeded) { return 1, [], []; }
    if r.aa {
      var believed := CheckAa(r, name);
      if believed { return 1, [], []; }
    }
    if hops <= 0 { return; }
    for i := 0 to |r.ns|
      invariant retval == (if serv == [] then 0 else 1) && AllNew(serv, [q] + qslist, env.isLocal)
      invariant LogOk(log, hops, |qhlist|)
      invariant forall k :: 0 <= k < i ==> LookedUp(log, ServersOf(r.ns[k], name, env), hops, [Hint(name, thint)] + qhlist)
    {
      var d := r.ns[i];
      if !env.paranoid || Encloses(d.domain, name) {
        // Locally defined NS records override the ones provided by remote servers.
        var more, ok;
        ghost var log1;
        ok, more, log1 := AddServers(q, name, thint, ServersOf(d, name, env), serv, hops, qslist, qhlist, env);
        LogJoins(log, log1, hops, |qhlist|);
        forall k | 0 <= k < i
          ensures LookedUp(log + log1, ServersOf(r.ns[k], name, env), hops, [Hint(name, thint)] + qhlist)
        {
          LookedUpJoins(log, log1, ServersOf(r.ns[k], name, env), hops, [Hint(name, thint)] + qhlist);
        }
        if ok { LookedUpJoins(log, log1, ServersOf(d, name, env), hops, [Hint(name, thint)] + qhlist); }
        serv, log := more, log + log1;
        if !ok { return -1, serv, log; }
        retval := if serv == [] then 0 else 1;
      }
    }
  }

  /** The addresses of the name servers of one domain. */
  method AddServers(q: Servers, name: Name, thint: int, names: seq<Name>, serv0: Servers, hops: int,
                    qslist: seq<Servers>, qhlist: seq<Hint>, env: Env)
    returns (ok: bool, serv: Servers, ghost log: seq<Event>)
    requires hops > 0 && DistinctAddresses([Hint(name, thint)] + qhlist) && AllNew(serv0, [q] + qslist, env.isLocal)
    ensures serv0 <= serv && AllNew(serv, [q] + qslist, env.isLocal)
    ensures LogOk(log, hops, |qhlist|)
    ensures ok ==> LookedUp(log, names, hops, [Hint(name, thint)] + qhlist)
    decreases hops, 0, |names|
  {
    ok, serv, log := true, serv0, [];
    var chain := [Hint(name, thint)] + qhlist;
    for i := 0 to |names|
      invariant serv0 <= serv && AllNew(serv, [q] + qslist, env.isLocal) && LogOk(log, hops, |qhlist|)
      invariant LookedUp(log, names[..i], hops, chain)
    {
      var nsname := names[i];
      var wanted := AlreadyWanted(nsname, chain);
      if !wanted {
        OneMore(nsname, chain);
        var rc, ent;
        ghost var log1;
        rc, ent, log1 := RDnsCachedResolve(nsname, T_A, hops - 1, chain, env);
        LogOneDown(log1, hops, |qhlist|);
        LogJoins(log, log1, hops, |qhlist|);
        LookedUpJoins(log, log1, names[..i], hops, chain);
        log := log + log1;
        if rc == RC_OK {
          var n := if |ent.addrs| < MAXNAMESERVIPS then |ent.addrs| else MAXNAMESERVIPS;
          serv := AddAddresses(serv, ent.addrs[..n], [q] + qslist, env.isLocal);
          ok := *;  // add_qserv may run out of memory
          if !ok { return; }
        }
      }
    }
  }

  lemma OneMore(nsname: Name, chain: seq<Hint>)
    requires DistinctAddresses(chain)
    requires !Wanted(nsname, chain)
    ensures DistinctAddresses([Hint(nsname, T_A)] + chain)
  {
    var c := [Hint(nsname, T_A)] + chain;
    forall i, j | 0 <= i < j < |c| && c[i].tp == T_A && c[j].tp == T_A ensures !SameName(c[i].nm, c[j].nm) {
      assert c[j] == chain[j - 1];
      if i > 0 { assert c[i] == chain[i - 1]; }
    }
  }

  /** r_dns_cached_resolve */
  method RDnsCachedResolve(name: Name, thint: int, hops: int, qhlist: seq<Hint>, env: Env)
    returns (rc: RC, ent: Ent, ghost log: seq<Event>)
    requires hops >= 0 && DistinctAddresses([Hint(name, thint)] + qhlist)
    ensures rc != RC_CACHED && rc != RC_STALE && (rc == RC_OK ==> !ent.negative)
    ensures LogOk(log, hops, |qhlist|) && log != [] && log[0] == Event(Hint(name, thint), hops, qhlist)
    decreases hops, 6, 0
  {
    rc, ent, log := PDnsCachedResolve(None, name, thint, hops, [], qhlist, env);
    if rc == RC_OK || rc == RC_CACHED || rc == RC_STALE {
      rc := if ent.negative then RC_NAMEERR else RC_OK;
    }
  }

  /** p_dns_cached_resolve */
  method PDnsCachedResolve(q: Option<Servers>, name: Name, thint: int, hops: int, qslist: seq<Servers>, qhlist: seq<Hint>, env: Env)
    returns (rc: RC, ent: Ent, ghost log: seq<Event>)
    requires hops >= 0 && DistinctAddresses([Hint(name, thint)] + qhlist)
    ensures LogOk(log, hops, |qhlist|) && log != [] && log[0] == Event(Hint(name, thint), hops, qhlist)
    decreases hops, 5, 0
  {
    var cached: RC, stale: Ent := *, *;  // lookup_cache_status
    ent := stale;
    ghost var here := [Event(Hint(name, thint), hops, qhlist)];
    log := here;
    if cached == RC_OK { return RC_CACHED, ent, log; }
    if cached == RC_NAMEERR || cached == RC_CACHED { return cached, ent, log; }
    var linkdown := *;
    if linkdown { return RC_SERVFAIL, ent, log; }
    var found;
    ghost var log1;
    if q.Some? {
      ghost var got, asked;
      rc, found, got, asked, log1 := PRecursiveQuery(q.value, name, thint, hops, qslist, qhlist, env);
    } else {
      rc, found, log1 := PDnsResolve(name, thint, hops, qhlist, env);
    }
    LogJoins(here, log1, hops, |qhlist|);
    log := here + log1;
    if rc == RC_OK || rc == RC_CACHED || rc == RC_STALE {
      ent := found;
    } else if rc == RC_SERVFAIL && cached == RC_STALE {
      var nopurge := *;
      if nopurge { rc := RC_STALE; }
    }
  }

  /** p_dns_resolve: the configured servers. */
  method PDnsResolve(name: Name, thint: int, hops: int, qhlist: seq<Hint>, env: Env)
    returns (rc: RC, ent: Ent, ghost log: seq<Event>)
    requires hops >= 0 && DistinctAddresses([Hint(name, thint)] + qhlist)
    ensures LogOk(log, hops, |qhlist|)
    decreases hops, 4, 0
  {
    var addrs: seq<Addr> := *;
    if addrs == [] { return RC_SERVFAIL, Ent(false, []), []; }
    ghost var got, asked;
    rc, ent, got, asked, log := PRecursiveQuery(seq(|addrs|, i requires 0 <= i < |addrs| => Server(addrs[i], false)), name, thint, hops, [], qhlist, env);
  }

  /** What has been collected from the servers: nothing yet, an answer that is kept or used,
      with further servers to ask, or an error that ends the search. */
  datatype Collected = Empty | Kept(ent: Ent, serv: Servers) | Broken(rc: RC)

  /** These results of a query end the search: what was saved before is dropped. */
  predicate Ends(rc: RC) { rc == RC_NAMEERR || rc == RC_FATALERR }

  /** One result of a query to server i arrives. */
  method Arrive(q: Servers, i: nat, name: Name, thint: int, rv: RC, r: Reply, e: Ent, c0: Collected, hops: int,
                qslist: seq<Servers>, qhlist: seq<Hint>, env: Env)
    returns (q': Servers, c: Collected, satisfied: bool, ghost log: seq<Event>)
    requires hops >= 0 && DistinctAddresses([Hint(name, thint)] + qhlist)
    requires i < |q| && !c0.Broken? && (c0.Kept? && c0.serv != [] ==> hops > 0)
    ensures q' == q[i := q[i].(done := true)]
    ensures Ends(rv) ==> c == Broken(rv) && log == []
    ensures rv != RC_OK && !Ends(rv) ==> c == c0 && log == []
    ensures rv == RC_OK ==> c == c0 || c == Broken(RC_FATALERR) || (c.Kept? && c.ent == e)
    ensures c.Broken? ==> Ends(c.rc)
    ensures rv == RC_OK ==> c != Empty
    ensures satisfied ==> rv == RC_OK && c.Kept? && c.ent == e
    ensures c.Kept? && c.serv != [] ==> hops > 0
    ensures LogOk(log, hops, |qhlist|)
    decreases hops, 2, 0
  {
    q', c, satisfied, log := q[i := q[i].(done := true)], c0, false, [];
    if Ends(rv) {
      c := Broken(rv);
    } else if rv == RC_OK {
      var authok, serv;
      authok, serv, log := AuthOk(q', name, thint, r, hops, qslist, qhlist, env);
      if authok < 0 { return q', Broken(RC_FATALERR), false, log; }
      var good, better := *, *;
      satisfied := authok > 0 && good;
      if satisfied || better || c == Empty { c := Kept(e, serv); }
    }
  }

  /** What the servers of a referral have led to. */
  datatype Asked = Asked(rc: RC, ent: Ent)

  /** p_recursive_query, as far as the recursion is concerned: results arrive in any order,
      each answer is judged; in the end the authoritative servers, if there are any, are
      asked. What is returned is one of the answers that came (`got`), or what the further
      resolution has returned. ParallelQuery.RecursiveQuery shows that no server answers more
      than twice. */
  method PRecursiveQuery(q0: Servers, name: Name, thint: int, hops: int, qslist: seq<Servers>, qhlist: seq<Hint>, env: Env)
    returns (rc: RC, ent: Ent, ghost got: seq<Ent>, ghost asked: Option<Asked>, ghost log: seq<Event>)
    requires hops >= 0 && DistinctAddresses([Hint(name, thint)] + qhlist)
    ensures rc == RC_OK ==> ent in got || asked == Some(Asked(RC_OK, ent))
    ensures rc == RC_CACHED || rc == RC_STALE ==> asked == Some(Asked(rc, ent))
    ensures got == [] ==> asked == None && rc != RC_OK
    ensures asked.Some? ==> hops > 0 && Event(Hint(name, thint), hops - 1, qhlist) in log
    ensures asked.Some? && (asked.value.rc == RC_OK || asked.value.rc == RC_CACHED || asked.value.rc == RC_NAMEERR) ==>
      rc == asked.value.rc
    ensures LogOk(log, hops, |qhlist|)
    decreases hops, 3, 0
  {
    var q, c := q0, Empty;
    log, got, asked := [], [], None;
    ent := Ent(false, []);
    var satisfied := false;
    for round := 0 to 2 * |q0|
      invariant |q| == |q0| && LogOk(log, hops, |qhlist|) && (c.Kept? && c.serv != [] ==> hops > 0)
      invariant (satisfied ==> c.Kept?) && (c.Kept? ==> c.ent in got) && (c.Broken? ==> Ends(c.rc))
    {
      var i: nat, rv: RC, r: Reply, e: Ent := *, *, *, *;
      if !satisfied && !c.Broken? && i < |q| {
        ghost var log1;
        q, c, satisfied, log1 := Arrive(q, i, name, thint, rv, r, e, c, hops, qslist, qhlist, env);
        if rv == RC_OK { got := got + [e]; }
        LogJoins(log, log1, hops, |qhlist|);
        log := log + log1;
      }
    }
    var pollFailed: bool := *;
    if c.Broken? { return if c.rc == RC_FATALERR then RC_SERVFAIL else c.rc, ent, got, asked, log; }
    if pollFailed && !satisfied { return RC_SERVFAIL, ent, got, asked, log; }
    if c == Empty {  // what the last query has returned
      rc :| rc != RC_OK && rc != RC_CACHED && rc != RC_STALE;
      return;
    }
    rc, ent := RC_OK, c.ent;
    if c.serv != [] {
      var claimed, found := *, ent;
      ghost var log1;
      rc, found, log1 := PDnsCachedResolve(Some(c.serv), name, thint, hops - 1, [q] + qslist, qhlist, env);
      asked := Some(Asked(rc, found));
      LogSameDepth(log1, hops, |qhlist|);
      LogJoins(log, log1, hops, |qhlist|);
      assert log1[0] in log + log1;
      log := log + log1;
      if rc == RC_OK || rc == RC_CACHED || (rc == RC_STALE && !claimed) {
        ent := found;
      } else if rc != RC_NAMEERR && claimed {
        rc := RC_OK;  // the saved reply
      }
    }
  }

  /** A resolution from outside: the recursion ends, every lookup on the way has hops left, and no chain of nested
      lookups is longer than the hop count or asks for the same address twice. */
  method Resolve(name: Name, thint: int, env: Env) returns (rc: RC, ent: Ent, ghost log: seq<Event>)
    ensures rc != RC_CACHED && rc != RC_STALE && (rc == RC_OK ==> !ent.negative)
    ensures forall i :: 0 <= i < |log| ==>
      0 <= log[i].hops <= MAX_HOPS && |log[i].above| <= MAX_HOPS - log[i].hops
      && DistinctAddresses([log[i].hint] + log[i].above)
    ensures log != [] && log[0] == Event(Hint(name, thint), MAX_HOPS, [])
  {
    rc, ent, log := RDnsCachedResolve(name, thint, MAX_HOPS, [], env);
    assert LogOk(log, MAX_HOPS, 0);
  }
}
