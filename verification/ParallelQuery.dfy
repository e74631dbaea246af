/** Querying several servers in parallel (p_recursive_query in dns_query.c): batches of
    queries, multiplexed with poll. Events, timeouts and the quality of answers are arbitrary
    unless the network is silent. Of the events that change nothing (a datagram that does not
    belong to the query, a socket that is not ready after all) there are `noise` in all. */
module ParallelQuery {
  import opened DnsConstants
  import opened QueryMachine

  type Queries = seq<QueryStat>

  predicate Distinct(q: Queries) { forall i, j :: 0 <= i < j < |q| ==> q[i] != q[j] }

  ghost predicate Sound(s: QueryStat)
    reads s
  {
    s.Valid() && s.arcount <= 1
  }

  // ---- The work that is left

  /** More than there is to do in one transmission. */
  function Unit(s: QueryStat): (n: nat)
    ensures n > 0
  {
    MAXRECV + 2 + LENGTH_PREFIX + s.MaxTransl()
  }

  /** A bound on the steps that the query can still take, events without effect aside. */
  function WorkOf(s: QueryStat): nat
    reads s
  {
    s.Units() * Unit(s) + s.Phase()
  }

  function Sum(w: seq<nat>): (n: nat) { if w == [] then 0 else w[0] + Sum(w[1..]) }

  lemma {:induction false} SumUpdate(w: seq<nat>, i: nat, v: nat)
    requires i < |w|
    ensures Sum(w[i := v]) == Sum(w) - w[i] + v
  {
    if i == 0 {
      assert w[0 := v][1..] == w[1..];
    } else {
      SumUpdate(w[1..], i - 1, v);
      assert w[i := v][1..] == w[1..][i - 1 := v];
    }
  }

  ghost function Works(q: Queries): (w: seq<nat>)
    reads set i | 0 <= i < |q| :: q[i]
    ensures |w| == |q| && forall i :: 0 <= i < |q| ==> w[i] == WorkOf(q[i])
  {
    seq(|q|, i requires 0 <= i < |q| reads set i | 0 <= i < |q| :: q[i] => WorkOf(q[i]))
  }

  /** For all servers together. */
  ghost function Total(q: Queries): nat
    reads set i | 0 <= i < |q| :: q[i]
  {
    Sum(Works(q))
  }

  /** A step of the machine, in terms of work. */
  lemma WorkLess(s: QueryStat, u: nat, p: nat, n: nat, n': nat)
    requires s.Valid() && Down(u, p, n, s.Units(), s.Phase(), n')
    ensures WorkOf(s) + n' < u * Unit(s) + p + n
  {
    assert s.Phase() < Unit(s);
    hide QueryStat.Valid;
    hide QueryStat.Units;
    hide QueryStat.Phase;
    hide Unit;
    if s.Units() < u { UnitsLess(s.Units(), u, Unit(s)); }
  }

  lemma UnitsLess(u': nat, u: nat, unit: nat)
    requires u' < u
    ensures u' * unit + unit <= u * unit
  {
    assert (u - u' - 1) * unit >= 0;
    assert u * unit == (u - u' - 1) * unit + u' * unit + unit;
  }

  lemma UnitsSame(u': nat, u: nat, unit: nat)
    requires u' <= u
    ensures u' * unit <= u * unit
  {
    if u' < u { UnitsLess(u', u, unit); }
  }

  // ---- Answers

  /** How many answers may still come from this query: a truncated one is asked for again. */
  function Credit(s: QueryStat): nat
    reads s
  {
    if s.state == QS_DONE || s.state == QS_CANCELED then 0 else Answers(s.qm)
  }

  function Answers(qm: Protocol): nat { if qm == UDP_TCP then 2 else 1 }

  /** The answers judged so far, by server: their qualities. */
  type Seen = seq<seq<int>>

  /** No server gives more answers than its protocol allows. */
  ghost predicate Counted(q: Queries, seen: Seen)
    reads set i | 0 <= i < |q| :: q[i]
  {
    |seen| == |q| && forall i :: 0 <= i < |q| ==> |seen[i]| + Credit(q[i]) <= Answers(q[i].qm0)
  }

  /** Some server from a on, below b, is asked over TCP first. */
  predicate FallsBack(q: Queries, a: nat, b: nat)
  {
    exists i :: a <= i < b && i < |q| && q[i].qm0 == TCP_UDP
  }

  predicate AllSilent(q: Queries) { forall i :: 0 <= i < |q| ==> q[i].net.Silent? }

  /** In a silent network, those started wait, and those from j on still do as they began. */
  ghost predicate Silence(q: Queries, j: nat, mc: nat)
    reads set i | 0 <= i < |q| :: q[i]
  {
    && mc <= |q| && AllSilent(q)
    && (forall i :: 0 <= i < mc ==> q[i].Unanswered())
    && (forall i :: j <= i < mc ==> q[i].qm == q[i].qm0)
  }

  /** The queries below dc are done, those below mc have been started, the others have not. */
  ghost predicate Phase(q: Queries, dc: nat, mc: nat)
    reads set i | 0 <= i < |q| :: q[i]
  {
    && dc <= mc <= |q|
    && (forall i :: 0 <= i < |q| ==> Sound(q[i]))
    && (forall i :: 0 <= i < dc ==> q[i].state == QS_DONE)
    && (forall i :: dc <= i < mc ==> q[i].state == QS_DONE || Waiting(q[i].state))
    && (forall i :: mc <= i < |q| ==> q[i].Fresh())
  }

  /** A saved answer: its quality and the query it came from. */
  datatype Saved = Saved(qval: int, from: nat)

  datatype Best = Nothing | Best(s: Saved)

  /** save_query_result keeps the better answer. */
  function Save(best: Best, qval: int, from: nat): (b: Best)
    ensures b.Best? && b.s.qval >= qval && (best.Best? ==> b.s.qval >= best.s.qval)
    ensures b == best || b.s == Saved(qval, from)
  {
    if best.Best? && qval <= best.s.qval then best else Best(Saved(qval, from))
  }

  /** What comes of asking one server. */
  datatype Verdict = Good | Failed | Stop | Continue

  /** The saved answer is the best of those seen. */
  predicate Saves(best: Best, seen: Seen)
  {
    if best.Nothing? then forall k :: 0 <= k < |seen| ==> seen[k] == []
    else
      && best.s.from < |seen| && best.s.qval in seen[best.s.from]
      && forall k, v :: 0 <= k < |seen| && v in seen[k] ==> v <= best.s.qval
  }

  /** The result and the verdict fit together: a success is backed by an answer. */
  predicate Backed(rv: Result, v: Verdict, best: Best)
  {
    && (rv == Again ==> v == Continue)
    && (rv == Code(RC_OK) ==> v == Good || v == Failed || (v == Continue && best.Best?))
    && (v == Good ==> rv == Code(RC_OK))
  }

  const W_AUTHOK := 8
  const W_NOTFAILED := 2

  function Quality(authok: int, failed: int, tc: bool): int
  {
    authok * W_AUTHOK + (3 - failed) * W_NOTFAILED + (if tc then 0 else 1)
  }

  // ---- One server

  /** p_exec_query, in terms of work. */
  method Execute(s: QueryStat, noise: nat) returns (rv: Result, noise': nat)
    requires Sound(s)
    modifies s
    ensures Sound(s) && noise' <= noise
    ensures if rv == Again then Waiting(s.state) else s.state == QS_DONE
    ensures s.qm == old(s.qm) || (old(s.qm) == TCP_UDP && s.qm == UDP_ONLY)
    ensures WorkOf(s) + noise' <= old(WorkOf(s)) + noise
    ensures old(s.state) != QS_DONE && old(s.state) != QS_CANCELED ==> WorkOf(s) + noise' < old(WorkOf(s)) + noise
    ensures old(s.state) == QS_DONE || old(s.state) == QS_CANCELED ==> rv == Code(RC_SERVFAIL)
    ensures s.net.Silent? && (old(s.state) == QS_INITIAL || (old(s.Unanswered()) && noise > 0)) ==>
      rv == Again && s.Unanswered() && s.qm == old(s.qm) && noise' == if old(s.state) == QS_INITIAL then noise else noise - 1
  {
    ghost var u, p := s.Units(), s.Phase();
    rv, noise' := s.Exec(true, noise);
    hide QueryStat.Valid;
    hide QueryStat.Units;
    hide QueryStat.Phase;
    hide Unit;
    if Down(u, p, noise, s.Units(), s.Phase(), noise') { WorkLess(s, u, p, noise, noise'); }
  }

  /** The fallback to UDP, in terms of work. */
  method GiveUpTcp(s: QueryStat, noise: nat) returns (rv: Result, noise': nat)
    requires Sound(s) && s.Tentative()
    modifies s
    ensures Sound(s) && noise' <= noise && s.qm == UDP_ONLY
    ensures if rv == Again then Waiting(s.state) else s.state == QS_DONE
    ensures WorkOf(s) + noise' < old(WorkOf(s)) + noise
    ensures s.net.Silent? ==> rv == Again && s.Unanswered() && noise' == noise
  {
    ghost var u, p := s.Units(), s.Phase();
    rv, noise' := s.FallBack(noise);
    hide QueryStat.Valid;
    hide QueryStat.Units;
    hide QueryStat.Phase;
    hide Unit;
    WorkLess(s, u, p, noise, noise');
  }

  /** switch_to_tcp, in terms of work. */
  method StartOver(s: QueryStat)
    requires Sound(s) && s.state == QS_DONE && s.qm == UDP_TCP
    modifies s
    ensures Sound(s) && s.state == QS_INITIAL && s.qm == TCP_ONLY && WorkOf(s) <= old(WorkOf(s))
  {
    ghost var u := s.Units();
    s.SwitchToTcp();
    hide QueryStat.Valid;
    hide QueryStat.Units;
    hide QueryStat.Phase;
    hide Unit;
    UnitsSame(s.Units(), u, Unit(s));
  }

  /** p_exec_query and the judgement of its answer, with the retry over TCP. */
  method Ask(s: QueryStat, me: nat, fallback: bool, noise: nat, best: Best, ghost seen: Seen)
    returns (rv: Result, v: Verdict, noise': nat, best': Best, ghost seen': Seen)
    requires Sound(s) && me < |seen| && Saves(best, seen) && (fallback ==> s.Tentative())
    modifies s
    ensures Sound(s) && s.state != QS_INITIAL && Backed(rv, v, best') && (v == Continue ==> Saves(best', seen'))
    ensures |seen'| == |seen| && seen' == seen[me := seen'[me]]
    ensures |seen'[me]| + Credit(s) <= |seen[me]| + old(Credit(s))
    ensures noise' <= noise && WorkOf(s) + noise' <= old(WorkOf(s)) + noise
    ensures old(s.state) != QS_DONE && old(s.state) != QS_CANCELED ==> WorkOf(s) + noise' < old(WorkOf(s)) + noise
    ensures s.net.Silent? && (fallback || old(s.state) == QS_INITIAL || (old(s.Unanswered()) && noise > 0)) ==>
      rv == Again && best' == best && seen' == seen && s.Unanswered()
    ensures s.net.Silent? && !fallback && (old(s.state) == QS_INITIAL || (old(s.Unanswered()) && noise > 0)) ==>
      s.qm == old(s.qm) && noise' == if old(s.state) == QS_INITIAL then noise else noise - 1
    ensures v != Continue ==> s.state == QS_DONE
    ensures rv == Again ==> v == Continue && Waiting(s.state)
    ensures rv != Again ==> s.state == QS_DONE
  {
    hide Saves;
    hide Save;
    hide Quality;
    hide WorkOf;
    hide QueryStat.Valid;
    best', seen', v := best, seen, Continue;
    if fallback {
      rv, noise' := GiveUpTcp(s, noise);
    } else {
      rv, noise' := Execute(s, noise);
    }
    while rv == Code(RC_OK)
      invariant Sound(s) && s.state != QS_INITIAL && Saves(best', seen') && v == Continue
      invariant |seen'| == |seen| && seen' == seen[me := seen'[me]]
      invariant |seen'[me]| + (if rv == Code(RC_OK) then Answers(s.qm) else Credit(s)) <= |seen[me]| + old(Credit(s))
      invariant noise' <= noise && WorkOf(s) + noise' <= old(WorkOf(s)) + noise
      invariant old(s.state) != QS_DONE && old(s.state) != QS_CANCELED ==> WorkOf(s) + noise' < old(WorkOf(s)) + noise
      invariant s.net.Silent? && (fallback || old(s.state) == QS_INITIAL || (old(s.Unanswered()) && noise > 0)) ==>
        rv == Again && best' == best && seen' == seen && s.Unanswered()
      invariant s.net.Silent? && !fallback && (old(s.state) == QS_INITIAL || (old(s.Unanswered()) && noise > 0)) ==>
        s.qm == old(s.qm) && noise' == if old(s.state) == QS_INITIAL then noise else noise - 1
      invariant if rv == Again then Waiting(s.state) else s.state == QS_DONE
      decreases Switches(s.qm), rv == Code(RC_OK)
    {
      var authok: int := *;  // auth_ok
      var qval := Quality(authok, s.failed, s.tc);
      ghost var before := seen';
      seen' := seen'[me := seen'[me] + [qval]];
      if authok < 0 { return rv, Failed, noise', best', seen'; }
      if authok > 0 && s.failed == 0 && !(s.qm == UDP_TCP && s.tc) { return rv, Good, noise', best', seen'; }
      SavesMore(best', before, me, qval);
      best' := Save(best', qval, me);
      if !(s.qm == UDP_TCP && s.tc) { return; }
      StartOver(s);
      rv, noise' := Execute(s, noise');
    }
    if rv == Code(RC_NAMEERR) || rv == Code(RC_FATALERR) { v := Stop; }
  }

  lemma SavesMore(best: Best, seen: Seen, me: nat, qval: int)
    requires Saves(best, seen) && me < |seen|
    ensures Saves(Save(best, qval, me), seen[me := seen[me] + [qval]])
  {
    var more := seen[me := seen[me] + [qval]];
    forall k, v | 0 <= k < |more| && v in more[k] ensures v == qval || v in seen[k] {}
    assert qval in more[me];
  }

  /** After the last question: what lies beyond mc was not started, or is done. */
  ghost predicate Closing(q: Queries, dc: nat, mc: nat)
    reads set i | 0 <= i < |q| :: q[i]
  {
    && dc <= mc <= |q|
    && (forall i :: 0 <= i < |q| ==> Sound(q[i]))
    && (forall i :: 0 <= i < dc ==> q[i].state == QS_DONE)
    && (forall i :: dc <= i < mc ==> q[i].state != QS_INITIAL)
    && (forall i :: mc <= i < |q| ==> q[i].Fresh() || q[i].state == QS_DONE)
  }

  lemma PhaseCloses(q: Queries, dc: nat, i: nat)
    requires i < |q| && Phase(q, dc, i + 1) && dc <= i && q[i].state == QS_DONE
    ensures Closing(q, dc, i)
  {}

  /** Asks server i, which is either the next one or already under way. */
  method AskNext(q: Queries, i: nat, fallback: bool, dc: nat, mc: nat, noise: nat, best: Best, ghost seen: Seen)
    returns (rv: Result, v: Verdict, noise': nat, best': Best, ghost seen': Seen)
    requires Distinct(q) && Phase(q, dc, mc) && dc <= i <= mc && i < |q| && Saves(best, seen) && Counted(q, seen)
    requires fallback ==> q[i].Tentative()
    modifies q[i]
    ensures Phase(q, dc, if i == mc then mc + 1 else mc) && Backed(rv, v, best')
    ensures Counted(q, seen') && (v == Continue ==> Saves(best', seen'))
    ensures v != Continue ==> q[i].state == QS_DONE
    ensures rv == Again ==> v == Continue && q[i].state != QS_DONE
    ensures noise' <= noise && Total(q) + noise' <= old(Total(q)) + noise
    ensures old(q[i].state) != QS_DONE && old(q[i].state) != QS_CANCELED ==> Total(q) + noise' < old(Total(q)) + noise
    ensures q[i].net.Silent? && (fallback || i == mc || (old(q[i].Unanswered()) && noise > 0)) ==>
      rv == Again && best' == best && seen' == seen && q[i].Unanswered()
    ensures q[i].net.Silent? && !fallback && (i == mc || (old(q[i].Unanswered()) && noise > 0)) ==>
      q[i].qm == old(q[i].qm) && noise' == if i == mc then noise else noise - 1
  {
    hide Saves;
    hide Backed;
    hide WorkOf;
    hide Sum;
    hide QueryStat.Valid;
    ghost var w := Works(q);
    rv, v, noise', best', seen' := Ask(q[i], i, fallback, noise, best, seen);
    TotalAfter(q, w, i);
  }

  /** One query has taken a step. */
  lemma TotalAfter(q: Queries, w: seq<nat>, i: nat)
    requires i < |q| == |w| && forall k :: 0 <= k < |q| && k != i ==> w[k] == WorkOf(q[k])
    ensures Total(q) == Sum(w) - w[i] + WorkOf(q[i])
  {
    hide WorkOf;
    hide Sum;
    assert Works(q) == w[i := WorkOf(q[i])];
    SumUpdate(w, i, WorkOf(q[i]));
  }

  /** One step of the loops of a batch: server i is asked if `ask`; dc moves on while the
      queries are done in order. */
  method Visit(q: Queries, i: nat, ask: bool, dc0: nat, ghost j: nat, mc: nat, noise0: nat, rv0: Result,
               best0: Best, ghost seen0: Seen)
    returns (dc: nat, rv: Result, v: Verdict, noise: nat, best: Best, ghost seen: Seen)
    requires Distinct(q) && Phase(q, dc0, mc) && dc0 <= i <= mc && i < |q| && (i == mc ==> ask)
    requires Saves(best0, seen0) && Counted(q, seen0) && Backed(rv0, Continue, best0)
    modifies q[i]
    ensures Phase(q, dc, if i == mc then mc + 1 else mc) && Backed(rv, v, best)
    ensures Counted(q, seen) && (v == Continue ==> Saves(best, seen))
    ensures dc0 <= dc <= i + 1 && (dc == i + 1 ==> q[i].state == QS_DONE && dc0 == i) && (dc <= i ==> dc == dc0)
    ensures v != Continue ==> q[i].state == QS_DONE && dc == dc0 && ask
    ensures ask && rv == Again ==> q[i].state != QS_DONE
    ensures !ask ==> rv == rv0 && q[i].state == old(q[i].state) && v == Continue && noise == noise0
    ensures noise <= noise0 && Total(q) + noise <= old(Total(q)) + noise0
    ensures ask && old(q[i].state) != QS_DONE && old(q[i].state) != QS_CANCELED ==> Total(q) + noise < old(Total(q)) + noise0
    ensures old(Silence(q, j, mc)) && j <= mc && (i == mc || !ask || noise0 > 0) ==>
      && v == Continue && dc == dc0 && best == best0 && seen == seen0
      && Silence(q, j, if i == mc then mc + 1 else mc) && noise == if i < mc && ask then noise0 - 1 else noise0
  {
    hide Saves;
    hide Backed;
    hide Counted;
    hide Total;
    dc, rv, v, noise, best, seen := dc0, rv0, Continue, noise0, best0, seen0;
    if ask { rv, v, noise, best, seen := AskNext(q, i, false, dc, mc, noise, best, seen); }
    if v == Continue && q[i].state == QS_DONE && i == dc { dc := dc + 1; }
  }

  /** The first loop of a batch: every new server is asked once. */
  method StartBatch(q: Queries, dc0: nat, j: nat, lim: nat, noise0: nat, best0: Best, ghost seen0: Seen)
    returns (dc: nat, mc: nat, rv: Result, v: Verdict, noise: nat, best: Best, ghost seen: Seen)
    requires Distinct(q) && Phase(q, dc0, j) && j < lim <= |q| && Saves(best0, seen0) && Counted(q, seen0)
    modifies set i | 0 <= i < |q| :: q[i]
    ensures Backed(rv, v, best) && Counted(q, seen) && (v == Continue ==> Saves(best, seen))
    ensures old(Silence(q, j, j)) && dc0 < lim ==>
      v == Continue && Silence(q, j, lim) && dc == dc0 && noise == noise0 && best == best0 && seen == seen0
    ensures if v == Continue then mc == lim && Phase(q, dc, mc) else mc <= lim && Closing(q, dc, mc)
    ensures v == Continue && dc == mc ==> rv != Again
    ensures noise <= noise0 && Total(q) + noise <= old(Total(q)) + noise0
  {
    BackedFailure(best0);
    hide Saves;
    hide Backed;
    hide Closing;
    hide Sound;
    hide Silence;
    hide Counted;
    hide Total;
    dc, mc, rv, v, noise, best, seen := dc0, lim, Again, Continue, noise0, best0, seen0;
    var i := dc0;
    while i < lim
      invariant dc0 <= dc <= i <= lim && v == Continue && Saves(best, seen) && Backed(rv, v, best) && Counted(q, seen)
      invariant Phase(q, dc, if i < j then j else i)
      invariant old(Silence(q, j, j)) ==>
        Silence(q, j, if i < j then j else i) && dc == dc0 && noise == noise0 && best == best0 && seen == seen0
      invariant i == lim && rv == Again ==> q[lim - 1].state != QS_DONE
      invariant noise <= noise0 && Total(q) + noise <= old(Total(q)) + noise0
    {
      dc, rv, v, noise, best, seen := Visit(q, i, i >= j, dc, j, if i < j then j else i, noise, rv, best, seen);
      if v != Continue {
        mc := i;
        PhaseCloses(q, dc, i);
        return;
      }
      i := i + 1;
    }
  }

  /** How many queries of the batch are not done. */
  method Pending(q: Queries, dc: nat, mc: nat) returns (pc: nat)
    requires Phase(q, dc, mc)
    ensures pc == 0 <==> forall i :: dc <= i < mc ==> q[i].state == QS_DONE
  {
    pc := 0;
    for i := dc to mc
      invariant pc == 0 <==> forall k :: dc <= k < i ==> q[k].state == QS_DONE
    {
      if q[i].state != QS_DONE { pc := pc + 1; }
    }
  }

  /** poll has timed out: tentative TCP queries fall back to UDP. */
  method TimedOut(q: Queries, dc: nat, j: nat, mc: nat, noise0: nat, best0: Best, ghost seen0: Seen)
    returns (again: bool, rv: Result, v: Verdict, noise: nat, best: Best, ghost seen: Seen)
    requires Distinct(q) && Phase(q, dc, mc) && j <= mc && Saves(best0, seen0) && Counted(q, seen0)
    modifies set i | 0 <= i < |q| :: q[i]
    ensures Phase(q, dc, mc) && Backed(rv, v, best) && Counted(q, seen) && (v == Continue ==> Saves(best, seen))
    ensures rv == Again ==> FallsBack(q, j, mc)
    ensures noise <= noise0 && Total(q) + noise + (if again then 1 else 0) <= old(Total(q)) + noise0
    ensures old(Silence(q, j, mc)) ==>
      && v == Continue && best == best0 && seen == seen0 && Silence(q, mc, mc)
      && (rv == Again <==> FallsBack(q, j, mc))
  {
    hide Saves;
    hide Backed;
    hide Counted;
    hide Silence;
    hide Sound;
    hide FallsBack;
    hide Total;
    BackedFailure(best0);
    again, rv, v, noise, best, seen := false, Code(RC_SERVFAIL), Continue, noise0, best0, seen0;
    NobodyThere(q, j);
    for i := j to mc
      invariant Phase(q, dc, mc) && Saves(best, seen) && v == Continue && Backed(rv, v, best) && Counted(q, seen)
      invariant rv == Again ==> FallsBack(q, j, i)
      invariant noise <= noise0 && Total(q) + noise + (if again then 1 else 0) <= old(Total(q)) + noise0
      invariant old(Silence(q, j, mc)) ==>
        best == best0 && seen == seen0 && Silence(q, i, mc) && (rv == Again <==> FallsBack(q, j, i))
    {
      OneMoreServer(q, j, i);
      var fell;
      fell, rv, v, noise, best, seen := TimeOutOne(q, dc, i, mc, noise, rv, best, seen);
      again := again || fell;
      if v != Continue { return; }
    }
  }

  /** One server has not answered in time. */
  method TimeOutOne(q: Queries, dc: nat, i: nat, mc: nat, noise0: nat, rv0: Result, best0: Best, ghost seen0: Seen)
    returns (fell: bool, rv: Result, v: Verdict, noise: nat, best: Best, ghost seen: Seen)
    requires Distinct(q) && Phase(q, dc, mc) && i < mc && Saves(best0, seen0) && Counted(q, seen0)
    requires Backed(rv0, Continue, best0)
    modifies q[i]
    ensures Phase(q, dc, mc) && Backed(rv, v, best) && Counted(q, seen) && (v == Continue ==> Saves(best, seen))
    ensures rv == Again ==> rv0 == Again || q[i].qm0 == TCP_UDP
    ensures v != Continue ==> rv != Again
    ensures noise <= noise0 && Total(q) + noise + (if fell then 1 else 0) <= old(Total(q)) + noise0
    ensures old(Silence(q, i, mc)) ==>
      && v == Continue && best == best0 && seen == seen0 && Silence(q, i + 1, mc)
      && (rv == Again <==> rv0 == Again || q[i].qm0 == TCP_UDP)
  {
    hide Saves;
    hide Backed;
    hide Counted;
    hide Total;
    fell, rv, v, noise, best, seen := false, rv0, Continue, noise0, best0, seen0;
    MarkUnresponsive(q, dc, mc, i, seen);
    if q[i].Tentative() {
      fell := true;
      rv, v, noise, best, seen := AskNext(q, i, true, if i < dc then i else dc, mc, noise, best, seen);
    }
  }

  lemma NobodyThere(q: Queries, j: nat)
    ensures !FallsBack(q, j, j)
  {}

  lemma OneMoreServer(q: Queries, j: nat, i: nat)
    requires j <= i < |q|
    ensures FallsBack(q, j, i + 1) <==> FallsBack(q, j, i) || q[i].qm0 == TCP_UDP
  {
    if q[i].qm0 == TCP_UDP { assert j <= i < i + 1; }
  }

  /** Servers that did not answer may be tested later. */
  method MarkUnresponsive(q: Queries, ghost dc: nat, ghost mc: nat, i: nat, ghost seen: Seen)
    requires Distinct(q) && Phase(q, dc, mc) && i < mc && Counted(q, seen)
    modifies q[i]
    ensures Phase(q, dc, mc) && Counted(q, seen) && Total(q) == old(Total(q))
    ensures q[i].state == old(q[i].state) && q[i].qm == old(q[i].qm) && q[i].iolen == old(q[i].iolen)
  {
    hide WorkOf;
    hide Sum;
    ghost var w := Works(q);
    Mark(q[i]);
    TotalAfter(q, w, i);
  }

  method Mark(s: QueryStat)
    requires Sound(s)
    modifies s
    ensures Sound(s) && WorkOf(s) == old(WorkOf(s)) && Credit(s) == old(Credit(s))
    ensures s.state == old(s.state) && s.qm == old(s.qm) && s.iolen == old(s.iolen) && (old(s.Fresh()) ==> s.Fresh())
  {
    if s.state != QS_DONE && s.needsTesting != 0 { s.needsTesting := 2; }
  }

  /** poll has reported events: the queries concerned go on. */
  method Handle(q: Queries, dc0: nat, ghost j: nat, mc: nat, noise0: nat, best0: Best, ghost seen0: Seen)
    returns (dc: nat, handled: nat, rv: Result, v: Verdict, noise: nat, best: Best, ghost seen: Seen)
    requires Distinct(q) && Phase(q, dc0, mc) && j <= mc && Saves(best0, seen0) && Counted(q, seen0)
    requires exists i :: dc0 <= i < mc && q[i].state != QS_DONE
    modifies set i | 0 <= i < |q| :: q[i]
    ensures Phase(q, dc, mc) && Backed(rv, v, best) && Counted(q, seen) && (v == Continue ==> Saves(best, seen))
    ensures v == Continue && dc == mc ==> rv != Again
    ensures noise <= noise0 && Total(q) + noise + handled <= old(Total(q)) + noise0
    ensures old(Silence(q, j, mc)) && noise0 > 0 ==>
      && v == Continue && dc == dc0 && best == best0 && seen == seen0 && Silence(q, j, mc)
      && noise == noise0 - 1 && handled == 1
  {
    hide Saves;
    hide Backed;
    hide Counted;
    hide Silence;
    hide Total;
    hide Sound;
    BackedFailure(best0);
    dc, handled, rv, v, noise, best, seen := dc0, 0, Code(RC_SERVFAIL), Continue, noise0, best0, seen0;
    ghost var last := mc;
    for i := dc0 to mc
      invariant dc0 <= dc <= i && v == Continue && Phase(q, dc, mc)
      invariant Saves(best, seen) && Backed(rv, v, best) && Counted(q, seen)
      invariant rv == Again ==> dc <= last < i && q[last].state != QS_DONE
      invariant noise <= noise0 && Total(q) + noise + handled <= old(Total(q)) + noise0
      invariant old(Silence(q, j, mc)) && noise0 > 0 ==>
        && dc == dc0 && best == best0 && seen == seen0 && Silence(q, j, mc)
        && handled == (if i == dc0 then 0 else 1) && noise == noise0 - handled
    {
      var event: bool := *;
      SilentWait(q, j, mc, i);
      if AllSilent(q) { event := i == dc0; }
      event := event && q[i].state != QS_DONE;
      dc, rv, v, noise, best, seen := Visit(q, i, event, dc, j, mc, noise, rv, best, seen);
      if event { handled := handled + 1; }
      if v != Continue { return; }
      if event { last := i; }
    }
  }

  lemma SilentWait(q: Queries, j: nat, mc: nat, i: nat)
    requires i < mc
    ensures Silence(q, j, mc) ==> AllSilent(q) && i < |q| && Waiting(q[i].state)
  {}

  /** One round of polling. It may end with the result "call again" if time is up just after
      TCP queries have fallen back to UDP. A round that is not the last brings the queries
      closer to their ends, or uses up an event without effect. */
  method PollRound(q: Queries, dc0: nat, j: nat, mc: nat, globalTimeout: nat, noise0: nat, best0: Best, ghost seen0: Seen)
    returns (dc: nat, rv: Result, v: Verdict, noise: nat, best: Best, ghost seen: Seen, stop: bool)
    requires Distinct(q) && Phase(q, dc0, mc) && dc0 < mc && j <= mc && Saves(best0, seen0) && Counted(q, seen0)
    modifies set i | 0 <= i < |q| :: q[i]
    ensures Phase(q, dc, mc) && Backed(rv, v, best) && Counted(q, seen) && (v == Continue ==> Saves(best, seen))
    ensures v != Continue ==> stop
    ensures (stop || dc == mc) && rv == Again ==> FallsBack(q, j, mc)
    ensures noise <= noise0 && Total(q) + noise + (if stop then 0 else 1) <= old(Total(q)) + noise0
    ensures old(Silence(q, j, mc)) && noise0 > 0 ==>
      !stop && v == Continue && dc == dc0 && best == best0 && seen == seen0 && Silence(q, j, mc) && noise == noise0 - 1
    ensures globalTimeout == 0 && old(Silence(q, j, mc)) && noise0 == 0 ==>
      && stop && v == Continue && dc == dc0 && best == best0 && seen == seen0 && Silence(q, mc, mc)
      && (rv == Again <==> FallsBack(q, j, mc))
  {
    hide Saves;
    hide Counted;
    hide FallsBack;
    hide Sound;
    hide Silence;
    hide Total;
    BackedFailure(best0);
    dc, rv, v, noise, best, seen, stop := dc0, Code(RC_SERVFAIL), Continue, noise0, best0, seen0, true;
    SilentWait(q, j, mc, dc0);
    var pc := Pending(q, dc, mc);
    if pc == 0 {
      dc := mc;
      return;
    }
    var nevents: int := *;
    if AllSilent(q) { nevents := if noise > 0 then 1 else 0; }
    if nevents < 0 {  // poll has failed
      v := Stop;
    } else if nevents == 0 {
      var again;
      again, rv, v, noise, best, seen := TimedOut(q, dc, j, mc, noise, best, seen);
      var elapsed :| 0 <= elapsed;
      if v == Continue && mc == |q| && again && elapsed < globalTimeout {
        rv, stop := Code(RC_SERVFAIL), false;
      }
    } else {
      var handled;
      dc, handled, rv, v, noise, best, seen := Handle(q, dc, j, mc, noise, best, seen);
      stop := v != Continue;
      if !stop && nevents > handled { rv, v, stop := Code(RC_SERVFAIL), Stop, true; }
    }
  }

  /** The second loop of a batch: poll until all queries are done, time is up, or one has a
      good answer. The number of rounds is bounded by the work that is done in them and the
      events without effect. */
  method PollBatch(q: Queries, dc0: nat, j: nat, mc: nat, globalTimeout: nat, noise0: nat, best0: Best, ghost seen0: Seen)
    returns (dc: nat, rv: Result, v: Verdict, noise: nat, best: Best, ghost seen: Seen, ghost rounds: nat)
    requires Distinct(q) && Phase(q, dc0, mc) && j <= mc && Saves(best0, seen0) && Counted(q, seen0)
    modifies set i | 0 <= i < |q| :: q[i]
    ensures Phase(q, dc, mc) && Backed(rv, v, best) && Counted(q, seen) && (v == Continue ==> Saves(best, seen))
    ensures rv == Again ==> FallsBack(q, j, mc)
    ensures noise <= noise0 && rounds + Total(q) + noise <= old(Total(q)) + noise0 + 1
    ensures globalTimeout == 0 && dc0 < mc && old(Silence(q, j, mc)) ==>
      && v == Continue && dc == dc0 && best == best0 && seen == seen0 && Silence(q, mc, mc)
      && (rv == Again <==> FallsBack(q, j, mc)) && noise == 0 && rounds == noise0 + 1
  {
    hide Saves;
    hide Backed;
    hide FallsBack;
    hide Total;
    hide Silence;
    hide Phase;
    hide Counted;
    BackedFailure(best0);
    dc, rv, v, noise, best, seen, rounds := dc0, Code(RC_SERVFAIL), Continue, noise0, best0, seen0, 0;
    var stop := false;
    while dc < mc && !stop
      invariant Phase(q, dc, mc) && Backed(rv, v, best) && Counted(q, seen) && (v == Continue ==> Saves(best, seen))
      invariant (stop || dc == mc) && rv == Again ==> FallsBack(q, j, mc)
      invariant !stop ==> v == Continue
      invariant noise <= noise0 && rounds + Total(q) + noise <= old(Total(q)) + noise0 + if stop then 1 else 0
      invariant globalTimeout == 0 && dc0 < mc && old(Silence(q, j, mc)) ==>
        v == Continue && dc == dc0 && best == best0 && seen == seen0 && rounds + noise == noise0 + if stop then 1 else 0
      invariant globalTimeout == 0 && dc0 < mc && old(Silence(q, j, mc)) ==>
        Silence(q, if stop then mc else j, mc) && (stop ==> noise == 0 && (rv == Again <==> FallsBack(q, j, mc)))
      decreases Total(q) + noise, !stop
    {
      PhaseBounds(q, dc, mc);
      rounds := rounds + 1;
      dc, rv, v, noise, best, seen, stop := PollRound(q, dc, j, mc, globalTimeout, noise, best, seen);
    }
    PhaseBounds(q, dc, mc);
  }

  lemma PhaseBounds(q: Queries, dc: nat, mc: nat)
    requires Phase(q, dc, mc)
    ensures dc <= mc <= |q|
  {}

  lemma BackedFailure(best: Best)
    ensures Backed(Code(RC_SERVFAIL), Continue, best) && Backed(Again, Continue, best)
    ensures Backed(Code(RC_SERVFAIL), Stop, best)
  {}

  /** The label cancel_queries. */
  method CancelRest(q: Queries, dc: nat, mc: nat)
    requires Distinct(q) && Closing(q, dc, mc)
    modifies set i | 0 <= i < |q| :: q[i]
    ensures forall i :: 0 <= i < |q| ==> q[i].Fresh() || q[i].Over()
  {
    for i := dc to mc
      invariant forall k :: 0 <= k < i ==> q[k].Over()
      invariant forall k :: i <= k < mc ==> Sound(q[k]) && q[k].state != QS_INITIAL
      invariant forall k :: mc <= k < |q| ==> q[k].Fresh() || q[k].Over()
    {
      q[i].Cancel();
    }
  }

  /** Where the last batch begins, when n servers are asked. */
  function LastBatch(n: nat, parqueries: nat): nat
    requires parqueries > 0
  {
    if n <= parqueries then 0 else parqueries + LastBatch(n - parqueries, parqueries)
  }

  /** A batch begins here, unless there are no more servers. */
  predicate BatchBegins(j: nat, parqueries: nat)
    requires parqueries > 0
  {
    j == 0 || (j >= parqueries && BatchBegins(j - parqueries, parqueries))
  }

  lemma {:induction false} LastBatchBegins(j: nat, n: nat, parqueries: nat)
    requires parqueries > 0 && BatchBegins(j, parqueries) && j < n <= j + parqueries
    ensures LastBatch(n, parqueries) == j && BatchBegins(j + parqueries, parqueries)
  {
    if j > 0 { LastBatchBegins(j - parqueries, n - parqueries, parqueries); }
  }

  lemma FirstBatchBegins(parqueries: nat)
    requires parqueries > 0
    ensures BatchBegins(0, parqueries) && LastBatch(0, parqueries) == 0
  {}

  lemma AtFirst(q: Queries, seen: Seen)
    requires forall i :: 0 <= i < |q| ==> Sound(q[i]) && q[i].Fresh()
    requires |seen| == |q| && forall i :: 0 <= i < |q| ==> seen[i] == []
    ensures Phase(q, 0, 0) && Saves(Nothing, seen) && Counted(q, seen) && (AllSilent(q) ==> Silence(q, 0, 0))
    ensures Backed(Code(RC_SERVFAIL), Continue, Nothing)
  {}

  lemma PhaseEnds(q: Queries, dc: nat, mc: nat)
    requires Phase(q, dc, mc)
    ensures Closing(q, dc, mc)
  {}

  /** One batch: the queries are started, then poll tells what happens to them. */
  method RunBatch(q: Queries, dc0: nat, j: nat, lim: nat, globalTimeout: nat, noise0: nat, best0: Best, ghost seen0: Seen)
    returns (dc: nat, mc: nat, rv: Result, v: Verdict, noise: nat, best: Best, ghost seen: Seen, ghost rounds: nat)
    requires Distinct(q) && Phase(q, dc0, j) && j < lim <= |q| && Saves(best0, seen0) && Counted(q, seen0)
    modifies set i | 0 <= i < |q| :: q[i]
    ensures Backed(rv, v, best) && Counted(q, seen) && (v == Continue ==> Saves(best, seen))
    ensures if v == Continue then mc == lim && Phase(q, dc, mc) else rv != Again && Closing(q, dc, mc)
    ensures rv == Again ==> FallsBack(q, j, lim)
    ensures noise <= noise0 && rounds + Total(q) + noise <= old(Total(q)) + noise0 + 1
    ensures globalTimeout == 0 && dc0 < lim && old(Silence(q, j, j)) ==>
      && v == Continue && dc == dc0 && best == best0 && seen == seen0 && Silence(q, lim, lim)
      && (rv == Again <==> FallsBack(q, j, lim)) && noise == 0 && rounds == noise0 + 1
  {
    hide FallsBack;
    hide Saves;
    hide Counted;
    hide Silence;
    hide Closing;
    hide Sound;
    hide Total;
    rounds := 0;
    dc, mc, rv, v, noise, best, seen := StartBatch(q, dc0, j, lim, noise0, best0, seen0);
    if v == Continue && dc < mc {
      dc, rv, v, noise, best, seen, rounds := PollBatch(q, dc, j, mc, globalTimeout, noise, best, seen);
      if v != Continue { PhaseEnds(q, dc, mc); }
    }
  }

  /** The batches of p_recursive_query. */
  method RunBatches(q: Queries, parqueries: nat, globalTimeout: nat, noise0: nat)
    returns (dc: nat, mc: nat, rv: Result, v: Verdict, noise: nat, best: Best, ghost seen: Seen, ghost rounds: nat)
    requires Distinct(q) && parqueries > 0 && forall i :: 0 <= i < |q| ==> Sound(q[i]) && q[i].Fresh()
    modifies set i | 0 <= i < |q| :: q[i]
    ensures Closing(q, dc, mc) && Backed(rv, v, best) && Counted(q, seen) && (v == Continue ==> Saves(best, seen))
    ensures rv == Again ==> FallsBack(q, LastBatch(|q|, parqueries), |q|)
    ensures rounds <= old(Total(q)) + noise0 + |q|
    ensures AllSilent(q) && globalTimeout == 0 ==>
      && v == Continue && best == Nothing && (rv == Again <==> FallsBack(q, LastBatch(|q|, parqueries), |q|))
      && (q != [] ==> rounds > noise0)
  {
    hide *;
    dc, mc, rv, v, noise, best, seen, rounds := 0, 0, Code(RC_SERVFAIL), Continue, noise0, Nothing, seq(|q|, i => []), 0;
    AtFirst(q, seen);
    NobodyThere(q, 0);
    FirstBatchBegins(parqueries);
    while mc < |q|
      invariant mc <= |q| && Phase(q, dc, mc) && v == Continue && Counted(q, seen)
      invariant Saves(best, seen) && Backed(rv, v, best)
      invariant mc == |q| || BatchBegins(mc, parqueries)
      invariant rv == Again ==> FallsBack(q, LastBatch(mc, parqueries), mc)
      invariant noise <= noise0 && rounds + Total(q) + noise <= old(Total(q)) + noise0 + mc
      invariant AllSilent(q) && globalTimeout == 0 ==>
        Silence(q, mc, mc) && dc == 0 && best == Nothing && (rv == Again <==> FallsBack(q, LastBatch(mc, parqueries), mc))
      invariant AllSilent(q) && globalTimeout == 0 ==> if mc == 0 then noise == noise0 else rounds > noise0
      decreases |q| - mc
    {
      var j := mc;
      var lim := if j + parqueries > |q| then |q| else j + parqueries;
      LastBatchBegins(j, lim, parqueries);
      ghost var more;
      dc, mc, rv, v, noise, best, seen, more := RunBatch(q, dc, j, lim, globalTimeout, noise, best, seen);
      rounds := rounds + more;
      if v != Continue { return; }
    }
    PhaseEnds(q, dc, mc);
  }

  /** The answer that p_recursive_query uses. */
  datatype Answer = NoAnswer | FromLast | FromSaved(s: Saved)

  /** p_recursive_query, up to the questions to further servers. Every query that was started
      is done or canceled and holds nothing; the others were never started; no server gives
      more than two answers; and the saved answer, if it is used, is the best of those seen.
      A buffer is freed twice only for queries that MayFreeTwice singles out. The number of
      poll rounds is at most the work that is there at first, one more for each batch, and the
      number of events without effect; a silent network uses them all up. The result is -1 only
      if a server in the last batch is asked over TCP first, and in a silent network without a
      global timeout (the default) exactly then. */
  method RecursiveQuery(q: Queries, parqueries: nat, globalTimeout: nat, noise: nat)
    returns (rv: Result, answer: Answer, ghost seen: Seen, ghost rounds: nat)
    requires Distinct(q) && parqueries > 0 && forall i :: 0 <= i < |q| ==> Sound(q[i]) && q[i].Fresh()
    modifies set i | 0 <= i < |q| :: q[i]
    ensures forall i :: 0 <= i < |q| ==> q[i].Fresh() || q[i].Over()
    ensures forall i :: 0 <= i < |q| ==> q[i].sends <= MaxSends(q[i].qm0)
    ensures forall i :: 0 <= i < |q| ==> q[i].freedTwice ==> q[i].MayFreeTwice()
    ensures |seen| == |q| && forall i :: 0 <= i < |q| ==> |seen[i]| <= Answers(q[i].qm0)
    ensures rounds <= old(Total(q)) + noise + |q|
    ensures answer.FromSaved? ==> Saves(Best(answer.s), seen)
    ensures answer != NoAnswer <==> rv == Code(RC_OK)
    ensures rv == Again ==> FallsBack(q, LastBatch(|q|, parqueries), |q|) && Saves(Nothing, seen)
    ensures AllSilent(q) && globalTimeout == 0 ==> (rv == Again <==> FallsBack(q, LastBatch(|q|, parqueries), |q|))
    ensures AllSilent(q) && globalTimeout == 0 && q != [] ==> rounds > noise
  {
    hide FallsBack;
    hide Total;
    var dc, mc, v, left, best;
    dc, mc, rv, v, left, best, seen, rounds := RunBatches(q, parqueries, globalTimeout, noise);
    CancelRest(q, dc, mc);
    if v == Good { return Code(RC_OK), FromLast, seen, rounds; }
    if v == Failed { rv := Code(RC_FATALERR); }
    if v == Continue && best.Best? { return Code(RC_OK), FromSaved(best.s), seen, rounds; }
    if rv == Code(RC_FATALERR) { rv := Code(RC_SERVFAIL); }
    answer := NoAnswer;
  }

  /** One server that is asked over TCP first, and a silent network: the result is -1. */
  method CallAgainReturned(nameLen: nat) returns (rv: Result)
    ensures rv == Again
  {
    var s := new QueryStat(Silent, TCP_UDP, false, true, 0, 0, true, nameLen);
    var q := [s];
    assert q[0].qm0 == TCP_UDP;
    assert LastBatch(1, 2) == 0;
    var answer;
    ghost var seen, rounds;
    rv, answer, seen, rounds := RecursiveQuery(q, 2, 0, 0);
  }

  /** One server that is asked over UDP, and somebody who sends datagrams that do not belong to
      the query: there is no bound on the number of poll rounds. */
  method PollsOnAndOn(n: nat, nameLen: nat) returns (rv: Result, ghost rounds: nat)
    ensures rounds > n && rv != Again
  {
    var s := new QueryStat(Silent, UDP_ONLY, false, true, 0, 0, true, nameLen);
    var q := [s];
    assert q != [] && q[0] == s;
    var answer;
    ghost var seen;
    rv, answer, seen, rounds := RecursiveQuery(q, 2, 0, n);
  }
}
