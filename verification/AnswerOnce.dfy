/** What an answer contains, as opposed to what was added to it: which records are in it twice,
    and which of those wanted are missing. */
module AnswerOnce {
  import opened DnsConstants
  import opened Names
  import opened NameCompression
  import opened RecordData
  import opened RecordCodec
  import opened AnswerRun
  import opened AnswerPlan

  /** The records among these steps. */
  function RecordsOf(steps: seq<Step>): (rs: seq<Record>)
  {
    if steps == [] then [] else (if steps[0].Rr? then [steps[0].r] else []) + RecordsOf(steps[1..])
  }

  /** Some record occurs twice, up to the case of its name. */
  predicate Repeats(rs: seq<Record>) { exists i, j :: 0 <= i < j < |rs| && Alike(rs[i], rs[j]) }

  /** The steps that left nothing in the message. */
  function Taken(cb: Table, offs: nat, steps: seq<Step>, udp: Option<nat>): (k: seq<Step>)
    requires ValidTable(cb) && ValidSteps(steps)
    decreases |steps|
  {
    if steps == [] then []
    else
      (if TakenBack(cb, offs, steps[0], udp) then [steps[0]] else [])
      + Taken(StepTable(cb, offs, steps[0]), offs + |OutBytes(cb, offs, steps[0], udp)|, steps[1..], udp)
  }

  // ---- Sequences

  /** c is put together from a and b, each in its own order. */
  predicate Mixed<T(==)>(c: seq<T>, a: seq<T>, b: seq<T>)
  {
    if c == [] then a == [] && b == []
    else
      || (a != [] && a[0] == c[0] && Mixed(c[1..], a[1..], b))
      || (b != [] && b[0] == c[0] && Mixed(c[1..], a, b[1..]))
  }

  lemma {:induction false} MixedMembers<T>(c: seq<T>, a: seq<T>, b: seq<T>, x: T)
    requires Mixed(c, a, b)
    ensures x in c <==> x in a || x in b
  {
    if c != [] {
      if a != [] && a[0] == c[0] && Mixed(c[1..], a[1..], b) {
        MixedMembers(c[1..], a[1..], b, x);
        assert a == [a[0]] + a[1..];
      } else {
        MixedMembers(c[1..], a, b[1..], x);
        assert b == [b[0]] + b[1..];
      }
      assert c == [c[0]] + c[1..];
    }
  }

  lemma {:induction false} AlikeLaws(a: Record, b: Record, c: Record)
    ensures Alike(a, a) && (Alike(a, b) ==> Alike(b, a)) && (Alike(a, b) && Alike(b, c) ==> Alike(a, c))
  {}

  lemma ListedBy(l: seq<Record>, r: Record) returns (x: Record)
    requires Listed(l, r)
    ensures x in l && Alike(x, r)
  {
    var i :| 0 <= i < |l| && Alike(l[i], r);
    x := l[i];
  }

  lemma ListsMember(l: seq<Record>, x: Record, r: Record)
    requires x in l && Alike(x, r)
    ensures Listed(l, r)
  {}

  /** A list repeats itself if its head is listed again, or the rest repeats itself. */
  lemma RepeatsCons(x: Record, l: seq<Record>)
    ensures Repeats([x] + l) <==> Listed(l, x) || Repeats(l)
  {
    var c := [x] + l;
    if Listed(l, x) {
      var i :| 0 <= i < |l| && Alike(l[i], x);
      AlikeLaws(l[i], x, x);
      assert Alike(c[0], c[i + 1]);
    }
    if Repeats(l) {
      var i, j :| 0 <= i < j < |l| && Alike(l[i], l[j]);
      assert Alike(c[i + 1], c[j + 1]);
    }
    if Repeats(c) {
      var i, j :| 0 <= i < j < |c| && Alike(c[i], c[j]);
      if i == 0 {
        AlikeLaws(c[0], c[j], c[j]);
        assert Alike(l[j - 1], x);
      } else {
        assert Alike(l[i - 1], l[j - 1]);
      }
    }
  }

  /** Two lists together repeat themselves if one does, or if they have a record in common. */
  lemma {:induction false} RepeatsConcat(a: seq<Record>, b: seq<Record>)
    ensures Repeats(a + b) <==> Repeats(a) || Repeats(b) || exists r :: r in a && Listed(b, r)
  {
    if a == [] {
      assert a + b == b;
    } else {
      var x, t := a[0], a[1..];
      RepeatsConcat(t, b);
      assert a == [x] + t && a + b == [x] + (t + b);
      hide Alike;
      RepeatsCons(x, t);
      RepeatsCons(x, t + b);
      ListedMore(t, b, x);
      hide Repeats;
      hide Listed;
      assert forall r :: r in a <==> r == x || r in t;
    }
  }

  /** If a part repeats itself, or the two parts have a record in common, the whole does. */
  lemma {:induction false} MixedRepeats(c: seq<Record>, a: seq<Record>, b: seq<Record>)
    requires Mixed(c, a, b)
    ensures Repeats(a) ==> Repeats(c)
    ensures forall r :: Listed(a, r) && Listed(b, r) ==> Repeats(c)
  {
    if c == [] {
    } else if a != [] && a[0] == c[0] && Mixed(c[1..], a[1..], b) {
      MixedRepeats(c[1..], a[1..], b);
      MixedHead(c, a, b);
    } else {
      MixedRepeats(c[1..], a, b[1..]);
      MixedOther(c, a, b);
    }
  }

  lemma MixedHead(c: seq<Record>, a: seq<Record>, b: seq<Record>)
    requires a != [] && c != [] && a[0] == c[0] && Mixed(c[1..], a[1..], b)
    requires Repeats(a[1..]) ==> Repeats(c[1..])
    requires forall r :: Listed(a[1..], r) && Listed(b, r) ==> Repeats(c[1..])
    ensures Repeats(a) ==> Repeats(c)
    ensures forall r :: Listed(a, r) && Listed(b, r) ==> Repeats(c)
  {
    var x := a[0];
    assert a == [x] + a[1..] && c == [x] + c[1..];
    RepeatsCons(x, a[1..]);
    RepeatsCons(x, c[1..]);
    if Listed(a[1..], x) { MixedLists(c[1..], a[1..], b, x); }
    forall r | Listed(a, r) && Listed(b, r) ensures Repeats(c) {
      ListedMore([x], a[1..], r);
      if !Listed(a[1..], r) {
        assert Alike(x, r);
        var y := ListedBy(b, r);
        AlikeLaws(x, r, r);
        AlikeLaws(y, r, x);
        ListsMember(b, y, x);
        MixedLists(c[1..], a[1..], b, x);
      }
    }
  }

  lemma MixedOther(c: seq<Record>, a: seq<Record>, b: seq<Record>)
    requires b != [] && c != [] && b[0] == c[0] && Mixed(c[1..], a, b[1..])
    requires Repeats(a) ==> Repeats(c[1..])
    requires forall r :: Listed(a, r) && Listed(b[1..], r) ==> Repeats(c[1..])
    ensures Repeats(a) ==> Repeats(c)
    ensures forall r :: Listed(a, r) && Listed(b, r) ==> Repeats(c)
  {
    var x := b[0];
    assert b == [x] + b[1..] && c == [x] + c[1..];
    RepeatsCons(x, c[1..]);
    forall r | Listed(a, r) && Listed(b, r) ensures Repeats(c) {
      ListedMore([x], b[1..], r);
      if !Listed(b[1..], r) {
        assert Alike(x, r);
        var y := ListedBy(a, r);
        AlikeLaws(x, r, r);
        AlikeLaws(y, r, x);
        ListsMember(a, y, x);
        MixedLists(c[1..], a, b[1..], x);
      }
    }
  }

  /** What is listed in a part is listed in the whole, and the other way round. */
  lemma MixedLists(c: seq<Record>, a: seq<Record>, b: seq<Record>, r: Record)
    requires Mixed(c, a, b)
    ensures Listed(c, r) <==> Listed(a, r) || Listed(b, r)
  {
    if Listed(c, r) {
      var x := ListedBy(c, r);
      MixedMembers(c, a, b, x);
      if x in a { ListsMember(a, x, r); } else { ListsMember(b, x, r); }
    }
    if Listed(a, r) {
      var x := ListedBy(a, r);
      MixedMembers(c, a, b, x);
      ListsMember(c, x, r);
    }
    if Listed(b, r) {
      var x := ListedBy(b, r);
      MixedMembers(c, a, b, x);
      ListsMember(c, x, r);
    }
  }

  // ---- Steps

  lemma {:induction false} RecordsConcat(a: seq<Step>, b: seq<Step>)
    ensures RecordsOf(a + b) == RecordsOf(a) + RecordsOf(b)
  {
    if a == [] {
      assert a + b == b;
    } else {
      assert (a + b)[1..] == a[1..] + b && (a + b)[0] == a[0];
      RecordsConcat(a[1..], b);
      Regroup(if a[0].Rr? then [a[0].r] else [], RecordsOf(a[1..]), RecordsOf(b));
    }
  }

  lemma {:induction false} RecordsOfSect(sect: Section, rs: seq<Record>)
    ensures RecordsOf(InSect(sect, rs)) == rs
  {
    if rs != [] {
      assert InSect(sect, rs)[1..] == InSect(sect, rs[1..]);
      RecordsOfSect(sect, rs[1..]);
    }
  }

  lemma {:induction false} NoRecordsOf(o: seq<Step>)
    requires forall i :: 0 <= i < |o| ==> o[i].Opt?
    ensures RecordsOf(o) == []
  {
    if o != [] { NoRecordsOf(o[1..]); }
  }

  /** Where a run goes on. */
  lemma {:induction false} RunConcat(cb: Table, offs: nat, a: seq<Step>, b: seq<Step>, udp: Option<nat>)
    requires ValidTable(cb) && ValidSteps(a) && ValidSteps(b)
    ensures ValidSteps(a + b)
    ensures var cb1, o1 := RunTable(cb, offs, a, udp), offs + |RunBytes(cb, offs, a, udp)|;
      && Kept(cb, offs, a + b, udp) == Kept(cb, offs, a, udp) + Kept(cb1, o1, b, udp)
      && Taken(cb, offs, a + b, udp) == Taken(cb, offs, a, udp) + Taken(cb1, o1, b, udp)
    decreases |a|
  {
    hide OutBytes;
    hide StepTable;
    hide TakenBack;
    hide ValidStep;
    hide ValidTable;
    hide Kept;
    hide Taken;
    hide RunBytes;
    hide RunTable;
    ValidConcat(a, b);
    if a == [] {
      assert a + b == b;
      NoSteps(cb, offs, udp);
    } else {
      var s, x := a[0], OutBytes(cb, offs, a[0], udp);
      var cb1 := StepTable(cb, offs, s);
      assert (a + b)[1..] == a[1..] + b && (a + b)[0] == s;
      RunConcat(cb1, offs + |x|, a[1..], b, udp);
      OneStep(cb, offs, a, udp);
      OneStep(cb, offs, a + b, udp);
      var cb2, o2 := RunTable(cb, offs, a, udp), offs + |RunBytes(cb, offs, a, udp)|;
      var back := TakenBack(cb, offs, s, udp);
      Regroup(if back then [] else [s], Kept(cb1, offs + |x|, a[1..], udp), Kept(cb2, o2, b, udp));
      Regroup(if back then [s] else [], Taken(cb1, offs + |x|, a[1..], udp), Taken(cb2, o2, b, udp));
    }
  }

  lemma Regroup<T>(a: seq<T>, b: seq<T>, c: seq<T>)
    ensures a + (b + c) == a + b + c
  {}

  lemma ValidConcat(a: seq<Step>, b: seq<Step>)
    requires ValidSteps(a) && ValidSteps(b)
    ensures ValidSteps(a + b) && (a != [] ==> ValidSteps(a[1..]))
  {
    hide ValidStep;
  }

  lemma NoSteps(cb: Table, offs: nat, udp: Option<nat>)
    requires ValidTable(cb)
    ensures Kept(cb, offs, [], udp) == [] && Taken(cb, offs, [], udp) == []
    ensures RunBytes(cb, offs, [], udp) == [] && RunTable(cb, offs, [], udp) == cb
  {}

  lemma OneStep(cb: Table, offs: nat, steps: seq<Step>, udp: Option<nat>)
    requires ValidTable(cb) && ValidSteps(steps) && steps != []
    ensures var s, b := steps[0], OutBytes(cb, offs, steps[0], udp);
      var cb1 := StepTable(cb, offs, s);
      && RunBytes(cb, offs, steps, udp) == b + RunBytes(cb1, offs + |b|, steps[1..], udp)
      && RunTable(cb, offs, steps, udp) == RunTable(cb1, offs + |b|, steps[1..], udp)
      && Kept(cb, offs, steps, udp) == (if TakenBack(cb, offs, s, udp) then [] else [s]) + Kept(cb1, offs + |b|, steps[1..], udp)
      && Taken(cb, offs, steps, udp) == (if TakenBack(cb, offs, s, udp) then [s] else []) + Taken(cb1, offs + |b|, steps[1..], udp)
  {
    hide OutBytes;
    hide StepTable;
    hide TakenBack;
    hide ValidStep;
    hide ValidTable;
  }

  predicate Lasting(s: Step) { !(s.Rr? && s.sect == S_ADDITIONAL) }

  /** Only additional records are taken back. */
  lemma {:induction false} OthersKept(cb: Table, offs: nat, steps: seq<Step>, udp: Option<nat>)
    requires ValidTable(cb) && ValidSteps(steps) && forall i :: 0 <= i < |steps| ==> Lasting(steps[i])
    ensures Kept(cb, offs, steps, udp) == steps && Taken(cb, offs, steps, udp) == []
    decreases |steps|
  {
    hide OutBytes;
    hide StepTable;
    hide ValidStep;
    hide ValidTable;
    hide Kept;
    hide Taken;
    if steps == [] {
      NoSteps(cb, offs, udp);
    } else {
      OthersKept(StepTable(cb, offs, steps[0]), offs + |OutBytes(cb, offs, steps[0], udp)|, steps[1..], udp);
      OneStep(cb, offs, steps, udp);
      assert Lasting(steps[0]);
      hide TakenBack;
      assert steps == [steps[0]] + steps[1..];
    }
  }

  /** Every record is kept or taken back. */
  lemma {:induction false} KeptOrTaken(cb: Table, offs: nat, steps: seq<Step>, udp: Option<nat>)
    requires ValidTable(cb) && ValidSteps(steps) && forall i :: 0 <= i < |steps| ==> steps[i].Rr?
    ensures Mixed(RecordsOf(steps), RecordsOf(Kept(cb, offs, steps, udp)), RecordsOf(Taken(cb, offs, steps, udp)))
    decreases |steps|
  {
    hide OutBytes;
    hide StepTable;
    hide TakenBack;
    hide ValidStep;
    hide ValidTable;
    if steps != [] {
      var s := steps[0];
      var cb1, o1 := StepTable(cb, offs, s), offs + |OutBytes(cb, offs, s, udp)|;
      KeptOrTaken(cb1, o1, steps[1..], udp);
      OneStep(cb, offs, steps, udp);
      hide Kept;
      hide Taken;
      var k, t := Kept(cb1, o1, steps[1..], udp), Taken(cb1, o1, steps[1..], udp);
      assert ([s] + k)[1..] == k && ([s] + t)[1..] == t && [] + k == k && [] + t == t;
      assert RecordsOf(steps)[1..] == RecordsOf(steps[1..]);
      assert RecordsOf([s] + k)[1..] == RecordsOf(k) && RecordsOf([s] + t)[1..] == RecordsOf(t);
    }
  }

  // ---- The finished message

  /** What was written after the question section, what of it is in the message, and what was
      taken back. */
  lemma MessageParts(cb: Table, offs: nat, found: seq<Found>, addr: Name -> seq<Record>, edns: Option<nat>, rcode: nat,
                     room: bool, udp: Option<nat>)
    requires ValidTable(cb) && ValidFound(found) && ValidSteps(Plan(found, AllFound, addr, edns, rcode, room))
    ensures var p := Plan(found, AllFound, addr, edns, rcode, room);
      var ks, ts := RecordsOf(Kept(cb, offs, p, udp)), RecordsOf(Taken(cb, offs, p, udp));
      var c := ThirdSection(found, AllFound, addr, room);
      exists k :: ks == AnswerRecords(found) + ForAuthoritySection(found) + k && Mixed(c, k, ts)
  {
    var a, b, c := AnswerRecords(found), ForAuthoritySection(found), ThirdSection(found, AllFound, addr, room);
    var o := if OptFits(AllFound, room) then OptStep(edns, rcode) else [];
    PlanParts(found, AllFound, addr, edns, rcode, room);
    assert forall i :: 0 <= i < |o| ==> o[i].Opt?;
    assert SecondSection(found, AllFound) == b;
    hide *;
    Regroup(InSect(S_ANSWER, a) + InSect(S_AUTHORITY, b), o, InSect(S_ADDITIONAL, c));
    var k := SectionsKept(cb, offs, a, b, o, c, udp);
  }

  /** Three sections, with OPT records before the last. */
  lemma SectionsKept(cb: Table, offs: nat, a: seq<Record>, b: seq<Record>, o: seq<Step>, c: seq<Record>, udp: Option<nat>)
    returns (k: seq<Record>)
    requires forall i :: 0 <= i < |o| ==> o[i].Opt?
    requires ValidTable(cb) && ValidSteps(InSect(S_ANSWER, a) + InSect(S_AUTHORITY, b) + o + InSect(S_ADDITIONAL, c))
    ensures var p := InSect(S_ANSWER, a) + InSect(S_AUTHORITY, b) + o + InSect(S_ADDITIONAL, c);
      RecordsOf(Kept(cb, offs, p, udp)) == a + b + k && Mixed(c, k, RecordsOf(Taken(cb, offs, p, udp)))
  {
    var first, last := InSect(S_ANSWER, a) + InSect(S_AUTHORITY, b) + o, InSect(S_ADDITIONAL, c);
    assert forall i :: 0 <= i < |first| ==> Lasting(first[i]);
    assert forall i :: 0 <= i < |last| ==> last[i].Rr?;
    hide *;
    FirstRecords(a, b, o);
    RecordsOfSect(S_ADDITIONAL, c);
    k := TwoRuns(cb, offs, first, last, udp);
  }

  lemma FirstRecords(a: seq<Record>, b: seq<Record>, o: seq<Step>)
    requires forall i :: 0 <= i < |o| ==> o[i].Opt?
    ensures RecordsOf(InSect(S_ANSWER, a) + InSect(S_AUTHORITY, b) + o) == a + b
  {
    hide *;
    RecordsConcat(InSect(S_ANSWER, a) + InSect(S_AUTHORITY, b), o);
    RecordsConcat(InSect(S_ANSWER, a), InSect(S_AUTHORITY, b));
    RecordsOfSect(S_ANSWER, a);
    RecordsOfSect(S_AUTHORITY, b);
    NoRecordsOf(o);
    assert a + b + [] == a + b;
  }

  /** Steps that last, then records that may be taken back. */
  lemma TwoRuns(cb: Table, offs: nat, first: seq<Step>, last: seq<Step>, udp: Option<nat>) returns (k: seq<Record>)
    requires ValidTable(cb) && ValidSteps(first + last)
    requires forall i :: 0 <= i < |first| ==> Lasting(first[i])
    requires forall i :: 0 <= i < |last| ==> last[i].Rr?
    ensures RecordsOf(Kept(cb, offs, first + last, udp)) == RecordsOf(first) + k
    ensures Mixed(RecordsOf(last), k, RecordsOf(Taken(cb, offs, first + last, udp)))
  {
    hide *;
    SplitSteps(first, last);
    RunConcat(cb, offs, first, last, udp);
    OthersKept(cb, offs, first, udp);
    var cb1, o1 := RunTable(cb, offs, first, udp), offs + |RunBytes(cb, offs, first, udp)|;
    KeptOrTaken(cb1, o1, last, udp);
    k := RecordsOf(Kept(cb1, o1, last, udp));
    RecordsConcat(first, Kept(cb1, o1, last, udp));
    assert [] + Taken(cb1, o1, last, udp) == Taken(cb1, o1, last, udp);
  }

  lemma SplitSteps(a: seq<Step>, b: seq<Step>)
    requires ValidSteps(a + b)
    ensures ValidSteps(a) && ValidSteps(b)
  {
    hide ValidStep;
    forall i | 0 <= i < |a| ensures ValidStep(a[i]) { assert ValidStep((a + b)[i]); }
    forall i | 0 <= i < |b| ensures ValidStep(b[i]) { assert ValidStep((a + b)[|a| + i]); }
  }

  predicate Marks(r: Record) { r.tp == T_NS || IsAddress(r.tp) }

  lemma {:induction false} MarkedAre(found: seq<Found>)
    ensures forall r :: r in Marked(found) <==> r in AnswerRecords(found) && Marks(r)
  {
    if found != [] { MarkedAre(found[..|found| - 1]); }
  }

  lemma {:induction false} AuthorityTypes(ar: seq<Ext>)
    ensures forall r :: r in AuthorityRecords(ar) ==> r.tp == T_NS || r.tp == T_SOA
  {
    if ar != [] { AuthorityTypes(ar[..|ar| - 1]); }
  }

  lemma {:induction false} AddressTypes(ar: seq<Ext>, addr: Name -> seq<Record>)
    requires ValidExts(ar) && AddressBook(addr)
    ensures forall r :: r in Addresses(ar, addr) ==> IsAddress(r.tp)
  {
    if ar != [] {
      AddressTypes(ar[..|ar| - 1], addr);
      var s := ServerOf(ar[|ar| - 1]);
      hide ServerOf;
      if s.Some? {
        forall r | r in addr(s.value) ensures IsAddress(r.tp) {
          var i :| 0 <= i < |addr(s.value)| && addr(s.value)[i] == r;
          assert AddressOf(s.value, addr(s.value)[i]);
        }
      }
    }
  }

  /** Nothing on the list l and nothing twice. */
  lemma NewOnesApart(l: seq<Record>, rs: seq<Record>)
    ensures !Repeats(NewOnes(l, rs))
    ensures forall r :: r in NewOnes(l, rs) ==> r in rs && !Listed(l, r)
  {
    var n := NewOnes(l, rs);
    forall i, j | 0 <= i < j < |n| ensures !Alike(n[i], n[j]) {
      NewOnesNew(l, rs, j);
      assert n[..j][i] == n[i];
    }
    forall r | r in n ensures r in rs && !Listed(l, r) {
      var i :| 0 <= i < |n| && n[i] == r;
      NewOnesNew(l, rs, i);
    }
  }

  /** An SOA record of the answer section is wanted in the authority section, too. */
  ghost predicate SoaTwice(found: seq<Found>)
    requires ValidFound(found)
  {
    exists r :: r in AuthorityRecords(Wanted(found)) && r.tp == T_SOA && Listed(AnswerRecords(found), r)
  }

  /** The answer and authority sections have a record in common exactly if it is an SOA record
      that is wanted in both. */
  lemma AnswerMeetsAuthority(found: seq<Found>)
    requires ValidFound(found)
    ensures (exists r :: r in AnswerRecords(found) && Listed(ForAuthoritySection(found), r)) <==> SoaTwice(found)
  {
    var a, m, w := AnswerRecords(found), Marked(found), AuthorityRecords(Wanted(found));
    var b := ForAuthoritySection(found);
    MarkedAre(found);
    AuthorityTypes(Wanted(found));
    NewOnesApart(m, w);
    hide AnswerRecords;
    hide Marked;
    hide AuthorityRecords;
    hide NewOnes;
    hide Wanted;
    if r :| r in a && Listed(b, r) {
      var x := ListedBy(b, r);
      AlikeLaws(x, r, r);
      if Marks(r) { ListsMember(m, r, x); }
      ListsMember(a, r, x);
      assert x in w && x.tp == T_SOA && Listed(a, x);
    }
    if SoaTwice(found) {
      var r :| r in w && r.tp == T_SOA && Listed(a, r);
      NewOnesComplete(m, w, r);
      SoaUnmarked(m, b, r);
      var x := ListedBy(b, r);
      var y := ListedBy(a, r);
      AlikeLaws(x, r, y);
      AlikeLaws(y, r, x);
      AlikeLaws(x, y, r);
      ListsMember(b, x, y);
    }
  }

  lemma SoaUnmarked(m: seq<Record>, b: seq<Record>, r: Record)
    requires r.tp == T_SOA && Listed(m + b, r) && forall x :: x in m ==> Marks(x)
    ensures Listed(b, r)
  {
    ListedMore(m, b, r);
    if Listed(m, r) {
      var x := ListedBy(m, r);
      assert false;
    }
  }

  /** A record is in the message twice exactly if it is in the answer section twice (because a
      name was asked for twice), or if it is an SOA record that is wanted in the answer and in
      the authority section: SOA records are not marked as added. */
  lemma MessageRepeats(cb: Table, offs: nat, found: seq<Found>, addr: Name -> seq<Record>, edns: Option<nat>, rcode: nat,
                       room: bool, udp: Option<nat>)
    requires ValidTable(cb) && ValidFound(found) && AddressBook(addr)
    requires ValidSteps(Plan(found, AllFound, addr, edns, rcode, room))
    ensures Repeats(RecordsOf(Kept(cb, offs, Plan(found, AllFound, addr, edns, rcode, room), udp)))
      <==> Repeats(AnswerRecords(found)) || SoaTwice(found)
  {
    var a, b, c := AnswerRecords(found), ForAuthoritySection(found), ThirdSection(found, AllFound, addr, room);
    MessageParts(cb, offs, found, addr, edns, rcode, room, udp);
    var p := Plan(found, AllFound, addr, edns, rcode, room);
    var ks, ts := RecordsOf(Kept(cb, offs, p, udp)), RecordsOf(Taken(cb, offs, p, udp));
    var k :| ks == a + b + k && Mixed(c, k, ts);
    AnswerMeetsAuthority(found);
    SectionsApart(found, addr, room);
    hide *;
    MixedRepeats(c, k, ts);
    RepeatsConcat(a, b);
    RepeatsConcat(a + b, k);
    forall r ensures !(r in a + b && Listed(k, r)) {
      if r in a + b && Listed(k, r) {
        MixedLists(c, k, ts, r);
        assert false;
      }
    }
  }

  /** The additional section has nothing in common with the other two, and neither it nor the
      authority section has a record twice. */
  lemma SectionsApart(found: seq<Found>, addr: Name -> seq<Record>, room: bool)
    requires ValidFound(found) && AddressBook(addr)
    ensures var a, b, c := AnswerRecords(found), ForAuthoritySection(found), ThirdSection(found, AllFound, addr, room);
      && !Repeats(b) && !Repeats(c)
      && (forall r :: r in a + b ==> !Listed(c, r))
  {
    var a, b, c := AnswerRecords(found), ForAuthoritySection(found), ThirdSection(found, AllFound, addr, room);
    var m := Marked(found);
    MarkedAre(found);
    AuthorityTypes(Wanted(found));
    AddressTypes(Wanted(found), addr);
    NewOnesApart(m, AuthorityRecords(Wanted(found)));
    NewOnesApart(m + b, Addresses(Wanted(found), addr));
    hide AnswerRecords;
    hide Marked;
    hide AuthorityRecords;
    hide Addresses;
    hide NewOnes;
    hide Wanted;
    forall r | r in a + b ensures !Listed(c, r) {
      if Listed(c, r) {
        var x := ListedBy(c, r);
        AlikeLaws(x, r, r);
        if r in b {
          ListsMember(m + b, r, x);
        } else {
          assert Marks(r) && r in m;
          ListsMember(m + b, r, x);
        }
        assert false;
      }
    }
  }

  /** Nothing that is wanted in the answer or the authority section is missing. An address that
      is wanted in the additional section is missing exactly if it was taken back, or if there
      is no additional section and it is not in the answer section either. */
  lemma MessageMissing(cb: Table, offs: nat, found: seq<Found>, addr: Name -> seq<Record>, edns: Option<nat>, rcode: nat,
                       room: bool, udp: Option<nat>, r: Record)
    requires ValidTable(cb) && ValidFound(found) && AddressBook(addr)
    requires ValidSteps(Plan(found, AllFound, addr, edns, rcode, room))
    ensures var p := Plan(found, AllFound, addr, edns, rcode, room);
      var ks, ts := RecordsOf(Kept(cb, offs, p, udp)), RecordsOf(Taken(cb, offs, p, udp));
      && (r in AnswerRecords(found) || r in AuthorityRecords(Wanted(found)) ==> Listed(ks, r))
      && (r in Addresses(Wanted(found), addr) ==>
            (!Listed(ks, r) <==> if room then Listed(ts, r) else !Listed(AnswerRecords(found), r)))
  {
    var a, b, c := AnswerRecords(found), ForAuthoritySection(found), ThirdSection(found, AllFound, addr, room);
    MessageParts(cb, offs, found, addr, edns, rcode, room, udp);
    var p := Plan(found, AllFound, addr, edns, rcode, room);
    var ks, ts := RecordsOf(Kept(cb, offs, p, udp)), RecordsOf(Taken(cb, offs, p, udp));
    var k :| ks == a + b + k && Mixed(c, k, ts);
    SectionsApart(found, addr, room);
    WantedListed(found, addr, r);
    ThirdEmpty(found, addr, room);
    hide *;
    MixedRepeats(c, k, ts);
    MixedLists(c, k, ts, r);
    ListedMore(a, b, r);
    ListedMore(a + b, k, r);
    if Listed(a + b, r) && Listed(c, r) {
      SharedRecord(a + b, c, r);
      assert false;
    }
  }

  lemma SharedRecord(a: seq<Record>, c: seq<Record>, r: Record)
    requires Listed(a, r) && Listed(c, r)
    ensures exists x :: x in a && Listed(c, x)
  {
    var x := ListedBy(a, r);
    var y := ListedBy(c, r);
    AlikeLaws(x, r, y);
    AlikeLaws(y, r, x);
    AlikeLaws(r, x, y);
    ListsMember(c, y, x);
  }

  lemma ThirdEmpty(found: seq<Found>, addr: Name -> seq<Record>, room: bool)
    requires ValidFound(found)
    ensures !room ==> ThirdSection(found, AllFound, addr, room) == []
    ensures room ==> ThirdSection(found, AllFound, addr, room) == ForAdditionalSection(found, addr)
    ensures forall r :: !Listed([], r)
  {}

  /** Everything wanted is planned for. */
  lemma WantedListed(found: seq<Found>, addr: Name -> seq<Record>, r: Record)
    requires ValidFound(found) && AddressBook(addr)
    ensures var a, b := AnswerRecords(found), ForAuthoritySection(found);
      && (r in a ==> Listed(a, r))
      && (r in AuthorityRecords(Wanted(found)) ==> Listed(a, r) || Listed(b, r))
      && (r in Addresses(Wanted(found), addr) ==> !Listed(b, r) && (Listed(a, r) || Listed(ForAdditionalSection(found, addr), r)))
  {
    var a, b, m := AnswerRecords(found), ForAuthoritySection(found), Marked(found);
    MarkedAre(found);
    AuthorityTypes(Wanted(found));
    AddressTypes(Wanted(found), addr);
    NewOnesApart(m, AuthorityRecords(Wanted(found)));
    if r in AuthorityRecords(Wanted(found)) { NewOnesComplete(m, AuthorityRecords(Wanted(found)), r); }
    if r in Addresses(Wanted(found), addr) { NewOnesComplete(m + b, Addresses(Wanted(found), addr), r); }
    hide AnswerRecords;
    hide Marked;
    hide AuthorityRecords;
    hide Addresses;
    hide NewOnes;
    hide Wanted;
    AlikeLaws(r, r, r);
    if r in a { ListsMember(a, r, r); }
    ListedMore(m, b, r);
    ListedMore(m + b, ForAdditionalSection(found, addr), r);
    if Listed(m, r) {
      var x := ListedBy(m, r);
      ListsMember(a, x, r);
    }
    if IsAddress(r.tp) && Listed(b, r) {
      var x := ListedBy(b, r);
      assert false;
    }
  }
}
