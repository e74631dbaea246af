/** Which records compose_answer (dns_answer.c) adds to which section, given what it has looked
    up: everything found goes into the answer section, the authority and additional sections
    get no record that is on the list of those marked as added. What this means for the message
    is said in AnswerOnce. */
module AnswerPlan {
  import opened DnsConstants
  import opened Names
  import opened RecordData
  import opened RecordCodec
  import opened RecordRoundTrip
  import opened AnswerRun

  /** What compose_answer has looked up. */
  datatype Found = InAnswer(r: Record) | ForAuthority(r: Record)

  /** How the look-ups have ended: all names were resolved; a name does not exist, and these SOA
      records of an enclosing domain are cached; or there was another error. */
  datatype Ending = AllFound | NameError(soa: seq<Record>) | OtherError

  predicate ValidEnding(e: Ending) { e.NameError? ==> forall i :: 0 <= i < |e.soa| ==> ValidRecord(e.soa[i]) }

  /** An element of the list for the later sections (ar): a record for the authority section,
      or a server whose addresses are wanted. */
  datatype Ext = ExtAuth(r: Record) | ExtAdd(server: Name)

  predicate ValidFound(found: seq<Found>) { forall i :: 0 <= i < |found| ==> ValidRecord(found[i].r) }

  predicate ValidExts(ar: seq<Ext>) { forall i :: 0 <= i < |ar| && ar[i].ExtAuth? ==> ValidRecord(ar[i].r) }

  /** The server whose addresses are added for this element. */
  function ServerOf(e: Ext): (n: Option<Name>)
    requires e.ExtAuth? ==> ValidRecord(e.r)
  {
    match e
    case ExtAdd(n) => Some(n)
    case ExtAuth(r) => if r.tp == T_NS then Some(Server(r)) else None
  }

  predicate AddressOf(server: Name, r: Record)
  {
    ValidRecord(r) && IsAddress(r.tp) && r.owner == server
  }

  /** What the cache knows about servers: addresses under their own names. */
  ghost predicate AddressBook(addr: Name -> seq<Record>)
  {
    forall n, i :: 0 <= i < |addr(n)| ==> AddressOf(n, addr(n)[i])
  }

  // ---- No record twice

  /** The test of add_additional_rr. */
  predicate Alike(a: Record, b: Record) { a.tp == b.tp && SameName(a.owner, b.owner) && a.data == b.data }

  predicate Listed(l: seq<Record>, r: Record) { exists i :: 0 <= i < |l| && Alike(l[i], r) }

  /** Those of rs that are not on the list when their turn comes; each of them is put on it. */
  function NewOnes(l: seq<Record>, rs: seq<Record>): (n: seq<Record>)
  {
    if rs == [] then []
    else
      var init := NewOnes(l, rs[..|rs| - 1]);
      if Listed(l + init, rs[|rs| - 1]) then init else init + [rs[|rs| - 1]]
  }

  lemma NewOnesSnoc(l: seq<Record>, rs: seq<Record>, r: Record)
    ensures NewOnes(l, rs + [r]) == if Listed(l + NewOnes(l, rs), r) then NewOnes(l, rs) else NewOnes(l, rs) + [r]
  {
    assert (rs + [r])[..|rs|] == rs;
  }

  lemma {:induction false} NewOnesConcat(l: seq<Record>, a: seq<Record>, b: seq<Record>)
    ensures NewOnes(l, a + b) == NewOnes(l, a) + NewOnes(l + NewOnes(l, a), b)
  {
    if b == [] {
      assert a + b == a;
    } else {
      var init, r := b[..|b| - 1], b[|b| - 1];
      NewOnesConcat(l, a, init);
      assert a + b == (a + init) + [r] && b == init + [r];
      NewOnesSnoc(l, a + init, r);
      NewOnesSnoc(l + NewOnes(l, a), init, r);
      hide NewOnes;
      OneMoreNew(l, NewOnes(l, a), NewOnes(l + NewOnes(l, a), init), r);
    }
  }

  lemma OneMoreNew(l: seq<Record>, n: seq<Record>, m: seq<Record>, r: Record)
    ensures (if Listed(l + (n + m), r) then n + m else n + m + [r]) == n + if Listed(l + n + m, r) then m else m + [r]
  {
    hide Listed;
    assert l + (n + m) == l + n + m && (n + m) + [r] == n + (m + [r]);
  }

  lemma ListedMore(l: seq<Record>, k: seq<Record>, r: Record)
    ensures Listed(l + k, r) <==> Listed(l, r) || Listed(k, r)
  {
    if Listed(l, r) {
      var i :| 0 <= i < |l| && Alike(l[i], r);
      assert (l + k)[i] == l[i];
    }
    if Listed(k, r) {
      var i :| 0 <= i < |k| && Alike(k[i], r);
      assert (l + k)[|l| + i] == k[i];
    }
  }

  /** What is new comes from rs, is not on the list, and is there only once. */
  lemma {:induction false} NewOnesNew(l: seq<Record>, rs: seq<Record>, i: nat)
    requires i < |NewOnes(l, rs)|
    ensures var n := NewOnes(l, rs); n[i] in rs && !Listed(l, n[i]) && !Listed(n[..i], n[i])
  {
    var init, r := rs[..|rs| - 1], rs[|rs| - 1];
    var m, n := NewOnes(l, init), NewOnes(l, rs);
    assert rs == init + [r];
    if i < |m| {
      NewOnesNew(l, init, i);
      assert n[..i] == m[..i] && n[i] == m[i];
    } else {
      ListedMore(l, m, r);
      assert n[..i] == m && n[i] == r;
    }
    hide Listed;
  }

  /** Nothing is lost. */
  lemma {:induction false} NewOnesComplete(l: seq<Record>, rs: seq<Record>, r: Record)
    requires r in rs
    ensures Listed(l + NewOnes(l, rs), r)
  {
    var init, last := rs[..|rs| - 1], rs[|rs| - 1];
    var m, n := NewOnes(l, init), NewOnes(l, rs);
    assert rs == init + [last];
    if r in init {
      NewOnesComplete(l, init, r);
      assert l + (m + [last]) == (l + m) + [last];
      ListedMore(l + m, [last], r);
    } else if n == m + [last] {
      SameNameItself(r.owner);
      assert Alike((l + n)[|l + n| - 1], r);
    }
  }

  lemma SameNameItself(n: Name)
    ensures SameName(n, n)
  {}

  // ---- The sections

  function InSect(sect: Section, rs: seq<Record>): (s: seq<Step>)
    ensures |s| == |rs| && forall i :: 0 <= i < |s| ==> s[i] == Rr(sect, rs[i])
  {
    seq(|rs|, i requires 0 <= i < |rs| => Rr(sect, rs[i]))
  }

  lemma InSectConcat(sect: Section, a: seq<Record>, b: seq<Record>)
    ensures InSect(sect, a + b) == InSect(sect, a) + InSect(sect, b)
  {}

  function AnswerRecords(found: seq<Found>): (rs: seq<Record>)
  {
    if found == [] then []
    else
      var f := found[|found| - 1];
      AnswerRecords(found[..|found| - 1]) + (if f.InAnswer? then [f.r] else [])
  }

  /** Name servers and addresses of the answer section are marked as added. */
  function Marked(found: seq<Found>): (rs: seq<Record>)
  {
    if found == [] then []
    else
      var f := found[|found| - 1];
      Marked(found[..|found| - 1]) + (if f.InAnswer? && (f.r.tp == T_NS || IsAddress(f.r.tp)) then [f.r] else [])
  }

  /** The list for the later sections. */
  function Wanted(found: seq<Found>): (ar: seq<Ext>)
    requires ValidFound(found)
    ensures ValidExts(ar)
  {
    if found == [] then []
    else
      var f := found[|found| - 1];
      Wanted(found[..|found| - 1]) +
      (if f.ForAuthority? then [ExtAuth(f.r)] else if NamesServer(f.r.tp) then [ExtAdd(Server(f.r))] else [])
  }

  /** Name servers and SOA records are for the authority section. */
  predicate InAuthority(e: Ext) { e.ExtAuth? && (e.r.tp == T_NS || e.r.tp == T_SOA) }

  function AuthorityRecords(ar: seq<Ext>): (rs: seq<Record>)
  {
    if ar == [] then []
    else
      var e := ar[|ar| - 1];
      AuthorityRecords(ar[..|ar| - 1]) + (if InAuthority(e) then [e.r] else [])
  }

  /** The addresses of all servers on the list. */
  function Addresses(ar: seq<Ext>, addr: Name -> seq<Record>): (rs: seq<Record>)
    requires ValidExts(ar)
  {
    if ar == [] then []
    else
      var s := ServerOf(ar[|ar| - 1]);
      Addresses(ar[..|ar| - 1], addr) + (if s.Some? then addr(s.value) else [])
  }

  function ForAuthoritySection(found: seq<Found>): (rs: seq<Record>)
    requires ValidFound(found)
  {
    NewOnes(Marked(found), AuthorityRecords(Wanted(found)))
  }

  function ForAdditionalSection(found: seq<Found>, addr: Name -> seq<Record>): (rs: seq<Record>)
    requires ValidFound(found)
  {
    NewOnes(Marked(found) + ForAuthoritySection(found), Addresses(Wanted(found), addr))
  }

  /** The records of the authority section. */
  function SecondSection(found: seq<Found>, ending: Ending): (rs: seq<Record>)
    requires ValidFound(found)
  {
    match ending
    case AllFound => ForAuthoritySection(found)
    case NameError(soa) => soa
    case OtherError => []
  }

  function FirstSections(found: seq<Found>, ending: Ending): (steps: seq<Step>)
    requires ValidFound(found)
  {
    InSect(S_ANSWER, AnswerRecords(found)) + InSect(S_AUTHORITY, SecondSection(found, ending))
  }

  function OptStep(edns: Option<nat>, rcode: nat): (steps: seq<Step>)
  {
    if edns.Some? then [Opt(edns.value, rcode, 0, 0)] else []
  }

  /** An OPT record is added, if it was asked for: after a name error in any case, otherwise if
      there is room. */
  predicate OptFits(ending: Ending, room: bool) { ending.NameError? || (ending.AllFound? && room) }

  function ThirdSection(found: seq<Found>, ending: Ending, addr: Name -> seq<Record>, room: bool): (rs: seq<Record>)
    requires ValidFound(found)
  {
    if ending.AllFound? && room then ForAdditionalSection(found, addr) else []
  }

  /** Everything that compose_answer adds; `room` says whether an OPT record would fit after
      the first two sections. */
  function Plan(found: seq<Found>, ending: Ending, addr: Name -> seq<Record>, edns: Option<nat>, rcode: nat, room: bool):
    (steps: seq<Step>)
    requires ValidFound(found)
  {
    FirstSections(found, ending)
    + ((if OptFits(ending, room) then OptStep(edns, rcode) else [])
       + InSect(S_ADDITIONAL, ThirdSection(found, ending, addr, room)))
  }

  /** The records of one section. */
  function SectionRecords(steps: seq<Step>, sect: Section): (rs: seq<Record>)
  {
    if steps == [] then []
    else (if steps[0].Rr? && steps[0].sect == sect then [steps[0].r] else []) + SectionRecords(steps[1..], sect)
  }

  lemma {:induction false} SectionConcat(a: seq<Step>, b: seq<Step>, sect: Section)
    ensures SectionRecords(a + b, sect) == SectionRecords(a, sect) + SectionRecords(b, sect)
  {
    if a == [] {
      assert a + b == b;
    } else {
      assert (a + b)[1..] == a[1..] + b;
      SectionConcat(a[1..], b, sect);
    }
  }

  lemma {:induction false} SectionOfOne(s: Section, rs: seq<Record>, sect: Section)
    ensures SectionRecords(InSect(s, rs), sect) == if s == sect then rs else []
  {
    if rs != [] {
      assert InSect(s, rs)[1..] == InSect(s, rs[1..]);
      SectionOfOne(s, rs[1..], sect);
    }
  }

  /** Section by section: what was found is in the answer section, in order; the authority
      section has its records without repeats, or the SOA records of a name error; the
      additional section, if there is room for it, the addresses of the servers on the list
      without repeats; and OPT is there iff it was asked for and there is room, or there was a
      name error. */
  lemma PlanSections(found: seq<Found>, ending: Ending, addr: Name -> seq<Record>, edns: Option<nat>, rcode: nat, room: bool)
    requires ValidFound(found)
    ensures var p := Plan(found, ending, addr, edns, rcode, room);
      && SectionRecords(p, S_ANSWER) == AnswerRecords(found)
      && SectionRecords(p, S_AUTHORITY) == SecondSection(found, ending)
      && SectionRecords(p, S_ADDITIONAL) == ThirdSection(found, ending, addr, room)
      && (forall i :: 0 <= i < |p| && p[i].Opt? ==> OptFits(ending, room) && edns.Some? && p[i] == Opt(edns.value, rcode, 0, 0))
      && (OptFits(ending, room) && edns.Some? ==> Opt(edns.value, rcode, 0, 0) in p)
  {
    var a, b, c := AnswerRecords(found), SecondSection(found, ending), ThirdSection(found, ending, addr, room);
    var o := if OptFits(ending, room) then OptStep(edns, rcode) else [];
    PlanParts(found, ending, addr, edns, rcode, room);
    assert forall x :: x in o ==> OptFits(ending, room) && edns.Some? && x == Opt(edns.value, rcode, 0, 0);
    assert OptFits(ending, room) && edns.Some? ==> Opt(edns.value, rcode, 0, 0) in o;
    hide *;
    SectionsOf(a, b, c, o);
  }

  lemma SectionsOf(a: seq<Record>, b: seq<Record>, c: seq<Record>, o: seq<Step>)
    requires forall x :: x in o ==> x.Opt?
    ensures var p := InSect(S_ANSWER, a) + InSect(S_AUTHORITY, b) + (o + InSect(S_ADDITIONAL, c));
      && SectionRecords(p, S_ANSWER) == a && SectionRecords(p, S_AUTHORITY) == b && SectionRecords(p, S_ADDITIONAL) == c
      && (forall i :: 0 <= i < |p| && p[i].Opt? ==> p[i] in o)
      && (forall x :: x in o ==> x in p)
  {
    OptInPlan(InSect(S_ANSWER, a) + InSect(S_AUTHORITY, b), o, InSect(S_ADDITIONAL, c));
    hide InSect;
    hide SectionRecords;
    PlanSection(a, b, c, o, S_ANSWER);
    PlanSection(a, b, c, o, S_AUTHORITY);
    PlanSection(a, b, c, o, S_ADDITIONAL);
  }

  lemma OptInPlan(first: seq<Step>, o: seq<Step>, last: seq<Step>)
    requires forall i :: 0 <= i < |first| ==> first[i].Rr?
    requires forall i :: 0 <= i < |last| ==> last[i].Rr?
    ensures var p := first + (o + last);
      && (forall i :: 0 <= i < |p| && p[i].Opt? ==> p[i] in o)
      && (forall x :: x in o ==> x in p)
  {
    var p := first + (o + last);
    forall x | x in o ensures x in p {
      var i :| 0 <= i < |o| && o[i] == x;
      assert p[|first| + i] == x;
    }
  }

  lemma PlanSection(a: seq<Record>, b: seq<Record>, c: seq<Record>, o: seq<Step>, sect: Section)
    requires forall i :: 0 <= i < |o| ==> o[i].Opt?
    ensures SectionRecords(InSect(S_ANSWER, a) + InSect(S_AUTHORITY, b) + (o + InSect(S_ADDITIONAL, c)), sect)
      == match sect case S_ANSWER => a case S_AUTHORITY => b case S_ADDITIONAL => c
  {
    hide *;
    SectionConcat(InSect(S_ANSWER, a), InSect(S_AUTHORITY, b), sect);
    SectionConcat(o, InSect(S_ADDITIONAL, c), sect);
    SectionConcat(InSect(S_ANSWER, a) + InSect(S_AUTHORITY, b), o + InSect(S_ADDITIONAL, c), sect);
    NoRecords(o, sect);
    SectionOfOne(S_ANSWER, a, sect);
    SectionOfOne(S_AUTHORITY, b, sect);
    SectionOfOne(S_ADDITIONAL, c, sect);
    assert a + [] == a && [] + b == b && [] + c == c;
  }

  lemma {:induction false} NoRecords(o: seq<Step>, sect: Section)
    requires forall i :: 0 <= i < |o| ==> o[i].Opt?
    ensures SectionRecords(o, sect) == []
  {
    if o != [] { NoRecords(o[1..], sect); }
  }

  // ---- Sizes

  predicate AllShort(rs: seq<Record>) { forall i :: 0 <= i < |rs| ==> FitsRdlength(rs[i]) }

  predicate AllFoundShort(found: seq<Found>) { forall i :: 0 <= i < |found| ==> FitsRdlength(found[i].r) }

  lemma {:induction false} FoundShort(found: seq<Found>)
    requires ValidFound(found) && AllFoundShort(found)
    ensures AllShort(AnswerRecords(found)) && AllShort(AuthorityRecords(Wanted(found)))
  {
    hide ValidRecord;
    hide FitsRdlength;
    hide Server;
    if found != [] {
      var init, f := found[..|found| - 1], found[|found| - 1];
      FoundShort(init);
      var e := if f.ForAuthority? then [ExtAuth(f.r)] else if NamesServer(f.r.tp) then [ExtAdd(Server(f.r))] else [];
      if e == [] {
        assert Wanted(found) == Wanted(init);
      } else {
        assert Wanted(found)[..|Wanted(found)| - 1] == Wanted(init);
      }
    }
  }

  lemma {:induction false} AddressesShort(ar: seq<Ext>, addr: Name -> seq<Record>)
    requires ValidExts(ar) && AddressBook(addr)
    ensures AllShort(Addresses(ar, addr))
  {
    if ar != [] {
      AddressesShort(ar[..|ar| - 1], addr);
      var s := ServerOf(ar[|ar| - 1]);
      hide ServerOf;
      if s.Some? {
        forall i | 0 <= i < |addr(s.value)| ensures FitsRdlength(addr(s.value)[i]) {
          assert AddressOf(s.value, addr(s.value)[i]);
        }
      }
    }
  }

  lemma NewOnesShort(l: seq<Record>, rs: seq<Record>)
    requires AllShort(rs)
    ensures AllShort(NewOnes(l, rs))
  {
    forall i | 0 <= i < |NewOnes(l, rs)| ensures FitsRdlength(NewOnes(l, rs)[i]) { NewOnesNew(l, rs, i); }
  }

  /** If RDLENGTH can hold the data of every record that was found, then it can hold the data
      of every record that is added. */
  lemma PlanFits(found: seq<Found>, ending: Ending, addr: Name -> seq<Record>, edns: Option<nat>, rcode: nat, room: bool)
    requires ValidFound(found) && AddressBook(addr) && AllFoundShort(found) && (ending.NameError? ==> AllShort(ending.soa))
    ensures AllFit(Plan(found, ending, addr, edns, rcode, room))
  {
    FoundShort(found);
    AddressesShort(Wanted(found), addr);
    NewOnesShort(Marked(found), AuthorityRecords(Wanted(found)));
    NewOnesShort(Marked(found) + ForAuthoritySection(found), Addresses(Wanted(found), addr));
    var a, b, c := AnswerRecords(found), SecondSection(found, ending), ThirdSection(found, ending, addr, room);
    var o := if OptFits(ending, room) then OptStep(edns, rcode) else [];
    assert AllShort(b) && AllShort(c);
    OptsFit(o);
    hide *;
    SectFits(S_ANSWER, a);
    SectFits(S_AUTHORITY, b);
    SectFits(S_ADDITIONAL, c);
    FitsConcat(InSect(S_ANSWER, a), InSect(S_AUTHORITY, b));
    FitsConcat(o, InSect(S_ADDITIONAL, c));
    FitsConcat(InSect(S_ANSWER, a) + InSect(S_AUTHORITY, b), o + InSect(S_ADDITIONAL, c));
    PlanParts(found, ending, addr, edns, rcode, room);
  }

  /** What comes after the first two sections. */
  function LastSteps(found: seq<Found>, ending: Ending, addr: Name -> seq<Record>, edns: Option<nat>, rcode: nat, room: bool):
    (steps: seq<Step>)
    requires ValidFound(found)
  {
    match ending
    case AllFound => if room then OptStep(edns, rcode) + InSect(S_ADDITIONAL, ForAdditionalSection(found, addr)) else []
    case NameError(_) => OptStep(edns, rcode)
    case OtherError => []
  }

  lemma PlanEnds(found: seq<Found>, ending: Ending, addr: Name -> seq<Record>, edns: Option<nat>, rcode: nat, room: bool)
    requires ValidFound(found)
    ensures Plan(found, ending, addr, edns, rcode, room)
      == FirstSections(found, ending) + LastSteps(found, ending, addr, edns, rcode, room)
  {
    hide FirstSections;
    hide ForAdditionalSection;
    assert InSect(S_ADDITIONAL, []) == [];
    assert OptStep(edns, rcode) + [] == OptStep(edns, rcode);
  }

  lemma PlanParts(found: seq<Found>, ending: Ending, addr: Name -> seq<Record>, edns: Option<nat>, rcode: nat, room: bool)
    requires ValidFound(found)
    ensures Plan(found, ending, addr, edns, rcode, room) ==
      InSect(S_ANSWER, AnswerRecords(found)) + InSect(S_AUTHORITY, SecondSection(found, ending))
      + ((if OptFits(ending, room) then OptStep(edns, rcode) else [])
         + InSect(S_ADDITIONAL, ThirdSection(found, ending, addr, room)))
  {}

  lemma SectFits(sect: Section, rs: seq<Record>)
    requires AllShort(rs)
    ensures AllFit(InSect(sect, rs))
  {
    hide FitsRdlength;
  }

  lemma OptsFit(o: seq<Step>)
    requires forall i :: 0 <= i < |o| ==> o[i].Opt?
    ensures AllFit(o)
  {}

  lemma FitsConcat(a: seq<Step>, b: seq<Step>)
    requires AllFit(a) && AllFit(b)
    ensures AllFit(a + b)
  {
    hide StepFits;
  }
}
