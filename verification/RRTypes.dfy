/** RR types, their slots in a cache entry and their exclusion classes (rr_types.h). */
module RRTypes {

  const NRRMU := 8
  const NRREXT := 39
  const NRRTOT := 47
  const T_MIN := 1
  const T_MAX := 51

  const RRMUINDEX_A := 0
  const RRMUINDEX_NS := 1
  const RRMUINDEX_CNAME := 2
  const RRMUINDEX_SOA := 3

  /** rrlkuptab: from RR type (minus T_MIN) to slot; slots from NRRTOT on are not cached. */
  const RRLKUPTAB: seq<nat> :=
    [0, 1, 8, 9, 2, 3, 10, 11, 12, 13]
    + [14, 4, 15, 16, 5, 6, 17, 18, 19, 20]
    + [21, 22, 23, 24, 25, 26, 27, 7, 28, 29]
    + [30, 31, 32, 33, 34, 35, 36, 47, 48, 49]
    + [50, 37, 38, 39, 40, 41, 42, 43, 44, 45]
    + [46]

  /** rrmuiterlist and rrcachiterlist: the types in ascending order. */
  const RRMUITERLIST: seq<nat> := [1, 2, 5, 6, 12, 15, 16, 28]

  const RRCACHITERLIST: seq<nat> :=
    [1, 2, 3, 4, 5, 6, 7, 8, 9, 10]
    + [11, 12, 13, 14, 15, 16, 17, 18, 19, 20]
    + [21, 22, 23, 24, 25, 26, 27, 28, 29, 30]
    + [31, 32, 33, 34, 35, 36, 37, 42, 43, 44]
    + [45, 46, 47, 48, 49, 50, 51]

  predicate CachedType(tp: int)
  {
    T_MIN <= tp <= T_MAX && RRLKUPTAB[tp - T_MIN] < NRRTOT
  }

  function SlotOf(tp: int): (i: nat)
    requires CachedType(tp)
    ensures i < NRRTOT
  {
    RRLKUPTAB[tp - T_MIN]
  }

  /** The type that belongs to each slot. */
  const SLOTTYPES: seq<nat> :=
    [1, 2, 5, 6, 12, 15, 16, 28, 3, 4]
    + [7, 8, 9, 10, 11, 13, 14, 17, 18, 19]
    + [20, 21, 22, 23, 24, 25, 26, 27, 29, 30]
    + [31, 32, 33, 34, 35, 36, 37, 42, 43, 44]
    + [45, 46, 47, 48, 49, 50, 51]

  /** rrlkuptab is one-to-one on the cached types: each slot has one type. */
  lemma SlotOfType(i: nat)
    requires i < NRRTOT
    ensures CachedType(SLOTTYPES[i]) && SlotOf(SLOTTYPES[i]) == i
  {
    if i < 20 { SlotOfTypeLow(i); } else { SlotOfTypeHigh(i); }
  }

  lemma SlotOfTypeLow(i: nat)
    requires i < 20
    ensures CachedType(SLOTTYPES[i]) && SlotOf(SLOTTYPES[i]) == i
  {}

  lemma SlotOfTypeHigh(i: nat)
    requires 20 <= i < NRRTOT
    ensures CachedType(SLOTTYPES[i]) && SlotOf(SLOTTYPES[i]) == i
  {}

  lemma TypeOfSlot(tp: int)
    requires CachedType(tp)
    ensures SLOTTYPES[SlotOf(tp)] == tp
  {
    if tp <= 20 { TypeOfSlotLow(tp); } else { TypeOfSlotHigh(tp); }
  }

  lemma TypeOfSlotLow(tp: int)
    requires 1 <= tp <= 20
    ensures CachedType(tp) && SLOTTYPES[SlotOf(tp)] == tp
  {}

  lemma TypeOfSlotHigh(tp: int)
    requires tp > 20 && CachedType(tp)
    ensures SLOTTYPES[SlotOf(tp)] == tp
  {}

  /** rrcachiterlist holds exactly the cached types, in ascending order. */
  lemma IterListTypes(k: nat)
    requires k < NRRTOT
    ensures RRCACHITERLIST[k] == if k < 37 then k + 1 else k + 5
    ensures CachedType(RRCACHITERLIST[k])
  {
    if k < 20 { IterListLow(k); } else { IterListHigh(k); }
    CachedTypes(RRCACHITERLIST[k]);
    hide CachedType;
  }

  lemma IterListLow(k: nat)
    requires k < 20
    ensures RRCACHITERLIST[k] == k + 1
  {}

  lemma IterListHigh(k: nat)
    requires 20 <= k < NRRTOT
    ensures RRCACHITERLIST[k] == if k < 37 then k + 1 else k + 5
  {}

  lemma CachedTypes(tp: int)
    ensures CachedType(tp) <==> 1 <= tp <= 37 || 42 <= tp <= 51
  {}

  /** rrmuiterlist holds exactly the types of the first slots, in ascending order. */
  lemma MuIterList(k: nat)
    requires k < NRRMU
    ensures CachedType(RRMUITERLIST[k]) && SlotOf(RRMUITERLIST[k]) == k
    ensures k > 0 ==> RRMUITERLIST[k - 1] < RRMUITERLIST[k]
  {}

  // ---- rr_info

  datatype RRClass = ALIAS | RECORD | IDEM | PTR

  function Excludes(c: RRClass): set<RRClass>
  {
    match c
    case ALIAS => {RECORD, PTR}
    case RECORD => {ALIAS, PTR}
    case IDEM => {}
    case PTR => {ALIAS, RECORD}
  }

  const RR_INFO: seq<RRClass> :=
    [RECORD, IDEM, ALIAS, IDEM, PTR, IDEM, IDEM, RECORD]
    + [IDEM, IDEM, IDEM, IDEM, IDEM, IDEM, RECORD, RECORD]
    + [IDEM, RECORD, RECORD, RECORD, RECORD, RECORD, RECORD, PTR]
    + [IDEM, IDEM, IDEM, RECORD, RECORD, IDEM, RECORD, RECORD]
    + [RECORD, RECORD, RECORD, RECORD, RECORD, IDEM, IDEM, IDEM]
    + [IDEM, IDEM, IDEM, IDEM, IDEM, IDEM, IDEM]

  /** The test of cr_check_add, which looks both ways. */
  predicate Conflict(i: nat, j: nat)
    requires i < NRRTOT && j < NRRTOT
  {
    RR_INFO[i] in Excludes(RR_INFO[j]) || RR_INFO[j] in Excludes(RR_INFO[i])
  }

  lemma ConflictSymmetric(i: nat, j: nat)
    requires i < NRRTOT && j < NRRTOT
    ensures Conflict(i, j) == Conflict(j, i) && !Conflict(i, i)
  {}
}
