/** Allocation: it may fail at any point, unless memory never runs out. */
module Memory {
  method Allocate(enough: bool) returns (ok: bool)
    ensures enough ==> ok
  {
    ok := *;
    if enough { ok := true; }
  }
}
