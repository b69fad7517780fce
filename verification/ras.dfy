/** The top-of-stack index arithmetic of the O3 CPU's return address stack,
    src/cpu/o3/ras.hh: the private `incrTos` and `decrTos`, the accessors
    `top` and `topIdx`, and `restore` as its documentation states it
    (src/cpu/o3/ras.cc is not part of this model, so `push`, `pop`, `init`
    and `reset` are not either).

    `tos` and `numEntries` are `unsigned`, so they are kept below 2^32 and
    their arithmetic wraps. */
module Ras {
  import opened Base

  const U32: nat := 0x1_0000_0000

  datatype Ras = Ras(addrStack: seq<Addr>, numEntries: nat, usedEntries: nat, tos: nat)

  /** The unsigned fields hold 32-bit values. */
  predicate Unsigned(r: Ras)
  {
    r.numEntries < U32 && r.usedEntries < U32 && r.tos < U32
  }

  /** An initialised stack: as many slots as entries, and the top index
      among them. */
  predicate Valid(r: Ras)
  {
    Unsigned(r) && |r.addrStack| == r.numEntries && r.tos < r.numEntries
  }

  /** `incrTos`: the pre-increment wraps at 2^32, and reaching `numEntries`
      resets the index to 0. */
  function IncrTos(r: Ras): (s: Ras)
    requires Unsigned(r)
    ensures Unsigned(s) && s == r.(tos := s.tos)
  {
    var t := (r.tos + 1) % U32;
    r.(tos := if t == r.numEntries then 0 else t)
  }

  /** `decrTos`: 0 steps to `numEntries - 1` in unsigned arithmetic, any
      other index to the one below. */
  function DecrTos(r: Ras): (s: Ras)
    requires Unsigned(r)
    ensures Unsigned(s) && s == r.(tos := s.tos)
  {
    r.(tos := if r.tos == 0 then (r.numEntries - 1) % U32 else r.tos - 1)
  }

  /** On a valid stack `incrTos` is a step forward modulo `numEntries`. */
  lemma IncrTosSteps(r: Ras)
    requires Valid(r)
    ensures Valid(IncrTos(r)) && IncrTos(r).tos == (r.tos + 1) % r.numEntries
  {
    ModUnique(r.tos + 1, U32, 0, r.tos + 1);
    if r.tos + 1 == r.numEntries {
      ModUnique(r.tos + 1, r.numEntries, 1, 0);
    } else {
      ModUnique(r.tos + 1, r.numEntries, 0, r.tos + 1);
    }
  }

  /** On a valid stack `decrTos` is a step back modulo `numEntries`. */
  lemma DecrTosSteps(r: Ras)
    requires Valid(r)
    ensures Valid(DecrTos(r)) && DecrTos(r).tos == (r.tos + r.numEntries - 1) % r.numEntries
  {
    var n := r.numEntries;
    if r.tos == 0 {
      ModUnique(n - 1, U32, 0, n - 1);
      ModUnique(r.tos + n - 1, n, 0, n - 1);
    } else {
      ModUnique(r.tos + n - 1, n, 1, r.tos - 1);
    }
  }

  /** `top`: the address in the top slot. */
  function Top(r: Ras): (a: Addr)
    requires r.tos < |r.addrStack|
    ensures a in r.addrStack
  {
    r.addrStack[r.tos]
  }

  /** `topIdx`: the index of the top slot. */
  function TopIdx(r: Ras): (i: nat)
    ensures Valid(r) ==> i < r.numEntries
  {
    r.tos
  }

  /** `restore(idx, target)` as documented: `idx` becomes the top and its
      slot is replaced by `target`; every other slot is kept. */
  function Restore(r: Ras, idx: nat, target: Addr): (s: Ras)
    requires Valid(r) && idx < r.numEntries
    ensures Valid(s) && TopIdx(s) == idx && Top(s) == target
    ensures |s.addrStack| == |r.addrStack|
    ensures forall i :: 0 <= i < |r.addrStack| && i != idx ==> s.addrStack[i] == r.addrStack[i]
    ensures s.numEntries == r.numEntries && s.usedEntries == r.usedEntries
  {
    r.(tos := idx, addrStack := r.addrStack[idx := target])
  }

  /** A decrement undoes an increment on a valid stack. */
  lemma DecrUndoesIncr(r: Ras)
    requires Valid(r)
    ensures DecrTos(IncrTos(r)) == r
  {
    IncrTosSteps(r);
    ModUnique(r.numEntries - 1, U32, 0, r.numEntries - 1);
  }

  /** An increment undoes a decrement on a valid stack. */
  lemma IncrUndoesDecr(r: Ras)
    requires Valid(r)
    ensures IncrTos(DecrTos(r)) == r
  {
    DecrTosSteps(r);
    ModUnique(DecrTos(r).tos + 1, U32, 0, DecrTos(r).tos + 1);
  }

  /** With no entries the decrement leaves the stack's range: from index 0
      the unsigned `numEntries - 1` is 2^32 - 1. */
  lemma DecrWithoutEntries(r: Ras)
    requires Unsigned(r) && r.numEntries == 0 && r.tos == 0
    ensures DecrTos(r).tos == U32 - 1
  {
  }

  /** `k` increments in a row. */
  function IncrTosTimes(r: Ras, k: nat): (s: Ras)
    requires Unsigned(r)
    ensures Unsigned(s)
  {
    if k == 0 then r else IncrTos(IncrTosTimes(r, k - 1))
  }

  /** `k` increments on a valid stack advance the top by `k` modulo the
      number of entries, so `numEntries` of them come back to the start. */
  lemma {:induction false} IncrTosTimesAdvances(r: Ras, k: nat)
    requires Valid(r)
    ensures Valid(IncrTosTimes(r, k)) && IncrTosTimes(r, k).addrStack == r.addrStack
    ensures IncrTosTimes(r, k).numEntries == r.numEntries
    ensures IncrTosTimes(r, k).tos == (r.tos + k) % r.numEntries
  {
    if k > 0 {
      IncrTosTimesAdvances(r, k - 1);
      var n, x := r.numEntries, r.tos + (k - 1);
      var prev := IncrTosTimes(r, k - 1);
      assert prev.tos == x % n;
      IncrTosSteps(prev);
      assert IncrTosTimes(r, k) == IncrTos(prev);
      ModSucc(x, n);
      assert x + 1 == r.tos + k;
    } else {
      ModUnique(r.tos, r.numEntries, 0, r.tos);
    }
  }

  /** `((x % n) + 1) % n == (x + 1) % n`. */
  lemma ModSucc(x: nat, n: nat)
    requires n > 0
    ensures ((x % n) + 1) % n == (x + 1) % n
  {
    var q, r := x / n, x % n;
    if r + 1 < n {
      ModUnique(x + 1, n, q, r + 1);
      ModUnique(r + 1, n, 0, r + 1);
    } else {
      ModUnique(x + 1, n, q + 1, 0);
      ModUnique(r + 1, n, 1, 0);
    }
  }

  /** The remainder is the unique `r` below `n` with `x == q * n + r`. */
  lemma ModUnique(x: nat, n: nat, q: int, r: int)
    requires n > 0 && 0 <= r < n && x == q * n + r
    ensures x % n == r
  {
    var q', r' := x / n, x % n;
    assert (q - q') * n == r' - r;
    MulAtLeast(q - q', n);
    MulAtLeast(q' - q, n);
  }

  /** A positive multiple of `n` is at least `n`. */
  lemma MulAtLeast(d: int, n: nat)
    ensures d >= 1 ==> d * n >= n
  {
    if d >= 1 {
      assert d * n == (d - 1) * n + n;
    }
  }

  /** After a `restore` the stack carries on from the restored index: the
      next increment moves the top to the slot after `idx`, the next
      decrement to the slot before it, and both keep `target` in slot
      `idx`. */
  lemma RestoreThenStep(r: Ras, idx: nat, target: Addr)
    requires Valid(r) && idx < r.numEntries
    ensures var s := Restore(r, idx, target);
            && IncrTos(s).tos == (idx + 1) % r.numEntries
            && DecrTos(s).tos == (idx + r.numEntries - 1) % r.numEntries
            && IncrTos(s).addrStack[idx] == target && DecrTos(s).addrStack[idx] == target
  {
    var s := Restore(r, idx, target);
    IncrTosSteps(s);
    DecrTosSteps(s);
  }
}
