/** Three Alpha full-system rules of the Ozone CPU in
    src/cpu/ozone/cpu_impl.hh: the interrupt priority computation of
    `processInterrupts`, the syscall-return register convention of
    `setSyscallReturn`, and the flag reset of `hwrei`.

    The interrupt levels and register numbers are the Alpha ones
    (src/arch/alpha/isa_traits.hh is not part of this model).  The pending
    external interrupt lines (`intr_status()`) are a parameter; invoking the
    interrupt fault and the kernel statistics are outside the model, so the
    fault is reported as a result.

    The interrupt check reads SIRR and the external lines bit by bit and
    writes ISR as a bit mask, so those registers are modelled as their 64
    bits, bit `i` (worth 2^i) at index `i`.  ASTRR, IPLR and INTID are only
    checked, compared or written as numbers, so they are numbers below
    2^64. */
module OzoneCpu {
  import opened Base

  /** A 64-bit integer register. */
  type Reg = bv64


  /** A 64-bit register as its bits. */
  type Bits = s: seq<bool> | |s| == 64 witness seq(64, _ => false)

  /** A 32-bit C++ `int` as its bits; bit 31 is the sign. */
  type IntBits32 = s: seq<bool> | |s| == 32 witness seq(32, _ => false)

  const NoBits: Bits := seq(64, _ => false)

  const SoftwareMin: nat := 4
  const SoftwareMax: nat := 19
  const ExternalMin: nat := 20
  const ExternalMax: nat := 34

  /** Alpha integer registers: v0 returns a syscall's value, a3 its status. */
  const NumIntRegs: nat := 32
  const ReturnValueReg: nat := 0
  const SyscallSuccessReg: nat := 19

  /** The internal processor registers the interrupt check reads and writes. */
  datatype Ipr = Ipr(sirr: Bits, astrr: nat, iplr: nat, isr: Bits, intid: nat)

  /** The CPU state the three operations touch. */
  datatype Cpu = Cpu(
    lockFlag: bool,
    lockAddrList: seq<Addr>,
    checkInterrupts: bool,
    ipr: Ipr,
    intRegs: seq<Reg>)

  datatype Fault = NoFault | InterruptFault

  /** The outcome of an interrupt check: a `panic`, or the new state and
      whether an interrupt fault is raised. */
  datatype Checked = Panic | Checked(cpu: Cpu, raised: bool)

  /** A register is nonzero when some bit is set. */
  predicate Nonzero(x: Bits)
  {
    exists i :: 0 <= i < 64 && x[i]
  }

  /** `x | (ULL(1) << i)`. */
  function SetBit(x: Bits, i: nat): (r: Bits)
    requires i < 64
    ensures forall j :: 0 <= j < 64 ==> r[j] == (x[j] || j == i)
  {
    x[i := true]
  }

  /** `ULL(1) << i`. */
  function Single(i: nat): Bits
    requires i < 64
  {
    seq(64, j => j == i)
  }

  /** The highest set bit of `x` in `[lo, hi)`, or -1 if there is none,
      found by scanning downwards. */
  function Highest(x: Bits, lo: nat, hi: nat): (h: int)
    requires hi <= 64
    ensures h == -1 || lo <= h < hi
    decreases hi
  {
    if hi <= lo then -1
    else if x[hi - 1] then hi - 1
    else Highest(x, lo, hi - 1)
  }

  /** `Highest` is the highest set bit of the range. */
  lemma {:induction false} HighestIsHighest(x: Bits, lo: nat, hi: nat)
    requires hi <= 64
    ensures var h := Highest(x, lo, hi);
            && (h == -1 <==> forall j :: lo <= j < hi ==> !x[j])
            && (h != -1 ==> lo <= h < hi && x[h] && forall j :: h < j < hi ==> !x[j])
    decreases hi
  {
    if hi > lo && !x[hi - 1] {
      HighestIsHighest(x, lo, hi - 1);
    }
  }

  /** The set bits of `x` in `[lo, hi)`. */
  function Collect(x: Bits, lo: nat, hi: nat): (r: Bits)
  {
    seq(64, j requires 0 <= j < 64 => lo <= j < hi && x[j])
  }

  /** The bits set in either register. */
  function Union(a: Bits, b: Bits): Bits
  {
    seq(64, j requires 0 <= j < 64 => a[j] || b[j])
  }

  /** The software level: one more than the position of the highest pending
      software interrupt above `SoftwareMin`, or 0 if none is pending
      (table 4-19 of the 21164 hardware reference). */
  function SoftwareLevel(sirr: Bits): int
  {
    var h := Highest(sirr, SoftwareMin, SoftwareMax);
    if h == -1 then 0 else h - SoftwareMin + 1
  }

  /** The priority level: the highest pending external interrupt's number
      if any is pending, else the software level. */
  function Ipl(sirr: Bits, interrupts: Bits): (ipl: int)
    ensures 0 <= ipl < ExternalMax
  {
    var e := Highest(interrupts, ExternalMin, ExternalMax);
    if e == -1 then SoftwareLevel(sirr) else e
  }

  /** The interrupt summary: every pending software and external interrupt
      in range, as a 64-bit mask. */
  function Summary(sirr: Bits, interrupts: Bits): Bits
  {
    Union(Collect(sirr, SoftwareMin, SoftwareMax), Collect(interrupts, ExternalMin, ExternalMax))
  }

  /** The level ranges: 0 when nothing is pending, 1..15 for software
      interrupts alone, 20..33 when an external interrupt is pending. */
  lemma IplRange(sirr: Bits, interrupts: Bits)
    ensures var ipl := Ipl(sirr, interrupts);
            && (ipl == 0 <==> (forall j :: SoftwareMin <= j < SoftwareMax ==> !sirr[j]) &&
                              (forall j :: ExternalMin <= j < ExternalMax ==> !interrupts[j]))
            && (1 <= ipl <= SoftwareMax - SoftwareMin <==>
                  (exists j :: SoftwareMin <= j < SoftwareMax && sirr[j]) &&
                  (forall j :: ExternalMin <= j < ExternalMax ==> !interrupts[j]))
            && (ipl >= ExternalMin <==> exists j :: ExternalMin <= j < ExternalMax && interrupts[j])
  {
    HighestIsHighest(sirr, SoftwareMin, SoftwareMax);
    HighestIsHighest(interrupts, ExternalMin, ExternalMax);
  }

  /** Nothing is found in a zero register. */
  lemma {:induction false} NothingFromZero(x: Bits, lo: nat, hi: nat)
    requires hi <= 64 && !Nonzero(x)
    ensures Collect(x, lo, hi) == NoBits && Highest(x, lo, hi) == -1
    decreases hi
  {
    if hi > lo {
      assert !x[hi - 1];
      NothingFromZero(x, lo, hi - 1);
    }
  }

  /** One more bit of the scan. */
  lemma CollectStep(x: Bits, lo: nat, i: nat)
    requires lo <= i < 64
    ensures Collect(x, lo, i + 1) == if x[i] then SetBit(Collect(x, lo, i), i) else Collect(x, lo, i)
  {
  }

  /** The same step after the software bits. */
  lemma UnionStep(s: Bits, x: Bits, lo: nat, i: nat)
    requires lo <= i < 64
    ensures Union(s, Collect(x, lo, i + 1)) ==
              if x[i] then SetBit(Union(s, Collect(x, lo, i)), i) else Union(s, Collect(x, lo, i))
  {
    CollectStep(x, lo, i);
  }

  /** `OzoneCPU::processInterrupts`: clear `checkInterrupts`; panic on a
      pending asynchronous trap; scan the software and then the external
      interrupt bits upwards, keeping the last level and every bit seen;
      raise the interrupt, writing ISR and INTID, exactly when the level is
      nonzero and above IPLR.  The summary is kept as a 64-bit mask here;
      `IsrAsWritten` is what the source's `int summary` writes. */
  method ProcessInterrupts(cpu: Cpu, interrupts: Bits) returns (r: Checked)
    ensures r.Panic? <==> cpu.ipr.astrr != 0
    ensures r.Checked? ==> r.cpu == cpu.(checkInterrupts := false, ipr := r.cpu.ipr)
    ensures r.Checked? ==>
              (r.raised <==> Ipl(cpu.ipr.sirr, interrupts) != 0 && Ipl(cpu.ipr.sirr, interrupts) > cpu.ipr.iplr)
    ensures r.Checked? && r.raised ==>
              r.cpu.ipr == cpu.ipr.(isr := Summary(cpu.ipr.sirr, interrupts),
                                    intid := Ipl(cpu.ipr.sirr, interrupts))
    ensures r.Checked? && !r.raised ==> r.cpu.ipr == cpu.ipr
  {
    var c := cpu.(checkInterrupts := false);
    if c.ipr.astrr != 0 {
      return Panic;
    }
    var sirr := c.ipr.sirr;
    var ipl: int := 0;
    var summary: Bits := NoBits;
    if Nonzero(sirr) {
      var i := SoftwareMin;
      assert summary == Collect(sirr, SoftwareMin, i);
      while i < SoftwareMax
        invariant SoftwareMin <= i <= SoftwareMax
        invariant summary == Collect(sirr, SoftwareMin, i)
        invariant var h := Highest(sirr, SoftwareMin, i); ipl == if h == -1 then 0 else h - SoftwareMin + 1
      {
        CollectStep(sirr, SoftwareMin, i);
        if sirr[i] {
          ipl := (i - SoftwareMin) + 1;
          summary := SetBit(summary, i);
        }
        i := i + 1;
      }
    } else {
      NothingFromZero(sirr, SoftwareMin, SoftwareMax);
    }
    var softwareSummary := summary;
    if Nonzero(interrupts) {
      var i := ExternalMin;
      assert summary == Union(softwareSummary, Collect(interrupts, ExternalMin, i));
      while i < ExternalMax
        invariant ExternalMin <= i <= ExternalMax
        invariant summary == Union(softwareSummary, Collect(interrupts, ExternalMin, i))
        invariant var e := Highest(interrupts, ExternalMin, i); ipl == if e == -1 then SoftwareLevel(sirr) else e
      {
        UnionStep(softwareSummary, interrupts, ExternalMin, i);
        if interrupts[i] {
          ipl := i;
          summary := SetBit(summary, i);
        }
        i := i + 1;
      }
    } else {
      NothingFromZero(interrupts, ExternalMin, ExternalMax);
      assert summary == Union(softwareSummary, Collect(interrupts, ExternalMin, ExternalMax));
    }
    if ipl != 0 && ipl > c.ipr.iplr {
      return Checked(c.(ipr := c.ipr.(isr := summary, intid := ipl)), true);
    }
    return Checked(c, false);
  }

  /** A 64-bit value converted to `int`: its low 32 bits. */
  function Narrow(x: Bits): IntBits32
  {
    x[..32]
  }

  /** An `int` converted to a 64-bit value: bit 31 is copied into bits
      32..63. */
  function Widen(x: IntBits32): Bits
  {
    x + seq(32, _ => x[31])
  }

  /** One `summary |= (ULL(1) << i)` on the source's `int summary`: the
      `int` is widened, the bit or-ed in, and the result narrowed back.  If
      the `int` held the low half of a 64-bit mask, it then holds the low
      half of the mask with bit `i` set, so bits 32 and up never arrive. */
  lemma Int32OrStep(s: IntBits32, full: Bits, i: nat)
    requires i < 64 && s == Narrow(full)
    ensures Narrow(SetBit(Widen(s), i)) == Narrow(SetBit(full, i))
    ensures i >= 32 ==> Narrow(SetBit(Widen(s), i)) == s
  {
  }

  /** The ISR value as the source writes it: the summary accumulated in an
      `int` (by `Int32OrStep`, the low half of the 64-bit summary) widened
      back to 64 bits. */
  function IsrAsWritten(sirr: Bits, interrupts: Bits): Bits
  {
    Widen(Narrow(Summary(sirr, interrupts)))
  }

  /** What the ISR as coded holds: the summary's bits 0..31, and above them
      copies of its bit 31 in place of bits 32 and 33. */
  lemma IsrAsWrittenBits(sirr: Bits, interrupts: Bits)
    ensures forall j :: 0 <= j < 32 ==> IsrAsWritten(sirr, interrupts)[j] == Summary(sirr, interrupts)[j]
    ensures forall j :: 32 <= j < 64 ==>
              IsrAsWritten(sirr, interrupts)[j] == Summary(sirr, interrupts)[31]
  {
  }

  /** The serial console's interrupt is level 33: alone it raises an
      interrupt at level 33 and its summary has bit 33, yet the ISR written
      as coded is 0.  Level 31 alone writes bits 31..63 as coded. */
  lemma IsrAsWrittenLosesHighLevels()
    ensures Ipl(NoBits, Single(33)) == 33 && Summary(NoBits, Single(33)) == Single(33)
    ensures IsrAsWritten(NoBits, Single(33)) == NoBits
    ensures Ipl(NoBits, Single(31)) == 31 && Summary(NoBits, Single(31)) == Single(31)
    ensures forall j :: 31 <= j < 64 ==> IsrAsWritten(NoBits, Single(31))[j]
  {
    NothingFromZero(NoBits, SoftwareMin, SoftwareMax);
    assert Summary(NoBits, Single(33)) == Single(33);
    assert Summary(NoBits, Single(31)) == Single(31);
    assert IsrAsWritten(NoBits, Single(33)) == NoBits;
  }

  /** `OzoneCPU::setSyscallReturn`, in the Alpha convention: on success a3
      holds 0 and v0 the value; on failure a3 holds -1 and v0 the negated
      value, both modulo 2^64.  No other register changes. */
  function SetSyscallReturn(regs: seq<Reg>, successful: bool, value: Reg): (r: seq<Reg>)
    requires |regs| == NumIntRegs
    ensures |r| == NumIntRegs
    ensures forall i :: 0 <= i < NumIntRegs && i != ReturnValueReg && i != SyscallSuccessReg ==> r[i] == regs[i]
    ensures successful ==> r[SyscallSuccessReg] == 0 && r[ReturnValueReg] == value
    ensures !successful ==> r[SyscallSuccessReg] == 0xFFFF_FFFF_FFFF_FFFF && r[ReturnValueReg] + value == 0
  {
    if successful then regs[SyscallSuccessReg := 0][ReturnValueReg := value]
    else regs[SyscallSuccessReg := 0xFFFF_FFFF_FFFF_FFFF][ReturnValueReg := 0 - value]
  }

  /** How a caller reads the convention back: a3 zero means success with
      v0 as the value, anything else failure with the negation of v0. */
  function DecodeSyscallReturn(regs: seq<Reg>): (bool, Reg)
    requires |regs| == NumIntRegs
  {
    if regs[SyscallSuccessReg] == 0 then (true, regs[ReturnValueReg]) else (false, 0 - regs[ReturnValueReg])
  }

  /** Every syscall outcome survives the register convention. */
  lemma SyscallReturnRoundTrip(regs: seq<Reg>, successful: bool, value: Reg)
    requires |regs| == NumIntRegs
    ensures DecodeSyscallReturn(SetSyscallReturn(regs, successful, value)) == (successful, value)
  {
  }

  /** `OzoneCPU::hwrei`: drop the load-locked flag and addresses, ask for an
      interrupt check, and return without a fault. */
  function Hwrei(cpu: Cpu): (r: (Cpu, Fault))
    ensures r.1 == NoFault
    ensures !r.0.lockFlag && r.0.lockAddrList == [] && r.0.checkInterrupts
    ensures r.0.ipr == cpu.ipr && r.0.intRegs == cpu.intRegs
  {
    (cpu.(lockFlag := false, lockAddrList := [], checkInterrupts := true), NoFault)
  }

  /** `hwrei` followed by the interrupt check it requests: the check
      consumes the request, the load-locked state stays dropped, and the
      outcome is decided by the interrupt registers `hwrei` left alone. */
  method HwreiThenCheck(cpu: Cpu, interrupts: Bits) returns (r: Checked)
    ensures r.Panic? <==> cpu.ipr.astrr != 0
    ensures r.Checked? ==>
              && !r.cpu.checkInterrupts && !r.cpu.lockFlag && r.cpu.lockAddrList == []
              && r.cpu.intRegs == cpu.intRegs
    ensures r.Checked? ==>
              (r.raised <==> Ipl(cpu.ipr.sirr, interrupts) != 0 && Ipl(cpu.ipr.sirr, interrupts) > cpu.ipr.iplr)
    ensures r.Checked? && r.raised ==>
              r.cpu.ipr == cpu.ipr.(isr := Summary(cpu.ipr.sirr, interrupts),
                                    intid := Ipl(cpu.ipr.sirr, interrupts))
    ensures r.Checked? && !r.raised ==> r.cpu.ipr == cpu.ipr
  {
    var (c, _) := Hwrei(cpu);
    r := ProcessInterrupts(c, interrupts);
  }
}
