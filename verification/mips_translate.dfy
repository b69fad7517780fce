/** The full-system `ITB::translate` and `DTB::translate` of
    src/arch/mips/tlb.cc: the kseg0/kseg1 shortcuts, the alignment check,
    the page-size-aware VPN, the TLB lookup, the even/odd half select, the
    fault encoding and the cacheability tagging.

    The address-space predicates and the kseg0-to-physical conversion of
    the MIPS ISA are not part of this model; they are supplied as the
    functions of a `Segments` value.  The operating-mode query and the
    request's own misalignment test are supplied as booleans. */
module MipsTranslate {
  import opened Base
  import opened MipsTlb

  /** Request flags; only `Uncacheable` is acted on here. */
  datatype ReqFlag = Uncacheable | OtherFlag(bit: nat)

  /** The memory request as translation sees it: its virtual address, the
      ASID it is tagged with, whether it is misaligned for its size, and the
      physical address and flags translation may write. */
  datatype Request = Request(vaddr: Addr, asid: bv8, misaligned: bool, paddr: Addr, flags: set<ReqFlag>)

  /** `IsKSeg0`, `IsKSeg1` and `KSeg02Phys` of the MIPS ISA. */
  datatype Segments = Segments(isKSeg0: Addr -> bool, isKSeg1: Addr -> bool, kseg0ToPhys: Addr -> Addr)

  /** The fields a TLB fault carries for the exception handler: EntryHi's
      ASID, VPN2 and VPN2X, BadVAddr, and Context's BadVPN2. */
  datatype TlbFaultInfo = TlbFaultInfo(
    entryHiAsid: bv8,
    entryHiVpn2: Addr,
    entryHiVpn2x: Addr,
    badVAddr: Addr,
    contextBadVpn2: Addr)

  datatype Fault =
    | NoFault
    | AddressError(badVAddr: Addr)
    | StoreAddressError(badVAddr: Addr)
    | ItbInvalid(info: TlbFaultInfo)
    | ItbRefill(info: TlbFaultInfo)
    | DtbInvalid(info: TlbFaultInfo)
    | DtbRefill(info: TlbFaultInfo)
    | TlbModified(info: TlbFaultInfo)
  {
    /** One of the faults raised from the TLB lookup (not an address error). */
    predicate IsTlbFault()
    {
      ItbInvalid? || ItbRefill? || DtbInvalid? || DtbRefill? || TlbModified?
    }
  }

  /** The request after translation together with the returned fault.  The
      request is returned even when there is a fault, because the kseg0 path
      writes the physical address before deciding to fault. */
  datatype Translation = Translation(req: Request, fault: Fault)

  /** The virtual-address bits that make `checkCacheability` mark a request
      uncacheable. */
  const VAddrUncacheable: Addr := 0xA000_0000

  predicate UncacheableVAddr(vaddr: Addr)
  {
    (vaddr & VAddrUncacheable) == VAddrUncacheable
  }

  /** `TLB::checkCacheability`: add `Uncacheable` when both bits 31 and 29 of
      the virtual address are set; nothing else changes. */
  function CheckCacheability(req: Request): (r: Request)
    ensures r.vaddr == req.vaddr && r.asid == req.asid && r.misaligned == req.misaligned && r.paddr == req.paddr
    ensures Uncacheable in r.flags <==> Uncacheable in req.flags || UncacheableVAddr(req.vaddr)
    ensures r.flags - {Uncacheable} == req.flags - {Uncacheable}
  {
    if UncacheableVAddr(req.vaddr) then req.(flags := req.flags + {Uncacheable}) else req
  }

  /** The literal `0xFFFFFFFC` of the source is a 32-bit unsigned constant;
      applied to a 64-bit address it also clears bits 32 and up. */
  const VpnLargePageMask: Addr := 0x0000_0000_FFFF_FFFC

  /** The VPN used for the lookup: the address shifted right by 11, with the
      two low bits cleared unless `smallPages == 1`. */
  function MappedVpn(vaddr: Addr, smallPages: int): (vpn: Addr)
    ensures smallPages == 1 ==> vpn == vaddr >> 11
    ensures smallPages != 1 ==> vpn & 3 == 0 && vpn >> 2 == ((vaddr >> 13) & 0x3FFF_FFFF)
  {
    if smallPages == 1 then vaddr >> 11 else (vaddr >> 11) & VpnLargePageMask
  }

  /** The fault fields every TLB fault carries. */
  function FaultFields(vaddr: Addr, asid: bv8, vpn: Addr): (f: TlbFaultInfo)
    ensures (f.entryHiVpn2 << 2) | f.entryHiVpn2x == vpn
    ensures f.entryHiVpn2x < 4 && f.contextBadVpn2 == f.entryHiVpn2
    ensures f.badVAddr == vaddr && f.entryHiAsid == asid
  {
    TlbFaultInfo(asid, vpn >> 2, vpn & 3, vaddr, vpn >> 2)
  }

  /** Entries whose shifts are defined: the half-select shift is below 64
      and, for an entry with a valid half, the frame shifts `asa - 12` and
      `asa` are too.  Shifting a 64-bit value by a negative amount or by 64
      or more is undefined in the source language. */
  predicate ShiftsDefined(p: Pte)
  {
    0 <= p.addrShiftAmount < 64 && (IsValid(p) ==> 12 <= p.addrShiftAmount)
  }

  /** What translation needs of the TLB. */
  predicate Translatable(t: Tlb)
  {
    LinksInBounds(t.lookupTable, |t.table|) && forall p :: p in t.table ==> ShiftsDefined(p)
  }

  /** `addrShiftAmount` as a shift count. */
  function ShiftCount(p: Pte): (k: bv7)
    requires 0 <= p.addrShiftAmount < 64
    ensures k < 64 && (p.addrShiftAmount >= 12 ==> k >= 12)
  {
    p.addrShiftAmount as bv7
  }

  /** Bit `addrShiftAmount` of the virtual address selects the odd half. */
  function OddHalf(p: Pte, vaddr: Addr): bool
    requires 0 <= p.addrShiftAmount < 64
  {
    (vaddr >> ShiftCount(p)) & 1 != 0
  }

  function HalfValid(p: Pte, vaddr: Addr): bool
    requires 0 <= p.addrShiftAmount < 64
  {
    if OddHalf(p, vaddr) then p.v1 else p.v0
  }

  function HalfDirty(p: Pte, vaddr: Addr): bool
    requires 0 <= p.addrShiftAmount < 64
  {
    if OddHalf(p, vaddr) then p.d1 else p.d0
  }

  /** The physical address of a hit: the selected half's frame number,
      shifted down by `asa - 12` and up by `asa`, with the virtual address's
      bits under `offsetMask` or-ed in. */
  function PhysAddr(p: Pte, vaddr: Addr): Addr
    requires 12 <= p.addrShiftAmount < 64
  {
    var s := ShiftCount(p);
    var frame := FrameNumber(p, vaddr) >> (s - 12);
    (frame << s) | (vaddr & p.offsetMask)
  }

  /** The PFN of the selected half. */
  function FrameNumber(p: Pte, vaddr: Addr): Addr
    requires 0 <= p.addrShiftAmount < 64
  {
    if OddHalf(p, vaddr) then p.pfn1 else p.pfn0
  }

  /** The common mapped-segment part of `ITB::translate` and
      `DTB::translate`, given the fault constructors of each side.  The DTB
      passes `checkDirty = true`. */
  function MappedTranslate(t: Tlb, req: Request, invalid: TlbFaultInfo -> Fault,
                           refill: TlbFaultInfo -> Fault, misalignedFault: Fault,
                           checkDirty: bool): Translation
    requires Translatable(t)
  {
    var vpn := MappedVpn(req.vaddr, t.smallPages);
    var info := FaultFields(req.vaddr, req.asid, vpn);
    if req.misaligned then Translation(req, misalignedFault)
    else match Lookup(t, vpn, req.asid)
      case None => Translation(req, refill(info))
      case Some(p) =>
        if !HalfValid(p, req.vaddr) then Translation(req, invalid(info))
        else if checkDirty && !HalfDirty(p, req.vaddr) then Translation(req, TlbModified(info))
        else Translation(CheckCacheability(req.(paddr := PhysAddr(p, req.vaddr))), NoFault)
  }

  /** The outcome both translators share: what happens in kseg0, in kseg1,
      and on each path through the TLB, with the side's own fault kinds. */
  ghost predicate Translates(t: Tlb, req: Request, seg: Segments, kernelMode: bool, r: Translation,
                             addrFault: Fault, invalid: TlbFaultInfo -> Fault,
                             refill: TlbFaultInfo -> Fault, checkDirty: bool)
    requires Translatable(t)
  {
    var v := req.vaddr;
    var vpn := MappedVpn(v, t.smallPages);
    var info := FaultFields(v, req.asid, vpn);
    && r.req.vaddr == v && r.req.asid == req.asid && r.req.misaligned == req.misaligned
    // kseg0: translated without the TLB, but only for aligned kernel accesses
    && (seg.isKSeg0(v) ==>
          && r.req.paddr == seg.kseg0ToPhys(v)
          && (if !kernelMode || req.misaligned then r.fault == addrFault else r.fault == NoFault))
    // kseg1: translated without the TLB, never faults
    && (!seg.isKSeg0(v) && seg.isKSeg1(v) ==> r.req.paddr == seg.kseg0ToPhys(v) && r.fault == NoFault)
    // mapped segments
    && (!seg.isKSeg0(v) && !seg.isKSeg1(v) ==>
          && (req.misaligned ==> r.fault == addrFault)
          && (!req.misaligned && !Hits(t, vpn, req.asid) ==> r.fault == refill(info))
          && (!req.misaligned && Hits(t, vpn, req.asid) ==>
                var p := Lookup(t, vpn, req.asid).value;
                && (!HalfValid(p, v) ==> r.fault == invalid(info))
                && (HalfValid(p, v) && checkDirty && !HalfDirty(p, v) ==> r.fault == TlbModified(info))
                && (HalfValid(p, v) && (!checkDirty || HalfDirty(p, v)) ==>
                      r.fault == NoFault && r.req.paddr == PhysAddr(p, v)))
          && (r.fault != NoFault ==> r.req.paddr == req.paddr))
    // flags: tagged by cacheability on success, untouched on a fault
    && (r.fault == NoFault ==> r.req.flags == CheckCacheability(req).flags)
    && (r.fault != NoFault ==> r.req.flags == req.flags)
  }

  /** Full-system `ITB::translate`. */
  function ItbTranslate(t: Tlb, req: Request, seg: Segments, kernelMode: bool): (r: Translation)
    requires Translatable(t)
    ensures Translates(t, req, seg, kernelMode, r, AddressError(req.vaddr),
                       i => ItbInvalid(i), i => ItbRefill(i), false)
  {
    var v := req.vaddr;
    if seg.isKSeg0(v) then
      var req1 := req.(paddr := seg.kseg0ToPhys(v));
      if !kernelMode || req.misaligned then Translation(req1, AddressError(v))
      else Translation(CheckCacheability(req1), NoFault)
    else if seg.isKSeg1(v) then
      Translation(CheckCacheability(req.(paddr := seg.kseg0ToPhys(v))), NoFault)
    else
      MappedTranslate(t, req, i => ItbInvalid(i), i => ItbRefill(i), AddressError(v), false)
  }

  /** Full-system `DTB::translate`.  The `write` argument is never read: the
      dirty check, and with it `TlbModified`, applies to every data access. */
  function DtbTranslate(t: Tlb, req: Request, seg: Segments, kernelMode: bool, write: bool): (r: Translation)
    requires Translatable(t)
    ensures Translates(t, req, seg, kernelMode, r, StoreAddressError(req.vaddr),
                       i => DtbInvalid(i), i => DtbRefill(i), true)
  {
    var v := req.vaddr;
    if seg.isKSeg0(v) then
      var req1 := req.(paddr := seg.kseg0ToPhys(v));
      if !kernelMode || req.misaligned then Translation(req1, StoreAddressError(v))
      else Translation(CheckCacheability(req1), NoFault)
    else if seg.isKSeg1(v) then
      Translation(CheckCacheability(req.(paddr := seg.kseg0ToPhys(v))), NoFault)
    else
      MappedTranslate(t, req, i => DtbInvalid(i), i => DtbRefill(i), StoreAddressError(v), true)
  }

  /** The data-side fault that corresponds to an instruction-side one. */
  function DataSide(f: Fault): Fault
  {
    match f
    case AddressError(v) => StoreAddressError(v)
    case ItbInvalid(i) => DtbInvalid(i)
    case ItbRefill(i) => DtbRefill(i)
    case _ => f
  }

  /** The two translators differ only in the names of their faults and in
      the DTB's dirty check: whenever the DTB does not report `TlbModified`
      its outcome is the ITB's with the fault renamed, and when it does the
      ITB succeeds on the same mapped access. */
  lemma ItbDtbAgree(t: Tlb, req: Request, seg: Segments, kernelMode: bool, write: bool)
    requires Translatable(t)
    ensures var i := ItbTranslate(t, req, seg, kernelMode);
            var d := DtbTranslate(t, req, seg, kernelMode, write);
            && (d.fault.TlbModified? ==>
                  i.fault == NoFault && !seg.isKSeg0(req.vaddr) && !seg.isKSeg1(req.vaddr))
            && (!d.fault.TlbModified? ==> d == Translation(i.req, DataSide(i.fault)))
  {
  }

  /** `DTB::translate` does not depend on whether the access is a write. */
  lemma DtbIgnoresWrite(t: Tlb, req: Request, seg: Segments, kernelMode: bool)
    requires Translatable(t)
    ensures DtbTranslate(t, req, seg, kernelMode, true) == DtbTranslate(t, req, seg, kernelMode, false)
  {
  }

  /** Accesses to kseg0 and kseg1 never consult the TLB: they raise no TLB
      fault, and both translators agree on the physical address. */
  lemma UnmappedNoTlbFault(t: Tlb, req: Request, seg: Segments, kernelMode: bool, write: bool)
    requires Translatable(t)
    requires seg.isKSeg0(req.vaddr) || seg.isKSeg1(req.vaddr)
    ensures !ItbTranslate(t, req, seg, kernelMode).fault.IsTlbFault()
    ensures !DtbTranslate(t, req, seg, kernelMode, write).fault.IsTlbFault()
    ensures ItbTranslate(t, req, seg, kernelMode).req.paddr == seg.kseg0ToPhys(req.vaddr)
    ensures DtbTranslate(t, req, seg, kernelMode, write).req.paddr == seg.kseg0ToPhys(req.vaddr)
  {
  }

  /** After `flushAll` every aligned mapped access is a refill. */
  lemma FlushedTlbRefills(t: Tlb, req: Request, seg: Segments, kernelMode: bool, write: bool)
    requires !seg.isKSeg0(req.vaddr) && !seg.isKSeg1(req.vaddr) && !req.misaligned
    ensures Translatable(FlushAll(t))
    ensures var info := FaultFields(req.vaddr, req.asid, MappedVpn(req.vaddr, t.smallPages));
            && ItbTranslate(FlushAll(t), req, seg, kernelMode).fault == ItbRefill(info)
            && DtbTranslate(FlushAll(t), req, seg, kernelMode, write).fault == DtbRefill(info)
  {
    var f := FlushAll(t);
    forall p | p in f.table ensures ShiftsDefined(p) {
      var s :| 0 <= s < |f.table| && f.table[s] == p;
    }
    FlushAllInv(t, MappedVpn(req.vaddr, t.smallPages), req.asid);
  }

  /** A TLB holding one entry, inserted after `flushAll`, translates an
      aligned mapped instruction fetch of that entry's VPN as the even/odd
      half says: a foreign ASID misses a non-global entry (a refill); an
      invalid half is an `Invalid` fault, not a refill, because `insertAt`
      indexes invalid entries too; a valid half succeeds with the address
      `PhysAddr` builds from it. */
  lemma SingleEntryItb(t: Tlb, pte: Pte, index: nat, smallPages: int,
                       req: Request, seg: Segments, kernelMode: bool)
    requires index < |t.table| && ShiftsDefined(pte)
    requires !seg.isKSeg0(req.vaddr) && !seg.isKSeg1(req.vaddr) && !req.misaligned
    requires MappedVpn(req.vaddr, smallPages) == pte.vpn
    ensures Translatable(InsertAt(FlushAll(t), pte, index, smallPages))
    ensures var i := ItbTranslate(InsertAt(FlushAll(t), pte, index, smallPages), req, seg, kernelMode);
            var info := FaultFields(req.vaddr, req.asid, pte.vpn);
            && (!pte.g && req.asid != pte.asid ==> i.fault == ItbRefill(info))
            && ((pte.g || req.asid == pte.asid) && !HalfValid(pte, req.vaddr) ==> i.fault == ItbInvalid(info))
            && ((pte.g || req.asid == pte.asid) && HalfValid(pte, req.vaddr) ==>
                  && i.fault == NoFault
                  && i.req.paddr == PhysAddr(pte, req.vaddr))
  {
    SingleEntryTable(t, pte, index, smallPages);
    SingleEntryLookup(t, pte, index, smallPages, req.asid);
  }

  /** The data side of `SingleEntryItb`: the same outcomes, except that a
      valid but clean half is a `TlbModified` fault for reads and writes
      alike. */
  lemma SingleEntryDtb(t: Tlb, pte: Pte, index: nat, smallPages: int,
                       req: Request, seg: Segments, kernelMode: bool, write: bool)
    requires index < |t.table| && ShiftsDefined(pte)
    requires !seg.isKSeg0(req.vaddr) && !seg.isKSeg1(req.vaddr) && !req.misaligned
    requires MappedVpn(req.vaddr, smallPages) == pte.vpn
    ensures Translatable(InsertAt(FlushAll(t), pte, index, smallPages))
    ensures var d := DtbTranslate(InsertAt(FlushAll(t), pte, index, smallPages), req, seg, kernelMode, write);
            var info := FaultFields(req.vaddr, req.asid, pte.vpn);
            && (!pte.g && req.asid != pte.asid ==> d.fault == DtbRefill(info))
            && ((pte.g || req.asid == pte.asid) && !HalfValid(pte, req.vaddr) ==> d.fault == DtbInvalid(info))
            && ((pte.g || req.asid == pte.asid) && HalfValid(pte, req.vaddr) && !HalfDirty(pte, req.vaddr) ==>
                  d.fault == TlbModified(info))
            && ((pte.g || req.asid == pte.asid) && HalfValid(pte, req.vaddr) && HalfDirty(pte, req.vaddr) ==>
                  d.fault == NoFault && d.req.paddr == PhysAddr(pte, req.vaddr))
  {
    SingleEntryTable(t, pte, index, smallPages);
    SingleEntryLookup(t, pte, index, smallPages, req.asid);
  }

  /** After a flush and one insertion the TLB can translate and holds
      exactly one link, to the inserted slot. */
  lemma SingleEntryTable(t: Tlb, pte: Pte, index: nat, smallPages: int)
    requires index < |t.table| && ShiftsDefined(pte)
    ensures Translatable(InsertAt(FlushAll(t), pte, index, smallPages))
    ensures InsertAt(FlushAll(t), pte, index, smallPages).lookupTable == [Link(pte.vpn, index)]
  {
    var f := FlushAll(t);
    var t1 := InsertAt(f, pte, index, smallPages);
    assert t1.lookupTable == [Link(pte.vpn, index)] by {
      assert !IsValid(f.table[index]);
    }
    forall p | p in t1.table ensures ShiftsDefined(p) {
      var s :| 0 <= s < |t1.table| && t1.table[s] == p;
      if s != index {
        assert p == ZeroPte;
      }
    }
  }

  /** After a flush and one insertion, a lookup of the inserted VPN hits
      exactly when the entry is global or the ASIDs agree. */
  lemma SingleEntryLookup(t: Tlb, pte: Pte, index: nat, smallPages: int, asn: bv8)
    requires index < |t.table| && ShiftsDefined(pte)
    ensures Lookup(InsertAt(FlushAll(t), pte, index, smallPages), pte.vpn, asn)
              == if pte.g || asn == pte.asid then Some(pte) else None
  {
    var t1 := InsertAt(FlushAll(t), pte, index, smallPages);
    SingleEntryTable(t, pte, index, smallPages);
    assert t1.table[index] == pte;
    LookupSingleLink(t1, pte.vpn, asn);
  }

  /** With a single link, a lookup of its key tries exactly that slot. */
  lemma LookupSingleLink(t: Tlb, vpn: Addr, asn: bv8)
    requires |t.lookupTable| == 1 && t.lookupTable[0].vpn == vpn && t.lookupTable[0].slot < |t.table|
    ensures Lookup(t, vpn, asn) == var p := t.table[t.lookupTable[0].slot]; if Matches(p, vpn, asn) then Some(p) else None
  {
    assert FindLinkFrom(t, vpn, asn, 1) == None;
  }

  /** The entry of the concrete runs below: VPN 0x100, ASID 3, not global,
      4 KiB halves, even half valid and clean at frame 0x40, odd half
      invalid. */
  const ScenarioPte: Pte := Pte(0, 0x100, 3, false, 0x40, 0x50, true, false, false, false, 12, 0xFFF)

  /** An even-half access (bit 12 clear), an odd-half access (bit 12 set),
      and the even-half address under a foreign ASID. */
  const EvenReq: Request := Request(0x8_0000, 3, false, 0, {})
  const OddReq: Request := Request(0x8_1000, 3, false, 0, {})
  const ForeignReq: Request := Request(0x8_0000, 7, false, 0, {})

  /** The addresses of the scenario are mapped and select the intended halves. */
  lemma ScenarioAddresses()
    ensures MappedVpn(EvenReq.vaddr, 0) == 0x100 && MappedVpn(OddReq.vaddr, 0) == 0x100
    ensures HalfValid(ScenarioPte, EvenReq.vaddr) && !HalfDirty(ScenarioPte, EvenReq.vaddr)
    ensures !HalfValid(ScenarioPte, OddReq.vaddr)
    ensures PhysAddr(ScenarioPte, EvenReq.vaddr) == 0x4_0000
    ensures PhysAddr(ScenarioPte.(d0 := true), EvenReq.vaddr) == 0x4_0000
    ensures !UncacheableVAddr(EvenReq.vaddr)
  {
  }

  /** On a flushed four-slot TLB holding `ScenarioPte` in slot 0, the even
      half translates to 0x40000 on the instruction side, the odd half is
      `Invalid`, and ASID 7 misses. */
  lemma FourSlotInstructionSide(t: Tlb, seg: Segments, kernelMode: bool)
    requires |t.table| == 4
    requires !seg.isKSeg0(0x8_0000) && !seg.isKSeg1(0x8_0000)
    requires !seg.isKSeg0(0x8_1000) && !seg.isKSeg1(0x8_1000)
    ensures Translatable(InsertAt(FlushAll(t), ScenarioPte, 0, 0))
    ensures var t1 := InsertAt(FlushAll(t), ScenarioPte, 0, 0);
            && ItbTranslate(t1, EvenReq, seg, kernelMode) == Translation(EvenReq.(paddr := 0x4_0000), NoFault)
            && ItbTranslate(t1, OddReq, seg, kernelMode).fault.ItbInvalid?
            && ItbTranslate(t1, ForeignReq, seg, kernelMode).fault.ItbRefill?
  {
    ScenarioAddresses();
    SingleEntryItb(t, ScenarioPte, 0, 0, EvenReq, seg, kernelMode);
    SingleEntryItb(t, ScenarioPte, 0, 0, OddReq, seg, kernelMode);
    SingleEntryItb(t, ScenarioPte, 0, 0, ForeignReq, seg, kernelMode);
  }

  /** On the same TLB the data side reports `TlbModified` for the clean even
      half, for a read as for a write, and the write succeeds once slot 0 is
      rewritten with the even half dirty. */
  lemma FourSlotDataSide(t: Tlb, seg: Segments, kernelMode: bool)
    requires |t.table| == 4
    requires !seg.isKSeg0(0x8_0000) && !seg.isKSeg1(0x8_0000)
    ensures Translatable(InsertAt(FlushAll(t), ScenarioPte, 0, 0))
    ensures Translatable(InsertAt(InsertAt(FlushAll(t), ScenarioPte, 0, 0), ScenarioPte.(d0 := true), 0, 0))
    ensures var t1 := InsertAt(FlushAll(t), ScenarioPte, 0, 0);
            var t2 := InsertAt(t1, ScenarioPte.(d0 := true), 0, 0);
            && DtbTranslate(t1, EvenReq, seg, kernelMode, false).fault.TlbModified?
            && DtbTranslate(t1, EvenReq, seg, kernelMode, true).fault.TlbModified?
            && DtbTranslate(t2, EvenReq, seg, kernelMode, true) == Translation(EvenReq.(paddr := 0x4_0000), NoFault)
  {
    var dirty := ScenarioPte.(d0 := true);
    var t1 := InsertAt(FlushAll(t), ScenarioPte, 0, 0);
    ScenarioAddresses();
    SingleEntryDtb(t, ScenarioPte, 0, 0, EvenReq, seg, kernelMode, false);
    SingleEntryDtb(t, ScenarioPte, 0, 0, EvenReq, seg, kernelMode, true);
    SingleEntryTable(t, ScenarioPte, 0, 0);
    SingleEntryLookup(t, ScenarioPte, 0, 0, 3);
    assert InsertAt(t1, dirty, 0, 0) == InsertAt(FlushAll(t), dirty, 0, 0) by {
      assert EraseFirst(t1.lookupTable, 0x100) == [];
      assert t1.table[0 := dirty] == FlushAll(t).table[0 := dirty];
    }
    SingleEntryDtb(t, dirty, 0, 0, EvenReq, seg, kernelMode, true);
  }
}
