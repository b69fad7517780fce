# gem5 TLB, RTC, UART, RAS and Alpha interrupt rules in Dafny

This project models five small pieces of the gem5 simulator as immutable
records with pure transition functions, and proves properties of them.

- **MIPS software-managed TLB** (`mips_tlb.dfy`, module `MipsTlb`). The TLB
  is a fixed-size table of two-half-page entries plus a fast-lookup multimap
  from a virtual page number (VPN) to slots. The model covers `lookup`,
  `probeEntry`, `getEntry`, `insertAt`, `flushAll`, `index` and the index
  rebuild of `unserialize`. The multimap is a sequence of (VPN, slot) links
  in insertion order. An invariant (`Inv`) says every valid entry's VPN has
  a link. It holds after construction, `flushAll`, `insertAt` and
  `unserialize`.
- **Full-system ITB/DTB translation** (`mips_translate.dfy`, module
  `MipsTranslate`):
  - the kseg0/kseg1 shortcuts;
  - the alignment check;
  - the page-size-aware VPN;
  - the even/odd half select;
  - the valid and dirty checks;
  - the fault fields (EntryHi ASID/VPN2/VPN2X, BadVAddr, Context BadVPN2);
  - the physical-address construction;
  - the uncacheable tagging.
- **MC146818 real-time clock** (`mc146818.dfy`, module `Mc146818`):
  - BCD conversion;
  - `setTime`;
  - the register state machine of `writeData`/`readData`, with the UIP
    toggle and the register A/B rejection rules;
  - the constructor;
  - the no-update guard of `tickClock`.
- **8250 UART** (`uart8250.dfy`, module `Uart8250`):
  - `read`, `write`, `dataAvailable` and the interrupt event's `process`,
    over the interrupt status, IER, LCR and MCR;
  - console output, interrupt post/clear and event (de)scheduling are
    returned as a list of actions.
- **O3 return-address stack** (`ras.dfy`, module `Ras`): the circular
  top-of-stack arithmetic in 32-bit unsigned arithmetic, `top`, `topIdx`,
  and `restore` as its doc comment states it.
- **Ozone CPU Alpha rules** (`ozone_cpu.dfy`, module `OzoneCpu`):
  - the interrupt priority and summary computation of `processInterrupts`
    (a method with loops, proved against a reference definition);
  - the register convention of `setSyscallReturn`;
  - the flag reset of `hwrei`.
- `base.dfy` (module `Base`) holds the 64-bit address type and `Option`.

Inputs of the system's outside world become parameters:
- the MIPS segment predicates `IsKSeg0`, `IsKSeg1` and `KSeg02Phys` (a
  `Segments` value), the operating mode and the request's misalignment;
- `nextnlu`;
- the console's data-available state and its next byte;
- `intr_status()`;
- the `mktime`/`gmtime` step of `tickClock` (the `advance` function).

Where the code departs from the idealised behaviour of a TLB, the model
follows the code:
- **The data side checks the dirty bit on every access.** The DTB's `write`
  argument is never read, so a read of a valid but clean half page is a
  `TlbModified` fault (`DtbIgnoresWrite`, `FourSlotDataSide`).
- **Lookup is by exact key.** `lookup` only visits links keyed by the
  queried VPN, so a larger page stored under another VPN is never found,
  although its mask covers the address (`LookupOnlyExactKey`).
- **Invalid entries are indexed.** `insertAt` adds a link even for an entry
  with no valid half.
- **`insertAt` may drop another slot's link.** It erases the first link
  keyed by the old VPN, which may name another slot, so a valid entry can
  become unreachable (`InsertAtMayDropOtherSlot`).
- **The `insertAt` bound is off by one.** It accepts `Index == size` (see
  Findings).

## Model

| member | source | states |
|---|---|---|
| MipsTlb.FindLinkFrom | src/arch/mips/tlb.cc:84-101 | the search visits only links keyed exactly by `vpn`; a result is the first such link from `i` on whose entry matches; `None` means no such link matches |
| MipsTlb.Lookup | src/arch/mips/tlb.cc:80-107 | hits iff some link keyed by `vpn` leads to a matching entry; the entry returned matches `(vpn, asn)`, lies in the table and is the one at the first matching link |
| MipsTlb.ProbeEntry | src/arch/mips/tlb.cc:116-143 | -1 iff nothing matches, otherwise the slot named by the first matching link, always within the table |
| MipsTlb.FirstMatchUnique | src/arch/mips/tlb.cc:95-98 | the first matching link is unique, because the search stops at the first match |
| MipsTlb.ProbeAgreesWithLookup | src/arch/mips/tlb.cc:116-143 | `probeEntry` misses exactly when `lookup` misses, and otherwise names the slot holding the entry `lookup` returns |
| MipsTlb.LookupAsidIsolation | src/arch/mips/tlb.cc:95 | a non-global hit belongs to the querying address space; a global hit is found by every address space |
| MipsTlb.GetEntry | src/arch/mips/tlb.cc:109-114 | for an index below the size (the source asserts it), returns an entry of the table |
| MipsTlb.Index | src/arch/mips/tlb.cc:615-624 | returns the entry under the cursor as it was before the optional advance; only the cursor changes |
| MipsTlb.FindKey | src/arch/mips/tlb.cc:166 | `multimap::find`: the first link with the key, or `None` when no link has it |
| MipsTlb.EraseFirst | src/arch/mips/tlb.cc:166-167 | removes exactly the first link keyed by `vpn`, whatever slot it names, keeping the others in order; with no such link nothing changes |
| MipsTlb.InsertAt | src/arch/mips/tlb.cc:156-176 | `smallPages` is always refreshed; an out-of-range slot changes nothing else; otherwise the slot holds the new entry, other slots are untouched, the new link is last, and the old entry's first link is removed only when the old entry was valid |
| MipsTlb.InsertAtGuardAsWritten | src/arch/mips/tlb.cc:159 | the source's guard writes exactly when `index <= size` |
| MipsTlb.InsertAtWrites | src/arch/mips/tlb.cc:159 | the corrected guard writes exactly when `index < size` |
| MipsTlb.InsertAtOffByOne | src/arch/mips/tlb.cc:159-169 | the source's guard lets `index == size` through, which is not a slot; the corrected guard admits only slots, all of which the source admits too |
| MipsTlb.FlushAll | src/arch/mips/tlb.cc:217-224 | every entry zeroed, no links, cursor 0, page-size mode kept |
| MipsTlb.NewTlb | src/arch/mips/tlb.cc:64-70 | `size` zeroed entries, no links, cursor and `smallPages` 0 |
| MipsTlb.RebuildIndexSound | src/arch/mips/tlb.cc:244-248 | every rebuilt link names a valid slot under that slot's own VPN |
| MipsTlb.RebuildIndexStep | src/arch/mips/tlb.cc:244-248 | one loop step appends a link for slot `i` exactly when it is valid |
| MipsTlb.RebuildIndexOrdered | src/arch/mips/tlb.cc:244-248 | the rebuilt links are in strictly increasing slot order |
| MipsTlb.RebuildIndexComplete | src/arch/mips/tlb.cc:244-248 | every valid slot receives its link |
| MipsTlb.Unserialize | src/arch/mips/tlb.cc:238-250 | the checkpointed entries and cursor replace the old ones, and the valid slots' links are appended after the existing links in slot order |
| MipsTlb.KeyPresentOnErase | src/arch/mips/tlb.cc:165-167 | under the invariant the `find` before the erase always finds a link, so `end()` is never erased |
| MipsTlb.NewTlbInv | src/arch/mips/tlb.cc:64-70 | a new TLB satisfies the index invariant |
| MipsTlb.FlushAllInv | src/arch/mips/tlb.cc:217-224 | after a flush the invariant holds, and every lookup and probe misses |
| MipsTlb.InsertAtInv | src/arch/mips/tlb.cc:156-176 | `insertAt` preserves the invariant: links stay in bounds and every valid VPN keeps enough links |
| MipsTlb.InsertAtCounts | src/arch/mips/tlb.cc:165-171 | for each key, the links after an in-range `insertAt` still cover the valid entries with that key |
| MipsTlb.RebuildInv | src/arch/mips/tlb.cc:238-250 | `unserialize` preserves the invariant |
| MipsTlb.RebuildFreshExact | src/arch/mips/tlb.cc:244-248 | on an empty index the rebuild leaves exactly one link `(entries[s].vpn, s)` per valid slot, in slot order |
| MipsTlb.InsertThenLookupHits | src/arch/mips/tlb.cc:169-171 | after an in-range `insertAt`, looking up the new entry's VPN and ASID hits, probing succeeds and `getEntry` returns the entry |
| MipsTlb.LookupOnlyExactKey | src/arch/mips/tlb.cc:84-86 | an entry whose mask covers VPN 0x101 is still not found under 0x101, because no link has that key |
| MipsTlb.InsertAtMayDropOtherSlot | src/arch/mips/tlb.cc:165-171 | overwriting slot 1 erases slot 0's link, so a lookup that slot 0 matches misses although slot 0 stays valid |
| MipsTranslate.CheckCacheability | src/arch/mips/tlb.cc:144-155 | marks the request uncacheable iff bits 31 and 29 of the address are set; address, ASID and other flags untouched |
| MipsTranslate.MappedVpn | src/arch/mips/tlb.cc:346-351 | `vaddr >> 11`, with the two low bits and (through the 32-bit literal) bits 32 and up cleared unless `smallPages == 1` |
| MipsTranslate.FaultFields | src/arch/mips/tlb.cc:410-421 | VPN2 and VPN2X reassemble the VPN, VPN2X is below 4, Context BadVPN2 equals VPN2, BadVAddr is the address |
| MipsTranslate.ItbTranslate | src/arch/mips/tlb.cc:324-425 | kseg0: the kseg0 physical address, with an address error unless aligned and in kernel mode; kseg1: the same address without a fault; mapped: an address error if misaligned, a refill on a miss, invalid for an invalid half, otherwise the frame-built physical address; flags tagged only on success |
| MipsTranslate.DtbTranslate | src/arch/mips/tlb.cc:441-563 | the same cases with the store-side faults, plus `TlbModified` for a valid clean half |
| MipsTranslate.ItbDtbAgree | src/arch/mips/tlb.cc:476-542 | the DTB outcome is the ITB's with data-side fault names, except that where the DTB reports `TlbModified` the ITB succeeds on a mapped access |
| MipsTranslate.DtbIgnoresWrite | src/arch/mips/tlb.cc:430 | the DTB outcome is the same for reads and writes |
| MipsTranslate.UnmappedNoTlbFault | src/arch/mips/tlb.cc:324-340 | kseg0 and kseg1 accesses raise no TLB fault and both sides give the kseg0 physical address |
| MipsTranslate.FlushedTlbRefills | src/arch/mips/tlb.cc:407-423 | after `flushAll` every aligned mapped access is a refill carrying that access's fault fields, on both sides |
| MipsTranslate.SingleEntryTable | src/arch/mips/tlb.cc:165-171 | after a flush and one insertion, the TLB holds exactly one link, to the inserted slot |
| MipsTranslate.SingleEntryLookup | src/arch/mips/tlb.cc:84-98 | that TLB returns the entry for its VPN exactly when the entry is global or the ASIDs agree |
| MipsTranslate.LookupSingleLink | src/arch/mips/tlb.cc:84-101 | with one link, a lookup of its key returns that link's entry iff it matches |
| MipsTranslate.SingleEntryItb | src/arch/mips/tlb.cc:359-402 | on a one-entry TLB: a foreign ASID on a non-global entry is a refill; an invalid half is `ItbInvalid`; a valid half succeeds with the frame-built address |
| MipsTranslate.SingleEntryDtb | src/arch/mips/tlb.cc:469-542 | the data-side outcomes, including `TlbModified` for a valid clean half on reads and writes alike |
| MipsTranslate.ScenarioAddresses | src/arch/mips/tlb.cc:365-401 | the example addresses map to VPN 0x100, select the valid clean even half or the invalid odd half, and build physical address 0x40000 |
| MipsTranslate.FourSlotInstructionSide | src/arch/mips/tlb.cc:359-423 | on the four-slot example the even half translates to 0x40000, the odd half is invalid and ASID 7 refills |
| MipsTranslate.FourSlotDataSide | src/arch/mips/tlb.cc:476-542 | on the same example the clean even half is `TlbModified` for a read and a write, and the write succeeds once the half is made dirty |
| Mc146818.ToByte | src/dev/mc146818.cc:69-78 | an `int` stored into a `uint8_t` field is reduced modulo 256 |
| Mc146818.ToByteSmall | src/dev/mc146818.cc:69-78 | a field value below 256 is stored unchanged |
| Mc146818.Bcdize | src/dev/mc146818.cc:47-54 | for a value below 100 the result is valid BCD with the tens digit high and the units digit low |
| Mc146818.Unbcdize | src/dev/mc146818.cc:56-63 | a valid BCD byte decodes to the value its digits spell, below 100 |
| Mc146818.BcdRoundTrip | src/dev/mc146818.cc:47-63 | `unbcdize(bcdize(v)) == v` for every `v` below 100 |
| Mc146818.UnbcdRoundTrip | src/dev/mc146818.cc:47-63 | `bcdize(unbcdize(b)) == b` for every valid BCD byte |
| Mc146818.SetTime | src/dev/mc146818.cc:65-91 | month and weekday stored one-based; the year as the byte of `tm_year`; in BCD mode the year reduced modulo 100 and all fields but the weekday BCD-encoded; alarms and registers untouched |
| Mc146818.NewRtc | src/dev/mc146818.cc:93-105 | register A at 32768 Hz / 1024 Hz; register B in 24-hour mode with the periodic interrupt, binary iff not `bcd`; alarms zero; the clock set to the given time |
| Mc146818.DecodeAsWritten | src/dev/mc146818.cc:118-124 | the source's decoding always yields a year in 1950..2049 |
| Mc146818.DecodeClock | src/dev/mc146818.cc:118-124 | the corrected decoding yields `tm_year` in 50..149 in BCD mode and the year byte itself in binary mode |
| Mc146818.WriteClockAsWritten | src/dev/mc146818.cc:116-124 | the source's clock write stores the byte, leaves the registers alone and sets a year in 1950..2049 |
| Mc146818.WriteClock | src/dev/mc146818.cc:116-124 | the corrected clock write stores the byte, leaves the registers alone and, in BCD mode, keeps `tm_year` in 50..149 |
| Mc146818.WriteData | src/dev/mc146818.cc:113-152 | panics exactly on an unsupported register A or B value or on registers C and D; a clock write stores the byte, recomputes the time from the new clock bytes and changes nothing else; register A takes bits 6..0 and keeps UIP; register B is stored, with the periodic event scheduled iff enabled; higher addresses are ignored |
| Mc146818.InsertBits | src/dev/mc146818.cc:131 | the `replaceBits` helper on a byte: defined exactly when its shifts are, and bits outside `last..first` keep their old value |
| Mc146818.WriteRegAAsWritten | src/dev/mc146818.cc:131 | the call as written: with UIP clear in the accepted byte, register A becomes `regA & 0x3F`, so UIP is cleared and the byte ignored; with UIP set, the shift is undefined |
| Mc146818.RegAWriteIntended | src/dev/mc146818.cc:127-132 | the call with the helper's argument order, `replaceBits(stat_regA, 6, 0, data)`, gives exactly `WriteData`'s register A, which keeps UIP |
| Mc146818.RegAWriteAsWrittenDropsUip | src/dev/mc146818.cc:128-131 | with UIP set, writing 0x26 leaves register A unchanged under the intended call, but as written the next read returns 0xA6 instead of 0x26 |
| Mc146818.ReadData | src/dev/mc146818.cc:154-177 | panics exactly above register D; clock bytes are returned without change; register A flips UIP and returns the new value; register B is returned; C and D read 0 |
| Mc146818.TickClock | src/dev/mc146818.cc:197-205 | nothing changes while updates are stopped; otherwise the clock is set to the advanced time |
| Mc146818.RegAReadTwice | src/dev/mc146818.cc:161-164 | two register A reads differ exactly in UIP and leave register A as it was |
| Mc146818.RegBWriteRead | src/dev/mc146818.cc:133-145 | an accepted register B write is read back |
| Mc146818.RegBWriteMode | src/dev/mc146818.cc:134-135 | an accepted register B value is BCD, 24-hour, with updates running |
| Mc146818.ClockWriteRead | src/dev/mc146818.cc:116-158 | a clock byte written is read back from the same address |
| Mc146818.EncodeDecode | src/dev/mc146818.cc:80-90 | a field below 100 survives encoding and decoding in either mode |
| Mc146818.YearDecodes | src/dev/mc146818.cc:84 | the year byte `setTime` stores decodes back to `tm_year` in both modes within the window |
| Mc146818.SetTimeDecodes | src/dev/mc146818.cc:65-91 | decoding the clock bytes after `setTime` gives back the time, for every time in range |
| Mc146818.SetTimeDecodesClock | src/dev/mc146818.cc:73-75 | the seconds, minutes and hours part of that round trip |
| Mc146818.SetTimeDecodesDate | src/dev/mc146818.cc:71-72 | the day and month part of that round trip |
| Mc146818.SetTimeDecodesYear | src/dev/mc146818.cc:69 | the year part of that round trip |
| Mc146818.SetTimeDecodesWday | src/dev/mc146818.cc:78 | the weekday part: stored unencoded, but a single digit reads the same as BCD |
| Mc146818.RewriteKeepsTime | src/dev/mc146818.cc:116-124 | rewriting any clock byte with its own value leaves the clock unchanged under the corrected decoding |
| Mc146818.RewriteAsWrittenChangesYear | src/dev/mc146818.cc:123 | under the source's decoding, rewriting a byte of a BCD clock set to 2009 makes `tm_year` 2009 (the year 3909) |
| Mc146818.RewriteAsWrittenChangesSeconds | src/dev/mc146818.cc:118 | under the source's decoding, rewriting 59 seconds in binary mode gives 41 seconds |
| Uart8250.Iir | dev/uart8250.cc:155-164 | receive identification iff a receive interrupt is pending; transmit iff only a transmit interrupt is; none pending otherwise |
| Uart8250.Lsr | dev/uart8250.cc:173-181 | the transmitter-empty bits are always set, and data-ready iff the console has data |
| Uart8250.Read | dev/uart8250.cc:110-197 | DLAB-gated offsets 0/1 and MCR change nothing; offset 0 returns the console byte (or 0), clears the receive interrupt and may schedule another; IER, IIR (clearing only the transmit bit), LCR, LSR, MSR and SCR read as the 8250 defines |
| Uart8250.WriteIer | dev/uart8250.cc:226-258 | IER stored; a clear transmit enable cancels the event and the pending transmit bit; unless receive is enabled with data waiting, the same happens on the receive side; other status bits kept |
| Uart8250.IerTxSide | dev/uart8250.cc:229-242 | the transmit half: schedule if enabled, else deschedule and clear the bit, clearing the platform interrupt iff one was pending |
| Uart8250.IerRxSide | dev/uart8250.cc:244-254 | the receive half, with the same shape for receive interrupts |
| Uart8250.Write | dev/uart8250.cc:199-277 | panics exactly at offsets 5 and 6; DLAB-gated offsets, FCR and SCR change nothing; offset 0 outputs the byte, clears the transmit interrupt and schedules one if enabled; IER as `WriteIer`; LCR stored; MCR becomes 0x9A only for `LOOP \| 0x0A` |
| Uart8250.DataAvailable | dev/uart8250.cc:279-289 | the receive bit is raised, with a posted interrupt, only if IER enables it |
| Uart8250.IntrProcess | dev/uart8250.cc:61-72 | the event is no longer scheduled; its bit is raised with a posted interrupt only when IER enables it |
| Uart8250.InitialPendingEnabled | dev/uart8250.cc:99-108 | the constructor's state satisfies the invariant that every pending interrupt is enabled |
| Uart8250.ReadKeepsPendingEnabled | dev/uart8250.cc:110-197 | reads preserve that invariant and never set a status bit |
| Uart8250.WriteKeepsPendingEnabled | dev/uart8250.cc:199-277 | writes preserve the invariant, including IER writes that withdraw an enable |
| Uart8250.WriteIerKeepsPendingEnabled | dev/uart8250.cc:226-258 | after an IER write a status bit is left set only where its enable is set |
| Uart8250.RaiseKeepsPendingEnabled | dev/uart8250.cc:64-67 | `dataAvailable` and the interrupt events preserve the invariant |
| Uart8250.WriteReadBack | dev/uart8250.cc:261-262 | an LCR write, and with DLAB clear an IER write, is read back |
| Uart8250.IirReadClearsTx | dev/uart8250.cc:155-166 | a transmit interrupt is reported by at most one IIR read; a receive interrupt is reported by both of two reads or by neither |
| Ras.IncrTos | src/cpu/o3/ras.hh:76-77 | changes only `tos` and keeps every field a 32-bit value |
| Ras.DecrTos | src/cpu/o3/ras.hh:80-81 | changes only `tos` and keeps every field a 32-bit value |
| Ras.IncrTosSteps | src/cpu/o3/ras.hh:76-77 | on a valid stack the increment is a step forward modulo `numEntries` and keeps the stack valid |
| Ras.DecrTosSteps | src/cpu/o3/ras.hh:80-81 | on a valid stack the decrement is a step back modulo `numEntries` and keeps the stack valid |
| Ras.Top | src/cpu/o3/ras.hh:54-55 | returns an address held in the stack |
| Ras.TopIdx | src/cpu/o3/ras.hh:58-59 | on a valid stack the index is below `numEntries` |
| Ras.Restore | src/cpu/o3/ras.hh:67-72 | the given index becomes the top and its slot the target; every other slot and the counts are kept; the stack stays valid |
| Ras.DecrUndoesIncr | src/cpu/o3/ras.hh:76-81 | a decrement undoes an increment |
| Ras.IncrUndoesDecr | src/cpu/o3/ras.hh:76-81 | an increment undoes a decrement |
| Ras.DecrWithoutEntries | src/cpu/o3/ras.hh:80-81 | with no entries the unsigned `numEntries - 1` sends `tos` to 2^32 - 1 |
| Ras.IncrTosTimesAdvances | src/cpu/o3/ras.hh:76-77 | `k` increments advance the top by `k` modulo `numEntries`, so `numEntries` of them return to the start |
| Ras.RestoreThenStep | src/cpu/o3/ras.hh:67-81 | after `restore`, the next increment moves the top to the slot after `idx`, the next decrement to the slot before it, and both keep `target` in slot `idx` |
| OzoneCpu.Highest | src/cpu/ozone/cpu_impl.hh:684-704 | the scan result is -1 or a position in the range |
| OzoneCpu.HighestIsHighest | src/cpu/ozone/cpu_impl.hh:684-704 | -1 iff no bit of the range is set, otherwise a set bit with none above it in the range |
| OzoneCpu.Ipl | src/cpu/ozone/cpu_impl.hh:675-705 | the level is below 34 and never negative |
| OzoneCpu.IplRange | src/cpu/ozone/cpu_impl.hh:683-705 | level 0 iff nothing is pending; 1..15 iff only software interrupts are; 20 or more iff an external interrupt is |
| OzoneCpu.ProcessInterrupts | src/cpu/ozone/cpu_impl.hh:667-720 | panics iff ASTRR is nonzero; always clears `checkInterrupts` and changes nothing else but ISR/INTID; raises iff the level is nonzero and above IPLR, writing the summary of all pending in-range bits and the level; otherwise the registers are unchanged |
| OzoneCpu.Int32OrStep | src/cpu/ozone/cpu_impl.hh:689 | one `summary \|=` on an `int` keeps the low half of the 64-bit summary, and a bit at 32 or above never arrives |
| OzoneCpu.IsrAsWrittenBits | src/cpu/ozone/cpu_impl.hh:676-708 | the ISR written from the `int` holds the summary's bits 0..31 and copies of bit 31 above them |
| OzoneCpu.IsrAsWrittenLosesHighLevels | src/cpu/ozone/cpu_impl.hh:697-708 | a level-33 interrupt alone is raised at level 33 but writes ISR 0; level 31 alone sets ISR bits 31..63 |
| OzoneCpu.SetSyscallReturn | src/cpu/ozone/cpu_impl.hh:630-646 | success: a3 = 0 and v0 = value; failure: a3 = -1 and v0 the negated value modulo 2^64; other registers kept |
| OzoneCpu.SyscallReturnRoundTrip | src/cpu/ozone/cpu_impl.hh:630-646 | reading a3 and v0 back recovers the success flag and the value |
| OzoneCpu.Hwrei | src/cpu/ozone/cpu_impl.hh:650-663 | lock flag cleared, lock addresses dropped, interrupt check requested, no fault, registers kept |
| OzoneCpu.HwreiThenCheck | src/cpu/ozone/cpu_impl.hh:648-720 | `hwrei` followed by the check it requests: the request is consumed, the load-locked state stays dropped, the integer registers are kept, and the outcome is decided by the interrupt registers `hwrei` left alone |

## Left out

- The non-full-system branches of `ITB::translate` and `DTB::translate` are left out. They delegate to the process page table, which is not part of this model.
- `TLB::insert` is left out. It only calls `fatal`; the rest of its body is commented out.
- `TLB::serialize` and the checkpoint stream format are left out. `Unserialize` takes the restored entries and cursor as inputs, with as many entries as the table has slots.
- Statistics (`regStats`, hit/miss counters, `kernelStats`), `DPRINTF` and `warn` are left out. They only produce output.
- MipsTranslate.PhysAddr has no contract of its own. Its result is stated only through the translators' contracts. That the offset bits under `offsetMask` come through unchanged is not proved: the 64-bit shifts by a variable amount are beyond what the solver settles reliably.
- MipsTranslate.Translatable requires every entry's `addrShiftAmount` to be in 0..63, and 12 or more when the entry is valid. Outside that range the source's shifts are undefined behaviour.
- MipsTlb.Lookup ends the search when the links run out. At that point the source's `while (i->first == vpn)` would read through `end()`.
- MipsTlb.EraseFirst leaves the links unchanged when no link has the key. There the source would erase `end()`. `KeyPresentOnErase` shows this cannot happen while the invariant holds.
- MipsTlb.InsertAt uses the corrected bound `index < size`, not the source's `index > size` test (see Findings).
- MipsTlb.Inv is a counting invariant: every valid entry's VPN has at least as many links as valid entries carrying it. It does not say that each link names a slot that still holds its key, because `insertAt` can break that (`InsertAtMayDropOtherSlot`).
- `nextnlu` is a parameter of `MipsTlb.Index`; its replacement policy is not part of this model. The same goes for the `IsKSeg0`, `IsKSeg1`, `KSeg02Phys`, `getOperatingMode` and `isMisaligned` helpers of the MIPS ISA.
- The RTC's register and bit numbers follow the MC146818 data sheet. dev/rtcreg.h is not part of this model.
- The RTC's periodic and tick event objects, and the timer frequency, are left out. Scheduling is reduced to whether the periodic event is scheduled.
- The RTC's `serialize`/`unserialize` are left out.
- Mc146818.WriteData updates register A as `replaceBits(stat_regA, 6, 0, data)` would: bits 6..0 from the byte, UIP kept. The source's call passes its arguments in another order; `WriteRegAAsWritten` models that call (see Findings).
- Mc146818.InsertBits follows gem5's `insertBits`/`replaceBits(val, first, last, bitVal)` and `mask(nbits)` for a byte. base/bitfield.hh is not part of this model.
- Mc146818.WriteData recomputes the time with the corrected decoding `DecodeClock`. The source's decoding is modelled separately by `WriteClockAsWritten` (see Findings).
- Mc146818.TickClock takes the calendar step of `mkutctime`/`gmtime` as the `advance` parameter. Time zones and libc calendar arithmetic are foreign.
- The UART's register and bit numbers follow the 8250 data sheet. dev/uart8250.hh and dev/uart.hh are not part of this model.
- The UART's interrupt delay, the rescheduling of an already scheduled event and `addressRanges` are left out.
- The UART's packet bookkeeping (result codes, timing) is left out. `Read` and `Write` require an offset below 8, which the source asserts for every packet.
- The RAS's `push`, `pop`, `init` and `reset` are left out. They are defined in src/cpu/o3/ras.cc, which is not part of this model.
- The Alpha interrupt levels and register numbers are taken as in the Alpha port. src/arch/alpha/isa_traits.hh is not part of this model.
- OzoneCpu.ProcessInterrupts writes the 64-bit summary into ISR, not the truncated `int` of the source. The source's value is `IsrAsWritten` (see Findings).
- Invoking the `InterruptFault`, and mirroring ISR and INTID into the checker CPU, are left out. `ProcessInterrupts` reports whether the fault is raised.
- The rest of the Ozone CPU (construction, ticking, switching, float registers, syscall dispatch) is CPU plumbing outside these rules, and is left out.

## Findings

| source | as written | input that shows it | evidently intended | confidence | as-written member | corrected member |
|---|---|---|---|---|---|---|
| src/arch/mips/tlb.cc:159 | `insertAt` rejects only `Index > size`, so `Index == size` writes one past the end of `table` and indexes that slot | `Index == size` | reject `Index >= size`, so only slots of the table are written | not executed | MipsTlb.InsertAtGuardAsWritten, MipsTlb.InsertAtOffByOne | MipsTlb.InsertAtWrites, MipsTlb.InsertAtInv |
| src/dev/mc146818.cc:118-124 | a clock-byte write decodes every byte as BCD whatever register B says, and stores the calendar year 1950..2049 in `tm_year`, which counts years from 1900 | a BCD clock at `tm_year` 109 (2009) rewritten with its own seconds byte gets `tm_year` 2009; a binary clock at 59 seconds (byte 0x3B) rewritten gets 41 seconds | decode in the mode register B selects, and keep `tm_year` as years since 1900 (50..149 in BCD mode), so rewriting a byte with its own value changes nothing | not executed | Mc146818.DecodeAsWritten, Mc146818.RewriteAsWrittenChangesYear, Mc146818.RewriteAsWrittenChangesSeconds | Mc146818.DecodeClock, Mc146818.RewriteKeepsTime |
| src/cpu/ozone/cpu_impl.hh:676 | `summary` is an `int` although it collects `ULL(1) << i` for levels up to 33: bits 32 and 33 are lost, and a set bit 31 sign-extends into ISR bits 32..63 | only external level 33 pending: the interrupt is raised at level 33 but ISR is written as 0 | a 64-bit summary, so ISR holds exactly the pending in-range bits | not executed | OzoneCpu.IsrAsWritten, OzoneCpu.IsrAsWrittenLosesHighLevels | OzoneCpu.ProcessInterrupts |
| src/dev/mc146818.cc:131 | `replaceBits(stat_regA, data, 6, 0)` passes `data` as the top bit and 0 as the value, so an accepted write with UIP clear turns register A into `regA & 0x3F`, which clears UIP and ignores `data`; with UIP set in `data` the mask's `1ULL << 161` is undefined | register A = 0xA6 (UIP set by a read), write 0x26: register A becomes 0x26, so the next read returns 0xA6, not 0x26 | `replaceBits(stat_regA, 6, 0, data)`: bits 6..0 from `data`, UIP read-only, as the comment above the call says | not executed | Mc146818.WriteRegAAsWritten, Mc146818.RegAWriteAsWrittenDropsUip | Mc146818.WriteData, Mc146818.RegAWriteIntended |
