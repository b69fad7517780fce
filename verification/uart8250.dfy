/** The register file of the 8250 UART in dev/uart8250.cc: `read`, `write`,
    `dataAvailable` and the interrupt event's `process`, as transitions of
    the interrupt status, IER, LCR and MCR registers.

    The console is an input: whether it has data, the byte it delivers and
    whether it still has data after delivering it.  Console output,
    interrupt posting and clearing at the platform, and the scheduling of
    the two interrupt events are outputs, listed as `Action`s in the order
    the source performs them; whether each event is scheduled is kept in
    the state.  The register and bit numbers are those of the 8250 data
    sheet; dev/uart8250.hh and dev/uart.hh are not part of this model. */
module Uart8250 {
  import opened Base

  type Byte = bv8

  // Interrupt status bits (`status`); they coincide with the IER enables.
  const RxInt: Byte := 0x1
  const TxInt: Byte := 0x2

  // Interrupt identification values.
  const IirNoPend: Byte := 0x1
  const IirTxId: Byte := 0x2
  const IirRxId: Byte := 0x4

  // Interrupt enable bits.
  const IerRdi: Byte := 0x01
  const IerThri: Byte := 0x02

  // Line status bits.
  const LsrDr: Byte := 0x01
  const LsrThre: Byte := 0x20
  const LsrTemt: Byte := 0x40

  // Modem control loop-back bit, and the divisor-latch access bit of LCR.
  const McrLoop: Byte := 0x10
  const LcrDlab: Byte := 0x80

  /** The device registers and whether each interrupt event is scheduled. */
  datatype Uart = Uart(status: Byte, ier: Byte, lcr: Byte, mcr: Byte, txScheduled: bool, rxScheduled: bool)

  /** What the device does to the world outside its registers. */
  datatype Action =
    | ConsoleIn
    | ConsoleOut(b: Byte)
    | PostConsoleInt
    | ClearConsoleInt
    | ScheduleTx
    | DescheduleTx
    | ScheduleRx
    | DescheduleRx

  /** The console as one access sees it: whether it has data, the byte it
      delivers when read, and whether it has data after that. */
  datatype Console = Console(hasData: bool, next: Byte, hasMore: bool)

  /** A read: the byte written into the packet (`None` where the source
      leaves the packet's buffer untouched), the device afterwards, and the
      actions taken. */
  datatype ReadResult = ReadResult(data: Option<Byte>, uart: Uart, actions: seq<Action>)

  /** A write: the device afterwards and the actions taken, or a `panic`. */
  datatype WriteResult = Written(uart: Uart, actions: seq<Action>) | Panic

  /** The constructor's registers; the status starts clear. */
  const InitialUart: Uart := Uart(0, 0, 0, 0, false, false)

  /** Offsets 0 and 1 reach the divisor latch while LCR bit 7 is set. */
  predicate Dlab(u: Uart)
  {
    u.lcr & LcrDlab != 0
  }

  /** A pending interrupt is always one the guest has enabled. */
  predicate PendingEnabled(u: Uart)
  {
    && (u.status & RxInt != 0 ==> u.ier & IerRdi != 0)
    && (u.status & TxInt != 0 ==> u.ier & IerThri != 0)
  }

  /** The interrupt identification for a status: receive data first, then
      transmit, else nothing pending. */
  function Iir(status: Byte): (id: Byte)
    ensures id == IirRxId <==> status & RxInt != 0
    ensures id == IirTxId <==> status & RxInt == 0 && status & TxInt != 0
    ensures id == IirNoPend <==> status & (RxInt | TxInt) == 0
  {
    if status & RxInt != 0 then IirRxId
    else if status & TxInt != 0 then IirTxId
    else IirNoPend
  }

  /** The line status: transmitter always empty and ready, data ready
      exactly when the console has data. */
  function Lsr(hasData: bool): (lsr: Byte)
    ensures lsr & (LsrTemt | LsrThre) == LsrTemt | LsrThre
    ensures lsr & LsrDr != 0 <==> hasData
  {
    (if hasData then LsrDr else 0) | LsrTemt | LsrThre
  }

  /** `Uart8250::read` at register offset `offset`. */
  function Read(u: Uart, offset: nat, cons: Console): (r: ReadResult)
    requires offset < 8
    // the divisor latch and the modem control register return nothing and change nothing
    ensures (offset <= 1 && Dlab(u)) || offset == 4 ==> r == ReadResult(None, u, [])
    ensures offset == 0 && !Dlab(u) ==>
              && r.data == Some(if cons.hasData then cons.next else 0)
              && r.uart.status == u.status & !RxInt
              && r.uart.ier == u.ier && r.uart.lcr == u.lcr && r.uart.mcr == u.mcr
              && r.uart.txScheduled == u.txScheduled
              && r.uart.rxScheduled == (u.rxScheduled || (cons.hasMore && u.ier & IerRdi != 0))
              && ClearConsoleInt in r.actions
              && (ConsoleIn in r.actions <==> cons.hasData)
    ensures offset == 1 && !Dlab(u) ==> r == ReadResult(Some(u.ier), u, [])
    ensures offset == 2 ==> r == ReadResult(Some(Iir(u.status)), u.(status := u.status & !TxInt), [])
    ensures offset == 3 ==> r == ReadResult(Some(u.lcr), u, [])
    ensures offset == 5 ==> r == ReadResult(Some(Lsr(cons.hasData)), u, [])
    ensures offset == 6 || offset == 7 ==> r == ReadResult(Some(0), u, [])
  {
    match offset
    case 0 =>
      if Dlab(u) then ReadResult(None, u, [])
      else
        var data := if cons.hasData then cons.next else 0;
        var input := if cons.hasData then [ConsoleIn] else [];
        var rx := cons.hasMore && u.ier & IerRdi != 0;
        ReadResult(Some(data), u.(status := u.status & !RxInt, rxScheduled := u.rxScheduled || rx),
                   input + [ClearConsoleInt] + (if rx then [ScheduleRx] else []))
    case 1 => if Dlab(u) then ReadResult(None, u, []) else ReadResult(Some(u.ier), u, [])
    case 2 => ReadResult(Some(Iir(u.status)), u.(status := u.status & !TxInt), [])
    case 3 => ReadResult(Some(u.lcr), u, [])
    case 4 => ReadResult(None, u, [])
    case 5 => ReadResult(Some(Lsr(cons.hasData)), u, [])
    case _ => ReadResult(Some(0), u, [])
  }

  /** An IER write: store the enables; a cleared transmit enable cancels
      the transmit event and the pending transmit interrupt, and unless
      receive interrupts are enabled with data waiting, the same happens to
      the receive side. */
  function WriteIer(u: Uart, data: Byte, hasData: bool): (r: WriteResult)
    ensures r.Written? && r.uart.ier == data && r.uart.lcr == u.lcr && r.uart.mcr == u.mcr
    ensures data & IerThri != 0 ==> r.uart.txScheduled && r.uart.status & TxInt == u.status & TxInt
    ensures data & IerThri == 0 ==> !r.uart.txScheduled && r.uart.status & TxInt == 0
    ensures data & IerRdi != 0 && hasData ==> r.uart.rxScheduled && r.uart.status & RxInt == u.status & RxInt
    ensures !(data & IerRdi != 0 && hasData) ==> !r.uart.rxScheduled && r.uart.status & RxInt == 0
    ensures r.uart.status & !(RxInt | TxInt) == u.status & !(RxInt | TxInt)
  {
    var tx := IerTxSide(u.(ier := data));
    var rx := IerRxSide(tx.0, hasData);
    Written(rx.0, tx.1 + rx.1)
  }

  /** The transmit half of an IER write, after IER has been stored. */
  function IerTxSide(u: Uart): (r: (Uart, seq<Action>))
    ensures r.0.ier == u.ier && r.0.lcr == u.lcr && r.0.mcr == u.mcr && r.0.rxScheduled == u.rxScheduled
    ensures u.ier & IerThri != 0 ==> r.0 == u.(txScheduled := true) && r.1 == [ScheduleTx]
    ensures u.ier & IerThri == 0 ==> r.0 == u.(txScheduled := false, status := u.status & !TxInt)
    ensures u.ier & IerThri == 0 ==> (ClearConsoleInt in r.1 <==> u.status & TxInt != 0)
  {
    if u.ier & IerThri != 0 then (u.(txScheduled := true), [ScheduleTx])
    else
      (u.(txScheduled := false, status := u.status & !TxInt),
       (if u.txScheduled then [DescheduleTx] else []) + (if u.status & TxInt != 0 then [ClearConsoleInt] else []))
  }

  /** The receive half of an IER write, after the transmit half. */
  function IerRxSide(u: Uart, hasData: bool): (r: (Uart, seq<Action>))
    ensures r.0.ier == u.ier && r.0.lcr == u.lcr && r.0.mcr == u.mcr && r.0.txScheduled == u.txScheduled
    ensures u.ier & IerRdi != 0 && hasData ==> r.0 == u.(rxScheduled := true) && r.1 == [ScheduleRx]
    ensures !(u.ier & IerRdi != 0 && hasData) ==> r.0 == u.(rxScheduled := false, status := u.status & !RxInt)
    ensures !(u.ier & IerRdi != 0 && hasData) ==> (ClearConsoleInt in r.1 <==> u.status & RxInt != 0)
  {
    if u.ier & IerRdi != 0 && hasData then (u.(rxScheduled := true), [ScheduleRx])
    else
      (u.(rxScheduled := false, status := u.status & !RxInt),
       (if u.rxScheduled then [DescheduleRx] else []) + (if u.status & RxInt != 0 then [ClearConsoleInt] else []))
  }

  /** `Uart8250::write` of `data` at register offset `offset`. */
  function Write(u: Uart, offset: nat, data: Byte, hasData: bool): (r: WriteResult)
    requires offset < 8
    ensures r.Panic? <==> offset == 5 || offset == 6
    ensures (offset <= 1 && Dlab(u)) || offset == 2 || offset == 7 ==> r == Written(u, [])
    ensures offset == 0 && !Dlab(u) ==>
              && r.Written? && r.uart == u.(status := u.status & !TxInt, txScheduled := u.txScheduled || u.ier & IerThri != 0)
              && |r.actions| >= 2 && r.actions[0] == ConsoleOut(data) && r.actions[1] == ClearConsoleInt
    ensures offset == 1 && !Dlab(u) ==> r == WriteIer(u, data, hasData)
    ensures offset == 3 ==> r == Written(u.(lcr := data), [])
    ensures offset == 4 ==> r == Written(if data == McrLoop | 0x0A then u.(mcr := 0x9A) else u, [])
  {
    match offset
    case 0 =>
      if Dlab(u) then Written(u, [])
      else
        var tx := u.ier & IerThri != 0;
        Written(u.(status := u.status & !TxInt, txScheduled := u.txScheduled || tx),
                [ConsoleOut(data), ClearConsoleInt] + (if tx then [ScheduleTx] else []))
    case 1 => if Dlab(u) then Written(u, []) else WriteIer(u, data, hasData)
    case 2 => Written(u, [])
    case 3 => Written(u.(lcr := data), [])
    case 4 => Written(if data == McrLoop | 0x0A then u.(mcr := 0x9A) else u, [])
    case 7 => Written(u, [])
    case _ => Panic
  }

  /** `Uart8250::dataAvailable`: raise the receive interrupt if enabled. */
  function DataAvailable(u: Uart): (r: (Uart, seq<Action>))
    ensures u.ier & IerRdi != 0 ==> r == (u.(status := u.status | RxInt), [PostConsoleInt])
    ensures u.ier & IerRdi == 0 ==> r == (u, [])
  {
    if u.ier & IerRdi != 0 then (u.(status := u.status | RxInt), [PostConsoleInt]) else (u, [])
  }

  /** Which of the two interrupt events fires. */
  datatype IntrKind = TxEvent | RxEvent

  function IntrBit(k: IntrKind): Byte
  {
    match k
    case TxEvent => TxInt
    case RxEvent => RxInt
  }

  /** `IntrEvent::process`: the event is no longer scheduled, and its
      status bit is raised, with a posted interrupt, only if IER enables it.
      The status bit doubles as the IER enable bit here, as in the source. */
  function IntrProcess(u: Uart, k: IntrKind): (r: (Uart, seq<Action>))
    ensures r.0.ier == u.ier && r.0.lcr == u.lcr && r.0.mcr == u.mcr
    ensures k.TxEvent? ==> !r.0.txScheduled && r.0.rxScheduled == u.rxScheduled
    ensures k.RxEvent? ==> !r.0.rxScheduled && r.0.txScheduled == u.txScheduled
    ensures IntrBit(k) & u.ier != 0 ==> r.0.status == u.status | IntrBit(k) && r.1 == [PostConsoleInt]
    ensures IntrBit(k) & u.ier == 0 ==> r.0.status == u.status && r.1 == []
  {
    var u1 := if k.TxEvent? then u.(txScheduled := false) else u.(rxScheduled := false);
    if IntrBit(k) & u.ier != 0 then (u1.(status := u.status | IntrBit(k)), [PostConsoleInt]) else (u1, [])
  }

  lemma InitialPendingEnabled()
    ensures PendingEnabled(InitialUart)
  {
  }

  /** Reads keep every pending interrupt enabled: they only clear status bits. */
  lemma ReadKeepsPendingEnabled(u: Uart, offset: nat, cons: Console)
    requires offset < 8 && PendingEnabled(u)
    ensures PendingEnabled(Read(u, offset, cons).uart)
    ensures Read(u, offset, cons).uart.status & !u.status == 0
  {
  }

  /** Writes keep every pending interrupt enabled, including IER writes
      that withdraw an enable. */
  lemma WriteKeepsPendingEnabled(u: Uart, offset: nat, data: Byte, hasData: bool)
    requires offset < 8 && PendingEnabled(u)
    ensures Write(u, offset, data, hasData).Written? ==> PendingEnabled(Write(u, offset, data, hasData).uart)
  {
    if offset == 0 && !Dlab(u) {
      ClearKeepsPendingEnabled(u, TxInt);
    } else if offset == 1 && !Dlab(u) {
      WriteIerKeepsPendingEnabled(u, data, hasData);
    }
  }

  /** Clearing status bits with the enables unchanged keeps them enabled. */
  lemma ClearKeepsPendingEnabled(u: Uart, bits: Byte)
    requires PendingEnabled(u)
    ensures PendingEnabled(u.(status := u.status & !bits))
  {
  }

  /** An IER write leaves a status bit set only where its enable stays set. */
  lemma WriteIerKeepsPendingEnabled(u: Uart, data: Byte, hasData: bool)
    ensures PendingEnabled(WriteIer(u, data, hasData).uart)
  {
    var w := WriteIer(u, data, hasData).uart;
    assert w.ier == data;
    assert w.status & RxInt != 0 ==> data & IerRdi != 0;
    assert w.status & TxInt != 0 ==> data & IerThri != 0;
  }

  /** Raising interrupts keeps them enabled: both sources check IER first. */
  lemma RaiseKeepsPendingEnabled(u: Uart, k: IntrKind)
    requires PendingEnabled(u)
    ensures PendingEnabled(DataAvailable(u).0)
    ensures PendingEnabled(IntrProcess(u, k).0)
  {
  }

  /** An LCR write is read back, and so is an IER write while DLAB is clear. */
  lemma WriteReadBack(u: Uart, data: Byte, hasData: bool, cons: Console)
    ensures Read(Write(u, 3, data, hasData).uart, 3, cons).data == Some(data)
    ensures !Dlab(u) ==> Read(Write(u, 1, data, hasData).uart, 1, cons).data == Some(data)
  {
  }

  /** The transmit interrupt is reported by one IIR read at most: a second
      read sees only a receive interrupt or nothing. */
  lemma IirReadClearsTx(u: Uart, cons: Console)
    ensures var first := Read(u, 2, cons);
            var second := Read(first.uart, 2, cons);
            second.data != Some(IirTxId)
            && (first.data == Some(IirRxId) <==> second.data == Some(IirRxId))
  {
  }
}
