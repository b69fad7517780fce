/** The register logic of the MC146818 real-time clock in
    src/dev/mc146818.cc: the BCD conversions, `setTime`, the register
    state machine of `writeData` and `readData`, the constructor's initial
    state and the no-update guard of `tickClock`.

    The register and bit numbers come from the MC146818 data sheet (dev/rtcreg.h
    is not part of this model).  The calendar arithmetic of `mktime` and
    `gmtime` used by `tickClock` is foreign; it is the `advance` parameter.
    Event scheduling is reduced to whether the periodic interrupt event is
    scheduled. */
module Mc146818 {
  import opened Base

  type Byte = bv8

  // Clock registers: positions in `clockData`.
  const Sec: nat := 0x00
  const SecAlarm: nat := 0x01
  const Min: nat := 0x02
  const MinAlarm: nat := 0x03
  const Hour: nat := 0x04
  const HourAlarm: nat := 0x05
  const Wday: nat := 0x06
  const Mday: nat := 0x07
  const Mon: nat := 0x08
  const Year: nat := 0x09
  const ClockBytes: nat := 10

  // Status registers.
  const RegA: Byte := 0x0A
  const RegB: Byte := 0x0B
  const RegC: Byte := 0x0C
  const RegD: Byte := 0x0D

  // Register A bits.
  const RegA1024Hz: Byte := 0x06
  const RegA32768Hz: Byte := 0x20
  const RegAUip: Byte := 0x80

  // Register B bits.
  const RegB24Hr: Byte := 0x02
  const RegBBin: Byte := 0x04
  const RegBSqwe: Byte := 0x08
  const RegBPrdcIe: Byte := 0x40
  const RegBNoUpdt: Byte := 0x80

  /** The fields of `struct tm` the device reads and writes. */
  datatype Tm = Tm(sec: int, min: int, hour: int, mday: int, mon: int, year: int, wday: int)

  /** The device: the ten clock bytes, status registers A and B, the time
      the clock bytes were last derived from or decoded into, and whether
      the periodic interrupt event is scheduled. */
  datatype Rtc = Rtc(clockData: seq<Byte>, regA: Byte, regB: Byte, curTime: Tm, periodicScheduled: bool)

  /** A register access either completes or reaches a `panic`. */
  datatype Outcome<T> = Done(value: T) | Panic

  /** A completed read: the byte returned and the device afterwards. */
  datatype Reply = Reply(data: Byte, rtc: Rtc)

  predicate WellFormed(rtc: Rtc)
  {
    |rtc.clockData| == ClockBytes
  }

  /** Binary rather than BCD clock bytes. */
  predicate Binary(regB: Byte)
  {
    regB & RegBBin != 0
  }

  /** Assignment of an `int` to a `uint8_t`: reduction modulo 256. */
  function ToByte(x: int): (b: Byte)
    ensures b as int == x % 256
  {
    var y := x % 256;
    var hi, lo := Nibble(y / 16), Nibble(y % 16);
    assert hi as int * 16 + lo as int == y;
    assert (hi * 16 + lo) as int == hi as int * 16 + lo as int;
    hi * 16 + lo
  }

  /** A value that fits in a byte is stored unchanged. */
  lemma ToByteSmall(x: int)
    requires 0 <= x < 256
    ensures ToByte(x) as int == x
  {
    assert x % 256 == x;
  }

  /** The bytes 0 to 15, written out so that no integer has to be
      converted to a bit-vector. */
  const Nibbles: seq<Byte> := [0, 1, 2, 3, 4, 5, 6, 7, 8, 9, 10, 11, 12, 13, 14, 15]

  /** The byte holding a value below 16. */
  function Nibble(n: int): (b: Byte)
    requires 0 <= n < 16
    ensures b as int == n
  {
    Nibbles[n]
  }

  /** A byte whose two nibbles are decimal digits. */
  predicate IsBcd(b: Byte)
  {
    b >> 4 <= 9 && b & 0xF <= 9
  }

  /** `bcdize`, in 8-bit arithmetic: for a value below 100 the high nibble
      holds the tens digit and the low nibble the units digit. */
  function Bcdize(v: Byte): (b: Byte)
    ensures v < 100 ==> IsBcd(b) && (b >> 4) as int == v as int / 10 && (b & 0xF) as int == v as int % 10
  {
    (v % 10) + ((v / 10) << 4)
  }

  /** `unbcdize`, in 8-bit arithmetic: for a valid BCD byte, the decimal
      value its two digits spell, below 100. */
  function Unbcdize(b: Byte): (v: Byte)
    ensures IsBcd(b) ==> v < 100 && v as int == 10 * (b >> 4) as int + (b & 0xF) as int
  {
    (b & 0xF) + (b >> 4) * 10
  }

  /** Every value below 100 survives encoding and decoding. */
  lemma BcdRoundTrip(v: Byte)
    requires v < 100
    ensures Unbcdize(Bcdize(v)) == v
  {
  }

  /** Every valid BCD byte survives decoding and encoding. */
  lemma UnbcdRoundTrip(b: Byte)
    requires IsBcd(b)
    ensures Unbcdize(b) < 100 && Bcdize(Unbcdize(b)) == b
  {
  }

  /** Encode a register value for the mode register B selects. */
  function Encode(regB: Byte, v: Byte): Byte
  {
    if Binary(regB) then v else Bcdize(v)
  }

  /** `MC146818::setTime`: remember `time` and derive the clock bytes from
      it: month and weekday are stored one-based, the year is `tm_year`
      truncated to a byte, and in BCD mode the year is first reduced
      modulo 100 and all but the weekday are BCD-encoded.  The alarm bytes
      and both status registers are untouched. */
  function SetTime(rtc: Rtc, time: Tm): (r: Rtc)
    requires WellFormed(rtc)
    ensures WellFormed(r) && r.curTime == time
    ensures r.regA == rtc.regA && r.regB == rtc.regB && r.periodicScheduled == rtc.periodicScheduled
    ensures r.clockData[SecAlarm] == rtc.clockData[SecAlarm]
    ensures r.clockData[MinAlarm] == rtc.clockData[MinAlarm]
    ensures r.clockData[HourAlarm] == rtc.clockData[HourAlarm]
    ensures r.clockData[Sec] == Encode(rtc.regB, ToByte(time.sec))
    ensures r.clockData[Min] == Encode(rtc.regB, ToByte(time.min))
    ensures r.clockData[Hour] == Encode(rtc.regB, ToByte(time.hour))
    ensures r.clockData[Mday] == Encode(rtc.regB, ToByte(time.mday))
    ensures r.clockData[Mon] == Encode(rtc.regB, ToByte(time.mon + 1))
    ensures r.clockData[Wday] == ToByte(time.wday + 1)
    ensures Binary(rtc.regB) ==> r.clockData[Year] == ToByte(time.year)
    ensures !Binary(rtc.regB) ==> r.clockData[Year] == Bcdize(ToByte(time.year) % 100)
  {
    var year := if Binary(rtc.regB) then ToByte(time.year) else Bcdize(ToByte(time.year) % 100);
    var d := rtc.clockData
      [Sec := Encode(rtc.regB, ToByte(time.sec))]
      [Min := Encode(rtc.regB, ToByte(time.min))]
      [Hour := Encode(rtc.regB, ToByte(time.hour))]
      [Wday := ToByte(time.wday + 1)]
      [Mday := Encode(rtc.regB, ToByte(time.mday))]
      [Mon := Encode(rtc.regB, ToByte(time.mon + 1))]
      [Year := year];
    rtc.(clockData := d, curTime := time)
  }

  /** A time whose fields lie in the ranges `struct tm` gives them, with the
      year (counted from 1900) inside the window the device can hold: any
      byte in binary mode, 1950..2049 in BCD mode. */
  predicate InRange(time: Tm, binary: bool)
  {
    && 0 <= time.sec < 60 && 0 <= time.min < 60 && 0 <= time.hour < 24
    && 1 <= time.mday <= 31 && 0 <= time.mon < 12 && 0 <= time.wday < 7
    && (if binary then 0 <= time.year < 256 else 50 <= time.year < 150)
  }

  /** The constructor: clock bytes zeroed, register A at the 32768 Hz time
      base with the 1024 Hz periodic rate, register B in 24-hour mode with
      the periodic interrupt enabled and binary mode unless `bcd`, the
      periodic event scheduled, then `setTime(time)`. */
  function NewRtc(time: Tm, bcd: bool): (r: Rtc)
    ensures WellFormed(r) && r.curTime == time && r.periodicScheduled
    ensures r.regA == RegA32768Hz | RegA1024Hz && r.regA & RegAUip == 0
    ensures r.regB & RegBPrdcIe != 0 && r.regB & RegB24Hr != 0 && r.regB & RegBNoUpdt == 0
    ensures Binary(r.regB) <==> !bcd
    ensures r.clockData[SecAlarm] == 0 && r.clockData[MinAlarm] == 0 && r.clockData[HourAlarm] == 0
  {
    var regB := if bcd then RegBPrdcIe | RegB24Hr else RegBPrdcIe | RegB24Hr | RegBBin;
    SetTime(Rtc(seq(ClockBytes, _ => 0), RegA32768Hz | RegA1024Hz, regB, time, true), time)
  }

  /** The time the source derives from the clock bytes after a clock write,
      as written: every byte BCD-decoded whatever the mode, month and
      weekday made zero-based, and the year mapped into 1950..2049. */
  function DecodeAsWritten(d: seq<Byte>): (t: Tm)
    requires |d| == ClockBytes
    ensures 1950 <= t.year <= 2049
    ensures -1 <= t.mon && -1 <= t.wday
  {
    Tm(Unbcdize(d[Sec]) as int, Unbcdize(d[Min]) as int, Unbcdize(d[Hour]) as int,
       Unbcdize(d[Mday]) as int, Unbcdize(d[Mon]) as int - 1,
       ((Unbcdize(d[Year]) as int + 50) % 100) + 1950, Unbcdize(d[Wday]) as int - 1)
  }

  /** Decode a register value for the mode register B selects. */
  function Decode(regB: Byte, b: Byte): Byte
  {
    if Binary(regB) then b else Unbcdize(b)
  }

  /** The clock-byte decoding as evidently intended: bytes decoded in the
      mode they were encoded in, and the year kept as years since 1900, as
      `struct tm` counts it: the byte itself in binary mode, 50..149 (the
      years 1950..2049) in BCD mode. */
  function DecodeClock(regB: Byte, d: seq<Byte>): (t: Tm)
    requires |d| == ClockBytes
    ensures !Binary(regB) ==> 50 <= t.year < 150
    ensures Binary(regB) ==> t.year == d[Year] as int
  {
    var year := if Binary(regB) then d[Year] as int else ((Unbcdize(d[Year]) as int + 50) % 100) + 50;
    Tm(Decode(regB, d[Sec]) as int, Decode(regB, d[Min]) as int, Decode(regB, d[Hour]) as int,
       Decode(regB, d[Mday]) as int, Decode(regB, d[Mon]) as int - 1,
       year, Unbcdize(d[Wday]) as int - 1)
  }

  /** A write to a clock byte, as written: the byte is stored and the time
      recomputed by `DecodeAsWritten`. */
  function WriteClockAsWritten(rtc: Rtc, addr: nat, data: Byte): (r: Rtc)
    requires WellFormed(rtc) && addr < ClockBytes
    ensures WellFormed(r) && r.clockData == rtc.clockData[addr := data]
    ensures 1950 <= r.curTime.year <= 2049
    ensures r.regA == rtc.regA && r.regB == rtc.regB && r.periodicScheduled == rtc.periodicScheduled
  {
    var d := rtc.clockData[addr := data];
    rtc.(clockData := d, curTime := DecodeAsWritten(d))
  }

  /** A write to a clock byte with the decoding corrected: the byte is
      stored and the time recomputed by `DecodeClock`. */
  function WriteClock(rtc: Rtc, addr: nat, data: Byte): (r: Rtc)
    requires WellFormed(rtc) && addr < ClockBytes
    ensures WellFormed(r) && r.clockData == rtc.clockData[addr := data]
    ensures !Binary(rtc.regB) ==> 50 <= r.curTime.year < 150
    ensures r.regA == rtc.regA && r.regB == rtc.regB && r.periodicScheduled == rtc.periodicScheduled
  {
    var d := rtc.clockData[addr := data];
    rtc.(clockData := d, curTime := DecodeClock(rtc.regB, d))
  }

  /** Register A writes are accepted only when every bit but UIP selects
      the 32768 Hz time base and the 1024 Hz rate. */
  predicate RegAWriteAccepted(data: Byte)
  {
    data & !RegAUip == RegA32768Hz | RegA1024Hz
  }

  /** Register B writes are accepted only when every bit but the periodic
      interrupt enable and the square-wave enable selects 24-hour mode. */
  predicate RegBWriteAccepted(data: Byte)
  {
    data & !(RegBPrdcIe | RegBSqwe) == RegB24Hr
  }

  /** One-bit masks: `Bit[j]` is bit `j` of a byte. */
  const Bit: seq<Byte> := [0x01, 0x02, 0x04, 0x08, 0x10, 0x20, 0x40, 0x80]

  /** Bit `j` of gem5's `mask(n) << lo` kept in a byte. */
  function MaskBit(lo: int, n: int, j: nat): (b: Byte)
    requires j < 8
    ensures b == 0 || b == Bit[j]
  {
    if lo <= j < lo + n then Bit[j] else 0
  }

  /** `mask(n) << lo` assigned to a `uint8_t`: bits `lo .. lo + n - 1`
      that fall within the byte. */
  function MaskByte(lo: int, n: int): Byte
  {
    MaskBit(lo, n, 0) | MaskBit(lo, n, 1) | MaskBit(lo, n, 2) | MaskBit(lo, n, 3)
    | MaskBit(lo, n, 4) | MaskBit(lo, n, 5) | MaskBit(lo, n, 6) | MaskBit(lo, n, 7)
  }

  /** 2^k. */
  function Pow2(k: nat): (p: nat)
    ensures p >= 1
  {
    if k == 0 then 1 else 2 * Pow2(k - 1)
  }

  /** When gem5's `insertBits(val, first, last, bitVal)` on a `uint8_t` is
      defined: `mask` shifts `1ULL` by the width `first - last + 1`, which
      must lie in 0..64, and `bitVal` promoted to `int` is shifted left by
      `last`, which must stay below 32 and not overflow. */
  predicate InsertBitsDefined(first: int, last: int, bitVal: Byte)
  {
    && 0 <= first - last + 1 <= 64
    && 0 <= last < 32 && bitVal as int * Pow2(last) < 0x8000_0000
  }

  /** gem5's `insertBits(val, first, last, bitVal)` (base/bitfield.hh is not
      part of this model; the helper is taken as gem5 defines it) for a
      `uint8_t` `val`: bits `last..first` of `val` are replaced by the low
      bits of `bitVal`, and `None` stands for undefined behaviour.
      `replaceBits(val, first, last, bitVal)` stores this into `val`. */
  function InsertBits(val: Byte, first: int, last: int, bitVal: Byte): (r: Option<Byte>)
    ensures r.Some? <==> InsertBitsDefined(first, last, bitVal)
    ensures r.Some? ==> forall j :: 0 <= j < 8 && !(last <= j <= first) ==>
              r.value & Bit[j] == val & Bit[j]
  {
    if !InsertBitsDefined(first, last, bitVal) then None
    else
      var m := MaskByte(last, first - last + 1);
      var shifted := if last < 8 then bitVal << last else 0;
      InsertBitsFrame(val, first, last, shifted);
      Some((shifted & m) | (val & !m))
  }

  /** Outside bits `last..first` the mask is clear, so those bits of `val`
      come through. */
  lemma InsertBitsFrame(val: Byte, first: int, last: int, shifted: Byte)
    ensures var m := MaskByte(last, first - last + 1);
            forall j :: 0 <= j < 8 && !(last <= j <= first) ==>
              ((shifted & m) | (val & !m)) & Bit[j] == val & Bit[j]
  {
    var m := MaskByte(last, first - last + 1);
    forall j | 0 <= j < 8 && !(last <= j <= first)
      ensures ((shifted & m) | (val & !m)) & Bit[j] == val & Bit[j]
    {
      MaskByteBit(last, first - last + 1, j);
      OutsideMask(shifted, m, val, Bit[j]);
    }
  }

  /** Bit `j` of `MaskByte` is `MaskBit` at `j`. */
  lemma MaskByteBit(lo: int, n: int, j: nat)
    requires j < 8
    ensures MaskByte(lo, n) & Bit[j] == MaskBit(lo, n, j)
  {
  }

  /** Bits a mask leaves clear are taken from the old value. */
  lemma OutsideMask(x: Byte, m: Byte, val: Byte, b: Byte)
    requires m & b == 0
    ensures ((x & m) | (val & !m)) & b == val & b
  {
  }

  /** Register A after an accepted write as the call is written,
      `replaceBits(stat_regA, data, 6, 0)`: `data` is passed as `first`,
      6 as `last` and 0 as the value.  With UIP clear in `data` the mask
      is bits 7..6, so UIP and bit 6 are cleared and `data` is ignored;
      with UIP set the mask's width 161 is an undefined shift. */
  function WriteRegAAsWritten(regA: Byte, data: Byte): (r: Option<Byte>)
    requires RegAWriteAccepted(data)
    ensures data & RegAUip == 0 ==> r == Some(regA & 0x3F)
    ensures data & RegAUip != 0 ==> r.None?
  {
    if data & RegAUip == 0 then
      assert data == 0x26;
      assert MaskByte(6, 33) == 0xC0;
      InsertBits(regA, data as int, 6, 0)
    else
      assert data == 0xA6;
      InsertBits(regA, data as int, 6, 0)
  }

  /** `MC146818::writeData`, with the clock-byte decoding of `WriteClock`:
      - a clock address stores the byte and re-derives the time;
      - register A panics on an unsupported rate, else takes bits 6..0 of
        the byte and keeps its UIP bit, as `replaceBits(stat_regA, 6, 0,
        data)` would (`WriteRegAAsWritten` is the call as written);
      - register B panics on an unsupported mode, else is set to the byte,
        with the periodic event scheduled exactly when the byte enables the
        periodic interrupt;
      - registers C and D panic; higher addresses are ignored. */
  function WriteData(rtc: Rtc, addr: Byte, data: Byte): (r: Outcome<Rtc>)
    requires WellFormed(rtc)
    ensures r.Done? ==> WellFormed(r.value)
    ensures r.Panic? <==> (addr == RegA && !RegAWriteAccepted(data)) || (addr == RegB && !RegBWriteAccepted(data))
                          || addr == RegC || addr == RegD
    ensures r.Done? && addr < RegA ==>
              var d := rtc.clockData[addr := data];
              r.value == rtc.(clockData := d, curTime := DecodeClock(rtc.regB, d))
    ensures r.Done? && addr == RegA ==>
              r.value == rtc.(regA := (rtc.regA & RegAUip) | (data & !RegAUip))
    ensures r.Done? && addr == RegB ==>
              r.value == rtc.(regB := data, periodicScheduled := data & RegBPrdcIe != 0)
    ensures r.Done? && addr > RegD ==> r.value == rtc
  {
    if addr < RegA then Done(WriteClock(rtc, addr as nat, data))
    else if addr == RegA then
      if !RegAWriteAccepted(data) then Panic
      else Done(rtc.(regA := (rtc.regA & !0x7F) | (data & 0x7F)))
    else if addr == RegB then
      if !RegBWriteAccepted(data) then Panic
      else
        // the event is scheduled if the enable is set and it is not yet
        // scheduled, and descheduled if the enable is clear and it is
        Done(rtc.(regB := data, periodicScheduled := data & RegBPrdcIe != 0))
    else if addr == RegC || addr == RegD then Panic
    else Done(rtc)
  }

  /** The call with its arguments in the helper's order,
      `replaceBits(stat_regA, 6, 0, data)`, is the register A update of
      `WriteData`: bits 6..0 come from `data` and UIP is kept. */
  lemma RegAWriteIntended(rtc: Rtc, data: Byte)
    requires WellFormed(rtc) && RegAWriteAccepted(data)
    ensures WriteData(rtc, RegA, data).Done?
    ensures InsertBits(rtc.regA, 6, 0, data) == Some(WriteData(rtc, RegA, data).value.regA)
    ensures WriteData(rtc, RegA, data).value.regA & RegAUip == rtc.regA & RegAUip
  {
    assert MaskByte(0, 7) == 0x7F;
  }

  /** Once a read of register A has set UIP, writing the accepted value
      0x26 keeps UIP under the intended call but clears it as the call is
      written, so the next read of register A returns 0x26 where the source
      returns 0xA6. */
  lemma RegAWriteAsWrittenDropsUip(rtc: Rtc)
    requires WellFormed(rtc) && rtc.regA == 0xA6
    ensures WriteRegAAsWritten(rtc.regA, 0x26) == Some(0x26)
    ensures WriteData(rtc, RegA, 0x26) == Done(rtc)
    ensures ReadData(rtc, RegA).value.data == 0x26
    ensures ReadData(rtc.(regA := 0x26), RegA).value.data == 0xA6
  {
  }

  /** `MC146818::readData`:
      - a clock address returns its byte and changes nothing;
      - register A flips UIP and returns the new register;
      - register B returns itself; registers C and D return 0;
      - higher addresses panic. */
  function ReadData(rtc: Rtc, addr: Byte): (r: Outcome<Reply>)
    requires WellFormed(rtc)
    ensures r.Panic? <==> addr > RegD
    ensures r.Done? ==> WellFormed(r.value.rtc)
    ensures r.Done? && addr != RegA ==> r.value.rtc == rtc
    ensures r.Done? && addr < RegA ==> r.value.data == rtc.clockData[addr]
    ensures r.Done? && addr == RegA ==>
              r.value.rtc == rtc.(regA := r.value.data) && r.value.data ^ rtc.regA == RegAUip
    ensures r.Done? && addr == RegB ==> r.value.data == rtc.regB
    ensures r.Done? && (addr == RegC || addr == RegD) ==> r.value.data == 0
  {
    if addr < RegA then Done(Reply(rtc.clockData[addr], rtc))
    else if addr == RegA then
      var a := rtc.regA ^ RegAUip;
      Done(Reply(a, rtc.(regA := a)))
    else if addr == RegB then Done(Reply(rtc.regB, rtc))
    else if addr == RegC || addr == RegD then Done(Reply(0, rtc))
    else Panic
  }

  /** `MC146818::tickClock`: nothing happens while register B stops
      updates; otherwise the clock is set to the time one second after
      `curTime`, as computed by `advance`. */
  function TickClock(rtc: Rtc, advance: Tm -> Tm): (r: Rtc)
    requires WellFormed(rtc)
    ensures WellFormed(r)
    ensures rtc.regB & RegBNoUpdt != 0 ==> r == rtc
    ensures r.regA == rtc.regA && r.regB == rtc.regB
    ensures rtc.regB & RegBNoUpdt == 0 ==> r.curTime == advance(rtc.curTime)
  {
    if rtc.regB & RegBNoUpdt != 0 then rtc else SetTime(rtc, advance(rtc.curTime))
  }

  /** Two reads of register A in a row return values that differ exactly in
      UIP, and leave register A as it was. */
  lemma RegAReadTwice(rtc: Rtc)
    requires WellFormed(rtc)
    ensures var first := ReadData(rtc, RegA);
            && first.Done?
            && var second := ReadData(first.value.rtc, RegA);
            && second.Done?
            && first.value.data ^ second.value.data == RegAUip
            && second.value.rtc == rtc
  {
  }

  /** A register B write that is accepted is read back unchanged. */
  lemma RegBWriteRead(rtc: Rtc, data: Byte)
    requires WellFormed(rtc) && RegBWriteAccepted(data)
    ensures WriteData(rtc, RegB, data).Done?
    ensures ReadData(WriteData(rtc, RegB, data).value, RegB) == Done(Reply(data, WriteData(rtc, RegB, data).value))
  {
  }

  /** Accepted register B writes always leave binary mode off and updates
      running: after a write the clock bytes are BCD. */
  lemma RegBWriteMode(rtc: Rtc, data: Byte)
    requires WellFormed(rtc) && RegBWriteAccepted(data)
    ensures !Binary(data) && data & RegBNoUpdt == 0 && data & RegB24Hr != 0
  {
  }

  /** A clock byte written is read back unchanged, from the same address. */
  lemma ClockWriteRead(rtc: Rtc, addr: Byte, data: Byte)
    requires WellFormed(rtc) && addr < RegA
    ensures WriteData(rtc, addr, data).Done?
    ensures ReadData(WriteData(rtc, addr, data).value, addr).Done?
    ensures ReadData(WriteData(rtc, addr, data).value, addr).value.data == data
  {
  }

  /** A field value below 100 survives encoding and decoding in either mode. */
  lemma EncodeDecode(regB: Byte, v: Byte)
    requires v < 100
    ensures Decode(regB, Encode(regB, v)) == v
  {
    if !Binary(regB) {
      BcdRoundTrip(v);
    }
  }

  /** The year byte `setTime` stores decodes to the year it came from. */
  lemma YearDecodes(regB: Byte, year: int)
    requires if Binary(regB) then 0 <= year < 256 else 50 <= year < 150
    ensures var b := if Binary(regB) then ToByte(year) else Bcdize(ToByte(year) % 100);
            (if Binary(regB) then b as int else ((Unbcdize(b) as int + 50) % 100) + 50) == year
  {
    ToByteSmall(year);
    if !Binary(regB) {
      var m := ToByte(year) % 100;
      ByteMod100(ToByte(year));
      BcdRoundTrip(m);
      YearWindow(year);
    }
  }

  /** The 8-bit remainder by 100 agrees with the integer one. */
  lemma ByteMod100(b: Byte)
    ensures (b % 100) as int == b as int % 100
  {
  }

  /** Years 50..149 since 1900 come back from their last two digits. */
  lemma YearWindow(year: int)
    requires 50 <= year < 150
    ensures ((year % 100 + 50) % 100) + 50 == year
  {
    if year < 100 {
      assert year % 100 == year;
    } else {
      assert year % 100 == year - 100;
    }
  }

  /** `setTime` followed by decoding gives the time back: each clock byte
      holds its field in the mode register B selects. */
  lemma SetTimeDecodes(rtc: Rtc, time: Tm)
    requires WellFormed(rtc) && InRange(time, Binary(rtc.regB))
    ensures DecodeClock(rtc.regB, SetTime(rtc, time).clockData) == time
  {
    SetTimeDecodesClock(rtc, time);
    SetTimeDecodesDate(rtc, time);
    SetTimeDecodesYear(rtc, time);
    SetTimeDecodesWday(rtc, time);
  }

  /** The time-of-day part of `SetTimeDecodes`. */
  lemma SetTimeDecodesClock(rtc: Rtc, time: Tm)
    requires WellFormed(rtc) && InRange(time, Binary(rtc.regB))
    ensures var t := DecodeClock(rtc.regB, SetTime(rtc, time).clockData);
            t.sec == time.sec && t.min == time.min && t.hour == time.hour
  {
    ToByteSmall(time.sec);
    EncodeDecode(rtc.regB, ToByte(time.sec));
    ToByteSmall(time.min);
    EncodeDecode(rtc.regB, ToByte(time.min));
    ToByteSmall(time.hour);
    EncodeDecode(rtc.regB, ToByte(time.hour));
  }

  /** The day and month part of `SetTimeDecodes`. */
  lemma SetTimeDecodesDate(rtc: Rtc, time: Tm)
    requires WellFormed(rtc) && InRange(time, Binary(rtc.regB))
    ensures var t := DecodeClock(rtc.regB, SetTime(rtc, time).clockData);
            t.mday == time.mday && t.mon == time.mon
  {
    ToByteSmall(time.mday);
    EncodeDecode(rtc.regB, ToByte(time.mday));
    ToByteSmall(time.mon + 1);
    EncodeDecode(rtc.regB, ToByte(time.mon + 1));
  }

  /** The year part of `SetTimeDecodes`. */
  lemma SetTimeDecodesYear(rtc: Rtc, time: Tm)
    requires WellFormed(rtc) && InRange(time, Binary(rtc.regB))
    ensures DecodeClock(rtc.regB, SetTime(rtc, time).clockData).year == time.year
  {
    YearDecodes(rtc.regB, time.year);
  }

  /** The weekday part of `SetTimeDecodes`: the weekday byte is stored
      without BCD encoding, but as a single digit it reads the same. */
  lemma SetTimeDecodesWday(rtc: Rtc, time: Tm)
    requires WellFormed(rtc) && InRange(time, Binary(rtc.regB))
    ensures DecodeClock(rtc.regB, SetTime(rtc, time).clockData).wday == time.wday
  {
    ToByteSmall(time.wday + 1);
    SingleDigitIsBcd(ToByte(time.wday + 1));
  }

  /** A byte below 10 reads the same as BCD. */
  lemma SingleDigitIsBcd(b: Byte)
    requires b < 10
    ensures Unbcdize(b) == b
  {
  }

  /** Rewriting any clock byte with the value just read from it leaves the
      time unchanged after `setTime`, with the corrected decoding. */
  lemma RewriteKeepsTime(rtc: Rtc, time: Tm, addr: Byte)
    requires WellFormed(rtc) && InRange(time, Binary(rtc.regB)) && addr < RegA
    ensures var s := SetTime(rtc, time);
            var w := WriteData(s, addr, s.clockData[addr]);
            w.Done? && w.value == s
  {
    var s := SetTime(rtc, time);
    SetTimeDecodes(rtc, time);
    assert s.clockData[addr as nat := s.clockData[addr]] == s.clockData;
  }

  /** The decoding as written breaks that round trip twice over.  In BCD
      mode, 2009 (`tm_year` 109) comes back as `tm_year` 2009, that is the
      year 3909. */
  lemma RewriteAsWrittenChangesYear()
    ensures var bcdRtc := SetTime(Rtc(seq(ClockBytes, _ => 0), 0x26, 0x02, Tm(0, 0, 0, 1, 0, 0, 0), false),
                                  Tm(0, 0, 0, 1, 0, 109, 0));
            WriteClockAsWritten(bcdRtc, Sec, bcdRtc.clockData[Sec]).curTime.year == 2009
  {
    var bcdRtc := SetTime(Rtc(seq(ClockBytes, _ => 0), 0x26, 0x02, Tm(0, 0, 0, 1, 0, 0, 0), false),
                          Tm(0, 0, 0, 1, 0, 109, 0));
    ToByteSmall(109);
    ByteMod100(ToByte(109));
    assert ToByte(109) % 100 == 9;
    assert bcdRtc.clockData[Year] == 0x09;
  }

  /** In binary mode, 59 seconds come back as 41: the binary byte 0x3B is
      read as BCD. */
  lemma RewriteAsWrittenChangesSeconds()
    ensures var binRtc := SetTime(Rtc(seq(ClockBytes, _ => 0), 0x26, 0x06, Tm(0, 0, 0, 1, 0, 0, 0), false),
                                  Tm(59, 0, 0, 1, 0, 109, 0));
            WriteClockAsWritten(binRtc, Sec, binRtc.clockData[Sec]).curTime.sec == 41
  {
    var binRtc := SetTime(Rtc(seq(ClockBytes, _ => 0), 0x26, 0x06, Tm(0, 0, 0, 1, 0, 0, 0), false),
                          Tm(59, 0, 0, 1, 0, 109, 0));
    ToByteSmall(59);
    assert ToByte(59) == 0x3B;
    assert binRtc.clockData[Sec] == 0x3B;
  }
}
