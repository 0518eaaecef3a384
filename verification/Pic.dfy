/** The two cascaded 8259A interrupt controllers, as their data sheet describes the part of them that
    the kernel uses, and the driver that talks to them through their ports. */
module Pic {
  // ----- the device

  /** What the data port expects next. */
  datatype Phase = Operational | WantsIcw2 | WantsIcw3 | WantsIcw4

  /** One controller: mask, in-service and request registers, and what initialisation sets. */
  datatype Chip = Chip(phase: Phase, imr: bv8, isr: bv8, irr: bv8, vector: bv8, cascade: bv8, icw4: bv8,
                       wantsIcw4: bool, single: bool, readsIsr: bool)

  /** The non-specific end of interrupt clears the in-service bit of highest priority, which is the
      lowest one set. */
  function ClearLowest(isr: bv8): bv8 { isr & (isr - 1) }

  /** A byte written to the command port: ICW1, OCW2 or OCW3. Of the OCW2 commands only the
      non-specific end of interrupt does anything here. */
  function WriteCommand(c: Chip, data: bv8): Chip {
    if data & 0x10 != 0 then
      c.(phase := WantsIcw2, imr := 0, irr := 0, icw4 := 0, readsIsr := false,
         wantsIcw4 := data & 0x01 != 0, single := data & 0x02 != 0)
    else if data & 0x08 == 0 then
      if data & 0xE0 == 0x20 then c.(isr := ClearLowest(c.isr)) else c
    else
      if data & 0x03 == 0x03 then c.(readsIsr := true)
      else if data & 0x03 == 0x02 then c.(readsIsr := false) else c
  }

  /** A byte written to the data port: the next initialisation word, or the mask. */
  function WriteData(c: Chip, data: bv8): Chip {
    match c.phase
    case WantsIcw2 =>
      c.(vector := data & 0xF8,
         phase := if !c.single then WantsIcw3 else if c.wantsIcw4 then WantsIcw4 else Operational)
    case WantsIcw3 => c.(cascade := data, phase := if c.wantsIcw4 then WantsIcw4 else Operational)
    case WantsIcw4 => c.(icw4 := data, phase := Operational)
    case Operational => c.(imr := data)
  }

  datatype Pair = Pair(master: Chip, slave: Chip)

  const PIC1_COMMAND: int := 0x20
  const PIC1_DATA: int := 0x21
  const PIC2_COMMAND: int := 0xA0
  const PIC2_DATA: int := 0xA1

  function PortWrite(d: Pair, port: int, data: bv8): Pair {
    if port == PIC1_COMMAND then d.(master := WriteCommand(d.master, data))
    else if port == PIC1_DATA then d.(master := WriteData(d.master, data))
    else if port == PIC2_COMMAND then d.(slave := WriteCommand(d.slave, data))
    else if port == PIC2_DATA then d.(slave := WriteData(d.slave, data))
    else d
  }

  function PortRead(d: Pair, port: int): bv8 {
    if port == PIC1_DATA then d.master.imr
    else if port == PIC2_DATA then d.slave.imr
    else if port == PIC1_COMMAND then (if d.master.readsIsr then d.master.isr else d.master.irr)
    else if port == PIC2_COMMAND then (if d.slave.readsIsr then d.slave.isr else d.slave.irr)
    else 0
  }

  // ----- bits

  /** The byte with only bit `n` set, as shifting 1 to the left by `n` and cutting to a byte gives it. */
  function Bit(n: nat): bv8 {
    match n
    case 0 => 0x01
    case 1 => 0x02
    case 2 => 0x04
    case 3 => 0x08
    case 4 => 0x10
    case 5 => 0x20
    case 6 => 0x40
    case 7 => 0x80
    case _ => 0
  }

  lemma BitIsShift(n: nat)
    requires n < 8
    ensures Bit(n) == (1 as bv8) << n
  {}

  /** The first controller is at ports 0x20 and 0x21, the second at 0xA0 and 0xA1. */
  lemma PortsAre(d: Pair, port: int, data: bv8)
    ensures PortWrite(d, port, data) ==
            if port == 0x20 then d.(master := WriteCommand(d.master, data))
            else if port == 0x21 then d.(master := WriteData(d.master, data))
            else if port == 0xA0 then d.(slave := WriteCommand(d.slave, data))
            else if port == 0xA1 then d.(slave := WriteData(d.slave, data))
            else d
    ensures PortRead(d, 0x21) == d.master.imr && PortRead(d, 0xA1) == d.slave.imr
  {}

  predicate Has(r: bv8, n: nat) { r & Bit(n) != 0 }

  function SetBit(r: bv8, k: nat): bv8 { r | Bit(k) }
  function ClearBit(r: bv8, k: nat): bv8 { r & !Bit(k) }

  lemma HasAfterSet(r: bv8, k: nat, n: nat)
    requires n < 8
    ensures Has(SetBit(r, k), n) <==> Has(r, n) || k == n
  {}

  lemma HasAfterClear(r: bv8, k: nat, n: nat)
    requires n < 8
    ensures Has(ClearBit(r, k), n) <==> Has(r, n) && k != n
  {}

  /** The byte with the bits below `n` set. */
  function Below(n: nat): bv8 {
    match n
    case 0 => 0x00
    case 1 => 0x01
    case 2 => 0x03
    case 3 => 0x07
    case 4 => 0x0F
    case 5 => 0x1F
    case 6 => 0x3F
    case 7 => 0x7F
    case _ => 0xFF
  }

  predicate HasBelow(r: bv8, n: nat) { r & Below(n) != 0 }

  ghost predicate HasSomeBelow(r: bv8, n: nat) { exists k :: 0 <= k < n && Has(r, k) }

  lemma BelowNothing(r: bv8)
    ensures !HasBelow(r, 0) && !HasSomeBelow(r, 0)
  {}

  lemma BelowNext(r: bv8, n: nat)
    requires n < 8
    ensures HasBelow(r, n + 1) <==> HasBelow(r, n) || Has(r, n)
  {}

  lemma SomeBelowNext(r: bv8, n: nat)
    ensures HasSomeBelow(r, n + 1) <==> HasSomeBelow(r, n) || Has(r, n)
  {
    hide Has;
  }

  lemma {:induction false} AnyBelow(r: bv8, n: nat)
    requires n <= 8
    ensures HasBelow(r, n) <==> HasSomeBelow(r, n)
  {
    hide *;
    if n == 0 {
      BelowNothing(r);
    } else {
      AnyBelow(r, n - 1);
      BelowNext(r, n - 1);
      SomeBelowNext(r, n - 1);
    }
  }

  lemma ClearLowestBit(r: bv8, n: nat)
    requires n < 8
    ensures Has(ClearLowest(r), n) <==> Has(r, n) && HasBelow(r, n)
  {}

  /** The end of interrupt clears exactly the lowest bit that is set. */
  lemma ClearLowestClears(r: bv8, n: nat)
    requires n < 8
    ensures Has(ClearLowest(r), n) <==> Has(r, n) && exists k :: 0 <= k < n && Has(r, k)
  {
    hide Has, HasBelow, ClearLowest;
    ClearLowestBit(r, n);
    AnyBelow(r, n);
  }

  /** Each end of interrupt makes one more low bit sure to be clear, so eight of them clear a register. */
  lemma ClearLowestProgress(r: bv8, k: nat)
    requires !HasBelow(r, k)
    ensures !HasBelow(ClearLowest(r), k + 1)
  {}

  lemma AllBelow(r: bv8)
    requires !HasBelow(r, 8)
    ensures r == 0
  {}

  // ----- the driver

  const EOI: bv8 := 0x20
  const PIC_READ_IRR: bv8 := 0x0A
  const PIC_READ_ISR: bv8 := 0x0B
  const ICW1: bv8 := 0x11
  const ICW4_8086: bv8 := 0x01

  /** A controller after its initialisation sequence: operational, with its vector base (a multiple of
      eight), its place in the cascade and 8086 mode set, and its mask and in-service bits as before. */
  function Initialised(c: Chip, offset: bv8, cascade: bv8): Chip {
    Chip(Operational, c.imr, c.isr, 0, offset & 0xF8, cascade, ICW4_8086, true, false, false)
  }

  function Remapped(d: Pair, offset1: bv8, offset2: bv8): Pair {
    Pair(Initialised(d.master, offset1, 4), Initialised(d.slave, offset2, 2))
  }

  /** The pair after an end of interrupt for line `irq`. */
  function Acknowledged(d: Pair, irq: nat): Pair {
    Pair(d.master.(isr := ClearLowest(d.master.isr)),
         if irq >= 8 then d.slave.(isr := ClearLowest(d.slave.isr)) else d.slave)
  }

  /** The pair after its data port for line `l` has been written with a new mask. */
  function MaskWritten(d: Pair, l: nat, value: bv8): Pair {
    if l < 8 then d.(master := WriteData(d.master, value)) else d.(slave := WriteData(d.slave, value))
  }

  function Masked(d: Pair, l: nat): Pair {
    MaskWritten(d, l, if l < 8 then SetBit(d.master.imr, l) else SetBit(d.slave.imr, l - 8))
  }

  function Unmasked(d: Pair, l: nat): Pair {
    MaskWritten(d, l, if l < 8 then ClearBit(d.master.imr, l) else ClearBit(d.slave.imr, l - 8))
  }

  /** The pair once both command ports have been told which register to show. */
  function Selected(d: Pair, readsIsr: bool): Pair {
    Pair(d.master.(readsIsr := readsIsr), d.slave.(readsIsr := readsIsr))
  }

  /** The sixteen lines as one number, the master's in the low byte. */
  predicate Combines(value: bv16, master: bv8, slave: bv8) {
    value & 0xFF == master as bv16 && value >> 8 == slave as bv16
  }

  lemma CombinedBytes(master: bv8, slave: bv8)
    ensures Combines(((slave as bv16) << 8) | (master as bv16), master, slave)
  {}

  predicate Ready(d: Pair) { d.master.phase.Operational? && d.slave.phase.Operational? }

  class Ports {
    var device: Pair

    constructor (device: Pair)
      ensures this.device == device
    {
      this.device := device;
    }

    method Outb(port: int, data: bv8)
      modifies this
      ensures device == PortWrite(old(device), port, data)
    {
      device := PortWrite(device, port, data);
    }

    method Inb(port: int) returns (data: bv8)
      ensures data == PortRead(device, port)
    {
      data := PortRead(device, port);
    }

    /** Gives the controllers their vector bases, leaving the masks as they were. */
    method Remap(offset1: bv8, offset2: bv8)
      modifies this
      ensures device == Remapped(old(device), offset1, offset2)
    {
      var a1 := Inb(PIC1_DATA);
      var a2 := Inb(PIC2_DATA);
      Outb(PIC1_COMMAND, ICW1);
      Outb(PIC2_COMMAND, ICW1);
      Outb(PIC1_DATA, offset1);
      Outb(PIC2_DATA, offset2);
      Outb(PIC1_DATA, 4);
      Outb(PIC2_DATA, 2);
      Outb(PIC1_DATA, ICW4_8086);
      Outb(PIC2_DATA, ICW4_8086);
      Outb(PIC1_DATA, a1);
      Outb(PIC2_DATA, a2);
    }

    method SendEoi(irq: nat)
      modifies this
      ensures device == Acknowledged(old(device), irq)
    {
      if irq >= 8 {
        Outb(PIC2_COMMAND, EOI);
      }
      Outb(PIC1_COMMAND, EOI);
    }

    /** Tells both controllers which register to show and reads it from both. */
    method GetIrqReg(ocw3: bv8) returns (value: bv16)
      requires ocw3 == PIC_READ_IRR || ocw3 == PIC_READ_ISR
      modifies this
      ensures device == Selected(old(device), ocw3 == PIC_READ_ISR)
      ensures ocw3 == PIC_READ_ISR ==> Combines(value, old(device).master.isr, old(device).slave.isr)
      ensures ocw3 == PIC_READ_IRR ==> Combines(value, old(device).master.irr, old(device).slave.irr)
    {
      Outb(PIC1_COMMAND, ocw3);
      Outb(PIC2_COMMAND, ocw3);
      var slave := Inb(PIC2_COMMAND);
      var master := Inb(PIC1_COMMAND);
      CombinedBytes(master, slave);
      value := ((slave as bv16) << 8) | (master as bv16);
    }

    /** Lines from 16 on shift the bit out of the byte and change nothing; from 40 on the shift is not
        defined. */
    method SetMask(irqLine: nat)
      requires irqLine < 40
      modifies this
      ensures device == Masked(old(device), irqLine)
    {
      hide SetBit, ClearBit;
      var port, line;
      if irqLine < 8 {
        port, line := PIC1_DATA, irqLine;
      } else {
        port, line := PIC2_DATA, irqLine - 8;
      }
      var value := Inb(port);
      value := SetBit(value, line);
      Outb(port, value);
    }

    method ClearMask(irqLine: nat)
      requires irqLine < 40
      modifies this
      ensures device == Unmasked(old(device), irqLine)
    {
      hide SetBit, ClearBit;
      var port, line;
      if irqLine < 8 {
        port, line := PIC1_DATA, irqLine;
      } else {
        port, line := PIC2_DATA, irqLine - 8;
      }
      var value := Inb(port);
      value := ClearBit(value, line);
      Outb(port, value);
    }
  }

  // ----- the enabled lines, as a set

  predicate LineOn(d: Pair, l: nat) { if l < 8 then !Has(d.master.imr, l) else !Has(d.slave.imr, l - 8) }

  function Enabled(d: Pair): set<nat> { set l: nat | l < 16 && LineOn(d, l) }

  datatype Call = RemapCall(offset1: bv8, offset2: bv8) | SetMaskCall(line: nat) | ClearMaskCall(line: nat)

  function After(d: Pair, call: Call): Pair {
    match call
    case RemapCall(o1, o2) => Remapped(d, o1, o2)
    case SetMaskCall(l) => Masked(d, l)
    case ClearMaskCall(l) => Unmasked(d, l)
  }

  function AfterAll(d: Pair, calls: seq<Call>): Pair {
    if calls == [] then d else After(AfterAll(d, calls[..|calls| - 1]), calls[|calls| - 1])
  }

  /** What the calls do to a plain set of lines. */
  function Lines(lines: set<nat>, calls: seq<Call>): set<nat> {
    if calls == [] then lines else
    var before := Lines(lines, calls[..|calls| - 1]);
    match calls[|calls| - 1]
    case RemapCall(_, _) => before
    case SetMaskCall(l) => before - {l}
    case ClearMaskCall(l) => if l < 16 then before + {l} else before
  }

  lemma LineAfterCall(d: Pair, call: Call, l: nat)
    requires l < 16 && (Ready(d) || call.RemapCall?)
    ensures LineOn(After(d, call), l) ==
            match call
            case RemapCall(_, _) => LineOn(d, l)
            case SetMaskCall(k) => LineOn(d, l) && l != k
            case ClearMaskCall(k) => LineOn(d, l) || l == k
    ensures Ready(After(d, call))
  {
    hide Has, Bit, SetBit, ClearBit;
    var r, n := if l < 8 then d.master.imr else d.slave.imr, if l < 8 then l else l - 8;
    match call {
      case RemapCall(_, _) =>
      case SetMaskCall(k) =>
        HasAfterSet(r, if k < 8 then k else k - 8, n);
      case ClearMaskCall(k) =>
        HasAfterClear(r, if k < 8 then k else k - 8, n);
    }
  }

  /** After any run of calls the enabled lines are those of a plain set to which lines were added and
      from which they were removed. The device may be in any state at first if the run starts with a
      remap. */
  lemma {:induction false} EnabledIsASet(d: Pair, calls: seq<Call>)
    requires Ready(d) || (calls != [] && calls[0].RemapCall?)
    ensures Enabled(AfterAll(d, calls)) == Lines(Enabled(d), calls)
    ensures Ready(AfterAll(d, calls))
  {
    if calls != [] {
      var n := |calls| - 1;
      var before, call := AfterAll(d, calls[..n]), calls[n];
      if n > 0 || Ready(d) {
        EnabledIsASet(d, calls[..n]);
      } else {
        assert calls[..n] == [];
      }
      hide LineOn, After;
      assert Enabled(before) == Lines(Enabled(d), calls[..n]);
      LineAfterCall(before, call, 0);
      forall l: nat | l < 16
        ensures l in Enabled(After(before, call)) <==> l in Lines(Enabled(d), calls)
      {
        LineAfterCall(before, call, l);
      }
      forall l ensures l in Lines(Enabled(d), calls) ==> l < 16 {
        LinesBelow16(Enabled(d), calls);
      }
    }
  }

  lemma {:induction false} LinesBelow16(lines: set<nat>, calls: seq<Call>)
    requires forall l :: l in lines ==> l < 16
    ensures forall l :: l in Lines(lines, calls) ==> l < 16
  {
    if calls != [] {
      LinesBelow16(lines, calls[..|calls| - 1]);
    }
  }
}
