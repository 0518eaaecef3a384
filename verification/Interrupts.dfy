/** Start-up of the interrupt controllers and the handler that acknowledges interrupts, over whole runs
    of interrupts. */
module Interrupts {
  import opened Pic

  const TIMER: nat := 0
  const KEYBOARD_IRQ: nat := 1
  const CASCADE: nat := 2

  // ----- start-up

  /** The in-service register after `n` ends of interrupt. */
  function Cleared(isr: bv8, n: nat): bv8 {
    if n == 0 then isr else ClearLowest(Cleared(isr, n - 1))
  }

  lemma {:induction false} ClearedBelow(isr: bv8, n: nat)
    ensures !HasBelow(Cleared(isr, n), n)
  {
    if n == 0 {
      BelowNothing(isr);
    } else {
      ClearedBelow(isr, n - 1);
      ClearLowestProgress(Cleared(isr, n - 1), n - 1);
    }
  }

  lemma {:induction false} ClearLowestOfZero(n: nat)
    ensures Cleared(0, n) == 0
  {
    if n > 0 {
      ClearLowestOfZero(n - 1);
    }
  }

  lemma {:induction false} ClearedInSteps(isr: bv8, k: nat, n: nat)
    ensures Cleared(isr, k + n) == Cleared(Cleared(isr, k), n)
  {
    if n > 0 {
      ClearedInSteps(isr, k, n - 1);
    }
  }

  /** Eight ends of interrupt empty an in-service register, whatever it held, and more do no harm. */
  lemma EightClear(isr: bv8, n: nat)
    requires n >= 8
    ensures Cleared(isr, n) == 0
  {
    ClearedBelow(isr, 8);
    AllBelow(Cleared(isr, 8));
    ClearedInSteps(isr, 8, n - 8);
    ClearLowestOfZero(n - 8);
  }

  /** The pair after start-up: operational at vectors 32 to 47 in 8086 mode without automatic end of
      interrupt, nothing in service, and lines 0 and 1, the timer and the keyboard, enabled besides what
      was enabled before. */
  ghost predicate Started(before: Pair, after: Pair) {
    && Ready(after)
    && after.master.isr == 0 && after.slave.isr == 0
    && after.master.vector == 0x20 && after.slave.vector == 0x28
    && after.master.cascade == 4 && after.slave.cascade == 2
    && after.master.icw4 == 0x01 && after.slave.icw4 == 0x01
    && Enabled(after) == Enabled(before) + {0, 1}
  }

  lemma StartedByCalls(before: Pair, d: Pair)
    requires d == Pair(Initialised(before.master, 0x20, 4).(isr := 0), Initialised(before.slave, 0x28, 2).(isr := 0))
    ensures Started(before, Unmasked(Unmasked(d, TIMER), KEYBOARD_IRQ))
  {
    var d1 := Unmasked(d, TIMER);
    var d2 := Unmasked(d1, KEYBOARD_IRQ);
    hide ClearBit, Has;
    forall l: nat | l < 16 ensures LineOn(d2, l) <==> LineOn(before, l) || l == TIMER || l == KEYBOARD_IRQ {
      LineAfterCall(d, ClearMaskCall(TIMER), l);
      LineAfterCall(d1, ClearMaskCall(KEYBOARD_IRQ), l);
    }
    assert 0x20 as bv8 & 0xF8 == 0x20 && 0x28 as bv8 & 0xF8 == 0x28;
  }

  lemma ClearedNext(isr: bv8)
    ensures Cleared(isr, 0) == isr && forall n: nat :: Cleared(isr, n + 1) == ClearLowest(Cleared(isr, n))
  {}

  /** From any state of the device at all. */
  method InitializeInterrupts(ports: Ports)
    modifies ports
    ensures Started(old(ports.device), ports.device)
  {
    hide ClearLowest, Started, Cleared, Masked, Unmasked;
    ghost var before := ports.device;
    ports.Remap(0x20, 0x28);
    ClearedNext(ports.device.master.isr);
    ClearedNext(ports.device.slave.isr);
    ghost var master, slave := ports.device.master, ports.device.slave;
    for i := 0 to 16
      invariant ports.device.master == master.(isr := Cleared(master.isr, i))
      invariant ports.device.slave == slave.(isr := Cleared(slave.isr, if i < 8 then 0 else i - 8))
    {
      ports.SendEoi(i);
    }
    EightClear(master.isr, 16);
    EightClear(slave.isr, 8);
    StartedByCalls(before, ports.device);
    ports.ClearMask(TIMER);
    ports.ClearMask(KEYBOARD_IRQ);
  }

  // ----- interrupts

  /** An interrupt that the controllers can deliver: from a line of either, or a spurious one of either. */
  datatype Irq = MasterLine(n: nat) | SlaveLine(n: nat) | Spurious | SpuriousSlave

  /** No bit at or above the priority of line `n` is in service. */
  predicate Unblocked(c: Chip, n: nat) { !HasBelow(c.isr, n + 1) && !Has(c.imr, n) }

  predicate CanDeliver(d: Pair, irq: Irq) {
    match irq
    case MasterLine(n) => n < 8 && n != CASCADE && Unblocked(d.master, n)
    case SlaveLine(n) => n < 8 && Unblocked(d.slave, n) && Unblocked(d.master, CASCADE)
    case Spurious => true
    case SpuriousSlave => Unblocked(d.master, CASCADE)
  }

  /** The acknowledge cycle of the processor puts the line in service; of a spurious interrupt of the
      slave, only the master's cascade line. */
  function Deliver(d: Pair, irq: Irq): Pair {
    match irq
    case MasterLine(n) => d.(master := d.master.(isr := SetBit(d.master.isr, n)))
    case SlaveLine(n) => Pair(d.master.(isr := SetBit(d.master.isr, CASCADE)), d.slave.(isr := SetBit(d.slave.isr, n)))
    case Spurious => d
    case SpuriousSlave => d.(master := d.master.(isr := SetBit(d.master.isr, CASCADE)))
  }

  /** The entry stubs of the vectors from 32 to 47, to which all lines are mapped, push 0 for the error
      code. */
  const STUB_ERROR_CODE: nat := 0

  /** The vector that start-up gave the line; a spurious interrupt comes as line 7 of its controller. */
  function Vector(irq: Irq): nat {
    match irq
    case MasterLine(n) => 32 + n
    case SlaveLine(n) => 40 + n
    case Spurious => 39
    case SpuriousSlave => 47
  }

  /** After start-up, line `n` of a controller comes at its vector base plus `n`. */
  lemma VectorIs(before: Pair, after: Pair, n: nat)
    requires Started(before, after) && n < 8
    ensures Vector(MasterLine(n)) == after.master.vector as nat + n == 32 + n
    ensures Vector(SlaveLine(n)) == after.slave.vector as nat + n == 40 + n
    ensures Vector(Spurious) == Vector(MasterLine(7)) && Vector(SpuriousSlave) == Vector(SlaveLine(7))
  {
    hide Has;
  }

  /** What the handler of a vector from 32 to 47 can leave behind. Lines other than the timer and the
      keyboard are reported with both registers, read in either order, which decides what the command
      ports show next. */
  ghost predicate Handled(d: Pair, isrNumber: nat, errorCode: nat, d': Pair) {
    var acknowledged := Acknowledged(d, errorCode % 0x100);
    if isrNumber == 32 + TIMER || isrNumber == 32 + KEYBOARD_IRQ then d' == acknowledged
    else d' == Selected(acknowledged, true) || d' == Selected(acknowledged, false)
  }

  /** The in-service register `after` is `before` without the line of highest priority. */
  ghost predicate TopEnds(before: bv8, after: bv8) {
    forall n: nat :: n < 8 ==> (Has(after, n) <==> Has(before, n) && HasSomeBelow(before, n))
  }

  lemma ClearLowestEndsTop(isr: bv8)
    ensures TopEnds(isr, ClearLowest(isr))
  {
    forall n: nat | n < 8 ensures Has(ClearLowest(isr), n) <==> Has(isr, n) && HasSomeBelow(isr, n) {
      ClearLowestClears(isr, n);
    }
  }

  lemma HandledFields(d: Pair, isrNumber: nat, errorCode: nat, d': Pair)
    requires Handled(d, isrNumber, errorCode, d')
    ensures d'.master == d.master.(isr := ClearLowest(d.master.isr), readsIsr := d'.master.readsIsr)
    ensures d'.slave == d.slave.(isr := if errorCode % 0x100 >= 8 then ClearLowest(d.slave.isr) else d.slave.isr,
                                 readsIsr := d'.slave.readsIsr)
  {
    hide ClearLowest;
  }

  lemma SameMasksSameLines(d: Pair, d': Pair, l: nat)
    requires d.master.imr == d'.master.imr && d.slave.imr == d'.slave.imr
    ensures LineOn(d, l) <==> LineOn(d', l)
  {
    hide Has;
  }

  /** Handling ends the service of one line at the master, and of one at the slave exactly when the low
      byte of the error code is 8 or more. Masks, requests and vectors stay as they were. */
  lemma HandledMeans(d: Pair, isrNumber: nat, errorCode: nat, d': Pair)
    requires Handled(d, isrNumber, errorCode, d')
    ensures TopEnds(d.master.isr, d'.master.isr)
    ensures if errorCode % 0x100 >= 8 then TopEnds(d.slave.isr, d'.slave.isr) else d'.slave.isr == d.slave.isr
    ensures forall l: nat :: l < 16 ==> (LineOn(d', l) <==> LineOn(d, l))
    ensures d'.master.irr == d.master.irr && d'.slave.irr == d.slave.irr
    ensures Ready(d) <==> Ready(d')
  {
    hide ClearLowest, TopEnds, LineOn, Handled;
    HandledFields(d, isrNumber, errorCode, d');
    ClearLowestEndsTop(d.master.isr);
    ClearLowestEndsTop(d.slave.isr);
    forall l: nat | l < 16 ensures LineOn(d', l) <==> LineOn(d, l) {
      SameMasksSameLines(d, d', l);
    }
  }

  /** The registers that the handler reports for a line it does not know. */
  datatype Report = NoReport | Report(isr: bv16, irr: bv16)

  /** C does not say which of the two arguments of the report is evaluated first. */
  method ReportLines(ports: Ports) returns (report: Report)
    modifies ports
    ensures ports.device == Selected(old(ports.device), true) || ports.device == Selected(old(ports.device), false)
    ensures report.Report?
    ensures var d := old(ports.device);
            Combines(report.isr, d.master.isr, d.slave.isr) && Combines(report.irr, d.master.irr, d.slave.irr)
  {
    hide Combines;
    var isr, irr;
    if * {
      isr := ports.GetIrqReg(PIC_READ_ISR);
      irr := ports.GetIrqReg(PIC_READ_IRR);
    } else {
      irr := ports.GetIrqReg(PIC_READ_IRR);
      isr := ports.GetIrqReg(PIC_READ_ISR);
    }
    return Report(isr, irr);
  }

  /** The handler as far as the controllers go: an interrupt from 32 to 47 is acknowledged with the low
      byte of the error code taken for its line; anything else ends in a panic. A report shows both
      registers as they stood on entry. */
  method GenericHandler(ports: Ports, isrNumber: nat, errorCode: nat) returns (panicked: bool, report: Report)
    modifies ports
    ensures panicked <==> !(32 <= isrNumber < 48)
    ensures panicked ==> ports.device == old(ports.device)
    ensures !panicked ==> Handled(old(ports.device), isrNumber, errorCode, ports.device)
    ensures report.Report? <==> 34 <= isrNumber < 48
    ensures report.Report? ==>
              var d := old(ports.device);
              Combines(report.isr, d.master.isr, d.slave.isr) && Combines(report.irr, d.master.irr, d.slave.irr)
  {
    hide ClearLowest, Combines;
    report := NoReport;
    if 32 <= isrNumber < 48 {
      if isrNumber != 33 && isrNumber != 32 {
        report := ReportLines(ports);
      }
      ports.SendEoi(errorCode % 0x100);
      return false, report;
    }
    return true, report;
  }

  // ----- runs of interrupts, one handler at a time

  datatype Event = Interrupt(irq: Irq) | MaskLine(line: nat) | UnmaskLine(line: nat)

  /** An interrupt is handled to its end before the next event; interrupt gates see to that. */
  ghost predicate EventStep(d: Pair, e: Event, d': Pair) {
    match e
    case Interrupt(irq) => CanDeliver(d, irq) && Handled(Deliver(d, irq), Vector(irq), STUB_ERROR_CODE, d')
    case MaskLine(l) => l < 16 && d' == Masked(d, l)
    case UnmaskLine(l) => l < 16 && d' == Unmasked(d, l)
  }

  ghost predicate EventRun(events: seq<Event>, trace: seq<Pair>) {
    && |trace| == |events| + 1
    && (exists before :: Started(before, trace[0]))
    && forall i :: 0 <= i < |events| ==> EventStep(trace[i], events[i], trace[i + 1])
  }

  /** A slave line is among the interrupts so far. */
  ghost predicate SlaveSeen(events: seq<Event>, n: nat) { Interrupt(SlaveLine(n)) in events }

  lemma OneInServiceClears(n: nat)
    requires n < 8
    ensures ClearLowest(SetBit(0, n)) == 0
  {}

  lemma NothingInService(n: nat)
    ensures !Has(0, n) && ClearLowest(0) == 0
  {}

  lemma InterruptStep(d: Pair, irq: Irq, d': Pair)
    requires d.master.isr == 0 && EventStep(d, Interrupt(irq), d')
    ensures d'.master.isr == 0
    ensures forall n: nat :: n < 8 ==> (Has(d'.slave.isr, n) <==> Has(d.slave.isr, n) || irq == SlaveLine(n))
    ensures Ready(d) ==> Ready(d')
  {
    hide Has, SetBit, ClearLowest, Unblocked;
    match irq {
      case MasterLine(n) => OneInServiceClears(n);
      case SlaveLine(k) =>
        OneInServiceClears(CASCADE);
        forall n: nat | n < 8 ensures Has(d'.slave.isr, n) <==> Has(d.slave.isr, n) || irq == SlaveLine(n) {
          HasAfterSet(d.slave.isr, k, n);
        }
      case Spurious => NothingInService(0);
      case SpuriousSlave => OneInServiceClears(CASCADE);
    }
  }

  lemma MaskWrittenKeeps(d: Pair)
    requires Ready(d)
    ensures forall l, value ::
              var d' := MaskWritten(d, l, value);
              d'.master.isr == d.master.isr && d'.slave.isr == d.slave.isr && Ready(d')
  {}

  lemma MaskStep(d: Pair, e: Event, d': Pair)
    requires !e.Interrupt? && Ready(d) && EventStep(d, e, d')
    ensures d'.master.isr == d.master.isr && d'.slave.isr == d.slave.isr && Ready(d')
  {
    hide MaskWritten;
    MaskWrittenKeeps(d);
  }

  /** Whenever no handler is running, nothing is in service at the master, and at the slave exactly the
      lines that have ever interrupted are: the acknowledgement never reaches it. */
  lemma {:induction false} InServiceOverRuns(events: seq<Event>, trace: seq<Pair>, i: nat)
    requires EventRun(events, trace) && i <= |events|
    ensures Ready(trace[i]) && trace[i].master.isr == 0
    ensures forall n: nat :: n < 8 ==> (Has(trace[i].slave.isr, n) <==> SlaveSeen(events[..i], n))
  {
    hide Has, EventStep;
    if i == 0 {
      forall n: nat | n < 8 ensures !Has(trace[0].slave.isr, n) {
        NothingInService(n);
      }
    } else {
      InServiceOverRuns(events, trace, i - 1);
      var e := events[i - 1];
      assert events[..i] == events[..i - 1] + [e];
      assert EventStep(trace[i - 1], e, trace[i]);
      match e {
        case Interrupt(irq) => InterruptStep(trace[i - 1], irq, trace[i]);
        case MaskLine(_) => MaskStep(trace[i - 1], e, trace[i]);
        case UnmaskLine(_) => MaskStep(trace[i - 1], e, trace[i]);
      }
    }
  }

  /** Both controllers are idle after every handler exactly as long as no slave line has interrupted. */
  lemma BothIdleIff(events: seq<Event>, trace: seq<Pair>, i: nat)
    requires EventRun(events, trace) && i <= |events|
    ensures trace[i].master.isr == 0
    ensures trace[i].slave.isr == 0 <==> forall n: nat :: n < 8 ==> !SlaveSeen(events[..i], n)
  {
    InServiceOverRuns(events, trace, i);
    var r := trace[i].slave.isr;
    hide Has;
    if forall n: nat :: n < 8 ==> !Has(r, n) {
      NoBitsIsZero(r);
    } else {
      var n: nat :| n < 8 && Has(r, n);
      NothingInService(n);
    }
  }

  lemma NoBitsIsZero(r: bv8)
    requires forall n: nat :: n < 8 ==> !Has(r, n)
    ensures r == 0
  {
    hide Has, HasBelow;
    AnyBelow(r, 8);
    AllBelow(r);
  }

  /** Once a slave line has interrupted, neither it nor a slave line of lower priority ever does again. */
  lemma SlaveLineBlocksForever(events: seq<Event>, trace: seq<Pair>, i: nat, j: nat, n: nat, k: nat)
    requires EventRun(events, trace) && i < j < |events| && n <= k < 8
    requires events[i] == Interrupt(SlaveLine(n))
    ensures events[j] != Interrupt(SlaveLine(k))
  {
    InServiceOverRuns(events, trace, j);
    assert events[..j][i] == events[i] && SlaveSeen(events[..j], n);
    AnyBelow(trace[j].slave.isr, k + 1);
    assert EventStep(trace[j], events[j], trace[j + 1]);
    assert Has(trace[j].slave.isr, n);
    assert HasSomeBelow(trace[j].slave.isr, k + 1);
  }

  // ----- keeping the second controller silent

  /** No line of the second controller gets through: the cascade line is masked, or all eight are. */
  ghost predicate Silenced(d: Pair) {
    !LineOn(d, CASCADE) || forall l: nat :: 8 <= l < 16 ==> !LineOn(d, l)
  }

  /** What `Silenced` rests on is not undone by any event. */
  ghost predicate StaysSilenced(d: Pair, events: seq<Event>) {
    || (!LineOn(d, CASCADE) && UnmaskLine(CASCADE) !in events)
    || (forall l: nat :: 8 <= l < 16 ==> !LineOn(d, l) && UnmaskLine(l) !in events)
  }

  lemma LinesAfterEvent(d: Pair, e: Event, d': Pair, l: nat)
    requires EventStep(d, e, d') && Ready(d) && l < 16
    ensures Ready(d')
    ensures LineOn(d', l) <==>
            match e
            case Interrupt(_) => LineOn(d, l)
            case MaskLine(k) => LineOn(d, l) && l != k
            case UnmaskLine(k) => LineOn(d, l) || l == k
  {
    hide Has, SetBit, ClearLowest, Handled, Masked, Unmasked, Unblocked, HasBelow, LineOn;
    match e {
      case Interrupt(irq) =>
        HandledMeans(Deliver(d, irq), Vector(irq), STUB_ERROR_CODE, d');
        DeliverKeepsLines(d, irq, l);
      case MaskLine(k) => LineAfterCall(d, SetMaskCall(k), l);
      case UnmaskLine(k) => LineAfterCall(d, ClearMaskCall(k), l);
    }
  }

  lemma DeliverKeepsLines(d: Pair, irq: Irq, l: nat)
    ensures Ready(d) ==> Ready(Deliver(d, irq))
    ensures LineOn(Deliver(d, irq), l) <==> LineOn(d, l)
  {
    hide Has, SetBit;
  }

  /** A line masked at first and not unmasked since is still masked. */
  lemma {:induction false} MaskedUntilUnmasked(events: seq<Event>, trace: seq<Pair>, i: nat, l: nat)
    requires EventRun(events, trace) && i <= |events| && l < 16
    requires !LineOn(trace[0], l) && UnmaskLine(l) !in events
    ensures !LineOn(trace[i], l)
  {
    hide LineOn, EventStep;
    if i > 0 {
      MaskedUntilUnmasked(events, trace, i - 1, l);
      InServiceOverRuns(events, trace, i - 1);
      LinesAfterEvent(trace[i - 1], events[i - 1], trace[i], l);
    }
  }

  lemma MaskedIsNotDelivered(d: Pair, n: nat)
    requires n < 8 && (!LineOn(d, CASCADE) || !LineOn(d, 8 + n))
    ensures !CanDeliver(d, SlaveLine(n))
  {}

  /** A run that never unmasks what keeps the second controller silent leaves both controllers idle
      after every handler. */
  lemma SilencedRunsStayIdle(events: seq<Event>, trace: seq<Pair>, i: nat)
    requires EventRun(events, trace) && i <= |events| && StaysSilenced(trace[0], events)
    ensures trace[i].master.isr == 0 && trace[i].slave.isr == 0
  {
    hide LineOn, CanDeliver;
    forall n: nat | n < 8 ensures !SlaveSeen(events[..i], n) {
      if SlaveSeen(events[..i], n) {
        var j :| 0 <= j < i && events[j] == Interrupt(SlaveLine(n));
        assert EventStep(trace[j], events[j], trace[j + 1]);
        if !LineOn(trace[0], CASCADE) && UnmaskLine(CASCADE) !in events {
          MaskedUntilUnmasked(events, trace, j, CASCADE);
        } else {
          MaskedUntilUnmasked(events, trace, j, 8 + n);
        }
        MaskedIsNotDelivered(trace[j], n);
        assert false;
      }
    }
    BothIdleIff(events, trace, i);
  }

  ghost predicate NeverUnmasks(events: seq<Event>) { forall l :: UnmaskLine(l) !in events }

  /** Every run from `d` without unmasking leaves both controllers idle after every handler. */
  ghost predicate AlwaysIdle(d: Pair) {
    forall events, trace: seq<Pair>, i ::
      EventRun(events, trace) && trace[0] == d && NeverUnmasks(events) && 0 <= i <= |events|
      ==> trace[i].master.isr == 0 && trace[i].slave.isr == 0
  }

  lemma OneSlaveInterrupt(before: Pair, d: Pair, n: nat)
    requires Started(before, d) && LineOn(d, CASCADE) && n < 8 && LineOn(d, 8 + n)
    ensures var e, d' := Interrupt(SlaveLine(n)), Acknowledged(Deliver(d, SlaveLine(n)), STUB_ERROR_CODE);
            EventStep(d, e, Selected(d', true)) && Has(Selected(d', true).slave.isr, n)
  {
    hide ClearLowest;
    HasAfterSet(0, n, n);
    NothingBelow(n + 1);
    NothingBelow(CASCADE + 1);
  }

  lemma NothingBelow(n: nat)
    ensures !HasBelow(0, n)
  {}

  /** After start-up, that is so exactly if the cascade line or every line behind it is masked. */
  lemma AlwaysIdleIff(before: Pair, d: Pair)
    requires Started(before, d)
    ensures AlwaysIdle(d) <==> Silenced(d)
  {
    hide LineOn, EventStep, Has, Started;
    if Silenced(d) {
      forall events, trace: seq<Pair>, i
        | EventRun(events, trace) && trace[0] == d && NeverUnmasks(events) && 0 <= i <= |events|
        ensures trace[i].master.isr == 0 && trace[i].slave.isr == 0
      {
        SilencedRunsStayIdle(events, trace, i);
      }
    } else {
      var l: nat :| 8 <= l < 16 && LineOn(d, l);
      var e := Interrupt(SlaveLine(l - 8));
      OneSlaveInterrupt(before, d, l - 8);
      var d' := Selected(Acknowledged(Deliver(d, e.irq), STUB_ERROR_CODE), true);
      assert EventRun([e], [d, d']) && [d, d'][1] == d';
      NothingInService(l - 8);
      assert NeverUnmasks([e]);
    }
  }
}
