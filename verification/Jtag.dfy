// The JTAG side of the player: the TAP controller, the port operations, and what playing
// a list of shifts makes a device see.
module Jtag {
  import opened Bits
  import opened Trace

  // ---------- The TAP controller (figure 6-1 of IEEE Std 1149.1-2001) ----------

  datatype TapState =
    | TestLogicReset | RunTestIdle
    | SelectDr | CaptureDr | ShiftDr | Exit1Dr | PauseDr | Exit2Dr | UpdateDr
    | SelectIr | CaptureIr | ShiftIr | Exit1Ir | PauseIr | Exit2Ir | UpdateIr

  function TapNext(s: TapState, tms: bool): TapState
  {
    match s
    case TestLogicReset => if tms then TestLogicReset else RunTestIdle
    case RunTestIdle => if tms then SelectDr else RunTestIdle
    case SelectDr => if tms then SelectIr else CaptureDr
    case CaptureDr => if tms then Exit1Dr else ShiftDr
    case ShiftDr => if tms then Exit1Dr else ShiftDr
    case Exit1Dr => if tms then UpdateDr else PauseDr
    case PauseDr => if tms then Exit2Dr else PauseDr
    case Exit2Dr => if tms then UpdateDr else ShiftDr
    case UpdateDr => if tms then SelectDr else RunTestIdle
    case SelectIr => if tms then TestLogicReset else CaptureIr
    case CaptureIr => if tms then Exit1Ir else ShiftIr
    case ShiftIr => if tms then Exit1Ir else ShiftIr
    case Exit1Ir => if tms then UpdateIr else PauseIr
    case PauseIr => if tms then Exit2Ir else PauseIr
    case Exit2Ir => if tms then UpdateIr else ShiftIr
    case UpdateIr => if tms then SelectDr else RunTestIdle
  }

  // n clocks with TMS taken from the pattern, least significant bit first.
  function TapWalk(s: TapState, pattern: nat, n: nat): TapState
    decreases n
  {
    if n == 0 then s else TapWalk(TapNext(s, pattern % 2 == 1), pattern / 2, n - 1)
  }

  // n data clocks, TMS low except on the last.
  function TapShiftLast(s: TapState, n: nat): TapState
    decreases n
  {
    if n == 0 then s else if n == 1 then TapNext(s, true) else TapShiftLast(TapNext(s, false), n - 1)
  }

  // ---------- Port operations ----------

  datatype Op =
    | ClockFsm(pattern: nat, count: nat)
    | ShiftIn(bits: nat, tdi: nat)
    | ShiftInOut(bits: nat, tdi: nat, tdo: nat)
    | Clocks(count: nat)

  function TapOp(s: TapState, op: Op): TapState
  {
    match op
    case ClockFsm(pattern, count) => TapWalk(s, pattern, count)
    case ShiftIn(bits, _) => TapShiftLast(s, bits)
    case ShiftInOut(bits, _, _) => TapShiftLast(s, bits)
    case Clocks(count) => TapWalk(s, 0, count)
  }

  function TapOps(s: TapState, ops: seq<Op>): TapState
    decreases |ops|
  {
    if ops == [] then s else TapOps(TapOp(s, ops[0]), ops[1..])
  }

  // What a device answers to a data shift may depend on everything it has seen.
  type Device = seq<Op> -> nat

  // ---------- Playing shifts ----------

  function Waiting(wait: nat): seq<Op>
  {
    if wait == 0 then [] else [Clocks(wait)]
  }

  // A shift that is not judged, from Run-Test/Idle back to it.
  function Unjudged(toShift: Op, bits: nat, tdi: nat, wait: nat): seq<Op>
  {
    [toShift, ShiftIn(bits, tdi), ClockFsm(0x1, 2)] + Waiting(wait)
  }

  // The bits captured by the next attempt at a judged shift.
  function Captured(device: Device, log: seq<Op>, bits: nat): nat
  {
    Low(device(log + [ClockFsm(0x1, 3)]), bits)
  }

  // One attempt at a judged shift.
  function Attempt(device: Device, log: seq<Op>, bits: nat, tdi: nat, wait: nat): seq<Op>
  {
    log + ([ClockFsm(0x1, 3), ShiftInOut(bits, tdi, Captured(device, log, bits)), ClockFsm(0x1A, 6)] + Waiting(wait))
  }

  datatype Outcome = Outcome(log: seq<Op>, ok: bool)

  // Attempt after attempt until one matches or 32 have been made. As the player has it,
  // making all 32 counts as failure even if the last one matched.
  function Retry(device: Device, log: seq<Op>, e: Event, made: nat): Outcome
    requires e.shift.DrShift? && e.shift.check.Compare? && made < 32
    decreases 32 - made
  {
    var matched := And(Captured(device, log, e.shift.bits), e.shift.check.mask) == e.shift.check.expected;
    var after := Attempt(device, log, e.shift.bits, e.shift.tdi, e.wait);
    if !matched && made + 1 < 32 then Retry(device, after, e, made + 1) else Outcome(after, made + 1 < 32)
  }

  // The player has no way to judge an instruction shift.
  function PlayOne(device: Device, log: seq<Op>, e: Event): Outcome
  {
    match e.shift
    case IrShift(bits, tdi, _) => Outcome(log + Unjudged(ClockFsm(0x3, 4), bits, tdi, e.wait), true)
    case DrShift(bits, tdi, NoCheck) => Outcome(log + Unjudged(ClockFsm(0x1, 3), bits, tdi, e.wait), true)
    case DrShift(_, _, Compare(_, _)) => Retry(device, log, e, 0)
  }

  // Event after event, up to the first one that fails.
  function PlayAll(device: Device, log: seq<Op>, events: seq<Event>): Outcome
    decreases |events|
  {
    if events == [] then Outcome(log, true)
    else
      var first := PlayOne(device, log, events[0]);
      if first.ok then PlayAll(device, first.log, events[1..]) else first
  }

  // ---------- What a judged shift amounts to ----------

  // The log after n attempts, whatever they captured.
  function AfterAttempts(device: Device, log: seq<Op>, e: Event, n: nat): seq<Op>
    requires e.shift.DrShift?
    decreases n
  {
    if n == 0 then log
    else AfterAttempts(device, Attempt(device, log, e.shift.bits, e.shift.tdi, e.wait), e, n - 1)
  }

  // Whether attempt number n (counting from zero) captures what is expected.
  predicate Matches(device: Device, log: seq<Op>, e: Event, n: nat)
    requires e.shift.DrShift? && e.shift.check.Compare?
  {
    And(Captured(device, AfterAttempts(device, log, e, n), e.shift.bits), e.shift.check.mask) == e.shift.check.expected
  }

  // A judged shift is accepted exactly when one of the first 31 attempts matches; then the
  // attempts made are those up to the first match, and otherwise all 32.
  lemma {:induction false} RetryExact(device: Device, log: seq<Op>, e: Event, made: nat)
    requires e.shift.DrShift? && e.shift.check.Compare? && made < 32
    ensures var out := Retry(device, log, e, made);
            && (out.ok <==> exists n: nat :: made + n < 31 && Matches(device, log, e, n))
            && exists n: nat ::
                 && made + n <= 31
                 && out.log == AfterAttempts(device, log, e, n + 1)
                 && (forall i: nat :: i < n ==> !Matches(device, log, e, i))
                 && (Matches(device, log, e, n) || made + n == 31)
    decreases 32 - made
  {
    hide And, Captured, Attempt;
    var after := Attempt(device, log, e.shift.bits, e.shift.tdi, e.wait);
    assert AfterAttempts(device, log, e, 1) == AfterAttempts(device, after, e, 0) == after;
    var stops := Matches(device, log, e, 0) || made + 1 == 32;
    if stops {
      assert Retry(device, log, e, made) == Outcome(AfterAttempts(device, log, e, 0 + 1), made + 1 < 32);
    } else {
      RetryExact(device, after, e, made + 1);
      forall n: nat
        ensures Matches(device, after, e, n) == Matches(device, log, e, n + 1)
      {
      }
      var out := Retry(device, after, e, made + 1);
      var k: nat :| && made + 1 + k <= 31
                    && out.log == AfterAttempts(device, after, e, k + 1)
                    && (forall i: nat :: i < k ==> !Matches(device, after, e, i))
                    && (Matches(device, after, e, k) || made + 1 + k == 31);
      assert out.log == AfterAttempts(device, log, e, (k + 1) + 1);
      forall i: nat | i < k + 1
        ensures !Matches(device, log, e, i)
      {
        if i != 0 {
          assert !Matches(device, after, e, i - 1);
        }
      }
      assert Matches(device, log, e, k + 1) || made + (k + 1) == 31;
      if out.ok {
        var n: nat :| made + 1 + n < 31 && Matches(device, after, e, n);
        assert made + (n + 1) < 31 && Matches(device, log, e, n + 1);
      }
      if n: nat :| made + n < 31 && Matches(device, log, e, n) {
        assert Matches(device, after, e, n - 1);
      }
    }
  }

  // A device that first answers correctly on the 32nd attempt is turned down.
  lemma MatchTooLate(device: Device, log: seq<Op>, e: Event)
    requires e.shift.DrShift? && e.shift.check.Compare?
    requires Matches(device, log, e, 31) && forall n: nat :: n < 31 ==> !Matches(device, log, e, n)
    ensures !PlayOne(device, log, e).ok && PlayOne(device, log, e).log == AfterAttempts(device, log, e, 32)
  {
    hide Retry, Matches, AfterAttempts;
    RetryExact(device, log, e, 0);
  }

  // ---------- Where the TAP controller is ----------

  lemma {:induction false} TapOpsConcat(s: TapState, a: seq<Op>, b: seq<Op>)
    ensures TapOps(s, a + b) == TapOps(TapOps(s, a), b)
    decreases |a|
  {
    hide TapOp;
    if a == [] {
      assert a + b == b;
    } else {
      assert (a + b)[1..] == a[1..] + b;
      TapOpsConcat(TapOp(s, a[0]), a[1..], b);
    }
  }

  lemma {:induction false} LeaveShift(n: nat)
    ensures TapShiftLast(ShiftDr, n) == if n == 0 then ShiftDr else Exit1Dr
    ensures TapShiftLast(ShiftIr, n) == if n == 0 then ShiftIr else Exit1Ir
    decreases n
  {
    if n > 1 {
      LeaveShift(n - 1);
    }
  }

  lemma {:induction false} StayPut(s: TapState, n: nat)
    requires s == RunTestIdle || s == PauseDr || s == PauseIr
    ensures TapWalk(s, 0, n) == s
    decreases n
  {
    if n != 0 {
      StayPut(s, n - 1);
    }
  }

  // The fixed walks of the player.
  lemma Walks()
    ensures TapWalk(RunTestIdle, 0x3, 4) == ShiftIr && TapWalk(RunTestIdle, 0x1, 3) == ShiftDr
    ensures TapWalk(Exit1Ir, 0x1, 2) == RunTestIdle && TapWalk(ShiftIr, 0x1, 2) == PauseIr
    ensures TapWalk(Exit1Dr, 0x1, 2) == RunTestIdle && TapWalk(ShiftDr, 0x1, 2) == PauseDr
  {
    hide TapWalk;
    Walk4(RunTestIdle, 1, 1, 0, 0);
    Walk3(RunTestIdle, 1, 0, 0);
    Walk2(Exit1Ir, 1, 0);
    Walk2(ShiftIr, 1, 0);
    Walk2(Exit1Dr, 1, 0);
    Walk2(ShiftDr, 1, 0);
  }

  lemma JudgedWalk(s: TapState)
    requires s == ShiftDr || s == Exit1Dr
    ensures TapWalk(s, 0x1A, 6) == RunTestIdle
  {
    WalkStep(s, 0x1A, 6);
    WalkStep(TapNext(s, false), 0xD, 5);
    Walk4(TapNext(TapNext(s, false), true), 0, 1, 1, 0);
  }

  lemma WalkStep(s: TapState, pattern: nat, n: nat)
    requires n > 0
    ensures TapWalk(s, pattern, n) == TapWalk(TapNext(s, pattern % 2 == 1), pattern / 2, n - 1)
  {
  }

  lemma Halved(a: nat, n: nat)
    requires a <= 1
    ensures (a + 2 * n) % 2 == a && (a + 2 * n) / 2 == n
  {
  }

  lemma Walk2(s: TapState, a: nat, b: nat)
    requires a <= 1 && b <= 1
    ensures TapWalk(s, a + 2 * b, 2) == TapNext(TapNext(s, a == 1), b == 1)
  {
    hide TapNext;
    Halved(a, b);
    WalkStep(s, a + 2 * b, 2);
    assert TapWalk(TapNext(s, a == 1), b, 1) == TapNext(TapNext(s, a == 1), b == 1);
  }

  lemma Walk3(s: TapState, a: nat, b: nat, c: nat)
    requires a <= 1 && b <= 1 && c <= 1
    ensures TapWalk(s, a + 2 * b + 4 * c, 3) == TapNext(TapNext(TapNext(s, a == 1), b == 1), c == 1)
  {
    hide TapNext, TapWalk;
    Halved(a, b + 2 * c);
    WalkStep(s, a + 2 * b + 4 * c, 3);
    Walk2(TapNext(s, a == 1), b, c);
  }

  lemma Walk4(s: TapState, a: nat, b: nat, c: nat, d: nat)
    requires a <= 1 && b <= 1 && c <= 1 && d <= 1
    ensures TapWalk(s, a + 2 * b + 4 * c + 8 * d, 4)
            == TapNext(TapNext(TapNext(TapNext(s, a == 1), b == 1), c == 1), d == 1)
  {
    hide TapNext, TapWalk;
    Halved(a, b + 2 * c + 4 * d);
    WalkStep(s, a + 2 * b + 4 * c + 8 * d, 4);
    Walk3(TapNext(s, a == 1), b, c, d);
  }

  // Five clocks with TMS high reset the controller from any state.
  lemma ResetFromAnywhere(s: TapState)
    ensures TapWalk(s, 0x1F, 6) == RunTestIdle
  {
    WalkStep(s, 0x1F, 6);
    WalkStep(TapNext(s, true), 0xF, 5);
    Walk4(TapNext(TapNext(s, true), true), 1, 1, 1, 0);
  }

  lemma TapOpsCons(s: TapState, op: Op, rest: seq<Op>)
    ensures TapOps(s, [op] + rest) == TapOps(TapOp(s, op), rest)
  {
    hide TapOp;
    assert ([op] + rest)[1..] == rest;
  }

  lemma TapOps3(s: TapState, a: Op, b: Op, c: Op, wait: nat)
    ensures TapOps(s, [a, b, c] + Waiting(wait)) == TapWalk(TapOp(TapOp(TapOp(s, a), b), c), 0, wait)
  {
    hide TapOps, TapOp;
    var w := Waiting(wait);
    assert [a, b, c] + w == [a] + ([b] + ([c] + w));
    TapOpsCons(s, a, [b] + ([c] + w));
    TapOpsCons(TapOp(s, a), b, [c] + w);
    TapOpsCons(TapOp(TapOp(s, a), b), c, w);
    TapOpsWaiting(TapOp(TapOp(TapOp(s, a), b), c), wait);
  }

  lemma TapOpsWaiting(s: TapState, wait: nat)
    ensures TapOps(s, Waiting(wait)) == TapWalk(s, 0, wait)
  {
    if wait != 0 {
      TapOpsCons(s, Clocks(wait), []);
      assert [Clocks(wait)] + [] == [Clocks(wait)];
    }
  }

  // Only a shift of no bits that is not judged leaves the controller elsewhere.
  predicate LeavesIdle(e: Event)
  {
    e.shift.bits == 0 && (e.shift.IrShift? || e.shift.check.NoCheck?)
  }

  lemma UnjudgedEnds(toIr: bool, bits: nat, tdi: nat, wait: nat)
    ensures TapOps(RunTestIdle, Unjudged(if toIr then ClockFsm(0x3, 4) else ClockFsm(0x1, 3), bits, tdi, wait))
         == if bits != 0 then RunTestIdle else if toIr then PauseIr else PauseDr
  {
    hide TapWalk, TapShiftLast, TapOps;
    Walks();
    LeaveShift(bits);
    TapOps3(RunTestIdle, if toIr then ClockFsm(0x3, 4) else ClockFsm(0x1, 3), ShiftIn(bits, tdi), ClockFsm(0x1, 2),
         wait);
    StayPut(RunTestIdle, wait);
    StayPut(PauseIr, wait);
    StayPut(PauseDr, wait);
  }

  lemma AttemptEnds(device: Device, log: seq<Op>, s0: TapState, bits: nat, tdi: nat, wait: nat)
    requires TapOps(s0, log) == RunTestIdle
    ensures TapOps(s0, Attempt(device, log, bits, tdi, wait)) == RunTestIdle
  {
    hide TapWalk, TapShiftLast, TapOps, Captured;
    var tdo := Captured(device, log, bits);
    Walks();
    LeaveShift(bits);
    JudgedWalk(ShiftDr);
    JudgedWalk(Exit1Dr);
    TapOps3(RunTestIdle, ClockFsm(0x1, 3), ShiftInOut(bits, tdi, tdo), ClockFsm(0x1A, 6), wait);
    StayPut(RunTestIdle, wait);
    TapOpsConcat(s0, log, [ClockFsm(0x1, 3), ShiftInOut(bits, tdi, tdo), ClockFsm(0x1A, 6)] + Waiting(wait));
  }

  lemma {:induction false} RetryEnds(device: Device, log: seq<Op>, s0: TapState, e: Event, made: nat)
    requires e.shift.DrShift? && e.shift.check.Compare? && made < 32
    requires TapOps(s0, log) == RunTestIdle
    ensures TapOps(s0, Retry(device, log, e, made).log) == RunTestIdle
    decreases 32 - made
  {
    hide TapOps, Attempt, Captured, And;
    AttemptEnds(device, log, s0, e.shift.bits, e.shift.tdi, e.wait);
    if made + 1 < 32 {
      RetryEnds(device, Attempt(device, log, e.shift.bits, e.shift.tdi, e.wait), s0, e, made + 1);
    }
  }

  lemma ShiftEnds(device: Device, log: seq<Op>, s0: TapState, e: Event)
    requires TapOps(s0, log) == RunTestIdle
    ensures TapOps(s0, PlayOne(device, log, e).log) == RunTestIdle <==> !LeavesIdle(e)
  {
    hide TapOps, Unjudged, Retry;
    match e.shift
    case IrShift(bits, tdi, _) =>
      TapOpsConcat(s0, log, Unjudged(ClockFsm(0x3, 4), bits, tdi, e.wait));
      UnjudgedEnds(true, bits, tdi, e.wait);
    case DrShift(bits, tdi, NoCheck) =>
      TapOpsConcat(s0, log, Unjudged(ClockFsm(0x1, 3), bits, tdi, e.wait));
      UnjudgedEnds(false, bits, tdi, e.wait);
    case DrShift(_, _, Compare(_, _)) =>
      RetryEnds(device, log, s0, e, 0);
  }

  // Whether the controller idles after every event that is played.
  predicate IdleThroughout(device: Device, log: seq<Op>, s0: TapState, events: seq<Event>)
    decreases |events|
  {
    events == [] ||
    var first := PlayOne(device, log, events[0]);
    && TapOps(s0, first.log) == RunTestIdle
    && (first.ok ==> IdleThroughout(device, first.log, s0, events[1..]))
  }

  // Whether no event that is played is an unjudged shift of no bits.
  predicate NoneLeavesIdle(device: Device, log: seq<Op>, events: seq<Event>)
    decreases |events|
  {
    events == [] ||
    var first := PlayOne(device, log, events[0]);
    && !LeavesIdle(events[0])
    && (first.ok ==> NoneLeavesIdle(device, first.log, events[1..]))
  }

  lemma {:induction false} IdleExact(device: Device, log: seq<Op>, s0: TapState, events: seq<Event>)
    requires TapOps(s0, log) == RunTestIdle
    ensures IdleThroughout(device, log, s0, events) <==> NoneLeavesIdle(device, log, events)
    decreases |events|
  {
    if events != [] {
      hide TapOps, PlayOne, LeavesIdle;
      ShiftEnds(device, log, s0, events[0]);
      var first := PlayOne(device, log, events[0]);
      if first.ok && TapOps(s0, first.log) == RunTestIdle {
        IdleExact(device, first.log, s0, events[1..]);
      }
    }
  }
}
