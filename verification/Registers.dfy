// What the player's port operations do to a device's registers, read off the log with nothing
// but the TAP controller: which bits go in, and how long the controller idles.
module Registers {
  import opened Bits
  import opened Bytes
  import opened Csvf
  import opened Trace
  import opened Jtag
  import opened CsvfPlay
  import opened TapIdle

  // ---------- Reading a log ----------

  datatype Reg = Ir | Dr

  // Data that is shifted into a register, maybe with what comes out; a bit that a walk
  // through the controller's states shifts in on its way; a clock spent in Run-Test/Idle.
  datatype Sight = Shifted(reg: Reg, bits: nat, tdi: nat, tdo: Option<nat>) | Stray(reg: Reg) | Idling

  function SeenAt(s: TapState, tms: bool): seq<Sight>
  {
    match s
    case ShiftIr => [Stray(Ir)]
    case ShiftDr => [Stray(Dr)]
    case RunTestIdle => if tms then [] else [Idling]
    case _ => []
  }

  function SeenInWalk(s: TapState, pattern: nat, n: nat): seq<Sight>
    decreases n
  {
    if n == 0 then []
    else SeenAt(s, pattern % 2 == 1) + SeenInWalk(TapNext(s, pattern % 2 == 1), pattern / 2, n - 1)
  }

  function SeenInShift(s: TapState, bits: nat, tdi: nat, tdo: Option<nat>): seq<Sight>
  {
    match s
    case ShiftIr => [Shifted(Ir, bits, tdi, tdo)]
    case ShiftDr => [Shifted(Dr, bits, tdi, tdo)]
    case _ => []
  }

  function SeenInOp(s: TapState, op: Op): seq<Sight>
  {
    match op
    case ClockFsm(pattern, count) => SeenInWalk(s, pattern, count)
    case ShiftIn(bits, tdi) => SeenInShift(s, bits, tdi, None)
    case ShiftInOut(bits, tdi, tdo) => SeenInShift(s, bits, tdi, Some(tdo))
    case Clocks(count) => SeenInWalk(s, 0, count)
  }

  function Seen(s: TapState, ops: seq<Op>): seq<Sight>
    decreases |ops|
  {
    if ops == [] then [] else SeenInOp(s, ops[0]) + Seen(TapOp(s, ops[0]), ops[1..])
  }

  // All bits of a data shift go in: the controller stays in its state up to the last of them.
  lemma {:induction false} StaysShifting(s: TapState, n: nat)
    requires s == ShiftIr || s == ShiftDr
    ensures TapWalk(s, 0, n) == s && TapShiftLast(s, n + 1) == if s == ShiftIr then Exit1Ir else Exit1Dr
    decreases n
  {
    if n > 0 {
      StaysShifting(s, n - 1);
    }
  }

  // What comes out at each data shift from a point of the log on is what the device answers
  // to the log so far.
  ghost predicate Answers(device: Device, log: seq<Op>, from: nat)
  {
    forall k :: from <= k < |log| && log[k].ShiftInOut? ==> log[k].tdo == Low(device(log[..k]), log[k].bits)
  }

  // ---------- What events show ----------

  predicate Judged(e: Event)
  {
    e.shift.DrShift? && e.shift.check.Compare?
  }

  function RegOf(e: Event): Reg
  {
    if e.shift.IrShift? then Ir else Dr
  }

  // One attempt at a judged shift. On the way back from it, matched or not, the controller
  // passes through Shift-DR once more, which shifts in another bit.
  function Tried(e: Event, captured: nat): seq<Sight>
  {
    [Shifted(Dr, e.shift.bits, e.shift.tdi, Some(captured))]
    + (if e.shift.bits == 0 then [Stray(Dr), Stray(Dr)] else [Stray(Dr)])
    + Repeat<Sight>(Idling, e.wait)
  }

  function Attempts(e: Event, captured: seq<nat>): seq<Sight>
  {
    if captured == [] then [] else Tried(e, captured[0]) + Attempts(e, captured[1..])
  }

  predicate AsExpected(e: Event, captured: nat)
    requires Judged(e)
  {
    And(captured, e.shift.check.mask) == e.shift.check.expected
  }

  // What an event shows, given what was captured at each attempt. One that is not judged
  // puts its bits into its register once. One that is does so at every attempt, up to the
  // first that captures what is expected, or the 32nd, which fails whatever it captures.
  // Every time the controller then idles for as many clocks as the event waits.
  ghost predicate Shows(seen: seq<Sight>, e: Event, captured: seq<nat>, ok: bool)
  {
    if !Judged(e) then
      && captured == [] && ok
      && seen == [Shifted(RegOf(e), e.shift.bits, e.shift.tdi, None)] + Repeat<Sight>(Idling, e.wait)
    else
      && 1 <= |captured| <= 32 && seen == Attempts(e, captured) && (ok <==> |captured| < 32)
      && (forall i :: 0 <= i < |captured| - 1 ==> !AsExpected(e, captured[i]))
      && (ok ==> AsExpected(e, captured[|captured| - 1]))
  }

  // Event after event, up to the first one that fails.
  ghost predicate AllShow(seen: seq<Sight>, events: seq<Event>, ok: bool)
    decreases |events|
  {
    if events == [] then seen == [] && ok
    else exists n: nat, captured: seq<nat>, passed: bool ::
           && n <= |seen| && Shows(seen[..n], events[0], captured, passed)
           && if passed then AllShow(seen[n..], events[1..], ok) else n == |seen| && !ok
  }

  // ---------- The player's operations ----------

  lemma {:induction false} SeenConcat(s: TapState, a: seq<Op>, b: seq<Op>)
    ensures Seen(s, a + b) == Seen(s, a) + Seen(TapOps(s, a), b)
    decreases |a|
  {
    hide TapOp, SeenInOp;
    if a == [] {
      assert a + b == b;
    } else {
      assert (a + b)[1..] == a[1..] + b;
      SeenConcat(TapOp(s, a[0]), a[1..], b);
    }
  }

  lemma SeenCons(s: TapState, op: Op, rest: seq<Op>)
    ensures Seen(s, [op] + rest) == SeenInOp(s, op) + Seen(TapOp(s, op), rest)
  {
    hide TapOp, SeenInOp;
    assert ([op] + rest)[1..] == rest;
  }

  lemma SeenWalkStep(s: TapState, pattern: nat, n: nat)
    requires n > 0
    ensures SeenInWalk(s, pattern, n)
         == SeenAt(s, pattern % 2 == 1) + SeenInWalk(TapNext(s, pattern % 2 == 1), pattern / 2, n - 1)
  {
  }

  lemma SeenWalk2(s: TapState, a: nat, b: nat)
    requires a <= 1 && b <= 1
    ensures SeenInWalk(s, a + 2 * b, 2) == SeenAt(s, a == 1) + SeenAt(TapNext(s, a == 1), b == 1)
  {
    hide SeenAt, TapNext;
    SeenWalkStep(s, a + 2 * b, 2);
    SeenWalkStep(TapNext(s, a == 1), b, 1);
  }

  lemma SeenWalk3(s: TapState, a: nat, b: nat, c: nat)
    requires a <= 1 && b <= 1 && c <= 1
    ensures SeenInWalk(s, a + 2 * b + 4 * c, 3)
         == SeenAt(s, a == 1) + SeenInWalk(TapNext(s, a == 1), b + 2 * c, 2)
  {
    hide SeenAt, TapNext, SeenInWalk;
    Halved(a, b + 2 * c);
    SeenWalkStep(s, a + 2 * b + 4 * c, 3);
  }

  lemma SeenWalk4(s: TapState, a: nat, b: nat, c: nat, d: nat)
    requires a <= 1 && b <= 1 && c <= 1 && d <= 1
    ensures SeenInWalk(s, a + 2 * b + 4 * c + 8 * d, 4)
         == SeenAt(s, a == 1) + SeenInWalk(TapNext(s, a == 1), b + 2 * c + 4 * d, 3)
  {
    hide SeenAt, TapNext, SeenInWalk;
    Halved(a, b + 2 * c + 4 * d);
    SeenWalkStep(s, a + 2 * b + 4 * c + 8 * d, 4);
  }

  // The player's walks to a shift state and back from a plain shift show nothing, and that
  // back from a judged one a stray bit; a shift of no bits makes them one longer.
  lemma SeenWalks()
    ensures SeenInWalk(RunTestIdle, 0x3, 4) == [] && SeenInWalk(RunTestIdle, 0x1, 3) == []
    ensures SeenInWalk(Exit1Ir, 0x1, 2) == [] && SeenInWalk(ShiftIr, 0x1, 2) == [Stray(Ir)]
    ensures SeenInWalk(Exit1Dr, 0x1, 2) == [] && SeenInWalk(ShiftDr, 0x1, 2) == [Stray(Dr)]
  {
    hide SeenInWalk;
    SeenWalk4(RunTestIdle, 1, 1, 0, 0);
    SeenWalk3(SelectDr, 1, 0, 0);
    SeenWalk2(SelectIr, 0, 0);
    SeenWalk3(RunTestIdle, 1, 0, 0);
    SeenWalk2(SelectDr, 0, 0);
    SeenWalk2(Exit1Ir, 1, 0);
    SeenWalk2(ShiftIr, 1, 0);
    SeenWalk2(Exit1Dr, 1, 0);
    SeenWalk2(ShiftDr, 1, 0);
  }

  lemma SeenWalksBack()
    ensures SeenInWalk(Exit1Dr, 0x1A, 6) == [Stray(Dr)]
    ensures SeenInWalk(ShiftDr, 0x1A, 6) == [Stray(Dr), Stray(Dr)]
  {
    hide SeenInWalk;
    SeenWalkStep(Exit1Dr, 0x1A, 6);
    SeenWalkStep(PauseDr, 0xD, 5);
    SeenWalk4(Exit2Dr, 0, 1, 1, 0);
    SeenWalk3(ShiftDr, 1, 1, 0);
    SeenWalk2(Exit1Dr, 1, 0);
    SeenWalkStep(ShiftDr, 0x1A, 6);
    SeenWalkStep(ShiftDr, 0xD, 5);
    SeenWalk4(Exit1Dr, 0, 1, 1, 0);
    SeenWalk3(PauseDr, 1, 1, 0);
    SeenWalk2(Exit2Dr, 1, 0);
  }

  lemma {:induction false} SeenIdling(n: nat)
    ensures SeenInWalk(RunTestIdle, 0, n) == Repeat<Sight>(Idling, n)
  {
    if n > 0 {
      SeenIdling(n - 1);
    }
  }

  lemma {:induction false} SeenPausing(s: TapState, n: nat)
    requires s == PauseIr || s == PauseDr
    ensures SeenInWalk(s, 0, n) == []
    decreases n
  {
    if n > 0 {
      SeenPausing(s, n - 1);
    }
  }

  lemma Seen3(s: TapState, a: Op, b: Op, c: Op, wait: nat)
    ensures Seen(s, [a, b, c] + Waiting(wait))
         == SeenInOp(s, a) + (SeenInOp(TapOp(s, a), b)
            + (SeenInOp(TapOp(TapOp(s, a), b), c) + SeenInWalk(TapOp(TapOp(TapOp(s, a), b), c), 0, wait)))
  {
    hide Seen, SeenInOp, TapOp;
    var w := Waiting(wait);
    assert [a, b, c] + w == [a] + ([b] + ([c] + w));
    SeenCons(s, a, [b] + ([c] + w));
    SeenCons(TapOp(s, a), b, [c] + w);
    SeenCons(TapOp(TapOp(s, a), b), c, w);
    SeenWaiting(TapOp(TapOp(TapOp(s, a), b), c), wait);
  }

  lemma SeenWaiting(s: TapState, wait: nat)
    ensures Seen(s, Waiting(wait)) == SeenInWalk(s, 0, wait)
  {
    if wait != 0 {
      SeenCons(s, Clocks(wait), []);
      assert [Clocks(wait)] + [] == [Clocks(wait)];
    }
  }

  lemma UnjudgedSeen(toIr: bool, bits: nat, tdi: nat, wait: nat)
    ensures Seen(RunTestIdle, Unjudged(if toIr then ClockFsm(0x3, 4) else ClockFsm(0x1, 3), bits, tdi, wait))
         == [Shifted(if toIr then Ir else Dr, bits, tdi, None)]
            + if bits != 0 then Repeat<Sight>(Idling, wait) else [Stray(if toIr then Ir else Dr)]
  {
    hide TapWalk, TapShiftLast, Seen, SeenInWalk;
    Walks();
    LeaveShift(bits);
    SeenWalks();
    Seen3(RunTestIdle, if toIr then ClockFsm(0x3, 4) else ClockFsm(0x1, 3), ShiftIn(bits, tdi), ClockFsm(0x1, 2), wait);
    SeenIdling(wait);
    SeenPausing(PauseIr, wait);
    SeenPausing(PauseDr, wait);
  }

  lemma AttemptSeen(device: Device, log: seq<Op>, s0: TapState, e: Event)
    requires TapOps(s0, log) == RunTestIdle && e.shift.DrShift?
    ensures Seen(s0, Attempt(device, log, e.shift.bits, e.shift.tdi, e.wait))
         == Seen(s0, log) + Tried(e, Captured(device, log, e.shift.bits))
  {
    hide TapWalk, TapShiftLast, Seen, SeenInWalk, TapOps, Captured;
    var bits, tdi := e.shift.bits, e.shift.tdi;
    var tdo := Captured(device, log, bits);
    Walks();
    LeaveShift(bits);
    JudgedWalk(ShiftDr);
    JudgedWalk(Exit1Dr);
    SeenWalks();
    SeenWalksBack();
    Seen3(RunTestIdle, ClockFsm(0x1, 3), Op.ShiftInOut(bits, tdi, tdo), ClockFsm(0x1A, 6), e.wait);
    SeenIdling(e.wait);
    SeenConcat(s0, log, [ClockFsm(0x1, 3), Op.ShiftInOut(bits, tdi, tdo), ClockFsm(0x1A, 6)] + Waiting(e.wait));
  }

  lemma AttemptAnswers(device: Device, log: seq<Op>, bits: nat, tdi: nat, wait: nat)
    ensures var after := Attempt(device, log, bits, tdi, wait);
            log <= after && Answers(device, after, |log|)
  {
    hide Low;
    var after := Attempt(device, log, bits, tdi, wait);
    assert after[..|log| + 1] == log + [ClockFsm(0x1, 3)];
  }

  lemma AnswersMore(device: Device, a: seq<Op>, b: seq<Op>, from: nat)
    requires a <= b && from <= |a| && Answers(device, a, from) && Answers(device, b, |a|)
    ensures Answers(device, b, from)
  {
    forall k | from <= k < |b| && b[k].ShiftInOut?
      ensures b[k].tdo == Low(device(b[..k]), b[k].bits)
    {
      if k < |a| {
        assert a[k] == b[k] && a[..k] == b[..k];
      }
    }
  }

  // The attempts from one on, after made others.
  ghost predicate Tries(e: Event, captured: seq<nat>, made: nat, ok: bool)
    requires Judged(e)
  {
    && 1 <= |captured| <= 32 - made && (ok <==> made + |captured| < 32)
    && (forall i :: 0 <= i < |captured| - 1 ==> !AsExpected(e, captured[i]))
    && (ok ==> AsExpected(e, captured[|captured| - 1]))
  }

  lemma {:induction false} RetrySeen(device: Device, log: seq<Op>, s0: TapState, e: Event, made: nat)
    returns (captured: seq<nat>)
    requires Judged(e) && made < 32 && TapOps(s0, log) == RunTestIdle
    ensures var out := Retry(device, log, e, made);
            && log <= out.log && Answers(device, out.log, |log|)
            && Seen(s0, out.log) == Seen(s0, log) + Attempts(e, captured) && Tries(e, captured, made, out.ok)
    decreases 32 - made
  {
    hide TapOps, Seen, Tried, Attempt, Answers, Captured, And;
    var v := Captured(device, log, e.shift.bits);
    var after := Attempt(device, log, e.shift.bits, e.shift.tdi, e.wait);
    AttemptSeen(device, log, s0, e);
    AttemptAnswers(device, log, e.shift.bits, e.shift.tdi, e.wait);
    if !AsExpected(e, v) && made + 1 < 32 {
      AttemptEnds(device, log, s0, e.shift.bits, e.shift.tdi, e.wait);
      var more := RetrySeen(device, after, s0, e, made + 1);
      captured := [v] + more;
      assert captured[1..] == more;
      var out := Retry(device, log, e, made);
      assert out == Retry(device, after, e, made + 1);
      AnswersMore(device, after, out.log, |log|);
      assert forall i :: 0 < i < |captured| - 1 ==> captured[i] == more[i - 1];
    } else {
      captured := [v];
      assert captured[1..] == [];
      assert Tried(e, v) + [] == Tried(e, v);
    }
  }

  // One event: what is seen of it, unless it is an unjudged shift of no bits. Of that, the way
  // back to Run-Test/Idle shifts in one bit, and the controller does not idle.
  lemma ShiftSeen(device: Device, log: seq<Op>, s0: TapState, e: Event)
    returns (seen: seq<Sight>, captured: seq<nat>)
    requires TapOps(s0, log) == RunTestIdle
    ensures var out := PlayOne(device, log, e);
            && log <= out.log && Answers(device, out.log, |log|) && Seen(s0, out.log) == Seen(s0, log) + seen
            && (!LeavesIdle(e) ==> Shows(seen, e, captured, out.ok))
            && (LeavesIdle(e) ==> seen == [Shifted(RegOf(e), 0, e.shift.tdi, None), Stray(RegOf(e))])
  {
    hide TapOps, Seen, Retry, Attempts, AsExpected, And;
    captured := [];
    if Judged(e) {
      captured := RetrySeen(device, log, s0, e, 0);
      seen := Attempts(e, captured);
    } else {
      var toIr := e.shift.IrShift?;
      var ops := Unjudged(if toIr then ClockFsm(0x3, 4) else ClockFsm(0x1, 3), e.shift.bits, e.shift.tdi, e.wait);
      seen := Seen(RunTestIdle, ops);
      UnjudgedSeen(toIr, e.shift.bits, e.shift.tdi, e.wait);
      SeenConcat(s0, log, ops);
    }
  }

  // It is never what a shift of no bits should show.
  lemma EmptyShiftShows(e: Event, captured: seq<nat>, ok: bool)
    requires LeavesIdle(e)
    ensures !Shows([Shifted(RegOf(e), 0, e.shift.tdi, None), Stray(RegOf(e))], e, captured, ok)
  {
    var seen := [Shifted(RegOf(e), 0, e.shift.tdi, None)] + Repeat<Sight>(Idling, e.wait);
    if e.wait == 1 {
      assert seen[1] == Idling;
    }
  }

  lemma FirstShows(seen: seq<Sight>, more: seq<Sight>, events: seq<Event>, captured: seq<nat>, passed: bool, ok: bool)
    requires events != [] && Shows(seen, events[0], captured, passed)
    requires if passed then AllShow(more, events[1..], ok) else more == [] && !ok
    ensures AllShow(seen + more, events, ok)
  {
    hide Shows;
    var all, n := seen + more, |seen|;
    assert all[..n] == seen && all[n..] == more;
  }

  // Played from Run-Test/Idle, events show in a log what they should.
  lemma {:induction false} PlaySeen(device: Device, log: seq<Op>, s0: TapState, events: seq<Event>)
    returns (seen: seq<Sight>)
    requires TapOps(s0, log) == RunTestIdle && NoneLeavesIdle(device, log, events)
    ensures var out := PlayAll(device, log, events);
            && log <= out.log && Answers(device, out.log, |log|)
            && Seen(s0, out.log) == Seen(s0, log) + seen && AllShow(seen, events, out.ok)
    decreases |events|
  {
    hide TapOps, Seen, PlayOne, LeavesIdle, Shows, AllShow, Answers;
    if events == [] {
      seen := [];
      NothingShows(device, log);
    } else {
      var first := PlayOne(device, log, events[0]);
      var front, captured := ShiftSeen(device, log, s0, events[0]);
      ShiftEnds(device, log, s0, events[0]);
      if first.ok {
        var more := PlaySeen(device, first.log, s0, events[1..]);
        AnswersMore(device, first.log, PlayAll(device, log, events).log, |log|);
        seen := front + more;
        FirstShows(front, more, events, captured, true, PlayAll(device, log, events).ok);
      } else {
        seen := front;
        assert front + [] == front;
        FirstShows(front, [], events, captured, false, false);
      }
    }
  }

  lemma NothingShows(device: Device, log: seq<Op>)
    ensures AllShow([], [], true) && Answers(device, log, |log|)
  {
  }

  // What a device is left with when events are played after the reset, whatever the state the
  // controller was in: every event's bits in the register they are for.
  ghost predicate SeenOf(device: Device, log: seq<Op>, out: Outcome, events: seq<Event>)
  {
    var start := log + [ClockFsm(0x1F, 6)];
    && start <= out.log && Answers(device, out.log, |log|)
    && AllShow(Seen(RunTestIdle, out.log[|start|..]), events, out.ok)
  }

  lemma EventsSeen(device: Device, log: seq<Op>, events: seq<Event>)
    requires AllIdle(events)
    ensures SeenOf(device, log, PlayAll(device, log + [ClockFsm(0x1F, 6)], events), events)
  {
    hide TapOps, PlayAll, AllShow, NoneLeavesIdle, AllIdle, TapWalk, Answers, Seen;
    var start := log + [ClockFsm(0x1F, 6)];
    AfterReset(RunTestIdle, log);
    IdleWhatever(device, start, events);
    var seen := PlaySeen(device, start, RunTestIdle, events);
    var out := PlayAll(device, start, events);
    assert out.log == start + out.log[|start|..];
    SeenConcat(RunTestIdle, start, out.log[|start|..]);
    SameRest(Seen(RunTestIdle, start), seen, Seen(RunTestIdle, out.log[|start|..]));
    ResetAnswers(device, log);
    AnswersMore(device, start, out.log, |log|);
  }

  lemma SameRest(a: seq<Sight>, b: seq<Sight>, c: seq<Sight>)
    requires a + b == a + c
    ensures b == c
  {
    assert (a + b)[|a|..] == b && (a + c)[|a|..] == c;
  }

  lemma ResetAnswers(device: Device, log: seq<Op>)
    ensures Answers(device, log + [ClockFsm(0x1F, 6)], |log|)
  {
  }

  // For every stream whose commands leave the controller idle, every device and any contents
  // of the player's mask buffer: the player's log shows the events of the stream.
  lemma StreamSeen(device: Device, log: seq<Op>, memory: seq<byte>, s: seq<byte>)
    requires Idles(Regs(0, memory), Decode(s, Some(0)).cmds)
    ensures SeenOf(device, log, Played(device, log, memory, s).0,
                   Events(Regs(0, memory), 0, Decode(s, Some(0)).cmds))
  {
    hide Decode, Events, AllIdle, Idles, PlayAll, SeenOf;
    var cmds := Decode(s, Some(0)).cmds;
    IdlesExact(Regs(0, memory), 0, cmds);
    EventsSeen(device, log, Events(Regs(0, memory), 0, cmds));
  }
}
