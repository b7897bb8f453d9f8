// Which CSVF streams leave the TAP controller in Run-Test/Idle at every command boundary,
// whatever the device answers.
module TapIdle {
  import opened Bits
  import opened Bytes
  import opened Csvf
  import opened Trace
  import opened Jtag
  import opened CsvfPlay

  // ---------- Comparisons that can succeed ----------

  // Whether something that comes out of the register would be as expected.
  predicate Matchable(bits: nat, c: Check)
  {
    c.Compare? ==> And(Low(c.expected, bits), c.mask) == c.expected
  }

  lemma MatchableExact(bits: nat, c: Check, v: nat)
    requires c.Compare?
    ensures And(Low(v, bits), c.mask) == c.expected ==> Matchable(bits, c)
    ensures Matchable(bits, c) ==> And(Low(c.expected, bits), c.mask) == c.expected
  {
    hide And, Low, Bit, Pow2;
    var captured := Low(v, bits);
    if And(captured, c.mask) == c.expected {
      forall i: nat
        ensures Bit(And(Low(c.expected, bits), c.mask), i) == Bit(c.expected, i)
      {
        BitAnd(Low(c.expected, bits), c.mask, i);
        BitAnd(captured, c.mask, i);
        BitLow(c.expected, bits, i);
        BitLow(v, bits, i);
      }
      SameBits(And(Low(c.expected, bits), c.mask), c.expected);
    }
  }

  // Whether a comparison stops the player whatever comes out.
  predicate Hopeless(e: Event)
  {
    e.shift.DrShift? && !Matchable(e.shift.bits, e.shift.check)
  }

  // No unjudged shift of no bits comes before the first hopeless comparison.
  predicate AllIdle(events: seq<Event>)
  {
    events == [] || (!LeavesIdle(events[0]) && (Hopeless(events[0]) || AllIdle(events[1..])))
  }

  lemma PlayedIsMatchable(device: Device, log: seq<Op>, e: Event)
    ensures PlayOne(device, log, e).ok ==> !Hopeless(e)
  {
    hide Retry, And, Low, AfterAttempts;
    if e.shift.DrShift? && e.shift.check.Compare? && PlayOne(device, log, e).ok {
      RetryExact(device, log, e, 0);
      var n: nat :| n < 31 && Matches(device, log, e, n);
      MatchableExact(e.shift.bits, e.shift.check, device(AfterAttempts(device, log, e, n) + [ClockFsm(0x1, 3)]));
    }
  }

  lemma {:induction false} IdleWhatever(device: Device, log: seq<Op>, events: seq<Event>)
    requires AllIdle(events)
    ensures NoneLeavesIdle(device, log, events)
    decreases |events|
  {
    hide PlayOne, LeavesIdle, Hopeless;
    if events != [] {
      PlayedIsMatchable(device, log, events[0]);
      var first := PlayOne(device, log, events[0]);
      if first.ok {
        IdleWhatever(device, first.log, events[1..]);
      }
    }
  }

  // ---------- A device that answers as expected ----------

  // How many port operations an event takes if its first attempt succeeds.
  function OpCount(e: Event): nat
  {
    3 + |Waiting(e.wait)|
  }

  // What is expected after n operations, when the events start after at.
  function Expected(events: seq<Event>, at: nat, n: nat): nat
  {
    if events == [] then 0
    else if n == at + 1 then
      if events[0].shift.DrShift? && events[0].shift.check.Compare? then events[0].shift.check.expected else 0
    else Expected(events[1..], at + OpCount(events[0]), n)
  }

  // From this log on, the device answers what the events expect.
  ghost predicate Obliging(device: Device, log: seq<Op>, events: seq<Event>)
  {
    forall l: seq<Op> :: |l| > |log| ==> device(l) == Expected(events, |log|, |l|)
  }

  function ObligingDevice(at: nat, events: seq<Event>): Device
  {
    (l: seq<Op>) => Expected(events, at, |l|)
  }

  // It lets everything succeed at once that can succeed at all.
  lemma ObligedOne(device: Device, log: seq<Op>, events: seq<Event>)
    requires events != [] && Obliging(device, log, events) && !Hopeless(events[0])
    ensures var first := PlayOne(device, log, events[0]);
            first.ok && |first.log| == |log| + OpCount(events[0]) && Obliging(device, first.log, events[1..])
  {
    hide And, Low;
    var e := events[0];
    if e.shift.DrShift? && e.shift.check.Compare? {
      assert device(log + [ClockFsm(0x1, 3)]) == e.shift.check.expected;
    }
  }

  lemma {:induction false} IdleWhenObliged(device: Device, log: seq<Op>, events: seq<Event>)
    requires Obliging(device, log, events) && NoneLeavesIdle(device, log, events)
    ensures AllIdle(events)
    decreases |events|
  {
    hide PlayOne, LeavesIdle, Hopeless, Obliging;
    if events != [] && !Hopeless(events[0]) {
      ObligedOne(device, log, events);
      IdleWhenObliged(device, PlayOne(device, log, events[0]).log, events[1..]);
    }
  }

  // Whether the controller idles between events with every device.
  ghost predicate AlwaysIdle(log: seq<Op>, s0: TapState, events: seq<Event>)
  {
    forall device: Device :: IdleThroughout(device, log, s0, events)
  }

  // It does exactly when the events say so.
  lemma IdleForEveryDevice(log: seq<Op>, s0: TapState, events: seq<Event>)
    requires TapOps(s0, log) == RunTestIdle
    ensures AlwaysIdle(log, s0, events) <==> AllIdle(events)
  {
    hide TapOps, IdleThroughout, NoneLeavesIdle, AllIdle, Obliging;
    if AllIdle(events) {
      forall device: Device
        ensures IdleThroughout(device, log, s0, events)
      {
        IdleExact(device, log, s0, events);
        IdleWhatever(device, log, events);
      }
    }
    if AlwaysIdle(log, s0, events) {
      var obliging := ObligingDevice(|log|, events);
      Obliges(log, events);
      IdleExact(obliging, log, s0, events);
      IdleWhenObliged(obliging, log, events);
    }
  }

  lemma Obliges(log: seq<Op>, events: seq<Event>)
    ensures Obliging(ObligingDevice(|log|, events), log, events)
  {
  }

  // ---------- Streams ----------

  // A scan of the commands, with the size and the mask in force: no XSIR of length zero and
  // no XSDR under a size of zero, up to the first comparison that nothing can satisfy.
  predicate Idles(r: Regs, cmds: seq<Cmd>)
    decreases |cmds|
  {
    if cmds == [] then true
    else
      var rest := Idles(Next(r, cmds[0]), cmds[1..]);
      match cmds[0]
      case XSir(numBits, _) => numBits > 0 && rest
      case XSdr(_) => r.xsdrSize > 0 && rest
      case XSdrTdo(pairs) => Matchable(r.xsdrSize, CheckOf(r, pairs)) ==> rest
      case _ => rest
  }

  lemma ShiftIdles(r: Regs, c: Cmd, x: nat)
    requires c.IsShift()
    ensures var e := Event(ShiftOf(r, c), x);
            && (LeavesIdle(e) <==> (c.XSir? && c.numBits == 0) || (c.XSdr? && r.xsdrSize == 0))
            && (Hopeless(e) <==> c.XSdrTdo? && !Matchable(r.xsdrSize, CheckOf(r, c.pairs)))
  {
    hide And, Low, Payload;
  }

  lemma {:induction false} IdlesExact(r: Regs, x: nat, cmds: seq<Cmd>)
    ensures AllIdle(Events(r, x, cmds)) <==> Idles(r, cmds)
    decreases |cmds|
  {
    hide ShiftOf, Next, Matchable, CheckOf, LeavesIdle, Hopeless;
    if cmds != [] {
      var c := cmds[0];
      NextOfRunTest(r, c);
      IdlesExact(Next(r, c), if c.XRunTest? then c.count else x, cmds[1..]);
      if c.IsShift() {
        ShiftIdles(r, c, x);
        var e := Event(ShiftOf(r, c), x);
        assert ([e] + Events(Next(r, c), x, cmds[1..]))[1..] == Events(Next(r, c), x, cmds[1..]);
      } else if !c.XRunTest? {
        assert [] + Events(Next(r, c), x, cmds[1..]) == Events(Next(r, c), x, cmds[1..]);
      }
    }
  }

  lemma AfterReset(s0: TapState, log: seq<Op>)
    ensures TapOps(s0, log + [ClockFsm(0x1F, 6)]) == RunTestIdle
  {
    hide TapWalk;
    TapOpsConcat(s0, log, [ClockFsm(0x1F, 6)]);
    assert [ClockFsm(0x1F, 6)][1..] == [];
    ResetFromAnywhere(TapOps(s0, log));
  }

  // For every stream, from whatever state: after the reset, the controller is in
  // Run-Test/Idle at each command boundary with every device, if and only if a scan of the
  // stream's commands finds no shift of no bits that is reached and not judged.
  lemma StreamIdles(s: seq<byte>, memory: seq<byte>, log: seq<Op>, s0: TapState)
    ensures var cmds := Decode(s, Some(0)).cmds;
            AlwaysIdle(log + [ClockFsm(0x1F, 6)], s0, Events(Regs(0, memory), 0, cmds))
            <==> Idles(Regs(0, memory), cmds)
  {
    hide Decode, TapOps, AlwaysIdle, Events, AllIdle, Idles;
    var cmds := Decode(s, Some(0)).cmds;
    AfterReset(s0, log);
    IdleForEveryDevice(log + [ClockFsm(0x1F, 6)], s0, Events(Regs(0, memory), 0, cmds));
    IdlesExact(Regs(0, memory), 0, cmds);
  }

  // An instruction shift of no bits leaves the controller in Pause-IR with every device.
  lemma EmptyShift(memory: seq<byte>, device: Device, log: seq<Op>, s0: TapState)
    ensures var s := [XSIR, 0, XCOMPLETE];
            && Decode(s, Some(0)) == Decoded([XSir(0, [])], Complete)
            && !Idles(Regs(0, memory), [XSir(0, [])])
            && TapOps(s0, Played(device, log, memory, s).0.log) == PauseIr
  {
    hide TapOps, TapWalk, TapShiftLast;
    var s, r := [XSIR, 0, XCOMPLETE], Regs(0, memory);
    assert s[2..2] == [] && s[2..] == [XCOMPLETE];
    assert Fetch(s, Some(0)) == Fetched(XSir(0, []), 2);
    assert Decode(s[2..], Some(0)) == Decoded([], Complete);
    assert [XSir(0, [])] + [] == [XSir(0, [])];
    assert [XSir(0, [])][1..] == [];
    var e, start := Event(IrShift(0, 0, NoCheck), 0), log + [ClockFsm(0x1F, 6)];
    assert Events(r, 0, [XSir(0, [])]) == [e] by {
      assert [e] + Events(r, 0, []) == [e];
    }
    assert [e][1..] == [];
    var ops := Unjudged(ClockFsm(0x3, 4), 0, 0, 0);
    assert PlayAll(device, start, [e]) == Outcome(start + ops, true);
    AfterReset(s0, log);
    TapOpsConcat(s0, start, ops);
    UnjudgedEnds(true, 0, 0, 0);
  }
}
