// From an XSVF program to what a device sees of it.
module XsvfPlay {
  import opened Bits
  import opened Bytes
  import opened Csvf
  import opened Trace
  import opened Xsvf
  import opened XsvfCompile
  import opened XsvfCorrect
  import opened XsvfConvert
  import opened Jtag
  import opened CsvfPlay
  import opened TapIdle
  import opened Registers

  // The stream that a program is converted to, if it is.
  function Converted(cmds: seq<XCmd>): seq<byte>
  {
    XRun(INITIAL, cmds).st.out + [XCOMPLETE]
  }

  // Decoded from the player's initial state, with anything in its mask buffer, the stream
  // makes the shifts, comparisons and waits of the program.
  predicate PlaysAs(csvf: seq<byte>, memory: seq<byte>, cmds: seq<XCmd>)
  {
    var d := Decode(csvf, Some(0));
    d.end == Complete && Events(Regs(0, memory), 0, d.cmds) == XEvents(START, cmds)
  }

  // The player can be run on an accepted program exactly when the program's non-zero masks
  // fit the player's mask buffer. The conversion itself only looks at comparisons.
  lemma RoomToPlay(cmds: seq<XCmd>)
    requires AllSensible(START, cmds)
    ensures AllFitIn(Compiled(NOTHING, cmds), BUF_SIZE) <==> Playable(cmds) && MasksFit(cmds)
    ensures Playable(cmds) ==>
              && Decode(Converted(cmds), Some(0)).end == Complete
              && (CanPlay(Converted(cmds)) <==> MasksFit(cmds))
              && (XRun(INITIAL, cmds).st.maxBuf <= BUF_SIZE <==> MasksFit(cmds))
  {
    hide Decode, Playable, XRun, AllSensible, MasksFit, Compiled, AllFitIn;
    XsvfExact(cmds, []);
  }

  // The player can be run on an accepted program exactly when its masks fit. If no comparison
  // has its mask and its expected bits share padding, what any device then sees of it is what
  // it would see if the program's own events were played directly, including where a failing
  // comparison stops it.
  lemma DeviceSeesProgram(cmds: seq<XCmd>, device: Device, log: seq<Op>, memory: seq<byte>)
    requires AllSensible(START, cmds) && Playable(cmds) && AllApart(START, cmds)
    ensures var intended := PlayAll(device, log + [ClockFsm(0x1F, 6)], XEvents(START, cmds));
            && (CanPlay(Converted(cmds)) <==> MasksFit(cmds))
            && (MasksFit(cmds) ==>
                  Played(device, log, memory, Converted(cmds))
                  == (intended, if intended.ok then Success else CompareFailed))
  {
    hide Decode, Events, PlayAll, AllApart, Playable, XRun, AllSensible, MasksFit, AllFitIn;
    RoomToPlay(cmds);
    XsvfExact(cmds, memory);
  }

  // A complete and sensible XSVF program converts exactly when the player has room for its
  // comparisons. Playing what it converts to does what it says exactly when no comparison
  // shares padding; and the size reported is that of the buffers needed for that.
  method LoadXsvfAndConvertToCsvf(xsvf: seq<byte>) returns (status: XStatus, csvf: seq<byte>, maxBufSize: nat)
    requires XDecode(xsvf, 0).end != Truncated
    ensures var d := XDecode(xsvf, 0);
            d.end == Complete && AllSensible(START, d.cmds) ==>
              && (status == XSuccess <==> Playable(d.cmds))
              && (status == XSuccess ==>
                    && csvf == Converted(d.cmds)
                    && (forall memory: seq<byte> :: PlaysAs(csvf, memory, d.cmds) <==> AllApart(START, d.cmds))
                    && (forall n: nat :: AllFitIn(Decode(csvf, Some(0)).cmds, n) <==> maxBufSize <= n))
    ensures status == XSuccess ==> XDecode(xsvf, 0).end == Complete
  {
    hide XDecode, XRun, AllSensible, Playable, Events, Decode, AllApart, MasksFit, AllFitIn;
    var xc := new Converter(xsvf);
    status := xc.XsvfSwapBytes();
    csvf, maxBufSize := xc.out, xc.maxBufSize;
    ghost var d := XDecode(xsvf, 0);
    if d.end == Complete && AllSensible(START, d.cmds) {
      forall memory: seq<byte>
        ensures status == XSuccess ==> (PlaysAs(csvf, memory, d.cmds) <==> AllApart(START, d.cmds))
      {
        XsvfExact(d.cmds, memory);
      }
      XsvfExact(d.cmds, []);
    }
  }

  // ---------- Programs that are accepted all the same ----------

  // A non-zero mask of 2050 bytes that no comparison uses.
  lemma MaskTooBig(mask: seq<byte>)
    requires |mask| == 2050 && !IsAllZero(mask)
    ensures var cmds := [SdrSize(16400), TdoMask(mask)];
            && AllSensible(START, cmds) && XRun(INITIAL, cmds).status == XSuccess && Playable(cmds)
            && !MasksFit(cmds) && XRun(INITIAL, cmds).st.maxBuf == 2050
            && !CanPlay(Converted(cmds))
  {
    hide Decode, CanPlay, Reversed, LongBE;
    var cmds := [SdrSize(16400), TdoMask(mask)];
    assert cmds[1..] == [TdoMask(mask)] && cmds[1..][1..] == [];
    assert BitsToBytes(16400) == 2050;
    assert cmds[1] in cmds;
    BigMaskRuns(mask, cmds);
    RoomToPlay(cmds);
  }

  lemma BigMaskRuns(mask: seq<byte>, cmds: seq<XCmd>)
    requires |mask| == 2050 && !IsAllZero(mask) && cmds == [SdrSize(16400), TdoMask(mask)]
    ensures AllSensible(START, cmds) && Playable(cmds)
    ensures XRun(INITIAL, cmds).status == XSuccess && XRun(INITIAL, cmds).st.maxBuf == 2050
  {
    hide Reversed, LongBE, IsAllZero;
    assert BitsToBytes(16400) == 2050;
    assert cmds[1..] == [TdoMask(mask)] && cmds[1..][1..] == [];
    var st := XStep(INITIAL, SdrSize(16400)).st;
    assert XRun(st, cmds[1..]) == XRun(XStep(st, TdoMask(mask)).st, []);
    assert AllSensible(XNext(START, cmds[0]), cmds[1..]);
    assert Comparable(CNext(NOTHING, cmds[0]), cmds[1..]);
  }

  function SharedProgram(): seq<XCmd>
  {
    [SdrSize(4), TdoMask([0x1F]), SdrTdo([0], [0x10])]
  }

  function SharedCompiled(): seq<Cmd>
  {
    [XSdrSize(4), XTdoMask([0x1F]), XSdrTdo([0, 0x10])]
  }

  lemma SharedTails()
    ensures var cmds := SharedProgram(); cmds[1..] == [cmds[1], cmds[2]] && cmds[1..][1..] == [cmds[2]]
    ensures SharedProgram()[1..][1..][1..] == [] && BitsToBytes(4) == 1
  {
  }

  lemma SharedIsAccepted()
    ensures AllSensible(START, SharedProgram()) && Playable(SharedProgram()) && MasksFit(SharedProgram())
  {
    hide IsAllZero;
    SharedTails();
    var cmds := SharedProgram();
    var r, m := XNext(START, cmds[0]), CNext(NOTHING, cmds[0]);
    assert AllSensible(XNext(r, cmds[1]), cmds[1..][1..]);
    assert AllSensible(r, cmds[1..]);
    assert Comparable(CNext(m, cmds[1]), cmds[1..][1..]);
    assert Comparable(m, cmds[1..]);
  }

  lemma SharedIsCompiled()
    ensures Compiled(NOTHING, SharedProgram()) == SharedCompiled()
  {
    SharedTails();
    var cmds := SharedProgram();
    var m1 := CNext(NOTHING, cmds[0]);
    var m2 := CNext(m1, cmds[1]);
    assert !IsAllZero([0x1F]) by { assert [0x1F][0] != 0; }
    assert Reversed([0x1F]) == [0x1F] && Reversed([0]) == [0] && Reversed([0x10]) == [0x10];
    assert Interleaved([0], [0x10]) == [0, 0x10] by { assert [0][1..] == [] && [0x10][1..] == []; }
    assert COut(m2, cmds[2]) == [XSdrTdo([0, 0x10])];
    assert COut(m1, cmds[1]) == [XSdrSize(4), XTdoMask([0x1F])];
    assert Compiled(m2, [cmds[2]]) == COut(m2, cmds[2]) + Compiled(CNext(m2, cmds[2]), []);
    assert Compiled(m1, cmds[1..]) == COut(m1, cmds[1]) + Compiled(m2, [cmds[2]]);
  }

  lemma SharedLow()
    ensures Low(0x1F, 4) == 0xF && Low(0x10, 4) == 0 && Low(0, 4) == 0 && And(0, 0xF) == 0
  {
    assert Low(0x1F, 4) == 1 + 2 * Low(0xF, 3) && Low(0xF, 3) == 1 + 2 * Low(7, 2) && Low(7, 2) == 1 + 2 * Low(3, 1);
    assert Low(0x10, 4) == 2 * Low(8, 3) && Low(8, 3) == 2 * Low(4, 2) && Low(4, 2) == 2 * Low(2, 1);
    LowBound(0, 4);
    AndBound(0, 0xF);
  }

  lemma BitFour()
    ensures Bit(0x1F, 4) && Bit(0x10, 4)
  {
    assert Bit(0x1F, 4) == Bit(0xF, 3) == Bit(7, 2) == Bit(3, 1) == Bit(1, 0);
    assert Bit(0x10, 4) == Bit(8, 3) == Bit(4, 2) == Bit(2, 1) == Bit(1, 0);
  }

  lemma SharedBits()
    ensures Value([0]) == 0 && Value([0x1F]) == 0x1F && Value([0x10]) == 0x10 && !IsAllZero([0x1F])
    ensures Low(0x1F, 4) == 0xF && Low(0x10, 4) == 0 && Low(0, 4) == 0 && And(0, 0xF) == 0
    ensures !PaddingApart([0x1F], [0x10], 4)
  {
    hide Low, And, Bit, Value;
    ValueOfByte(0);
    ValueOfByte(0x1F);
    ValueOfByte(0x10);
    assert [0x1F][0] != 0;
    SharedLow();
    BitFour();
  }

  // What the program means, and that it shares padding.
  lemma SharedMeans()
    ensures XEvents(START, SharedProgram()) == [Event(DrShift(4, 0, Compare(0xF, 0)), 0)]
    ensures !AllApart(START, SharedProgram())
  {
    hide Value, Low, And, PaddingApart, IsAllZero;
    SharedTails();
    SharedBits();
    var cmds := SharedProgram();
    var r1 := XNext(START, cmds[0]);
    var r2 := XNext(r1, cmds[1]);
    var e := Event(DrShift(4, 0, Compare(0xF, 0)), 0);
    assert XEvents(r2, [cmds[2]]) == [e] by {
      assert [e] + XEvents(XNext(r2, cmds[2]), []) == [e];
    }
    assert XEvents(r1, cmds[1..]) == [e];
    assert !Apart(r2, cmds[2]);
    assert !AllApart(r2, [cmds[2]]);
  }

  lemma SharedEvents(memory: seq<byte>)
    ensures Events(Regs(0, memory), 0, SharedCompiled())
         == [Event(ShiftOf(Regs(4, Overlay(memory, [0x1F])), XSdrTdo([0, 0x10])), 0)]
  {
    hide ShiftOf;
    var cmds := SharedCompiled();
    assert cmds[1..] == [cmds[1], cmds[2]] && cmds[1..][1..] == [cmds[2]] && [cmds[2]][1..] == [];
    var q1 := Next(Regs(0, memory), cmds[0]);
    var q2 := Next(q1, cmds[1]);
    var e := Event(ShiftOf(q2, cmds[2]), 0);
    assert Events(q2, 0, [cmds[2]]) == [e] by {
      assert [e] + Events(q2, 0, []) == [e];
    }
    assert Events(q1, 0, cmds[1..]) == [e];
  }

  // A comparison that accepts nothing fails with every device.
  lemma NeverAccepted(device: Device, log: seq<Op>, e: Event)
    requires e.shift.DrShift? && e.shift.check.Compare? && forall captured: nat :: !Accepts(e.shift.check, captured)
    ensures !PlayAll(device, log, [e]).ok
  {
    hide Retry, And, Captured, AfterAttempts;
    RetryExact(device, log, e, 0);
    forall n: nat | n < 31
      ensures !Matches(device, log, e, n)
    {
      assert !Accepts(e.shift.check, Captured(device, AfterAttempts(device, log, e, n), e.shift.bits));
    }
  }

  lemma SharedRejects(q: Regs)
    requires q.xsdrSize == 4 && [0x1F] <= q.mask
    ensures var s := ShiftOf(q, XSdrTdo([0, 0x10]));
            s.DrShift? && s.check.Compare? && forall captured: nat :: !Accepts(s.check, captured)
  {
    hide Value, Low, And, Payload, Bit, CheckOf, Accepts, PaddingApart;
    SharedTails();
    SharedBits();
    assert Reversed([0x1F]) == [0x1F] && Reversed([0]) == [0] && Reversed([0x10]) == [0x10];
    assert Interleaved([0], [0x10]) == [0, 0x10] by { assert [0][1..] == [] && [0x10][1..] == []; }
    var r := XRegs(4, [0x1F], 4, None, 0);
    CheckMeans(r, q, [0], [0x10]);
    forall captured: nat
      ensures !Accepts(ShiftOf(q, XSdrTdo([0, 0x10])).check, captured)
    {
      SharedPaddingRejects(r, q, [0], [0x10], captured);
    }
  }

  // A four-bit register whose mask and expected bits both have bit 4 set: the program asks for
  // four zeros, and the comparison fails whatever a device answers.
  lemma PaddingShared(device: Device, log: seq<Op>, memory: seq<byte>)
    ensures var cmds := SharedProgram();
            && AllSensible(START, cmds) && Playable(cmds) && CanPlay(Converted(cmds)) && !AllApart(START, cmds)
            && XEvents(START, cmds) == [Event(DrShift(4, 0, Compare(0xF, 0)), 0)]
            && Played(device, log, memory, Converted(cmds)).1 == CompareFailed
  {
    hide Decode, PlayAll, XRun, XEvents, AllSensible, Playable, Events, Compiled, ShiftOf, MasksFit, AllApart, CanPlay,
         Overlay, SharedProgram, SharedCompiled;
    var cmds, q := SharedProgram(), Regs(4, Overlay(memory, [0x1F]));
    SharedIsAccepted();
    SharedIsCompiled();
    SharedMeans();
    RoomToPlay(cmds);
    XsvfExact(cmds, memory);
    SharedEvents(memory);
    OverlayStarts(memory, [0x1F]);
    SharedRejects(q);
    NeverAccepted(device, log + [ClockFsm(0x1F, 6)], Event(ShiftOf(q, XSdrTdo([0, 0x10])), 0));
  }

  lemma OverlayStarts(memory: seq<byte>, s: seq<byte>)
    ensures s <= Overlay(memory, s)
  {
  }

  // What any device gets in its registers is what the program says, in the same sense.
  lemma RegistersTakeProgram(cmds: seq<XCmd>, device: Device, log: seq<Op>, memory: seq<byte>)
    requires AllSensible(START, cmds) && Playable(cmds) && AllApart(START, cmds) && MasksFit(cmds)
    requires AllIdle(XEvents(START, cmds))
    ensures CanPlay(Converted(cmds))
    ensures SeenOf(device, log, Played(device, log, memory, Converted(cmds)).0, XEvents(START, cmds))
  {
    hide PlayAll, AllApart, Playable, AllSensible, MasksFit, CanPlay, Played, XEvents, Converted, AllIdle, SeenOf;
    DeviceSeesProgram(cmds, device, log, memory);
    EventsSeen(device, log, XEvents(START, cmds));
  }
}
