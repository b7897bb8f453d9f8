// The XSVF compiler keeps the meaning of every sensible program: the same register shifts
// in the same order, judged the same way, with the same waits.
module XsvfCorrect {
  import opened Bits
  import opened Bytes
  import opened Csvf
  import opened Trace
  import opened Xsvf
  import opened XsvfCompile

  // ---------- How the source, the compiler and the player keep in step ----------

  predicate MaskTracks(r: XRegs, m: CState, q: Regs)
  {
    r.maskSize > 0 ==>
      && |r.mask| == BitsToBytes(r.maskSize)
      && (m.zeroMask <==> IsAllZero(r.mask))
      && (!m.zeroMask ==> Reversed(r.mask) <= q.mask)
  }

  // Only a mask command changes what is known of the mask.
  lemma MaskKept(r: XRegs, m: CState, q: Regs, c: XCmd, q': Regs)
    requires MaskTracks(r, m, q) && !c.TdoMask? && q'.mask == q.mask
    ensures MaskTracks(XNext(r, c), CNext(m, c), q')
  {
  }

  predicate PieceTracks(r: XRegs, m: CState)
  {
    if r.piece.None? then m.payload.None?
    else
      && m.payload.Some? && m.curX == r.piece.value.bits > 0
      && m.curX == 8 * |m.payload.value| && Payload(m.payload.value) == r.piece.value.tdi
  }

  predicate Tracks(r: XRegs, m: CState, q: Regs, numBytes: Option<nat>)
  {
    && m.newX == r.size
    && (m.curX > 0 && m.payload.None? ==> q.xsdrSize == m.curX && numBytes == Some(BitsToBytes(m.curX)))
    && MaskTracks(r, m, q) && PieceTracks(r, m)
  }

  function EventOf(r: XRegs, c: XCmd): seq<Event>
  {
    match XShift(r, c) case Some(s) => [Event(s, r.runTest)] case None => []
  }

  // What one command compiles to leaves everything in step, and means what it says unless
  // mask and expected bits share padding.
  ghost predicate Means(r: XRegs, m: CState, q: Regs, numBytes: Option<nat>, c: XCmd)
  {
    var out := COut(m, c);
    && Tracks(XNext(r, c), CNext(m, c), RegsAfter(q, out), NumBytesAfter(numBytes, out))
    && AllSized(out, numBytes)
    && |Events(q, r.runTest, out)| == |EventOf(r, c)| <= 1
    && (Events(q, r.runTest, out) == EventOf(r, c) <==> Apart(r, c))
    && RunTestAfter(r.runTest, out) == XNext(r, c).runTest
  }

  // ---------- A size, then a command ----------

  lemma RunOne(q: Regs, x: nat, n: Option<nat>, c: Cmd)
    ensures Events(q, x, [c]) == if c.IsShift() then [Event(ShiftOf(q, c), x)] else []
    ensures RegsAfter(q, [c]) == Next(q, c) && NumBytesAfter(n, [c]) == NumBytes(c, n)
    ensures AllSized([c], n) <==> Sized(c, n)
    ensures RunTestAfter(x, [c]) == if c.XRunTest? then c.count else x
  {
    hide ShiftOf, Sized;
    assert [c][1..] == [];
    assert AllSized([c][1..], NumBytes(c, n));
    assert RegsAfter(q, [c]) == RegsAfter(Next(q, c), []);
    assert NumBytesAfter(n, [c]) == NumBytesAfter(NumBytes(c, n), []);
    assert c.XRunTest? ==> Events(q, x, [c]) == Events(q, c.count, []);
  }

  // After the size has been synchronised, the player has the size in force.
  lemma RunSync(r: XRegs, m: CState, q: Regs, x: nat, n: Option<nat>)
    requires Tracks(r, m, q, n) && m.payload.None? && r.size > 0
    ensures var sync := SyncCmd(m);
            && Events(q, x, sync) == [] && RegsAfter(q, sync) == q.(xsdrSize := r.size)
            && NumBytesAfter(n, sync) == Some(BitsToBytes(r.size))
            && AllSized(sync, n) && RunTestAfter(x, sync) == x
  {
    hide BitsToBytes, MaskTracks, PieceTracks;
    if m.newX != m.curX {
      RunOne(q, x, n, XSdrSize(m.newX));
    }
  }

  lemma RunSynced(r: XRegs, m: CState, q: Regs, x: nat, n: Option<nat>, c: Cmd)
    requires Tracks(r, m, q, n) && m.payload.None? && r.size > 0 && !c.XRunTest? && !c.XSdrSize?
    ensures var out := SyncCmd(m) + [c];
            var q' := q.(xsdrSize := r.size);
            && Events(q, x, out) == (if c.IsShift() then [Event(ShiftOf(q', c), x)] else [])
            && RegsAfter(q, out) == Next(q', c)
            && NumBytesAfter(n, out) == Some(BitsToBytes(r.size))
            && (AllSized(out, n) <==> Sized(c, Some(BitsToBytes(r.size)))) && RunTestAfter(x, out) == x
  {
    hide Tracks, SyncCmd, ShiftOf, Next, Sized, BitsToBytes, Events, RegsAfter, NumBytesAfter, AllSized, RunTestAfter;
    var sync, q' := SyncCmd(m), q.(xsdrSize := r.size);
    RunSync(r, m, q, x, n);
    RunOne(q', x, Some(BitsToBytes(r.size)), c);
    EventsConcat(q, x, sync, [c]);
    SizedConcat(n, sync, [c]);
    AfterConcat(q, x, n, sync, [c]);
  }

  lemma {:induction false} AfterConcat(q: Regs, x: nat, n: Option<nat>, a: seq<Cmd>, b: seq<Cmd>)
    ensures RegsAfter(q, a + b) == RegsAfter(RegsAfter(q, a), b)
    ensures NumBytesAfter(n, a + b) == NumBytesAfter(NumBytesAfter(n, a), b)
    ensures RunTestAfter(x, a + b) == RunTestAfter(RunTestAfter(x, a), b)
    decreases |a|
  {
    hide Next, NumBytes;
    if a == [] {
      assert a + b == b;
    } else {
      assert (a + b)[1..] == a[1..] + b;
      AfterConcat(Next(q, a[0]), if a[0].XRunTest? then a[0].count else x, NumBytes(a[0], n), a[1..], b);
    }
  }

  // ---------- Operands ----------

  // Bytes sent later are worth more.
  lemma PayloadConcat(a: seq<byte>, b: seq<byte>)
    ensures Payload(a + b) == Shl(Payload(b), 8 * |a|) + Payload(a)
  {
    hide Value, Shl, Reversed;
    ReversedConcat(a, b);
    ValueConcat(Reversed(b), Reversed(a));
  }

  lemma ReversedConcat(a: seq<byte>, b: seq<byte>)
    ensures Reversed(a + b) == Reversed(b) + Reversed(a)
  {
    hide Reversed;
  }

  lemma PayloadBound(s: seq<byte>)
    ensures Payload(s) < Pow2(8 * |s|)
  {
    ValueBound(Reversed(s));
  }

  lemma WholeBytes(tdi: seq<byte>, size: nat)
    requires size % 8 == 0 && |tdi| == BitsToBytes(size)
    ensures size == 8 * |tdi| && Low(Value(tdi), size) == Value(tdi)
  {
    hide Value, Low, Pow2;
    ValueBound(tdi);
    LowSmall(Value(tdi), 8 * |tdi|);
  }

  // Masking with the padding is masking without it exactly when no padding bit is shared.
  lemma PaddingExact(mask: seq<byte>, tdo: seq<byte>, size: nat)
    ensures And(Value(tdo), Value(mask)) == And(Low(Value(tdo), size), Low(Value(mask), size))
       <==> PaddingApart(mask, tdo, size)
  {
    hide Bit, And, Low, Value, Pow2;
    var t, m := Value(tdo), Value(mask);
    var whole, cut := And(t, m), And(Low(t, size), Low(m, size));
    forall i: nat
      ensures Bit(whole, i) == (Bit(t, i) && Bit(m, i)) && Bit(cut, i) == (i < size && Bit(t, i) && Bit(m, i))
    {
      BitAnd(t, m, i);
      BitAnd(Low(t, size), Low(m, size), i);
      BitLow(t, size, i);
      BitLow(m, size, i);
    }
    if PaddingApart(mask, tdo, size) {
      SameBits(whole, cut);
    }
  }

  // What the player compares is what the source asks for, exactly when no padding bit is
  // set in both the mask and the expected bits.
  lemma CheckMeans(r: XRegs, q: Regs, tdi: seq<byte>, tdo: seq<byte>)
    requires |tdi| == |tdo| == BitsToBytes(r.size) && q.xsdrSize == r.size && !IsAllZero(r.mask)
    requires |r.mask| == BitsToBytes(r.size) && Reversed(r.mask) <= q.mask
    ensures var shift := ShiftOf(q, XSdrTdo(Interleaved(Reversed(tdi), Reversed(tdo))));
            && shift == DrShift(r.size, Low(Value(tdi), r.size),
                                Compare(Low(Value(r.mask), r.size), And(Value(tdo), Value(r.mask))))
            && (Some(shift) == XShift(r, SdrTdo(tdi, tdo)) <==> Apart(r, SdrTdo(tdi, tdo)))
  {
    hide Value, Low, Pow2, And, Interleaved, EverySecond, FirstBytes, Payload, BitsToBytes, PaddingApart;
    HalvesOfInterleaved(Reversed(tdi), Reversed(tdo));
    FirstBytesOfPrefix(q.mask, Reversed(r.mask));
    PayloadOfReversed(r.mask);
    PayloadOfReversed(tdi);
    PayloadOfReversed(tdo);
    PaddingExact(r.mask, tdo, r.size);
  }

  // When one is, the player accepts nothing that can come out of the register.
  lemma SharedPaddingRejects(r: XRegs, q: Regs, tdi: seq<byte>, tdo: seq<byte>, captured: nat)
    requires |tdi| == |tdo| == BitsToBytes(r.size) && q.xsdrSize == r.size && !IsAllZero(r.mask)
    requires |r.mask| == BitsToBytes(r.size) && Reversed(r.mask) <= q.mask
    requires !PaddingApart(r.mask, tdo, r.size)
    ensures !Accepts(ShiftOf(q, XSdrTdo(Interleaved(Reversed(tdi), Reversed(tdo)))).check, captured)
  {
    hide Value, Low, Pow2, And, Interleaved, ShiftOf, BitsToBytes, Bit;
    CheckMeans(r, q, tdi, tdo);
    var m, t := Value(r.mask), Value(tdo);
    var i: nat :| i >= r.size && Bit(m, i) && Bit(t, i);
    BitAnd(t, m, i);
    BitAnd(captured, Low(m, r.size), i);
    BitLow(m, r.size, i);
  }

  // Under a mask of zeros the source judges nothing, whatever is expected.
  lemma ZeroMaskMeans(r: XRegs, tdi: seq<byte>, tdo: seq<byte>)
    requires IsAllZero(r.mask) && |tdi| == |tdo|
    ensures XShift(r, SdrTdo(tdi, tdo)) == Some(DrShift(r.size, Low(Value(tdi), r.size), NoCheck))
    ensures Apart(r, SdrTdo(tdi, tdo))
  {
    hide Value, And, Bit, Low;
    ZeroValue(r.mask);
    forall i: nat
      ensures !Bit(Value(r.mask), i)
    {
      BitZero(i);
    }
  }

  // ---------- Command by command ----------

  lemma MaskMeans(r: XRegs, m: CState, q: Regs, n: Option<nat>, mask: seq<byte>)
    requires Tracks(r, m, q, n) && Sensible(r, TdoMask(mask))
    ensures Means(r, m, q, n, TdoMask(mask))
  {
    hide Value, Pow2, BitsToBytes, IsAllZero, SyncCmd;
    if IsAllZero(mask) {
      RunSync(r, m, q, r.runTest, n);
      assert SyncCmd(m) + [] == SyncCmd(m);
    } else {
      RunSynced(r, m, q, r.runTest, n, XTdoMask(Reversed(mask)));
    }
  }

  lemma ShiftMeans(r: XRegs, m: CState, q: Regs, n: Option<nat>, c: XCmd, shift: Cmd)
    requires Tracks(r, m, q, n) && Sensible(r, c) && (c.Sdr? || c.SdrTdo?)
    requires COut(m, c) == SyncCmd(m) + [shift] && (shift.XSdr? || shift.XSdrTdo?)
    requires Sized(shift, Some(BitsToBytes(r.size)))
    requires XShift(r, c) == Some(ShiftOf(q.(xsdrSize := r.size), shift)) <==> Apart(r, c)
    requires XShift(r, c).Some?
    ensures Means(r, m, q, n, c)
  {
    var q' := q.(xsdrSize := r.size);
    hide XShift, ShiftOf, COut, BitsToBytes, SyncCmd, Sized, MaskTracks, Apart;
    MaskKept(r, m, q, c, q');
    RunSynced(r, m, q, r.runTest, n, shift);
  }

  lemma SdrMeans(r: XRegs, m: CState, q: Regs, n: Option<nat>, tdi: seq<byte>)
    requires Tracks(r, m, q, n) && Sensible(r, Sdr(tdi))
    ensures Means(r, m, q, n, Sdr(tdi))
  {
    hide Low, Value, Payload, BitsToBytes, SyncCmd, Means;
    PayloadOfReversed(tdi);
    ShiftMeans(r, m, q, n, Sdr(tdi), XSdr(Reversed(tdi)));
  }

  lemma SdrTdoMeans(r: XRegs, m: CState, q: Regs, n: Option<nat>, tdi: seq<byte>, tdo: seq<byte>)
    requires |tdi| == |tdo| && Tracks(r, m, q, n) && Sensible(r, SdrTdo(tdi, tdo))
    ensures Means(r, m, q, n, SdrTdo(tdi, tdo))
  {
    hide Low, Value, Payload, And, BitsToBytes, SyncCmd, Means, Interleaved, IsAllZero;
    var q' := q.(xsdrSize := r.size);
    if m.zeroMask {
      PayloadOfReversed(tdi);
      ZeroMaskMeans(r, tdi, tdo);
      ShiftMeans(r, m, q, n, SdrTdo(tdi, tdo), XSdr(Reversed(tdi)));
    } else {
      CheckMeans(r, q', tdi, tdo);
      ShiftMeans(r, m, q, n, SdrTdo(tdi, tdo), XSdrTdo(Interleaved(Reversed(tdi), Reversed(tdo))));
    }
  }

  lemma PieceMeans(r: XRegs, m: CState, q: Regs, n: Option<nat>, c: XCmd)
    requires Tracks(r, m, q, n) && Sensible(r, c) && (c.SdrBegin? || c.SdrContinue?)
    ensures Means(r, m, q, n, c)
  {
    hide Low, Value, Payload, BitsToBytes, MaskTracks, Shl;
    MaskKept(r, m, q, c, q);
    PayloadOfReversed(c.tdi);
    WholeBytes(c.tdi, r.size);
    if c.SdrContinue? {
      PayloadConcat(m.payload.value, Reversed(c.tdi));
    }
  }

  // The whole shift: the pieces fit together without gaps.
  lemma WholeShift(p: seq<byte>, tdi: seq<byte>, size: nat)
    requires |tdi| == BitsToBytes(size)
    ensures Low(Payload(p + Reversed(tdi)), 8 * |p| + size) == Shl(Low(Value(tdi), size), 8 * |p|) + Payload(p)
    ensures |p + Reversed(tdi)| == BitsToBytes(8 * |p| + size)
  {
    hide Low, Value, Payload, Shl, Pow2;
    PayloadOfReversed(tdi);
    PayloadConcat(p, Reversed(tdi));
    PayloadBound(p);
    LowOfJoin(Value(tdi), size, Payload(p), 8 * |p|);
  }

  lemma RunTwo(q: Regs, x: nat, n: Option<nat>, size: Long, tdi: seq<byte>)
    requires |tdi| == BitsToBytes(size)
    ensures var out, q' := [XSdrSize(size), XSdr(tdi)], q.(xsdrSize := size);
            && Events(q, x, out) == [Event(ShiftOf(q', XSdr(tdi)), x)]
            && RegsAfter(q, out) == q' && NumBytesAfter(n, out) == Some(BitsToBytes(size))
            && AllSized(out, n) && RunTestAfter(x, out) == x
  {
    hide ShiftOf, BitsToBytes;
    var q' := q.(xsdrSize := size);
    RunOne(q, x, n, XSdrSize(size));
    RunOne(q', x, Some(BitsToBytes(size)), XSdr(tdi));
    EventsConcat(q, x, [XSdrSize(size)], [XSdr(tdi)]);
    SizedConcat(n, [XSdrSize(size)], [XSdr(tdi)]);
    AfterConcat(q, x, n, [XSdrSize(size)], [XSdr(tdi)]);
    assert [XSdrSize(size)] + [XSdr(tdi)] == [XSdrSize(size), XSdr(tdi)];
  }

  lemma EndMeans(r: XRegs, m: CState, q: Regs, n: Option<nat>, tdi: seq<byte>)
    requires Tracks(r, m, q, n) && Sensible(r, SdrEnd(tdi))
    ensures Means(r, m, q, n, SdrEnd(tdi))
  {
    hide Low, Value, Payload, MaskTracks, Shl, BitsToBytes, Events, RegsAfter, NumBytesAfter, AllSized, RunTestAfter;
    var p, total := m.payload.value, r.piece.value.bits + r.size;
    var q' := q.(xsdrSize := total);
    WholeShift(p, tdi, r.size);
    RunTwo(q, r.runTest, n, total, p + Reversed(tdi));
    hide Reversed, ShiftOf;
    EndShift(r, m, q', tdi);
    EndTracks(r, m, q, n, tdi);
  }

  lemma EndShift(r: XRegs, m: CState, q: Regs, tdi: seq<byte>)
    requires PieceTracks(r, m) && Sensible(r, SdrEnd(tdi)) && q.xsdrSize == r.piece.value.bits + r.size
    ensures var shift := XSdr(m.payload.value + Reversed(tdi));
            [Event(ShiftOf(q, shift), r.runTest)] == EventOf(r, SdrEnd(tdi))
  {
    hide Low, Value, Payload, Shl, BitsToBytes;
    WholeShift(m.payload.value, tdi, r.size);
  }

  lemma EndTracks(r: XRegs, m: CState, q: Regs, n: Option<nat>, tdi: seq<byte>)
    requires Tracks(r, m, q, n) && Sensible(r, SdrEnd(tdi))
    ensures var total := r.piece.value.bits + r.size;
            Tracks(XNext(r, SdrEnd(tdi)), CNext(m, SdrEnd(tdi)), q.(xsdrSize := total), Some(BitsToBytes(total)))
  {
    hide Low, Value, Payload, MaskTracks, Shl, BitsToBytes, Reversed;
    MaskKept(r, m, q, SdrEnd(tdi), q.(xsdrSize := r.piece.value.bits + r.size));
  }

  lemma OtherMeans(r: XRegs, m: CState, q: Regs, n: Option<nat>, c: XCmd)
    requires Tracks(r, m, q, n) && Sensible(r, c)
    requires c.Sir? || c.RunTest? || c.SdrSize? || c.Repeats? || c.State? || c.EndIr? || c.EndDr?
    ensures Means(r, m, q, n, c)
  {
    hide Low, Value, Payload, MaskTracks, BitsToBytes;
    MaskKept(r, m, q, c, q);
    if c.Sir? {
      var shift := XSir(c.numBits, Reversed(c.tdi));
      RunOne(q, r.runTest, n, shift);
      PayloadOfReversed(c.tdi);
    } else if c.RunTest? {
      RunOne(q, r.runTest, n, XRunTest(c.count));
    }
  }

  lemma CommandMeans(r: XRegs, m: CState, q: Regs, n: Option<nat>, c: XCmd)
    requires Tracks(r, m, q, n) && Sensible(r, c)
    ensures Means(r, m, q, n, c) && InPlace(m, c)
  {
    assert InPlace(m, c);
    hide Tracks, Means, Sensible, InPlace;
    match c
    case TdoMask(mask) => MaskMeans(r, m, q, n, mask);
    case Sdr(tdi) => SdrMeans(r, m, q, n, tdi);
    case SdrTdo(tdi, tdo) => SdrTdoMeans(r, m, q, n, tdi, tdo);
    case SdrBegin(_) => PieceMeans(r, m, q, n, c);
    case SdrContinue(_) => PieceMeans(r, m, q, n, c);
    case SdrEnd(tdi) => EndMeans(r, m, q, n, tdi);
    case _ => OtherMeans(r, m, q, n, c);
  }

  lemma SameFronts<T>(a: seq<T>, x: seq<T>, b: seq<T>, y: seq<T>)
    requires |a| == |b|
    ensures a + x == b + y <==> a == b && x == y
  {
    assert (a + x)[..|a|] == a && (b + y)[..|b|] == b;
    assert (a + x)[|a|..] == x && (b + y)[|b|..] == y;
  }

  lemma NothingMeans(q: Regs, x: nat, n: Option<nat>)
    ensures Events(q, x, []) == [] && AllSized([], n)
  {
  }

  // Every sensible program keeps its shifts, its comparisons and its waits, exactly when no
  // comparison's mask and expected bits share padding.
  lemma {:induction false} ProgramMeans(r: XRegs, m: CState, q: Regs, n: Option<nat>, cmds: seq<XCmd>)
    requires Tracks(r, m, q, n) && AllSensible(r, cmds)
    ensures AllInPlace(m, cmds) && AllSized(Compiled(m, cmds), n)
    ensures Events(q, r.runTest, Compiled(m, cmds)) == XEvents(r, cmds) <==> AllApart(r, cmds)
    decreases |cmds|
  {
    hide Sensible, InPlace, COut, CNext, XNext, XShift, MaskTracks, Events, AllSized, Apart;
    if cmds == [] {
      NothingMeans(q, r.runTest, n);
    } else {
      var out, rest := COut(m, cmds[0]), Compiled(CNext(m, cmds[0]), cmds[1..]);
      CommandMeans(r, m, q, n, cmds[0]);
      ProgramMeans(XNext(r, cmds[0]), CNext(m, cmds[0]), RegsAfter(q, out), NumBytesAfter(n, out), cmds[1..]);
      EventsConcat(q, r.runTest, out, rest);
      SizedConcat(n, out, rest);
      SameFronts(Events(q, r.runTest, out), Events(RegsAfter(q, out), RunTestAfter(r.runTest, out), rest),
                 EventOf(r, cmds[0]), XEvents(XNext(r, cmds[0]), cmds[1..]));
    }
  }

  // ---------- The whole compiler ----------

  // Nothing in the program asks for more than the player can do.
  predicate Playable(cmds: seq<XCmd>)
  {
    Comparable(NOTHING, cmds)
  }

  lemma EndStates(r: XRegs, cmds: seq<XCmd>)
    requires AllSensible(r, cmds)
    ensures forall c :: c in cmds ==> (c.EndIr? || c.EndDr? ==> c.state == 0)
    decreases |cmds|
  {
    if cmds != [] {
      EndStates(XNext(r, cmds[0]), cmds[1..]);
      assert forall c :: c in cmds <==> c == cmds[0] || c in cmds[1..];
    }
  }

  // ---------- Room in the player's buffers ----------

  // Every mask that is kept fits the player's mask buffer.
  predicate MasksFit(cmds: seq<XCmd>)
  {
    forall c :: c in cmds ==> (c.TdoMask? ==> IsAllZero(c.mask) || |c.mask| <= BUF_SIZE)
  }

  // Whether the operands that the player has to keep of one command fit n bytes.
  predicate RoomIn(m: CState, c: XCmd, n: nat)
  {
    && (c.SdrTdo? && !m.zeroMask ==> BitsToBytes(m.newX) <= n)
    && (c.TdoMask? ==> IsAllZero(c.mask) || |c.mask| <= n)
  }

  lemma OutRoom(r: XRegs, m: CState, c: XCmd, n: nat)
    requires Sensible(r, c) && m.newX == r.size
    ensures AllFitIn(COut(m, c), n) <==> RoomIn(m, c, n)
  {
    hide Interleaved, Reversed, IsAllZero, BitsToBytes, AllFitIn;
    var sync := SyncCmd(m);
    FitOne(XSdrSize(m.newX), n);
    match c
    case TdoMask(mask) =>
      FitConcat(sync, COut(m, c)[|sync|..], n);
      FitOne(XTdoMask(Reversed(mask)), n);
      assert COut(m, c) == sync + COut(m, c)[|sync|..];
    case SdrTdo(tdi, tdo) =>
      var shift := if m.zeroMask then XSdr(Reversed(tdi)) else XSdrTdo(Interleaved(Reversed(tdi), Reversed(tdo)));
      FitConcat(sync, [shift], n);
      FitOne(shift, n);
    case Sdr(tdi) =>
      FitConcat(sync, [XSdr(Reversed(tdi))], n);
      FitOne(XSdr(Reversed(tdi)), n);
    case _ =>
      NothingKept(m, c, n);
  }

  lemma NothingKept(m: CState, c: XCmd, n: nat)
    requires !c.TdoMask? && !c.SdrTdo?
    ensures AllFitIn(COut(m, c), n)
  {
    hide Reversed;
  }

  lemma StepRoom(r: XRegs, st: XState, m: CState, c: XCmd, n: nat)
    requires Sensible(r, c) && st.newX == m.newX == r.size && st.zeroMask == m.zeroMask
    ensures var next := XStep(st, c).st;
            && next.newX == CNext(m, c).newX == XNext(r, c).size
            && (XStep(st, c).status == XSuccess ==>
                  && (next.maxBuf <= n <==> st.maxBuf <= n && RoomIn(m, c, n))
                  && next.zeroMask == CNext(m, c).zeroMask)
  {
    hide Interleaved, Reversed, IsAllZero, BitsToBytes, SizeBytes;
  }

  // The size that the compiler reports is that of the buffers needed: every command it wrote
  // fits buffers of n bytes exactly when the size is at most n. And they fit the player's
  // exactly when the comparisons and the kept masks do.
  lemma {:induction false} RoomExact(r: XRegs, st: XState, m: CState, cmds: seq<XCmd>, n: nat)
    requires AllSensible(r, cmds) && st.newX == m.newX == r.size && st.zeroMask == m.zeroMask
    ensures XRun(st, cmds).status == XSuccess ==>
              (XRun(st, cmds).st.maxBuf <= n <==> st.maxBuf <= n && AllFitIn(Compiled(m, cmds), n))
    ensures AllFitIn(Compiled(m, cmds), BUF_SIZE) <==> Comparable(m, cmds) && MasksFit(cmds)
    decreases |cmds|
  {
    hide Sensible, XStep, COut, CNext, XNext, FitsIn, IsAllZero, BitsToBytes;
    if cmds != [] {
      var c := cmds[0];
      StepRoom(r, st, m, c, n);
      OutRoom(r, m, c, n);
      OutRoom(r, m, c, BUF_SIZE);
      FitConcat(COut(m, c), Compiled(CNext(m, c), cmds[1..]), n);
      FitConcat(COut(m, c), Compiled(CNext(m, c), cmds[1..]), BUF_SIZE);
      assert forall d :: d in cmds <==> d == c || d in cmds[1..];
      var next := XStep(st, c).st.(zeroMask := CNext(m, c).zeroMask);
      RoomExact(XNext(r, c), next, CNext(m, c), cmds[1..], n);
    }
  }

  // A sensible program is accepted exactly when the player has room for its comparisons;
  // then the player, decoding what was written, makes the shifts that the source asks for,
  // judged the same way, with the same waits, exactly when no comparison's mask and
  // expected bits share padding. The commands written fit the player's buffers exactly when
  // the masks that are kept do as well, which is when the size reported says so.
  lemma XsvfExact(cmds: seq<XCmd>, memory: seq<byte>)
    requires AllSensible(START, cmds)
    ensures XRun(INITIAL, cmds).status == XSuccess <==> Playable(cmds)
    ensures Playable(cmds) ==>
              var d := Decode(XRun(INITIAL, cmds).st.out + [XCOMPLETE], Some(0));
              && d == Decoded(Compiled(NOTHING, cmds), Complete)
              && (Events(Regs(0, memory), 0, d.cmds) == XEvents(START, cmds) <==> AllApart(START, cmds))
              && (forall n: nat :: XRun(INITIAL, cmds).st.maxBuf <= n <==> AllFitIn(d.cmds, n))
    ensures AllFitIn(Compiled(NOTHING, cmds), BUF_SIZE) <==> Playable(cmds) && MasksFit(cmds)
  {
    hide MasksFit, AllFitIn, Compiled, Events, Decode, Comparable, XRun, AllSized, EncodeAll, AllApart;
    assert Writes(INITIAL, NOTHING, []) by { EncodeNothing(); }
    ProgramMeans(START, NOTHING, Regs(0, memory), Some(0), cmds);
    EndStates(START, cmds);
    RunEncodes(INITIAL, NOTHING, [], cmds);
    var all := Compiled(NOTHING, cmds);
    assert [] + all == all;
    DecodeEncoded(all, Some(0), []);
    assert [XCOMPLETE] + [] == [XCOMPLETE];
    forall n: nat
      ensures Playable(cmds) ==> (XRun(INITIAL, cmds).st.maxBuf <= n <==> AllFitIn(all, n))
    {
      RoomExact(START, INITIAL, NOTHING, cmds, n);
    }
    RoomExact(START, INITIAL, NOTHING, cmds, BUF_SIZE);
  }

  lemma EncodeNothing()
    ensures EncodeAll([]) == []
  {
  }

  // ---------- Pieces have to be whole bytes ----------

  // What two pieces of a bits and b bits are sent as is what they mean.
  predicate PiecesFit(a: nat, b: nat, p: seq<byte>, tdi: seq<byte>)
  {
    && |p + Reversed(tdi)| == BitsToBytes(a + b)
    && Low(Payload(p + Reversed(tdi)), a + b) == Shl(Low(Value(tdi), b), a) + Low(Payload(p), a)
  }

  // Whatever the data, exactly when the first is a whole number of bytes.
  lemma PiecesExact(a: nat, b: nat)
    requires a > 0 && b > 0
    ensures (forall p: seq<byte>, tdi: seq<byte> ::
               |p| == BitsToBytes(a) && |tdi| == BitsToBytes(b) ==> PiecesFit(a, b, p, tdi)) <==> a % 8 == 0
  {
    hide PiecesFit;
    if a % 8 == 0 {
      forall p: seq<byte>, tdi: seq<byte> | |p| == BitsToBytes(a) && |tdi| == BitsToBytes(b)
        ensures PiecesFit(a, b, p, tdi)
      {
        AlignedFits(a, b, p, tdi);
      }
    } else {
      var p, tdi := Repeat<byte>(0, BitsToBytes(a)), Repeat<byte>(0, BitsToBytes(b) - 1) + [1];
      UnalignedDoesNotFit(a, b, p, tdi);
      assert |p| == BitsToBytes(a) && |tdi| == BitsToBytes(b) && !PiecesFit(a, b, p, tdi);
    }
  }

  lemma AlignedFits(a: nat, b: nat, p: seq<byte>, tdi: seq<byte>)
    requires a % 8 == 0 && |p| == BitsToBytes(a) && |tdi| == BitsToBytes(b)
    ensures PiecesFit(a, b, p, tdi)
  {
    hide Value, Low, Payload, Shl, Pow2;
    WholeShift(p, tdi, b);
    PayloadBound(p);
    LowSmall(Payload(p), a);
  }

  // One bit just above the padding ends up in the wrong place.
  lemma UnalignedDoesNotFit(a: nat, b: nat, p: seq<byte>, tdi: seq<byte>)
    requires a % 8 != 0 && b > 0
    requires p == Repeat<byte>(0, BitsToBytes(a)) && tdi == Repeat<byte>(0, BitsToBytes(b) - 1) + [1]
    ensures !PiecesFit(a, b, p, tdi)
  {
    hide Value, Low, Shl, Reversed;
    var k := 8 * |p|;
    ValueZero(|tdi| - 1);
    ValueSnoc(Repeat<byte>(0, |tdi| - 1), 1);
    assert Reversed(p) == p;
    ValueZero(|p|);
    PayloadOfReversed(tdi);
    PayloadConcat(p, Reversed(tdi));
    LowSmall(1, b);
    LowBound(0, a);
    assert Payload(p + Reversed(tdi)) == Shl(1, k);
    BitShl(1, k, a);
    BitLow(Shl(1, k), a + b, a);
    BitShl(1, a, a);
    assert Bit(1, 0);
  }
}
