// SVF programs that are not compiled right, one for each of the ways there are.
module SvfLimits {
  import opened Bits
  import opened Bytes
  import opened Csvf
  import opened Trace
  import opened HeadTail
  import opened ProcessIndex
  import opened Svf
  import opened SvfSource
  import opened SvfCorrect
  import opened SvfProgram
  import opened EndToEnd
  import opened CsvfPlay

  lemma OneLine(cxt: Context, b: Line)
    requires Fits(cxt, b)
    ensures AllFit(cxt, [b]) && Compile(cxt, [b]) == CompileLine(cxt, b).1
    ensures AllNarrow(cxt, [b]) <==> Narrow(cxt, b)
    ensures AllCovered(cxt, [b]) <==> Covered(cxt, b)
    ensures AllUnjudged(cxt, [b]) <==> Unjudged(cxt, b)
    ensures forall n: nat :: AllRoomFor(cxt, [b], n) <==> RoomFor(cxt, b, n)
  {
    hide Fits, CompileLine, Narrow, Covered, Unjudged, RoomFor;
    FitsAcceptable(cxt, b);
    var (next, cmds) := CompileLine(cxt, b);
    assert [b][1..] == [];
    assert AllFit(next, []) && AllNarrow(next, []) && AllCovered(next, []) && AllUnjudged(next, []);
    assert Compile(next, []) == [] && forall n: nat :: AllRoomFor(next, [], n);
  }

  lemma TwoLines(cxt: Context, a: Line, b: Line)
    requires Fits(cxt, a) && !a.IsBody() && Fits(CompileLine(cxt, a).0, b)
    ensures AllFit(cxt, [a, b])
    ensures Compile(cxt, [a, b]) == CompileLine(cxt, a).1 + CompileLine(CompileLine(cxt, a).0, b).1
    ensures AllNarrow(cxt, [a, b]) <==> Narrow(CompileLine(cxt, a).0, b)
    ensures AllCovered(cxt, [a, b]) <==> Covered(CompileLine(cxt, a).0, b)
    ensures AllUnjudged(cxt, [a, b]) <==> Unjudged(CompileLine(cxt, a).0, b)
  {
    hide Fits, CompileLine, Narrow, Covered, Unjudged;
    FitsAcceptable(cxt, a);
    NoComparison(cxt, a);
    OneLine(CompileLine(cxt, a).0, b);
    assert [a, b][1..] == [b];
  }

  // What a line that shifts something means.
  lemma OneLineMeans(b: Line)
    requires b.IsBody()
    ensures SourceIdle([b]) == Idle(0, [0]) && RunTestsPlaced([b], START)
    ensures Intended([b]) == [Event(LineShift(SourceAfter(NO_SOURCE, b), b), 0)]
  {
    hide LineShift, SourceAfter;
    assert [b][1..] == [];
    var shift := LineShift(SourceAfter(NO_SOURCE, b), b);
    assert SourceShifts(NO_SOURCE, [b]) == [shift] by {
      assert [shift] + [] == [shift];
    }
    ShiftPlaced(b, START);
    assert Zip([shift], [0]) == [Event(shift, 0)];
  }

  // What a line that shifts nothing and a line that shifts something mean.
  lemma TwoLinesMean(a: Line, b: Line)
    requires !a.IsBody() && b.IsBody()
    ensures var wait := if a.RunTest? then a.count else 0;
            && SourceIdle([a, b]) == Idle(wait, [0])
            && (RunTestsPlaced([a, b], START) <==> wait == 0)
    ensures Intended([a, b]) == [Event(LineShift(SourceAfter(SourceAfter(NO_SOURCE, a), b), b), 0)]
  {
    hide LineShift, SourceAfter;
    assert [a, b][1..] == [b] && [b][1..] == [];
    var shift := LineShift(SourceAfter(SourceAfter(NO_SOURCE, a), b), b);
    assert SourceShifts(SourceAfter(NO_SOURCE, a), [b]) == [shift] by {
      assert [shift] + [] == [shift];
    }
    assert SourceShifts(NO_SOURCE, [a, b]) == [shift] by {
      assert [] + [shift] == [shift];
    }
    assert SourceIdle([b]) == Idle(0, [0]);
    ShiftPlaced(b, START);
    ShiftPlaced(b, START.(stray := true));
    assert Zip([shift], [0]) == [Event(shift, 0)];
  }

  lemma ShiftPlaced(b: Line, place: Place)
    requires b.IsBody()
    ensures RunTestsPlaced([b], place)
  {
    assert [b][1..] == [];
  }

  const NO_OPERANDS := Operands(None, None, None)

  function Sir(bits: nat, tdi: seq<byte>): Line
  {
    ShiftLine(Insn, Body, bits, Operands(Some(tdi), None, None))
  }

  // A RUNTEST in front of the first shift ends up behind it: the clocks that were to come
  // before the shift come after it.
  lemma LeadingRunTest(count: Long, memory: seq<byte>)
    ensures var lines := [RunTest(count), Sir(8, [0])];
            && AllFit(EMPTY_CONTEXT, lines) && AllCovered(EMPTY_CONTEXT, lines) && AllNarrow(EMPTY_CONTEXT, lines)
            && AllUnjudged(EMPTY_CONTEXT, lines) && (RunTestsPlaced(lines, START) <==> count == 0)
            && SourceIdle(lines).lead == count && Intended(lines) == [Event(IrShift(8, 0, NoCheck), 0)]
            && Events(Regs(0, memory), 0, Decode(Converted(lines), Some(0)).cmds)
               == [Event(IrShift(8, 0, NoCheck), count)]
  {
    hide Decode, CompileInsn, Value, Low, Payload, Fits, Reordered, AllFit, Compile, SourceShifts, SourceIdle,
         RunTestsPlaced, AllNarrow, AllCovered, AllUnjudged, Parsed, Converted, Events, ShiftOf, Narrow, Covered,
         Unjudged, CompileLine, BitsToBytes, LineShift;
    var lines := [RunTest(count), Sir(8, [0])];
    RunTestFits(count);
    SirFits();
    TwoLines(EMPTY_CONTEXT, lines[0], lines[1]);
    TwoLinesMean(lines[0], lines[1]);
    var c := CompileInsn(EMPTY_STORES.After(Body, 8, lines[1].ops));
    SirShifts(Regs(0, memory));
    ConvertedDecodes(lines, Some(0));
    InsnIsXsir(lines[1].ops);
    LeadingMoved(count, c);
    OneShift(Regs(0, memory), count, c);
  }

  lemma RunTestFits(count: Long)
    ensures Fits(EMPTY_CONTEXT, RunTest(count))
    ensures CompileLine(EMPTY_CONTEXT, RunTest(count)) == (EMPTY_CONTEXT, [XRunTest(count)])
  {
  }

  lemma SirFits()
    ensures CompileLine(EMPTY_CONTEXT, Sir(8, [0])).1 == [CompileInsn(EMPTY_STORES.After(Body, 8, Sir(8, [0]).ops))]
    ensures Fits(EMPTY_CONTEXT, Sir(8, [0])) && Narrow(EMPTY_CONTEXT, Sir(8, [0]))
    ensures Covered(EMPTY_CONTEXT, Sir(8, [0])) && Unjudged(EMPTY_CONTEXT, Sir(8, [0]))
  {
    hide Value, Pow2, MaskCovered, FieldsOf, Splice, CompileData, CompileInsn, BitsToBytes;
    assert BitsToBytes(8) == 1;
    ZeroFits(8);
    ValueOfByte(0);
  }

  lemma InsnIsXsir(ops: Operands)
    ensures CompileInsn(EMPTY_STORES.After(Body, 8, ops)).XSir?
  {
    hide Splice;
  }

  lemma SirShifts(r: Regs)
    ensures var s := EMPTY_STORES.After(Body, 8, Sir(8, [0]).ops);
            && ShiftOf(r, CompileInsn(s)) == IrShift(8, 0, NoCheck)
            && LineShift(SourceAfter(NO_SOURCE, Sir(8, [0])), Sir(8, [0])) == IrShift(8, 0, NoCheck)
  {
    hide Value, CompileInsn, ShiftOf, Low, BitsToBytes, Join, Pow2;
    GoodStart();
    ValueOfByte(0);
    ZeroFits(8);
    assert BitsToBytes(8) == 1;
    StoresTrack(EMPTY_STORES, Body, 8, Sir(8, [0]).ops);
    InsnShiftExact(EMPTY_STORES.After(Body, 8, Sir(8, [0]).ops), r, false);
    JoinOfZeros(8, 0);
    assert SourceAfter(NO_SOURCE, Sir(8, [0])).insn.Tdi() == Join(0, 0, 0, 8, 0);
  }

  lemma LeadingMoved(count: Long, c: Cmd)
    requires c.XSir?
    ensures Reordered([XRunTest(count)] + [c], ILLEGAL32) == [XRunTest(0), XRunTest(count), c]
  {
    var cmds := [XRunTest(count), c];
    assert cmds[1..] == [c] && FirstShift(cmds) == 1 && Behind(cmds) == [] && cmds[..2] == cmds;
    assert [XRunTest(0)] + cmds + [] == [XRunTest(0), XRunTest(count), c];
  }

  lemma OneShift(r: Regs, count: Long, c: Cmd)
    requires c.XSir?
    ensures Events(r, 0, [XRunTest(0), XRunTest(count), c]) == [Event(ShiftOf(r, c), count)]
  {
    hide ShiftOf;
    var cmds := [XRunTest(0), XRunTest(count), c];
    assert cmds[1..] == [XRunTest(count), c] && cmds[1..][1..] == [c] && [c][1..] == [];
    var events := [Event(ShiftOf(r, c), count)];
    assert Events(r, count, [c]) == events by {
      assert events + Events(Next(r, c), count, []) == events;
    }
    assert Events(r, 0, [XRunTest(count), c]) == events;
  }

  function Hdr(bits: nat): Line
  {
    ShiftLine(Data, Head, bits, NO_OPERANDS)
  }

  // SDR with zeros expected, and none of them cared for.
  function CarelessSdr(): Line
  {
    ShiftLine(Data, Body, 8, Operands(None, Some([0]), Some([0])))
  }

  // The default mask of a six-bit header makes two body bits count that the body's own
  // mask does not care for: bit 6 of the register is compared, and was not meant to be.
  lemma HeaderMaskPadding(memory: seq<byte>)
    ensures var lines := [Hdr(6), CarelessSdr()];
            var s := EMPTY_STORES.After(Head, 6, NO_OPERANDS).After(Body, 8, CarelessSdr().ops);
            && AllFit(EMPTY_CONTEXT, lines) && RunTestsPlaced(lines, START) && AllNarrow(EMPTY_CONTEXT, lines)
            && AllUnjudged(EMPTY_CONTEXT, lines) && !AllCovered(EMPTY_CONTEXT, lines)
            && SourceIdle(lines).lead == 0 && Decode(Parsed(lines), None).end == Complete
            && !Bit(FieldsOf(s).Mask(), 6) && Bit(EffectiveMask(s), 6)
            && Events(Regs(0, memory), 0, Decode(Converted(lines), Some(0)).cmds) != Intended(lines)
  {
    hide Decode, Value, Fits, AllFit, Compile, SourceShifts, SourceIdle, RunTestsPlaced, AllNarrow, AllCovered,
         AllUnjudged, Parsed, Bit, Converted, Events, Intended, Narrow, Covered, Unjudged, CompileLine, BitsToBytes,
         LineShift, EffectiveMask, FieldsOf;
    var lines := [Hdr(6), CarelessSdr()];
    HeaderFits();
    TwoLines(EMPTY_CONTEXT, lines[0], lines[1]);
    TwoLinesMean(lines[0], lines[1]);
    HeaderPads(EMPTY_STORES.After(Head, 6, NO_OPERANDS).After(Body, 8, CarelessSdr().ops));
    NarrowIsIndexable(lines);
    CompilerExact(lines, memory);
  }

  lemma HeaderFits()
    ensures var s := EMPTY_STORES.After(Head, 6, NO_OPERANDS);
            var cxt := EMPTY_CONTEXT.(data := s);
            && Fits(EMPTY_CONTEXT, Hdr(6)) && CompileLine(EMPTY_CONTEXT, Hdr(6)) == (cxt, [])
            && Fits(cxt, CarelessSdr()) && Narrow(cxt, CarelessSdr()) && Unjudged(cxt, CarelessSdr())
            && (Covered(cxt, CarelessSdr())
                <==> MaskCovered(s.After(Body, 8, CarelessSdr().ops),
                     FieldsOf(s.After(Body, 8, CarelessSdr().ops)).Mask()))
  {
    hide Value, Pow2, MaskCovered, FieldsOf, CompileData, BitsToBytes;
    assert BitsToBytes(8) == 1;
    ZeroFits(8);
    ValueOfByte(0);
  }

  // The register's bit 6 is the body's bit 0, which its mask leaves out.
  lemma HeaderPads(s: Stores)
    requires s == EMPTY_STORES.After(Head, 6, NO_OPERANDS).After(Body, 8, CarelessSdr().ops)
    ensures !Bit(FieldsOf(s).Mask(), 6) && Bit(EffectiveMask(s), 6) && !MaskCovered(s, FieldsOf(s).Mask())
  {
    hide EffectiveMask;
    ValueOfByte(0);
    ValueOfByte(0xFF);
    assert Repeat<byte>(0xFF, 1) == [0xFF];
    assert MaskPadding(s, 6) by { Bit255(); }
    BitJoinedMask(s, 6);
    assert !Bit(Value(s.body.mask), 0);
    EffectiveMaskBits(s, 6);
  }

  lemma Bit255()
    ensures Bit(255, 6)
  {
    assert Bit(255, 6) == Bit(127, 5) == Bit(63, 4) == Bit(31, 3) == Bit(15, 2) == Bit(7, 1) == Bit(3, 0);
  }

  // A line of the instruction register, with zeros to shift in.
  function Zeros(part: Part, bits: nat): Line
  {
    ShiftLine(Insn, part, bits, Operands(Some(Repeat<byte>(0, BitsToBytes(bits))), None, None))
  }

  lemma ZerosFit(cxt: Context, part: Part, bits: nat)
    requires bits > 0
    ensures Fits(cxt, Zeros(part, bits)) && Covered(cxt, Zeros(part, bits)) && Unjudged(cxt, Zeros(part, bits))
  {
    hide Value, Pow2, MaskCovered, FieldsOf, BitsToBytes;
    ValueZero(BitsToBytes(bits));
    ZeroFits(bits);
  }

  lemma WideLines(s1: Stores, s: Stores, cxt: Context)
    requires s1 == EMPTY_STORES.After(Head, 248, Zeros(Head, 248).ops)
    requires s == s1.After(Body, 8, Zeros(Body, 8).ops) && cxt == EMPTY_CONTEXT.(insn := s1)
    ensures s.Total() == 256
    ensures CompileLine(EMPTY_CONTEXT, Zeros(Head, 248)) == (cxt, [])
    ensures CompileLine(cxt, Zeros(Body, 8)).1 == [CompileInsn(s)] && !Narrow(cxt, Zeros(Body, 8))
    ensures var lines := [Zeros(Head, 248), Zeros(Body, 8)];
            LineShift(SourceAfter(SourceAfter(NO_SOURCE, lines[0]), lines[1]), lines[1]) == IrShift(256, 0, NoCheck)
  {
    hide Value, CompileInsn, BitsToBytes, Join, Fits;
    ZerosFit(EMPTY_CONTEXT, Head, 248);
    ZerosFit(cxt, Body, 8);
    FitsAcceptable(EMPTY_CONTEXT, Zeros(Head, 248));
    FitsAcceptable(cxt, Zeros(Body, 8));
    ValueZero(BitsToBytes(248));
    ValueZero(BitsToBytes(8));
    JoinOfZeros(8, 248);
  }

  // All bits shifted in are zero, and they are announced as none.
  lemma WideStores(s1: Stores, s: Stores)
    requires s1 == EMPTY_STORES.After(Head, 248, Zeros(Head, 248).ops)
    requires s == s1.After(Body, 8, Zeros(Body, 8).ops) && s.Total() == 256
    ensures CompileInsn(s).XSir? && CompileInsn(s).numBits == 0
    ensures |CompileInsn(s).tdi| == 32 && IsAllZero(CompileInsn(s).tdi)
  {
    hide Value, Splice, Join, Low, Pow2, BitsToBytes, Reversed;
    ValueZero(BitsToBytes(248));
    ValueZero(BitsToBytes(8));
    ValueZero(0);
    ZeroFits(248);
    ZeroFits(8);
    ZeroFits(0);
    assert Value([]) == 0;
    SpliceFits(s.body.tdi, s.head.tdi, s.tail.tdi, s);
    JoinOfZeros(8, 248);
    ZeroValue(SplicedTdi(s));
    assert BitsToBytes(256) == 32;
    ReversedZeros(SplicedTdi(s));
  }

  lemma ReversedZeros(s: seq<byte>)
    ensures IsAllZero(s) ==> IsAllZero(Reversed(s))
  {
  }

  lemma ReadAsNothing(c: Cmd)
    requires c.XSir? && c.numBits == 0 && |c.tdi| == 32 && IsAllZero(c.tdi)
    ensures Decode(EncodeAll([c]) + [XCOMPLETE], None) == Decoded([XSir(0, [])], Complete)
  {
    var s := EncodeAll([c]) + [XCOMPLETE];
    EncodeOne(c);
    assert s == [XSIR, 0] + c.tdi + [XCOMPLETE];
    assert s[2..2] == [] && s[2..][0] == c.tdi[0];
    assert Fetch(s, None) == Fetched(XSir(0, []), 2);
    assert Fetch(s[2..], None) == Stop(Complete);
    assert [XSir(0, [])] + [] == [XSir(0, [])];
  }

  lemma AloneMoved(c: Cmd)
    requires c.XSir?
    ensures Reordered([c], ILLEGAL32) == [XRunTest(0), c]
  {
    assert FirstShift([c]) == 0 && Behind([c]) == [] && [c][..1] == [c];
    assert [XRunTest(0)] + [c] + [] == [XRunTest(0), c];
  }

  lemma NothingShifted(r: Regs)
    ensures Events(r, 0, [XRunTest(0), XSir(0, [])]) == [Event(IrShift(0, 0, NoCheck), 0)]
  {
    var c := XSir(0, []);
    assert [XRunTest(0), c][1..] == [c] && [c][1..] == [];
    assert Events(r, 0, [c]) == [Event(IrShift(0, 0, NoCheck), 0)] by {
      assert [Event(IrShift(0, 0, NoCheck), 0)] + Events(r, 0, []) == [Event(IrShift(0, 0, NoCheck), 0)];
    }
  }

  lemma ParsedIs(lines: seq<Line>, cmds: seq<Cmd>)
    requires AllFit(EMPTY_CONTEXT, lines) && Compile(EMPTY_CONTEXT, lines) == cmds
    ensures Parsed(lines) == EncodeAll(cmds) + [XCOMPLETE]
  {
  }

  // HIR 248 and SIR 8, all zeros: the 256-bit register is announced as having no bits, and
  // the first of its zeros is taken for the end of the stream.
  lemma WideInstruction(memory: seq<byte>)
    ensures var lines := [Zeros(Head, 248), Zeros(Body, 8)];
            && AllFit(EMPTY_CONTEXT, lines) && RunTestsPlaced(lines, START) && AllCovered(EMPTY_CONTEXT, lines)
            && AllUnjudged(EMPTY_CONTEXT, lines) && !AllNarrow(EMPTY_CONTEXT, lines) && Indexable(lines)
            && Decode(Parsed(lines), None) == Decoded([XSir(0, [])], Complete)
            && Intended(lines) == [Event(IrShift(256, 0, NoCheck), 0)]
            && Events(Regs(0, memory), 0, Decode(Converted(lines), Some(0)).cmds) == [Event(IrShift(0, 0, NoCheck), 0)]
  {
    hide Decode, Value, Fits, AllFit, Compile, SourceShifts, SourceIdle, RunTestsPlaced, AllNarrow, AllCovered,
         AllUnjudged, Parsed, Converted, Events, Intended, Narrow, Covered, Unjudged, CompileLine, BitsToBytes,
         LineShift, FieldsOf, Reordered, ShiftOf, CompileInsn, Stores.After;
    var lines := [Zeros(Head, 248), Zeros(Body, 8)];
    var s1 := EMPTY_STORES.After(Head, 248, lines[0].ops);
    var s := s1.After(Body, 8, lines[1].ops);
    var cxt := EMPTY_CONTEXT.(insn := s1);
    ZerosFit(EMPTY_CONTEXT, Head, 248);
    ZerosFit(cxt, Body, 8);
    WideLines(s1, s, cxt);
    TwoLines(EMPTY_CONTEXT, lines[0], lines[1]);
    TwoLinesMean(lines[0], lines[1]);
    WideStores(s1, s);
    ReadAsNothing(CompileInsn(s));
    ParsedIs(lines, [CompileInsn(s)]);
    ConvertedDecodes(lines, Some(0));
    AloneMoved(XSir(0, []));
    NothingShifted(Regs(0, memory));
  }

  // ---------- A comparison of the instruction register ----------

  function CheckedSir(): Line
  {
    ShiftLine(Insn, Body, 8, Operands(Some([0]), Some([1]), None))
  }

  // SIR 8 with TDI 00 and TDO 01: what comes out is to be compared with 01, and is not.
  lemma InsnCompared(memory: seq<byte>)
    ensures var lines := [CheckedSir()];
            && AllFit(EMPTY_CONTEXT, lines) && RunTestsPlaced(lines, START) && AllCovered(EMPTY_CONTEXT, lines)
            && AllNarrow(EMPTY_CONTEXT, lines) && !AllUnjudged(EMPTY_CONTEXT, lines)
            && Intended(lines) == [Event(IrShift(8, 0, Compare(0xFF, 1)), 0)]
            && Events(Regs(0, memory), 0, Decode(Converted(lines), Some(0)).cmds) == [Event(IrShift(8, 0, NoCheck), 0)]
  {
    hide Decode, CompileInsn, Value, Low, Payload, Fits, Reordered, AllFit, Compile, SourceShifts, SourceIdle,
         RunTestsPlaced, AllNarrow, AllCovered, AllUnjudged, Parsed, Converted, Events, ShiftOf, Narrow, Covered,
         Unjudged, CompileLine, BitsToBytes, LineShift, CheckedSir;
    CheckedFits();
    CheckedMeans(Regs(0, memory));
    OneLine(EMPTY_CONTEXT, CheckedSir());
    OneLineMeans(CheckedSir());
    var c := CompileInsn(EMPTY_STORES.After(Body, 8, CheckedSir().ops));
    InsnIsXsir(CheckedSir().ops);
    ConvertedDecodes([CheckedSir()], Some(0));
    AloneMoved(c);
    AloneShifts(Regs(0, memory), c);
  }

  lemma AloneShifts(r: Regs, c: Cmd)
    requires c.XSir?
    ensures Events(r, 0, [XRunTest(0), c]) == [Event(ShiftOf(r, c), 0)]
  {
    hide ShiftOf;
    assert [XRunTest(0), c][1..] == [c] && [c][1..] == [];
    var events := [Event(ShiftOf(r, c), 0)];
    assert Events(r, 0, [c]) == events by {
      assert events + Events(Next(r, c), 0, []) == events;
    }
  }

  lemma CheckedFits()
    ensures CheckedSir().IsBody() && CheckedSir().register == Insn
    ensures Fits(EMPTY_CONTEXT, CheckedSir()) && Narrow(EMPTY_CONTEXT, CheckedSir())
    ensures Covered(EMPTY_CONTEXT, CheckedSir())
    ensures CompileLine(EMPTY_CONTEXT, CheckedSir()).1 == [CompileInsn(EMPTY_STORES.After(Body, 8, CheckedSir().ops))]
  {
    hide Value, MaskCovered, FieldsOf, Splice, CompileData, CompileInsn, BitsToBytes;
    assert BitsToBytes(8) == 1;
    Pow2Small();
    ValueOfByte(0);
    ValueOfByte(1);
  }

  // Read directly, the line compares all eight bits; compiled, none.
  lemma CheckedMeans(r: Regs)
    ensures var s := EMPTY_STORES.After(Body, 8, CheckedSir().ops);
            && ShiftOf(r, CompileInsn(s)) == IrShift(8, 0, NoCheck)
            && LineShift(SourceAfter(NO_SOURCE, CheckedSir()), CheckedSir()) == IrShift(8, 0, Compare(0xFF, 1))
            && !Unjudged(EMPTY_CONTEXT, CheckedSir())
  {
    hide Value, CompileInsn, ShiftOf, Low, BitsToBytes, Join, Pow2, And, Ones;
    CheckedFits();
    GoodStart();
    ValueOfByte(0);
    ValueOfByte(1);
    EightOnes();
    AndOfOne(0xFF);
    JoinAlone(0, 8);
    JoinAlone(1, 8);
    JoinAlone(0xFF, 8);
    var s, ops := EMPTY_STORES.After(Body, 8, CheckedSir().ops), CheckedSir().ops;
    StoresTrack(EMPTY_STORES, Body, 8, ops);
    InsnShiftExact(s, r, false);
  }

  lemma AndOfOne(v: nat)
    requires v % 2 == 1
    ensures And(1, v) == 1
  {
    AndUnfold(1, v);
    AndBound(0, v / 2);
  }

  lemma EightOnes()
    ensures Ones(8) == 0xFF
  {
    Pow2Small();
  }

  lemma JoinAlone(v: nat, n: nat)
    ensures Join(v, 0, 0, n, 0) == v
  {
    ShlZero(n);
    ShlNothing(v);
  }

  lemma ShlNothing(v: nat)
    ensures Shl(v, 0) == v
  {
  }

  // ---------- A register that is too long for the player ----------

  // SDR 16392 with zeros in, zeros expected and the default mask.
  function LongSdr(): Line
  {
    var zeros := Some(Repeat<byte>(0, 2049));
    ShiftLine(Data, Body, 16392, Operands(zeros, zeros, None))
  }

  // The program is compiled right, and the player's buffers are a byte too short for it.
  lemma RegisterTooLong()
    ensures var lines := [LongSdr()];
            && AllFit(EMPTY_CONTEXT, lines) && RunTestsPlaced(lines, START) && AllCovered(EMPTY_CONTEXT, lines)
            && AllNarrow(EMPTY_CONTEXT, lines) && AllUnjudged(EMPTY_CONTEXT, lines)
            && !AllRoomFor(EMPTY_CONTEXT, lines, BUF_SIZE) && AllRoomFor(EMPTY_CONTEXT, lines, 2049)
            && !CanPlay(Converted(lines))
  {
    hide Decode, Value, Low, Fits, AllFit, Compile, SourceShifts, SourceIdle, RunTestsPlaced, AllNarrow, AllCovered,
         AllUnjudged, AllRoomFor, Parsed, Converted, Narrow, Covered, Unjudged, RoomFor, CompileLine, LineShift,
         LongSdr, AllFitIn;
    LongFits();
    OneLine(EMPTY_CONTEXT, LongSdr());
    OneLineMeans(LongSdr());
    ConvertedRoom([LongSdr()], BUF_SIZE);
  }

  lemma LongFits()
    ensures LongSdr().IsBody() && Fits(EMPTY_CONTEXT, LongSdr()) && Narrow(EMPTY_CONTEXT, LongSdr())
    ensures Unjudged(EMPTY_CONTEXT, LongSdr()) && Covered(EMPTY_CONTEXT, LongSdr())
    ensures !RoomFor(EMPTY_CONTEXT, LongSdr(), BUF_SIZE) && RoomFor(EMPTY_CONTEXT, LongSdr(), 2049)
  {
    hide Value, Low, Pow2, MaskPadding, BitsToBytes, Join, Fields.Mask, Ones;
    var s := EMPTY_STORES.After(Body, 16392, LongSdr().ops);
    assert BitsToBytes(16392) == 2049 && BitsToBytes(0) == 0;
    ValueZero(2049);
    ZeroFits(16392);
    GoodStart();
    StoresTrack(EMPTY_STORES, Body, 16392, LongSdr().ops);
    LongMask(s, 16392);
    forall i: nat | i < s.Total()
      ensures !MaskPadding(s, i)
    {
      NoPadding(s, i);
    }
  }

  lemma LongMask(s: Stores, n: nat)
    requires n > 0 && FieldsOf(s) == FieldsOf(EMPTY_STORES).After(Body, n, LongSdr().ops) && n % 8 == 0
    ensures FieldsOf(s).Mask() != 0
  {
    assert Value([]) == 0;
    hide Low, Value, Pow2, BitsToBytes, Join, Ones;
    LowBound(0, 0);
    ManyOnes(n);
    JoinAlone(Ones(n), n);
  }

  lemma ManyOnes(n: nat)
    requires n > 0
    ensures Ones(n) != 0
  {
    ZeroFits(n - 1);
    assert Pow2(n) == 2 * Pow2(n - 1);
  }

  lemma NoPadding(s: Stores, i: nat)
    requires s.head == s.tail == EMPTY_STORE && s.body.numBits % 8 == 0
    ensures !MaskPadding(s, i)
  {
    hide Bit;
    assert Value([]) == 0;
    BitZero(i);
  }
}
