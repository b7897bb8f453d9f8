// From SVF lines to what a device sees.
module EndToEnd {
  import opened Bytes
  import opened Buffers
  import opened Csvf
  import opened Trace
  import opened ProcessIndex
  import opened Svf
  import opened SvfSource
  import opened SvfCorrect
  import opened SvfProgram
  import opened Jtag
  import BuildIndex
  import SvfCompiler
  import CsvfPlay
  import opened TapIdle
  import opened Registers

  const START := Place(false, false, true)

  // The byte stream after the last line has been parsed.
  function Parsed(lines: seq<Line>): seq<byte>
    requires AllFit(EMPTY_CONTEXT, lines)
  {
    EncodeAll(Compile(EMPTY_CONTEXT, lines)) + [XCOMPLETE]
  }

  // The byte stream that a program is converted to, if it is: whatever the parsed stream
  // decodes to, reordered.
  function Converted(lines: seq<Line>): seq<byte>
    requires AllFit(EMPTY_CONTEXT, lines)
  {
    EncodeAll(Reordered(Decode(Parsed(lines), None).cmds, ILLEGAL32)) + [XCOMPLETE]
  }

  // What the lines mean: their shifts, each with the clocks to idle after it.
  function Intended(lines: seq<Line>): seq<Event>
  {
    AsManyShifts(NO_SOURCE, lines);
    Zip(SourceShifts(NO_SOURCE, lines), SourceIdle(lines).after)
  }

  lemma {:induction false} AsManyShifts(s: Source, lines: seq<Line>)
    ensures |SourceShifts(s, lines)| == |SourceIdle(lines).after|
    decreases |lines|
  {
    hide LineShift, SourceAfter;
    if lines != [] {
      AsManyShifts(SourceAfter(s, lines[0]), lines[1..]);
    }
  }

  lemma GoodStart()
    ensures GoodContext(EMPTY_CONTEXT) && Agree(EMPTY_CONTEXT, Regs(0, [])) && NumBytesOf(EMPTY_CONTEXT) == None
    ensures SourceOf(EMPTY_CONTEXT) == NO_SOURCE
    ensures forall memory :: Agree(EMPTY_CONTEXT, Regs(0, memory))
  {
    assert BitsToBytes(0) == 0 && Value([]) == 0;
  }

  lemma {:induction false} SizedFromAnywhere(cmds: seq<Cmd>, numBytes: Option<nat>)
    requires AllSized(cmds, None)
    ensures AllSized(cmds, numBytes)
    decreases |cmds|
  {
    hide BitsToBytes;
    if cmds != [] && !cmds[0].XSdrSize? {
      SizedFromAnywhere(cmds[1..], numBytes);
    }
  }

  // The final stream decodes, with or without a size in force, to the reordered commands
  // of the parsed one; and those are the compiled commands if every instruction register is
  // short enough.
  lemma ConvertedDecodes(lines: seq<Line>, numBytes: Option<nat>)
    requires AllFit(EMPTY_CONTEXT, lines)
    ensures Decode(Converted(lines), numBytes)
         == Decoded(Reordered(Decode(Parsed(lines), None).cmds, ILLEGAL32), Complete)
    ensures AllNarrow(EMPTY_CONTEXT, lines) ==>
              Decode(Parsed(lines), None) == Decoded(Compile(EMPTY_CONTEXT, lines), Complete)
  {
    hide AllSized, Decode, EncodeAll, Reordered, Compile, AllFit, AllNarrow;
    var cmds := Decode(Parsed(lines), None).cmds;
    EncodeDecoded(Parsed(lines), None);
    ReorderedShifts(Regs(0, []), None, cmds, ILLEGAL32);
    SizedFromAnywhere(Reordered(cmds, ILLEGAL32), numBytes);
    DecodeEncoded(Reordered(cmds, ILLEGAL32), numBytes, []);
    assert [XCOMPLETE] + [] == [XCOMPLETE];
    if AllNarrow(EMPTY_CONTEXT, lines) {
      GoodStart();
      ProgramShifts(EMPTY_CONTEXT, Regs(0, []), lines);
      DecodeEncoded(Compile(EMPTY_CONTEXT, lines), None, []);
    }
  }

  // ---------- Instruction registers that are too long ----------

  // No command shifts 256 bits or more through the instruction register.
  lemma {:induction false} ShortInstructions(r: Regs, cmds: seq<Cmd>, i: nat)
    requires i < |Shifts(r, cmds)| && Shifts(r, cmds)[i].IrShift?
    ensures Shifts(r, cmds)[i].bits < 256
    decreases |cmds|
  {
    if !cmds[0].IsShift() {
      ShortInstructions(Next(r, cmds[0]), cmds[1..], i);
    } else if i > 0 {
      ShortInstructions(Next(r, cmds[0]), cmds[1..], i - 1);
    }
  }

  // A program with a longer one asks for just that.
  lemma {:induction false} LongInstruction(cxt: Context, lines: seq<Line>) returns (i: nat)
    requires GoodContext(cxt) && AllFit(cxt, lines) && !AllNarrow(cxt, lines)
    ensures var shifts := SourceShifts(SourceOf(cxt), lines);
            i < |shifts| && shifts[i].IrShift? && shifts[i].bits >= 256
    decreases |lines|
  {
    hide SourceOf, GoodContext, CompileLine, Fits, LineShift, SourceAfter, Narrow;
    var line := lines[0];
    FitsAcceptable(cxt, line);
    LineTracks(cxt, line);
    var next := CompileLine(cxt, line).0;
    var here := if line.IsBody() then [LineShift(SourceOf(next), line)] else [];
    assert SourceShifts(SourceOf(cxt), lines) == here + SourceShifts(SourceOf(next), lines[1..]);
    assert AllFit(next, lines[1..]) && (Narrow(cxt, line) ==> !AllNarrow(next, lines[1..]));
    hide SourceShifts, AllFit, AllNarrow;
    if !Narrow(cxt, line) {
      i := 0;
    } else {
      i := LongInstruction(next, lines[1..]);
      i := |here| + i;
    }
  }

  lemma LineTracks(cxt: Context, line: Line)
    requires GoodContext(cxt) && Fits(cxt, line)
    ensures Acceptable(cxt, line)
    ensures var next := CompileLine(cxt, line).0;
            && GoodContext(next) && SourceOf(next) == SourceAfter(SourceOf(cxt), line)
            && (!Narrow(cxt, line) ==>
                  line.IsBody() && var shift := LineShift(SourceOf(next), line); shift.IrShift? && shift.bits >= 256)
  {
    hide FieldsOf, GoodStores, OperandsFit, OperandsSized, Splice, IsAllZero, Interleaved;
    if line.ShiftLine? {
      StoresTrack(if line.register == Data then cxt.data else cxt.insn, line.part, line.length, line.ops);
    }
  }

  lemma SameZip(a: seq<Shift>, x: seq<nat>, b: seq<Shift>, y: seq<nat>)
    requires |a| == |x| && |b| == |y|
    ensures Zip(a, x) == Zip(b, y) <==> a == b && x == y
  {
    var p, q := Zip(a, x), Zip(b, y);
    if p == q {
      assert forall i :: 0 <= i < |a| ==> p[i] == q[i];
      assert forall i :: 0 <= i < |a| ==> a[i] == p[i].shift && x[i] == p[i].wait;
      assert forall i :: 0 <= i < |b| ==> b[i] == q[i].shift && y[i] == q[i].wait;
    }
  }

  // The compiler is right about a program exactly when the program's RUNTEST lines stand
  // where they can be moved, no padding bit of a mask adds to a comparison, and no instruction
  // register has more than 255 bits or is to be compared: then the conversion succeeds and the
  // player makes the intended shifts, judged as intended, with the intended waits after them
  // and none before, and otherwise not. That is for every program whose operands fit their
  // lengths, and for whatever is in the player's mask buffer at first.
  lemma CompilerExact(lines: seq<Line>, memory: seq<byte>)
    requires AllFit(EMPTY_CONTEXT, lines)
    ensures (&& SourceIdle(lines).lead == 0
             && Decode(Parsed(lines), None).end == Complete
             && Events(Regs(0, memory), 0, Decode(Converted(lines), Some(0)).cmds) == Intended(lines))
        <==> && RunTestsPlaced(lines, START)
             && AllCovered(EMPTY_CONTEXT, lines)
             && AllNarrow(EMPTY_CONTEXT, lines)
             && AllUnjudged(EMPTY_CONTEXT, lines)
  {
    hide AllSized, Decode, EncodeAll, Reordered, Compile, AllFit, Parsed, Converted, Shifts, SourceShifts,
         SourceIdle, WaitsHere, WaitsAfterEach, Events, AllCovered, AllNarrow, AllUnjudged, RunTestsPlaced, Placed, Zip;
    var r, parsed := Regs(0, memory), Decode(Parsed(lines), None).cmds;
    var out := Reordered(parsed, ILLEGAL32);
    GoodStart();
    ConvertedDecodes(lines, Some(0));
    EventsAreZipped(r, 0, out);
    AsManyShifts(NO_SOURCE, lines);
    SameZip(Shifts(r, out), WaitsAfterEach(out, 0), SourceShifts(NO_SOURCE, lines), SourceIdle(lines).after);
    if AllNarrow(EMPTY_CONTEXT, lines) {
      ReorderedShifts(r, None, parsed, ILLEGAL32);
      ProgramShifts(EMPTY_CONTEXT, r, lines);
      ProgramWaits(EMPTY_CONTEXT, lines, START);
      ReorderedMeaning(parsed, ILLEGAL32, 0, true);
    } else {
      var i := LongInstruction(EMPTY_CONTEXT, lines);
      if Shifts(r, out) == SourceShifts(NO_SOURCE, lines) {
        ShortInstructions(r, out, i);
      }
    }
  }

  // ---------- The conversion as it runs ----------

  lemma CompileOneMore(cxt: Context, lines: seq<Line>, i: nat)
    requires i < |lines| && AllFit(cxt, lines[i..])
    ensures Acceptable(cxt, lines[i])
    ensures var (next, cmds) := CompileLine(cxt, lines[i]);
            AllFit(next, lines[i + 1..]) && Compile(cxt, lines[i..]) == cmds + Compile(next, lines[i + 1..])
  {
    hide CompileLine, Fits;
    FitsAcceptable(cxt, lines[i..][0]);
    assert lines[i..][1..] == lines[i + 1..];
  }

  // Parse every line.
  method ParseAll(lines: seq<Line>, csvfBuf: Buffer) returns (numCommands: nat)
    requires csvfBuf.Valid() && csvfBuf.Contents() == []
    requires AllFit(EMPTY_CONTEXT, lines)
    modifies csvfBuf, csvfBuf.data
    ensures csvfBuf.Valid() && (csvfBuf.data == old(csvfBuf.data) || fresh(csvfBuf.data))
    ensures csvfBuf.Contents() == EncodeAll(Compile(EMPTY_CONTEXT, lines))
    ensures numCommands == |Compile(EMPTY_CONTEXT, lines)|
  {
    hide EncodeAll, Compile, AllFit, CompileLine, Acceptable, Buffer.Contents,
         SvfCompiler.ParseContext.View, SvfCompiler.ParseContext.Valid;
    ghost var all := Compile(EMPTY_CONTEXT, lines);
    var cxt := new SvfCompiler.ParseContext();
    ghost var done: seq<Cmd> := [];
    SvfCompiler.EncodeNone();
    assert lines[0..] == lines && [] + all == all;
    var i := 0;
    while i < |lines|
      invariant 0 <= i <= |lines|
      invariant cxt.Valid() && fresh(cxt) && fresh(cxt.StoreSet())
      invariant csvfBuf.Valid() && (csvfBuf.data == old(csvfBuf.data) || fresh(csvfBuf.data))
      invariant AllFit(cxt.View(), lines[i..]) && all == done + Compile(cxt.View(), lines[i..])
      invariant csvfBuf.Contents() == EncodeAll(done) && cxt.numCommands == |done|
    {
      ghost var view := cxt.View();
      CompileOneMore(view, lines, i);
      cxt.ParseLine(lines[i], csvfBuf);
      ghost var cmds := CompileLine(view, lines[i]).1;
      EncodeConcat(done, cmds);
      assert done + (cmds + Compile(cxt.View(), lines[i + 1..])) == (done + cmds) + Compile(cxt.View(), lines[i + 1..]);
      done := done + cmds;
      i := i + 1;
    }
    NothingCompiled(cxt.View(), lines[i..]);
    assert done + [] == done;
    numCommands := cxt.numCommands;
  }

  // Whether the index of the parsed stream stays within its arrays. It does when every
  // instruction register is short enough; a longer one makes the stream be taken for other
  // commands than were counted.
  predicate Indexable(lines: seq<Line>)
    requires AllFit(EMPTY_CONTEXT, lines)
  {
    var d, n := Decode(Parsed(lines), None), |Compile(EMPTY_CONTEXT, lines)|;
    d.end != Truncated && |d.cmds| <= n && (d.end == Complete ==> |d.cmds| == n)
  }

  lemma NarrowIsIndexable(lines: seq<Line>)
    requires AllFit(EMPTY_CONTEXT, lines) && AllNarrow(EMPTY_CONTEXT, lines)
    ensures Indexable(lines) && Decode(Parsed(lines), None).end == Complete
  {
    hide Decode, Parsed, Compile, AllFit, AllNarrow;
    ConvertedDecodes(lines, None);
  }

  // Parse every line, end the stream, and reorder it.
  method ConvertSvf(lines: seq<Line>, csvfBuf: Buffer) returns (status: BuildIndex.Status)
    requires csvfBuf.Valid() && csvfBuf.Contents() == []
    requires AllFit(EMPTY_CONTEXT, lines) && Indexable(lines)
    modifies csvfBuf, csvfBuf.data
    ensures csvfBuf.Valid()
    ensures status == BuildIndex.Success <==> Decode(Parsed(lines), None).end == Complete
    ensures csvfBuf.Contents() == if status == BuildIndex.Success then Converted(lines) else Parsed(lines)
  {
    hide AllSized, Decode, EncodeAll, Reordered, Compile, AllFit;
    var numCommands := ParseAll(lines, csvfBuf);
    csvfBuf.AppendByte(XCOMPLETE);
    status := BuildIndex.BuildIndex(numCommands + 1, csvfBuf);
  }

  lemma NothingCompiled(cxt: Context, lines: seq<Line>)
    requires lines == []
    ensures Compile(cxt, lines) == []
  {
  }

  // ---------- Room in the player's buffers ----------

  // Whether buffers of n bytes are enough for the comparison that a line asks for, if any. One
  // that cares for no bit is not made.
  predicate RoomFor(cxt: Context, line: Line, n: nat)
  {
    line.IsBody() && line.register == Data && line.ops.tdo.Some? ==>
      var s := cxt.data.After(Body, line.length, line.ops);
      FieldsOf(s).Mask() != 0 ==> BitsToBytes(s.Total()) <= n
  }

  predicate AllRoomFor(cxt: Context, lines: seq<Line>, n: nat)
    requires AllAcceptable(cxt, lines)
    decreases |lines|
  {
    lines == [] || (RoomFor(cxt, lines[0], n) && AllRoomFor(CompileLine(cxt, lines[0]).0, lines[1..], n))
  }

  // A mask and a comparison are sent for a data shift exactly when the comparison cares for
  // something; and they are as long as the register.
  lemma DataRoom(cxt: Context, s: Stores, checked: bool, n: nat)
    requires GoodStores(s) && s.Total() < 0x1_0000_0000
    ensures AllFitIn(CompileData(cxt, s, checked).1, n)
       <==> (checked && FieldsOf(s).Mask() != 0 ==> BitsToBytes(s.Total()) <= n)
  {
    hide GoodStores, FieldsOf, SplicedMask, SplicedTdi, SplicedTdo, IsAllZero, Interleaved, Reversed, BitsToBytes,
         AllFitIn, EffectiveMask, MaskCovered;
    ZeroMaskExact(s);
    EffectiveMaskExact(s);
    var cmds, c := CompileData(cxt, s, checked).1, DataCommand(s, checked);
    var size := SizeCommand(s.Total(), cxt.curLength);
    var mask := cmds[|size|..|cmds| - 1];
    assert cmds == size + mask + [c];
    FitConcat(size + mask, [c], n);
    FitConcat(size, mask, n);
    FitOne(XSdrSize(s.Total()), n);
    FitOne(XTdoMask(Reversed(SplicedMask(s))), n);
    FitOne(c, n);
  }

  lemma LineRoom(cxt: Context, line: Line, n: nat)
    requires GoodContext(cxt) && Fits(cxt, line)
    ensures Acceptable(cxt, line) && (AllFitIn(CompileLine(cxt, line).1, n) <==> RoomFor(cxt, line, n))
  {
    hide GoodStores, FieldsOf, OperandsFit, OperandsSized, CompileData, AllFitIn, BitsToBytes, Splice;
    match line
    case RunTest(count) =>
      FitOne(XRunTest(count), n);
    case ShiftLine(Data, part, length, ops) =>
      FitOne(XRunTest(0), n);
      if part == Body {
        StoresTrack(cxt.data, part, length, ops);
        DataTotal(cxt.data, length, ops);
        DataRoom(cxt, cxt.data.After(Body, length, ops), ops.tdo.Some?, n);
      }
    case ShiftLine(Insn, part, length, ops) =>
      FitOne(CompileInsn(cxt.insn.After(part, length, ops)), n);
  }

  lemma {:induction false} ProgramRoom(cxt: Context, lines: seq<Line>, n: nat)
    requires GoodContext(cxt) && AllFit(cxt, lines)
    ensures AllFitIn(Compile(cxt, lines), n) <==> AllRoomFor(cxt, lines, n)
    decreases |lines|
  {
    hide GoodContext, CompileLine, Fits, RoomFor, FitsIn;
    if lines != [] {
      var line := lines[0];
      LineRoom(cxt, line, n);
      LineTracks(cxt, line);
      var (next, cmds) := CompileLine(cxt, line);
      ProgramRoom(next, lines[1..], n);
      FitConcat(cmds, Compile(next, lines[1..]), n);
    }
  }

  lemma {:induction false} RunTestAside(cmds: seq<Cmd>, c: Cmd)
    ensures c in WithoutRunTest(cmds) <==> c in cmds && !c.XRunTest?
  {
    if cmds != [] {
      RunTestAside(cmds[1..], c);
      assert c in cmds <==> c == cmds[0] || c in cmds[1..];
    }
  }

  // Moving the XRUNTESTs takes no room and frees none.
  lemma ReorderedRoom(cmds: seq<Cmd>, n: nat)
    ensures AllFitIn(Reordered(cmds, ILLEGAL32), n) <==> AllFitIn(cmds, n)
  {
    hide Reordered, WithoutRunTest;
    OrderKept(cmds, ILLEGAL32);
    forall c: Cmd
      ensures !c.XRunTest? ==> (c in Reordered(cmds, ILLEGAL32) <==> c in cmds)
    {
      RunTestAside(cmds, c);
      RunTestAside(Reordered(cmds, ILLEGAL32), c);
    }
  }

  // Buffers of n bytes hold every command of what the compiler wrote exactly when they hold
  // every register that is compared. The compiler does not look.
  lemma ConvertedRoom(lines: seq<Line>, n: nat)
    requires AllFit(EMPTY_CONTEXT, lines) && AllNarrow(EMPTY_CONTEXT, lines)
    ensures Decode(Converted(lines), Some(0)).end == Complete
    ensures AllFitIn(Decode(Converted(lines), Some(0)).cmds, n) <==> AllRoomFor(EMPTY_CONTEXT, lines, n)
  {
    hide Decode, Parsed, Converted, Compile, Reordered, AllFit, AllRoomFor, AllNarrow, AllFitIn;
    ConvertedDecodes(lines, Some(0));
    GoodStart();
    ProgramRoom(EMPTY_CONTEXT, lines, n);
    ReorderedRoom(Compile(EMPTY_CONTEXT, lines), n);
  }

  // The player can be run on a program that is compiled right exactly when the registers that
  // are compared fit its buffers; and then what any device sees of it is what it would see if
  // the intended events were played directly.
  lemma DeviceSeesIntended(lines: seq<Line>, device: Device, log: seq<Op>, memory: seq<byte>)
    requires AllFit(EMPTY_CONTEXT, lines) && RunTestsPlaced(lines, START) && AllCovered(EMPTY_CONTEXT, lines)
    requires AllNarrow(EMPTY_CONTEXT, lines) && AllUnjudged(EMPTY_CONTEXT, lines)
    ensures var intended := PlayAll(device, log + [ClockFsm(0x1F, 6)], Intended(lines));
            && (CsvfPlay.CanPlay(Converted(lines)) <==> AllRoomFor(EMPTY_CONTEXT, lines, BUF_SIZE))
            && (AllRoomFor(EMPTY_CONTEXT, lines, BUF_SIZE) ==>
                  CsvfPlay.Played(device, log, memory, Converted(lines))
                  == (intended, if intended.ok then CsvfPlay.Success else CsvfPlay.CompareFailed))
  {
    hide Decode, Parsed, Converted, Events, Intended, PlayAll, AllFit, RunTestsPlaced, AllCovered, AllNarrow,
         AllUnjudged, AllRoomFor;
    CompilerExact(lines, memory);
    ConvertedDecodes(lines, Some(0));
    ConvertedRoom(lines, BUF_SIZE);
  }

  // And what any device gets in its registers, read off the log, is what the program intends:
  // these bits in this register, this often, and then this many clocks of idling; as long as
  // no unjudged instruction shift of no bits is intended.
  lemma RegistersTakeIntended(lines: seq<Line>, device: Device, log: seq<Op>, memory: seq<byte>)
    requires AllFit(EMPTY_CONTEXT, lines) && RunTestsPlaced(lines, START) && AllCovered(EMPTY_CONTEXT, lines)
    requires AllNarrow(EMPTY_CONTEXT, lines) && AllUnjudged(EMPTY_CONTEXT, lines)
    requires AllRoomFor(EMPTY_CONTEXT, lines, BUF_SIZE) && AllIdle(Intended(lines))
    ensures CsvfPlay.CanPlay(Converted(lines))
    ensures SeenOf(device, log, CsvfPlay.Played(device, log, memory, Converted(lines)).0, Intended(lines))
  {
    hide Parsed, Converted, Intended, PlayAll, AllFit, RunTestsPlaced, AllCovered, AllNarrow, AllUnjudged, AllRoomFor,
         AllIdle, SeenOf, CsvfPlay.CanPlay, CsvfPlay.Played;
    DeviceSeesIntended(lines, device, log, memory);
    EventsSeen(device, log, Intended(lines));
  }
}
