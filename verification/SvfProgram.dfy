// Whole SVF programs: shifts, waits and sizes of everything the compiler emits.
module SvfProgram {
  import opened Bytes
  import opened Csvf
  import opened Trace
  import opened ProcessIndex
  import opened Svf
  import opened SvfSource
  import opened SvfCorrect

  // ---------- What the commands of one line do ----------

  // The size in force, as the compiler remembers it.
  function NumBytesOf(cxt: Context): Option<nat>
  {
    if cxt.curLength == 0 then None else Some(BitsToBytes(cxt.curLength))
  }

  // The commands of a data register shift, taken one by one.
  lemma StepSize(r: Regs, numBytes: Option<nat>, total: Long, curLength: nat, rest: seq<Cmd>)
    requires r.xsdrSize == curLength && total > 0
    requires numBytes == if curLength == 0 then None else Some(BitsToBytes(curLength))
    ensures var cmds := SizeCommand(total, curLength) + rest;
            && Shifts(r, cmds) == Shifts(r.(xsdrSize := total), rest)
            && RegsAfter(r, cmds) == RegsAfter(r.(xsdrSize := total), rest)
            && (AllSized(cmds, numBytes) <==> AllSized(rest, Some(BitsToBytes(total))))
            && NumBytesAfter(numBytes, cmds) == NumBytesAfter(Some(BitsToBytes(total)), rest)
  {
    hide ShiftOf, BitsToBytes;
    var cmds := SizeCommand(total, curLength) + rest;
    if total != curLength {
      assert cmds[0] == XSdrSize(total) && cmds[1..] == rest;
      assert Next(r, XSdrSize(total)) == r.(xsdrSize := total);
    } else {
      assert cmds == rest;
    }
  }

  lemma StepMask(r: Regs, n: nat, mask: seq<byte>, rest: seq<Cmd>)
    requires |mask| == n
    ensures var cmds := [XTdoMask(mask)] + rest;
            && Shifts(r, cmds) == Shifts(r.(mask := Overlay(r.mask, mask)), rest)
            && RegsAfter(r, cmds) == RegsAfter(r.(mask := Overlay(r.mask, mask)), rest)
            && (AllSized(cmds, Some(n)) <==> AllSized(rest, Some(n)))
            && NumBytesAfter(Some(n), cmds) == NumBytesAfter(Some(n), rest)
    ensures mask <= Overlay(r.mask, mask)
  {
    hide ShiftOf;
    var cmds := [XTdoMask(mask)] + rest;
    assert cmds[0] == XTdoMask(mask) && cmds[1..] == rest;
    assert Next(r, XTdoMask(mask)) == r.(mask := Overlay(r.mask, mask));
  }

  lemma StepShift(r: Regs, n: Option<nat>, c: Cmd)
    requires c.IsShift()
    ensures Shifts(r, [c]) == [ShiftOf(r, c)] && RegsAfter(r, [c]) == r
    ensures AllSized([c], n) <==> Sized(c, n)
    ensures NumBytesAfter(n, [c]) == n
  {
    hide ShiftOf, Sized;
    assert [c][1..] == [];
    assert Shifts(r, []) == [];
  }

  // One emitted data register shift, with whatever commands it needs in front.
  lemma DataLineCorrect(cxt: Context, s: Stores, checked: bool, r: Regs)
    requires GoodStores(s) && Agree(cxt, r) && 0 < s.Total() < 0x1_0000_0000
    ensures var (next, cmds) := CompileData(cxt, s, checked);
            && |Shifts(r, cmds)| == 1
            && (Shifts(r, cmds)[0] == DataShift(FieldsOf(s), checked)
                <==> (checked ==> MaskCovered(s, FieldsOf(s).Mask())))
            && Agree(next, RegsAfter(r, cmds))
            && AllSized(cmds, NumBytesOf(cxt)) && NumBytesAfter(NumBytesOf(cxt), cmds) == NumBytesOf(next)
  {
    hide ShiftOf, BitsToBytes, MaskCovered, Splice, IsAllZero, Interleaved, SizeCommand, Overlay;
    var (next, cmds) := CompileData(cxt, s, checked);
    var mask, total := SplicedMask(s), s.Total();
    var n := BitsToBytes(total);
    var written := cxt.newMaskWritten && mask == cxt.curMask;
    var c := DataCommand(s, checked);
    var sized := r.(xsdrSize := total);
    var needsMask := Compares(s, checked) && !written;
    var rest := (if needsMask then [XTdoMask(Reversed(mask))] else []) + [c];
    assert cmds == SizeCommand(total, cxt.curLength) + rest;
    StepSize(r, NumBytesOf(cxt), total, cxt.curLength, rest);
    var ready := if needsMask then sized.(mask := Overlay(sized.mask, Reversed(mask))) else sized;
    if needsMask {
      StepMask(sized, n, Reversed(mask), [c]);
    } else {
      assert [] + [c] == [c];
    }
    StepShift(ready, Some(n), c);
    DataShiftExact(s, ready, checked);
  }

  lemma InsnLineCorrect(s: Stores, checked: bool, r: Regs, numBytes: Option<nat>)
    requires GoodStores(s)
    ensures var c := CompileInsn(s);
            && |Shifts(r, [c])| == 1
            && (Shifts(r, [c])[0] == InsnShift(FieldsOf(s), checked)
                <==> s.Total() < 256 && (checked ==> FieldsOf(s).Mask() == 0))
            && RegsAfter(r, [c]) == r
            && (AllSized([c], numBytes) <==> s.Total() < 256) && NumBytesAfter(numBytes, [c]) == numBytes
  {
    hide ShiftOf, Splice, InsnShift, FieldsOf, Shifts, AllSized, NumBytesAfter, RegsAfter, BitsToBytes;
    InsnShiftExact(s, r, checked);
    StepShift(r, numBytes, CompileInsn(s));
  }

  // ---------- Whole programs ----------

  // Lines whose operands fit their declared lengths.
  predicate Fits(cxt: Context, line: Line)
  {
    Acceptable(cxt, line) && (line.ShiftLine? ==> OperandsFit(line.length, line.ops))
  }

  predicate AllFit(cxt: Context, lines: seq<Line>)
    ensures AllFit(cxt, lines) ==> AllAcceptable(cxt, lines)
    decreases |lines|
  {
    lines == [] || (Fits(cxt, lines[0]) && AllFit(CompileLine(cxt, lines[0]).0, lines[1..]))
  }

  // Whether the instruction register that a line shifts, if any, fits the byte that XSIR has
  // for its length.
  predicate Narrow(cxt: Context, line: Line)
  {
    line.IsBody() && line.register == Insn ==> cxt.insn.After(Body, line.length, line.ops).Total() < 256
  }

  predicate AllNarrow(cxt: Context, lines: seq<Line>)
    requires AllAcceptable(cxt, lines)
    decreases |lines|
  {
    lines == [] || (Narrow(cxt, lines[0]) && AllNarrow(CompileLine(cxt, lines[0]).0, lines[1..]))
  }

  // Whether a line asks for a comparison of an instruction register, which is not made.
  predicate Unjudged(cxt: Context, line: Line)
  {
    line.IsBody() && line.register == Insn && line.ops.tdo.Some? ==>
      FieldsOf(cxt.insn.After(Body, line.length, line.ops)).Mask() == 0
  }

  predicate AllUnjudged(cxt: Context, lines: seq<Line>)
    requires AllAcceptable(cxt, lines)
    decreases |lines|
  {
    lines == [] || (Unjudged(cxt, lines[0]) && AllUnjudged(CompileLine(cxt, lines[0]).0, lines[1..]))
  }

  // Whether the comparison that a line asks for, if any, uses the mask the line intends.
  ghost predicate Covered(cxt: Context, line: Line)
  {
    line.IsBody() && line.register == Data && line.ops.tdo.Some? ==>
      var s := cxt.data.After(Body, line.length, line.ops);
      MaskCovered(s, FieldsOf(s).Mask())
  }

  ghost predicate AllCovered(cxt: Context, lines: seq<Line>)
    requires AllAcceptable(cxt, lines)
    decreases |lines|
  {
    lines == [] || (Covered(cxt, lines[0]) && AllCovered(CompileLine(cxt, lines[0]).0, lines[1..]))
  }

  predicate GoodContext(cxt: Context)
  {
    GoodStores(cxt.data) && GoodStores(cxt.insn)
  }

  // Everything about one line: state, registers and sizes stay in step, and it makes the
  // shift it should, if any, exactly when its masks are covered, its length fits and no
  // comparison of an instruction register is asked for.
  ghost predicate LineCorrect(cxt: Context, r: Regs, line: Line)
    requires Acceptable(cxt, line)
  {
    var (next, cmds) := CompileLine(cxt, line);
    && GoodContext(next) && SourceOf(next) == SourceAfter(SourceOf(cxt), line)
    && Agree(next, RegsAfter(r, cmds))
    && (AllSized(cmds, NumBytesOf(cxt)) <==> Narrow(cxt, line))
    && NumBytesAfter(NumBytesOf(cxt), cmds) == NumBytesOf(next)
    && |Shifts(r, cmds)| == (if line.IsBody() then 1 else 0)
    && (line.IsBody() ==>
          (Shifts(r, cmds)[0] == LineShift(SourceOf(next), line)
           <==> Covered(cxt, line) && Narrow(cxt, line) && Unjudged(cxt, line)))
  }

  lemma NothingEmitted(r: Regs, numBytes: Option<nat>, cmds: seq<Cmd>)
    requires cmds == [] || exists count :: cmds == [XRunTest(count)]
    ensures Shifts(r, cmds) == [] && RegsAfter(r, cmds) == r
    ensures AllSized(cmds, numBytes) && NumBytesAfter(numBytes, cmds) == numBytes
  {
    if cmds != [] {
      assert cmds[1..] == [];
    }
  }

  lemma CompileLineCorrect(cxt: Context, r: Regs, line: Line)
    requires GoodContext(cxt) && Agree(cxt, r) && Fits(cxt, line)
    ensures LineCorrect(cxt, r, line)
  {
    hide Shifts, AllSized, NumBytesAfter, RegsAfter, FieldsOf, GoodStores, OperandsFit, OperandsSized, MaskCovered;
    hide CompileData, CompileInsn, DataShift, InsnShift;
    match line
    case RunTest(count) =>
      NothingEmitted(r, NumBytesOf(cxt), [XRunTest(count)]);
    case ShiftLine(Data, part, length, ops) =>
      StoresTrack(cxt.data, part, length, ops);
      if part == Body {
        var s := cxt.data.After(Body, length, ops);
        DataTotal(cxt.data, length, ops);
        DataLineCorrect(cxt, s, ops.tdo.Some?, r);
        DataContext(cxt, s, ops.tdo.Some?);
      } else {
        NothingEmitted(r, NumBytesOf(cxt), []);
      }
    case ShiftLine(Insn, part, length, ops) =>
      StoresTrack(cxt.insn, part, length, ops);
      if part == Body {
        InsnLineCorrect(cxt.insn.After(Body, length, ops), ops.tdo.Some?, r, NumBytesOf(cxt));
      } else {
        NothingEmitted(r, NumBytesOf(cxt), []);
      }
  }

  lemma DataTotal(s: Stores, length: nat, ops: Operands)
    ensures s.After(Body, length, ops).Total() == s.head.numBits + length + s.tail.numBits
  {
  }

  lemma DataContext(cxt: Context, s: Stores, checked: bool)
    requires s.Total() < 0x1_0000_0000
    ensures CompileData(cxt, s, checked).0.data == s && CompileData(cxt, s, checked).0.insn == cxt.insn
  {
  }

  lemma SameHeads<T>(a: seq<T>, x: seq<T>, b: seq<T>, y: seq<T>)
    requires |a| == |b| <= 1
    ensures a + x == b + y <==> (a != [] ==> a[0] == b[0]) && x == y
  {
    assert (a + x)[|a|..] == x && (b + y)[|b|..] == y;
    assert a != [] ==> a == [a[0]] && b == [b[0]] && (a + x)[0] == a[0] && (b + y)[0] == b[0];
  }

  // For every program: the compiled shifts are the intended ones exactly when no mask's
  // padding adds to a comparison, no instruction register is too long and none is to be
  // compared; payload sizes are right exactly when none is too long.
  lemma {:induction false} ProgramShifts(cxt: Context, r: Regs, lines: seq<Line>)
    requires GoodContext(cxt) && Agree(cxt, r) && AllFit(cxt, lines)
    ensures Shifts(r, Compile(cxt, lines)) == SourceShifts(SourceOf(cxt), lines)
       <==> AllCovered(cxt, lines) && AllNarrow(cxt, lines) && AllUnjudged(cxt, lines)
    ensures AllSized(Compile(cxt, lines), NumBytesOf(cxt)) <==> AllNarrow(cxt, lines)
    decreases |lines|
  {
    hide Shifts, RegsAfter, AllSized, NumBytesAfter, NumBytesOf, SourceOf, Covered, Narrow, Unjudged, Fits, GoodContext,
         Agree, CompileLine;
    hide LineShift, SourceAfter;
    if lines == [] {
      NothingEmitted(r, NumBytesOf(cxt), []);
    } else {
      var line, rest := lines[0], lines[1..];
      FitsAcceptable(cxt, line);
      CompileLineCorrect(cxt, r, line);
      var (next, cmds) := CompileLine(cxt, line);
      var r' := RegsAfter(r, cmds);
      ProgramShifts(next, r', rest);
      ShiftsConcat(r, cmds, Compile(next, rest));
      SizedConcat(NumBytesOf(cxt), cmds, Compile(next, rest));
      var source := if line.IsBody() then [LineShift(SourceOf(next), line)] else [];
      SameHeads(Shifts(r, cmds), Shifts(r', Compile(next, rest)), source, SourceShifts(SourceOf(next), rest));
      NoComparison(cxt, line);
    }
  }

  lemma FitsAcceptable(cxt: Context, line: Line)
    requires Fits(cxt, line)
    ensures Acceptable(cxt, line)
  {
  }

  lemma NoComparison(cxt: Context, line: Line)
    ensures !line.IsBody() ==> Covered(cxt, line) && Narrow(cxt, line) && Unjudged(cxt, line)
  {
  }

  // ---------- RUNTEST ----------

  // A shift and the commands it needs in front, none of which is an XRUNTEST.
  predicate ShiftCommands(cmds: seq<Cmd>)
  {
    |cmds| > 0 && cmds[|cmds| - 1].IsShift()
    && forall i :: 0 <= i < |cmds| - 1 ==> !cmds[i].XRunTest? && !cmds[i].IsShift()
  }

  lemma {:induction false} ReadShiftCommands(cmds: seq<Cmd>, rest: seq<Cmd>, place: Place)
    requires ShiftCommands(cmds)
    ensures WaitsHere(cmds + rest) == Idle(0, [WaitsHere(rest).lead] + WaitsHere(rest).after)
    ensures Placed(cmds + rest, place) <==> Placed(rest, (if place.canOwn then ANYWHERE else place).(canOwn := true))
    decreases |cmds|
  {
    hide WaitsHere, Placed;
    var c, tail := cmds[0], cmds[1..];
    assert cmds + rest == [c] + (tail + rest);
    ReadOneHere(c, tail + rest);
    PlacedCons(c, tail + rest, place);
    if tail == [] {
      assert tail + rest == rest;
    } else {
      ReadShiftCommands(tail, rest, if place.canOwn then ANYWHERE else place);
    }
  }

  lemma LineCommands(cxt: Context, line: Line)
    requires Acceptable(cxt, line)
    ensures var cmds := CompileLine(cxt, line).1;
            if line.RunTest? then cmds == [XRunTest(line.count)]
            else if line.IsBody() then ShiftCommands(cmds)
            else cmds == []
  {
    hide Splice, IsAllZero, Interleaved, StoreAfter;
  }

  // The compiled XRUNTESTs wait where the RUNTEST lines wait, and stand where they stand.
  lemma {:induction false} ProgramWaits(cxt: Context, lines: seq<Line>, place: Place)
    requires AllAcceptable(cxt, lines)
    ensures WaitsHere(Compile(cxt, lines)) == SourceIdle(lines)
    ensures Placed(Compile(cxt, lines), place) <==> RunTestsPlaced(lines, place)
    decreases |lines|
  {
    if lines == [] {
      PlacedNothing(place);
    } else {
      hide WaitsHere, Placed, CompileLine, Acceptable, ShiftCommands;
      var line := lines[0];
      LineCommands(cxt, line);
      var (next, cmds) := CompileLine(cxt, line);
      var rest := Compile(next, lines[1..]);
      if line.RunTest? {
        ReadOneHere(cmds[0], rest);
        PlacedCons(cmds[0], rest, place);
        ProgramWaits(next, lines[1..], if place.canOwn then ANYWHERE else place.(stray := true));
      } else if line.IsBody() {
        ReadShiftCommands(cmds, rest, place);
        ProgramWaits(next, lines[1..], (if place.canOwn then ANYWHERE else place).(canOwn := true));
      } else {
        assert cmds + rest == rest;
        ProgramWaits(next, lines[1..], place);
      }
    }
  }
}
