// What the XSVF compiler writes, byte by byte and as CSVF commands.
module XsvfCompile {
  import opened Bytes
  import opened Buffers
  import opened Csvf
  import opened Xsvf

  datatype XStatus = XSuccess | UnsupportedSize | UnsupportedData | UnsupportedCmd

  // ---------- Byte by byte ----------

  // The size last read and the size last written, where that was written, whether the last
  // mask was dropped, the bytes written, and the buffers that playing them needs.
  datatype XState = XState(newX: Long, curX: Long, totOffset: nat, zeroMask: bool, out: seq<byte>, maxBuf: nat)

  const INITIAL := XState(0, 0, 0, false, [], 0)

  datatype XOutcome = XOutcome(st: XState, status: XStatus)

  function SizeBytes(size: Long): seq<byte>
  {
    [XSDRSIZE] + LongBE(size)
  }

  // Write the size if it differs from the one last written.
  function Synced(st: XState): XState
  {
    if st.newX != st.curX then st.(curX := st.newX, out := st.out + SizeBytes(st.newX)) else st
  }

  function Wrote(st: XState, bytes: seq<byte>): XState
  {
    st.(out := st.out + bytes)
  }

  // A command whose operands the player has to keep.
  function Kept(st: XState, bytes: seq<byte>): XState
  {
    var n := BitsToBytes(st.curX);
    Wrote(st.(maxBuf := if n > st.maxBuf then n else st.maxBuf), bytes)
  }

  // More bits for the shift under way: patch the size written for it.
  function Extended(st: XState, tdi: seq<byte>): XState
  {
    var total: Long := (st.curX + st.newX) % 0x1_0000_0000;
    Wrote(st.(curX := total, out := Overwrite(st.out, 0, st.totOffset, LongBE(total))), Reversed(tdi))
  }

  function XStep(st: XState, c: XCmd): XOutcome
  {
    match c
    case TdoMask(mask) =>
      var s := Synced(st);
      XOutcome(if IsAllZero(mask) then s.(zeroMask := true)
               else Kept(s.(zeroMask := false), [XTDOMASK] + Reversed(mask)), XSuccess)
    case SdrTdo(tdi, tdo) =>
      var s := Synced(st);
      if s.zeroMask then XOutcome(Wrote(s, [XSDR] + Reversed(tdi)), XSuccess)
      else if BitsToBytes(s.curX) > BUF_SIZE then XOutcome(s, UnsupportedSize)
      else XOutcome(Kept(s, [XSDRTDO] + Interleaved(Reversed(tdi), Reversed(tdo))), XSuccess)
    case Repeats(_) => XOutcome(st, XSuccess)
    case RunTest(count) => XOutcome(Wrote(st, [XRUNTEST] + LongBE(count)), XSuccess)
    case Sir(numBits, tdi) => XOutcome(Wrote(st, [XSIR, numBits] + Reversed(tdi)), XSuccess)
    case SdrSize(size) => XOutcome(st.(newX := size), XSuccess)
    case Sdr(tdi) => XOutcome(Wrote(Synced(st), [XSDR] + Reversed(tdi)), XSuccess)
    case SdrBegin(tdi) =>
      var s := Wrote(st.(curX := st.newX), SizeBytes(st.newX));
      XOutcome(Wrote(s.(totOffset := |s.out| - 4), [XSDR] + Reversed(tdi)), XSuccess)
    case SdrContinue(tdi) => XOutcome(Extended(st, tdi), XSuccess)
    case SdrEnd(tdi) => XOutcome(Extended(st, tdi), XSuccess)
    case State(_) => XOutcome(st, XSuccess)
    case EndIr(state) => XOutcome(st, if state == 0 then XSuccess else UnsupportedData)
    case EndDr(state) => XOutcome(st, if state == 0 then XSuccess else UnsupportedData)
  }

  function XRun(st: XState, cmds: seq<XCmd>): XOutcome
    decreases |cmds|
  {
    if cmds == [] then XOutcome(st, XSuccess)
    else
      var o := XStep(st, cmds[0]);
      if o.status != XSuccess then o else XRun(o.st, cmds[1..])
  }

  // ---------- Command by command ----------

  // The same without the bytes; payload is that of the shift under way.
  datatype CState = CState(newX: Long, curX: Long, zeroMask: bool, payload: Option<seq<byte>>)

  const NOTHING := CState(0, 0, false, None)

  function SyncCmd(m: CState): seq<Cmd>
  {
    if m.newX != m.curX then [XSdrSize(m.newX)] else []
  }

  // The commands that are complete once c has been read.
  function COut(m: CState, c: XCmd): seq<Cmd>
  {
    match c
    case TdoMask(mask) => SyncCmd(m) + if IsAllZero(mask) then [] else [XTdoMask(Reversed(mask))]
    case SdrTdo(tdi, tdo) =>
      SyncCmd(m) + if m.zeroMask then [XSdr(Reversed(tdi))]
                   else [XSdrTdo(Interleaved(Reversed(tdi), Reversed(tdo)))]
    case RunTest(count) => [XRunTest(count)]
    case Sir(numBits, tdi) => [XSir(numBits, Reversed(tdi))]
    case Sdr(tdi) => SyncCmd(m) + [XSdr(Reversed(tdi))]
    case SdrEnd(tdi) =>
      if m.payload.None? then []
      else [XSdrSize((m.curX + m.newX) % 0x1_0000_0000), XSdr(m.payload.value + Reversed(tdi))]
    case _ => []
  }

  function CNext(m: CState, c: XCmd): CState
  {
    match c
    case TdoMask(mask) => m.(curX := m.newX, zeroMask := IsAllZero(mask))
    case SdrTdo(_, _) => m.(curX := m.newX)
    case SdrSize(size) => m.(newX := size)
    case Sdr(_) => m.(curX := m.newX)
    case SdrBegin(tdi) => m.(curX := m.newX, payload := Some(Reversed(tdi)))
    case SdrContinue(tdi) =>
      if m.payload.None? then m
      else m.(curX := (m.curX + m.newX) % 0x1_0000_0000, payload := Some(m.payload.value + Reversed(tdi)))
    case SdrEnd(_) => m.(curX := (m.curX + m.newX) % 0x1_0000_0000, payload := None)
    case _ => m
  }

  function Compiled(m: CState, cmds: seq<XCmd>): seq<Cmd>
    decreases |cmds|
  {
    if cmds == [] then [] else COut(m, cmds[0]) + Compiled(CNext(m, cmds[0]), cmds[1..])
  }

  // The bytes of a shift under way, which its end will add to.
  function UnderWay(m: CState): seq<byte>
  {
    if m.payload.None? then [] else SizeBytes(m.curX) + [XSDR] + m.payload.value
  }

  // The player has room for every comparison that is kept.
  predicate Comparable(m: CState, cmds: seq<XCmd>)
    decreases |cmds|
  {
    cmds == [] || ((cmds[0].SdrTdo? && !m.zeroMask ==> BitsToBytes(m.newX) <= BUF_SIZE)
                   && Comparable(CNext(m, cmds[0]), cmds[1..]))
  }

  // ---------- The bytes are the encoding of the commands ----------

  // The state with the bytes is the state without, and the bytes are those of the commands
  // done and of the shift under way.
  predicate Writes(st: XState, m: CState, done: seq<Cmd>)
  {
    && st.newX == m.newX && st.curX == m.curX && st.zeroMask == m.zeroMask
    && st.out == EncodeAll(done) + UnderWay(m)
    && (m.payload.Some? ==> st.totOffset == |EncodeAll(done)| + 1)
  }

  lemma EncodeTwo(c: Cmd, d: Cmd)
    ensures EncodeAll([c, d]) == Encode(c) + Encode(d)
  {
    hide Encode;
    assert [c, d][1..] == [d];
    EncodeOne(d);
  }

  lemma WritesSynced(st: XState, m: CState, done: seq<Cmd>)
    requires Writes(st, m, done) && m.payload.None?
    ensures Writes(Synced(st), m.(curX := m.newX), done + SyncCmd(m))
  {
    hide EncodeAll;
    if m.newX != m.curX {
      var size := XSdrSize(m.newX);
      EncodeConcat(done, [size]);
      EncodeOne(size);
      assert st.out == EncodeAll(done);
      assert Synced(st).out == EncodeAll(done) + SizeBytes(m.newX) == EncodeAll(done + [size]) + [];
    } else {
      assert done + SyncCmd(m) == done;
    }
  }

  lemma WritesMore(st: XState, m: CState, done: seq<Cmd>, c: Cmd)
    requires Writes(st, m, done) && m.payload.None?
    ensures Writes(Wrote(st, Encode(c)), m, done + [c])
  {
    hide EncodeAll, Encode;
    EncodeConcat(done, [c]);
    EncodeOne(c);
  }

  lemma WritesBegun(st: XState, m: CState, done: seq<Cmd>, tdi: seq<byte>)
    requires Writes(st, m, done) && m.payload.None?
    ensures Writes(XStep(st, SdrBegin(tdi)).st, CNext(m, SdrBegin(tdi)), done)
  {
    hide EncodeAll;
    assert EncodeAll(done) + [] == EncodeAll(done);
  }

  // Patching the size of the shift under way changes its four bytes and nothing else.
  lemma Patched(front: seq<byte>, from: Long, to: Long, rest: seq<byte>)
    ensures Overwrite(front + (SizeBytes(from) + rest), 0, |front| + 1, LongBE(to)) == front + (SizeBytes(to) + rest)
  {
    hide LongBE, Overwrite;
    var s := front + (SizeBytes(from) + rest);
    var r := Overwrite(s, 0, |front| + 1, LongBE(to));
    var want := front + (SizeBytes(to) + rest);
    forall i | 0 <= i < |s|
      ensures r[i] == want[i]
    {
      if |front| + 1 <= i < |front| + 5 {
        assert SizeBytes(to)[i - |front|] == LongBE(to)[i - |front| - 1];
      } else {
        assert s[i] == want[i];
      }
    }
  }

  lemma WritesExtended(st: XState, m: CState, done: seq<Cmd>, tdi: seq<byte>)
    requires Writes(st, m, done) && m.payload.Some?
    ensures var total := (m.curX + m.newX) % 0x1_0000_0000;
            Writes(Extended(st, tdi), m.(curX := total, payload := Some(m.payload.value + Reversed(tdi))), done)
  {
    hide EncodeAll, Overwrite, SizeBytes, LongBE;
    var front, p := EncodeAll(done), m.payload.value;
    var total: Long := (m.curX + m.newX) % 0x1_0000_0000;
    Reassociated(front, SizeBytes(m.curX), p, []);
    Patched(front, m.curX, total, [XSDR] + p);
    Reassociated(front, SizeBytes(total), p, Reversed(tdi));
  }

  lemma Reassociated(front: seq<byte>, size: seq<byte>, p: seq<byte>, more: seq<byte>)
    ensures front + (size + ([XSDR] + p)) + more == front + (size + [XSDR] + (p + more))
    ensures more == [] ==> front + (size + ([XSDR] + p)) == front + (size + [XSDR] + p)
  {
    assert size + ([XSDR] + p) == size + [XSDR] + p;
    assert size + [XSDR] + (p + more) == size + [XSDR] + p + more;
  }

  // The end of a shift in pieces turns the bytes under way into two commands.
  lemma WritesEnded(st: XState, m: CState, done: seq<Cmd>)
    requires Writes(st, m, done) && m.payload.Some?
    ensures Writes(st, m.(payload := None), done + [XSdrSize(m.curX), XSdr(m.payload.value)])
  {
    hide EncodeAll;
    var size, shift := XSdrSize(m.curX), XSdr(m.payload.value);
    EncodeConcat(done, [size, shift]);
    EncodeTwo(size, shift);
    assert UnderWay(m) == Encode(size) + Encode(shift);
  }

  // What a command may do while a shift is under way, or while none is.
  predicate InPlace(m: CState, c: XCmd)
  {
    match c
    case SdrContinue(_) => m.payload.Some?
    case SdrEnd(_) => m.payload.Some?
    case SdrSize(_) => true
    case Repeats(_) => true
    case State(_) => true
    case EndIr(_) => true
    case EndDr(_) => true
    case _ => m.payload.None?
  }

  lemma SameSizes(st: XState, m: CState, done: seq<Cmd>)
    requires Writes(st, m, done)
    ensures st.newX == m.newX && st.curX == m.curX && st.zeroMask == m.zeroMask
    ensures done + [] == done
  {
  }

  // One command: the bytes written stay the encoding of the commands that are complete.
  lemma WritesStep(st: XState, m: CState, done: seq<Cmd>, c: XCmd)
    requires Writes(st, m, done) && InPlace(m, c) && XStep(st, c).status == XSuccess
    ensures Writes(XStep(st, c).st, CNext(m, c), done + COut(m, c))
  {
    hide EncodeAll, Overwrite, SizeBytes, LongBE, Writes, Extended, Interleaved, BitsToBytes, IsAllZero;
    SameSizes(st, m, done);
    match c
    case TdoMask(mask) => WritesMask(st, m, done, mask);
    case SdrTdo(tdi, tdo) =>
      var shift := if m.zeroMask then XSdr(Reversed(tdi)) else XSdrTdo(Interleaved(Reversed(tdi), Reversed(tdo)));
      WritesShift(st, m, done, shift);
      WritesKept(Synced(st), m.(curX := m.newX), done + (SyncCmd(m) + [shift]), Encode(shift));
    case Sdr(tdi) => WritesShift(st, m, done, XSdr(Reversed(tdi)));
    case RunTest(count) => WritesMore(st, m, done, XRunTest(count));
    case Sir(numBits, tdi) => WritesMore(st, m, done, XSir(numBits, Reversed(tdi)));
    case SdrBegin(tdi) => WritesBegun(st, m, done, tdi);
    case SdrContinue(tdi) => WritesExtended(st, m, done, tdi);
    case SdrEnd(tdi) =>
      WritesExtended(st, m, done, tdi);
      var total: Long := (m.curX + m.newX) % 0x1_0000_0000;
      WritesEnded(Extended(st, tdi), m.(curX := total, payload := Some(m.payload.value + Reversed(tdi))), done);
    case _ => WritesQuietly(st, m, done, c);
  }

  lemma WritesKept(st: XState, m: CState, done: seq<Cmd>, bytes: seq<byte>)
    ensures Writes(Wrote(st, bytes), m, done) <==> Writes(Kept(st, bytes), m, done)
  {
    hide EncodeAll, BitsToBytes;
  }

  lemma WritesShift(st: XState, m: CState, done: seq<Cmd>, c: Cmd)
    requires Writes(st, m, done) && m.payload.None?
    ensures Writes(Wrote(Synced(st), Encode(c)), m.(curX := m.newX), done + (SyncCmd(m) + [c]))
  {
    hide Writes, Encode, Wrote, Synced, SyncCmd;
    WritesSynced(st, m, done);
    WritesMore(Synced(st), m.(curX := m.newX), done + SyncCmd(m), c);
    assert done + SyncCmd(m) + [c] == done + (SyncCmd(m) + [c]);
  }

  lemma WritesMask(st: XState, m: CState, done: seq<Cmd>, mask: seq<byte>)
    requires Writes(st, m, done) && m.payload.None?
    ensures Writes(XStep(st, TdoMask(mask)).st, CNext(m, TdoMask(mask)), done + COut(m, TdoMask(mask)))
  {
    hide EncodeAll, SizeBytes, LongBE, IsAllZero;
    var s, n := Synced(st), m.(curX := m.newX);
    WritesSynced(st, m, done);
    if IsAllZero(mask) {
      assert COut(m, TdoMask(mask)) == SyncCmd(m);
    } else {
      WritesMore(s.(zeroMask := false), n.(zeroMask := false), done + SyncCmd(m), XTdoMask(Reversed(mask)));
      assert done + SyncCmd(m) + [XTdoMask(Reversed(mask))] == done + COut(m, TdoMask(mask));
    }
  }

  lemma WritesQuietly(st: XState, m: CState, done: seq<Cmd>, c: XCmd)
    requires Writes(st, m, done) && (c.SdrSize? || c.Repeats? || c.State? || c.EndIr? || c.EndDr?)
    ensures Writes(XStep(st, c).st, CNext(m, c), done + COut(m, c))
  {
    assert done + [] == done;
  }

  predicate AllInPlace(m: CState, cmds: seq<XCmd>)
    decreases |cmds|
  {
    if cmds == [] then m.payload.None? else InPlace(m, cmds[0]) && AllInPlace(CNext(m, cmds[0]), cmds[1..])
  }

  // The whole output is the encoding of the compiled commands, and the only reasons to
  // fail are an end state other than Run-Test/Idle and a comparison too big for the player.
  lemma {:induction false} RunEncodes(st: XState, m: CState, done: seq<Cmd>, cmds: seq<XCmd>)
    requires Writes(st, m, done) && AllInPlace(m, cmds)
    ensures XRun(st, cmds).status == XSuccess <==>
            Comparable(m, cmds) && forall c :: c in cmds ==> (c.EndIr? || c.EndDr? ==> c.state == 0)
    ensures XRun(st, cmds).status == XSuccess ==> XRun(st, cmds).st.out == EncodeAll(done + Compiled(m, cmds))
    decreases |cmds|
  {
    hide EncodeAll, COut, CNext, XStep, InPlace, BitsToBytes;
    if cmds == [] {
      assert done + Compiled(m, cmds) == done;
      assert EncodeAll(done) + [] == EncodeAll(done);
    } else {
      StepFails(st, m, done, cmds[0]);
      assert forall c :: c in cmds <==> c == cmds[0] || c in cmds[1..];
      if XStep(st, cmds[0]).status == XSuccess {
        WritesStep(st, m, done, cmds[0]);
        RunEncodes(XStep(st, cmds[0]).st, CNext(m, cmds[0]), done + COut(m, cmds[0]), cmds[1..]);
        assert done + COut(m, cmds[0]) + Compiled(CNext(m, cmds[0]), cmds[1..]) == done + Compiled(m, cmds);
      }
    }
  }

  lemma StepFails(st: XState, m: CState, done: seq<Cmd>, c: XCmd)
    requires Writes(st, m, done)
    ensures XStep(st, c).status == XSuccess <==>
            (c.SdrTdo? && !m.zeroMask ==> BitsToBytes(m.newX) <= BUF_SIZE) && (c.EndIr? || c.EndDr? ==> c.state == 0)
  {
    hide BitsToBytes, EncodeAll;
  }
}
