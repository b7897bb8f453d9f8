// The XSVF source language: its commands, how they are read from a byte stream, and the
// register shifts they ask for. Operands are most significant byte first.
module Xsvf {
  import opened Bits
  import opened Bytes
  import opened Csvf
  import opened Trace

  const XREPEAT: byte := 0x07
  const XSDRB: byte := 0x0C
  const XSDRC: byte := 0x0D
  const XSDRE: byte := 0x0E
  const XSTATE: byte := 0x12
  const XENDIR: byte := 0x13
  const XENDDR: byte := 0x14

  datatype XCommand =
    | TdoMask(mask: seq<byte>)
    | Sir(numBits: byte, tdi: seq<byte>)
    | Sdr(tdi: seq<byte>)
    | RunTest(count: Long)
    | Repeats(times: byte)
    | SdrSize(size: Long)
    | SdrTdo(tdi: seq<byte>, tdo: seq<byte>)
    | SdrBegin(tdi: seq<byte>)
    | SdrContinue(tdi: seq<byte>)
    | SdrEnd(tdi: seq<byte>)
    | State(state: byte)
    | EndIr(state: byte)
    | EndDr(state: byte)

  // The two operands of an XSDRTDO have the same size.
  type XCmd = c: XCommand | c.SdrTdo? ==> |c.tdi| == |c.tdo| witness Repeats(0)

  // ---------- Reading ----------

  datatype XFetched = XFetched(cmd: XCmd, length: nat) | XStop(end: End)

  datatype XDecoded = XDecoded(cmds: seq<XCmd>, end: End)

  // The command at the start of s, given the last XSDRSIZE.
  function XFetch(s: seq<byte>, size: Long): (f: XFetched)
    ensures f.XFetched? ==> 1 <= f.length <= |s|
  {
    var n := BitsToBytes(size);
    if s == [] then XStop(Truncated)
    else if s[0] == XCOMPLETE then XStop(Complete)
    else if s[0] == XRUNTEST || s[0] == XSDRSIZE then
      if |s| < 5 then XStop(Truncated)
      else XFetched(if s[0] == XRUNTEST then RunTest(ReadLongBE(s[1..5])) else SdrSize(ReadLongBE(s[1..5])), 5)
    else if s[0] == XREPEAT || s[0] == XSTATE || s[0] == XENDIR || s[0] == XENDDR then
      if |s| < 2 then XStop(Truncated)
      else if s[0] == XREPEAT then XFetched(Repeats(s[1]), 2)
      else if s[0] == XSTATE then XFetched(State(s[1]), 2)
      else XFetched(if s[0] == XENDIR then EndIr(s[1]) else EndDr(s[1]), 2)
    else if s[0] == XSIR then
      if |s| < 2 || |s| < 2 + BitsToBytes(s[1]) then XStop(Truncated)
      else XFetched(Sir(s[1], s[2..2 + BitsToBytes(s[1])]), 2 + BitsToBytes(s[1]))
    else if s[0] == XSDRTDO then
      if |s| < 1 + 2 * n then XStop(Truncated) else XFetched(SdrTdo(s[1..1 + n], s[1 + n..1 + 2 * n]), 1 + 2 * n)
    else if s[0] == XTDOMASK || s[0] == XSDR || XSDRB <= s[0] <= XSDRE then
      if |s| < 1 + n then XStop(Truncated)
      else if s[0] == XTDOMASK then XFetched(TdoMask(s[1..1 + n]), 1 + n)
      else if s[0] == XSDR then XFetched(Sdr(s[1..1 + n]), 1 + n)
      else if s[0] == XSDRB then XFetched(SdrBegin(s[1..1 + n]), 1 + n)
      else if s[0] == XSDRC then XFetched(SdrContinue(s[1..1 + n]), 1 + n)
      else XFetched(SdrEnd(s[1..1 + n]), 1 + n)
    else XStop(Unrecognised)
  }

  function SizeAfter(c: XCmd, size: Long): Long
  {
    if c.SdrSize? then c.size else size
  }

  function XDecode(s: seq<byte>, size: Long): (d: XDecoded)
    decreases |s|
  {
    match XFetch(s, size)
    case XStop(end) => XDecoded([], end)
    case XFetched(cmd, length) =>
      var rest := XDecode(s[length..], SizeAfter(cmd, size));
      XDecoded([cmd] + rest.cmds, rest.end)
  }

  // ---------- Meaning ----------

  // A data shift that has begun and not ended: its bits so far.
  datatype Piece = Piece(bits: nat, tdi: nat)

  // What commands leave behind: the size in force, the mask and the size it was given for,
  // the shift under way, and the idle clocks due after each shift.
  datatype XRegs = XRegs(size: Long, mask: seq<byte>, maskSize: Long, piece: Option<Piece>, runTest: nat)

  const START := XRegs(0, [], 0, None, 0)

  predicate Accepts(c: Check, captured: nat)
  {
    c.NoCheck? || And(captured, c.mask) == c.expected
  }

  // The comparison of an XSDRTDO, bit by bit of the register: what comes out has to agree
  // with tdo under the mask. A mask of zeros judges nothing.
  function TdoCheck(mask: seq<byte>, tdo: seq<byte>, size: nat): Check
  {
    if IsAllZero(mask) then NoCheck
    else Compare(Low(Value(mask), size), And(Low(Value(tdo), size), Low(Value(mask), size)))
  }

  // Leaving such a comparison out changes no outcome.
  lemma DroppedAccepts(mask: seq<byte>, tdo: seq<byte>, size: nat, captured: nat)
    ensures Accepts(TdoCheck(mask, tdo, size), captured)
       <==> And(captured, Low(Value(mask), size)) == And(Low(Value(tdo), size), Low(Value(mask), size))
  {
    hide Value;
    if IsAllZero(mask) {
      ZeroValue(mask);
      LowBound(0, size);
      AndBound(captured, 0);
      AndBound(Low(Value(tdo), size), 0);
    }
  }

  function XNext(r: XRegs, c: XCmd): XRegs
  {
    match c
    case TdoMask(mask) => r.(mask := mask, maskSize := r.size)
    case RunTest(count) => r.(runTest := count)
    case SdrSize(size) => r.(size := size)
    case SdrBegin(tdi) => r.(piece := Some(Piece(r.size, Low(Value(tdi), r.size))))
    case SdrContinue(tdi) =>
      if r.piece.Some? then r.(piece := Some(Joined(r.piece.value, tdi, r.size))) else r
    case SdrEnd(_) => r.(piece := None)
    case _ => r
  }

  // Later bits go in above earlier ones.
  function Joined(p: Piece, tdi: seq<byte>, size: nat): Piece
  {
    Piece(p.bits + size, Shl(Low(Value(tdi), size), p.bits) + p.tdi)
  }

  function XShift(r: XRegs, c: XCmd): Option<Shift>
  {
    match c
    case Sir(numBits, tdi) => Some(IrShift(numBits, Low(Value(tdi), numBits), NoCheck))
    case Sdr(tdi) => Some(DrShift(r.size, Low(Value(tdi), r.size), NoCheck))
    case SdrTdo(tdi, tdo) =>
      Some(DrShift(r.size, Low(Value(tdi), r.size), TdoCheck(r.mask, tdo, r.size)))
    case SdrEnd(tdi) =>
      if r.piece.None? then None
      else
        var whole := Joined(r.piece.value, tdi, r.size);
        Some(DrShift(whole.bits, whole.tdi, NoCheck))
    case _ => None
  }

  function XEvents(r: XRegs, cmds: seq<XCmd>): seq<Event>
    decreases |cmds|
  {
    if cmds == [] then []
    else
      (match XShift(r, cmds[0]) case Some(s) => [Event(s, r.runTest)] case None => [])
      + XEvents(XNext(r, cmds[0]), cmds[1..])
  }

  // ---------- Programs that make sense ----------

  // Data shifts have bits, a comparison uses a mask of its own size, a shift in pieces is
  // not interrupted, its pieces but the last are whole bytes, and only the default end
  // states are asked for.
  predicate Sensible(r: XRegs, c: XCmd)
  {
    match c
    case TdoMask(mask) => r.piece.None? && r.size > 0 && |mask| == BitsToBytes(r.size)
    case Sir(numBits, tdi) => r.piece.None? && |tdi| == BitsToBytes(numBits)
    case Sdr(tdi) => r.piece.None? && r.size > 0 && |tdi| == BitsToBytes(r.size)
    case RunTest(_) => r.piece.None?
    case SdrTdo(tdi, tdo) =>
      && r.piece.None? && r.size > 0 && |tdi| == BitsToBytes(r.size) && |tdo| == BitsToBytes(r.size)
      && r.maskSize == r.size
    case SdrBegin(tdi) => r.piece.None? && r.size > 0 && r.size % 8 == 0 && |tdi| == BitsToBytes(r.size)
    case SdrContinue(tdi) =>
      && r.piece.Some? && r.size % 8 == 0 && |tdi| == BitsToBytes(r.size)
      && r.piece.value.bits + r.size < 0x1_0000_0000
    case SdrEnd(tdi) =>
      r.piece.Some? && |tdi| == BitsToBytes(r.size) && r.piece.value.bits + r.size < 0x1_0000_0000
    case EndIr(state) => state == 0
    case EndDr(state) => state == 0
    case _ => true
  }

  predicate AllSensible(r: XRegs, cmds: seq<XCmd>)
    decreases |cmds|
  {
    if cmds == [] then r.piece.None?
    else Sensible(r, cmds[0]) && AllSensible(XNext(r, cmds[0]), cmds[1..])
  }

  // ---------- Padding ----------

  // No bit above the register is set in both the mask and the expected bits.
  ghost predicate PaddingApart(mask: seq<byte>, tdo: seq<byte>, size: nat)
  {
    forall i: nat :: i >= size && Bit(Value(mask), i) ==> !Bit(Value(tdo), i)
  }

  ghost predicate Apart(r: XRegs, c: XCmd)
  {
    c.SdrTdo? ==> PaddingApart(r.mask, c.tdo, r.size)
  }

  ghost predicate AllApart(r: XRegs, cmds: seq<XCmd>)
    decreases |cmds|
  {
    cmds == [] || (Apart(r, cmds[0]) && AllApart(XNext(r, cmds[0]), cmds[1..]))
  }

  // ---------- The bytes of each command ----------

  // A command with one byte of operand, under a size of one byte.
  lemma ShortCommands(a: byte)
    ensures XFetch([0x00], 8) == XStop(Complete)
    ensures XFetch([0x01, a], 8) == XFetched(TdoMask([a]), 2) && XFetch([0x03, a], 8) == XFetched(Sdr([a]), 2)
    ensures XFetch([0x07, a], 8) == XFetched(Repeats(a), 2)
    ensures XFetch([0x0C, a], 8) == XFetched(SdrBegin([a]), 2) && XFetch([0x0D, a], 8) == XFetched(SdrContinue([a]), 2)
    ensures XFetch([0x0E, a], 8) == XFetched(SdrEnd([a]), 2) && XFetch([0x12, a], 8) == XFetched(State(a), 2)
    ensures XFetch([0x13, a], 8) == XFetched(EndIr(a), 2) && XFetch([0x14, a], 8) == XFetched(EndDr(a), 2)
  {
    hide ReadLongBE;
    OperandOf(0x01, a);
    OperandOf(0x03, a);
    OperandOf(0x0C, a);
    OperandOf(0x0D, a);
    OperandOf(0x0E, a);
  }

  lemma OperandOf(code: byte, a: byte)
    ensures [code, a][1..2] == [a]
  {
  }

  // The others.
  lemma LongCommands(a: byte, b: byte, c: byte, d: byte)
    ensures XFetch([0x02, 8, a], 8) == XFetched(Sir(8, [a]), 3)
    ensures XFetch([0x09, a, b], 8) == XFetched(SdrTdo([a], [b]), 3)
    ensures var v := 0x100_0000 * a as nat + 0x1_0000 * b as nat + 0x100 * c as nat + d as nat;
            && v < 0x1_0000_0000
            && XFetch([0x04, a, b, c, d], 8) == XFetched(RunTest(v), 5)
            && XFetch([0x08, a, b, c, d], 8) == XFetched(SdrSize(v), 5)
  {
    hide ReadLongBE;
    LongBytes(a, b, c, d);
    assert [0x04, a, b, c, d][1..5] == [a, b, c, d] == [0x08, a, b, c, d][1..5];
    assert [0x02, 8, a][2..3] == [a] && [0x09, a, b][1..2] == [a] && [0x09, a, b][2..3] == [b];
  }

  // ---------- The meaning of some programs, spelled out ----------

  lemma FirstMeans(r: XRegs, c: XCmd, rest: seq<XCmd>)
    ensures XEvents(r, [c] + rest)
         == (match XShift(r, c) case Some(s) => [Event(s, r.runTest)] case None => []) + XEvents(XNext(r, c), rest)
  {
    hide XShift, XNext;
    assert ([c] + rest)[1..] == rest;
  }

  lemma LowByte(a: byte)
    ensures Low(Value([a]), 8) == a
  {
    ValueOfByte(a);
    Pow2Small();
    LowSmall(a, 8);
  }

  // XSDRSIZE 8, XSDRB(a), XSDRC(b), XSDRE(c): one shift, of which the first piece goes in first.
  lemma ThreePieces(a: byte, b: byte, c: byte)
    ensures XEvents(START, [SdrSize(8), SdrBegin([a]), SdrContinue([b]), SdrEnd([c])])
         == [Event(DrShift(24, a + 0x100 * b + 0x1_0000 * c, NoCheck), 0)]
  {
    hide XEvents, Value, Low, Shl;
    var r1 := START.(size := 8);
    var r2 := r1.(piece := Some(Piece(8, a)));
    var r3 := r1.(piece := Some(Piece(16, a + 0x100 * b)));
    LowByte(a);
    LowByte(b);
    LowByte(c);
    ShlByte(b);
    ShlByte(c);
    ShlByte(256 * c);
    ShlShl(c, 8, 8);
    FirstMeans(START, SdrSize(8), [SdrBegin([a]), SdrContinue([b]), SdrEnd([c])]);
    FirstMeans(r1, SdrBegin([a]), [SdrContinue([b]), SdrEnd([c])]);
    FirstMeans(r2, SdrContinue([b]), [SdrEnd([c])]);
    FirstMeans(r3, SdrEnd([c]), []);
    NothingMeant(r1);
    assert [SdrSize(8), SdrBegin([a]), SdrContinue([b]), SdrEnd([c])]
        == [SdrSize(8)] + [SdrBegin([a]), SdrContinue([b]), SdrEnd([c])];
    assert [SdrBegin([a]), SdrContinue([b]), SdrEnd([c])] == [SdrBegin([a])] + [SdrContinue([b]), SdrEnd([c])];
    assert [SdrContinue([b]), SdrEnd([c])] == [SdrContinue([b])] + [SdrEnd([c])] && [SdrEnd([c])] == [SdrEnd([c])] + [];
  }

  lemma NothingMeant(r: XRegs)
    ensures XEvents(r, []) == []
  {
  }

  // XSDRSIZE 8, XTDOMASK(m), XRUNTEST n, XSDRTDO(a, b), XSDR(c): the wait comes after every
  // shift from then on, and only the first of the two is judged.
  lemma MaskedShift(m: byte, n: Long, a: byte, b: byte, c: byte)
    requires m != 0
    ensures XEvents(START, [SdrSize(8), TdoMask([m]), RunTest(n), SdrTdo([a], [b]), Sdr([c])])
         == [Event(DrShift(8, a, Compare(m, And(b, m))), n), Event(DrShift(8, c, NoCheck), n)]
  {
    hide XEvents, Value, Low, And;
    var r1 := START.(size := 8);
    var r2 := r1.(mask := [m], maskSize := 8);
    var r3 := r2.(runTest := n);
    LowByte(a);
    LowByte(b);
    LowByte(c);
    LowByte(m);
    assert [m][0] != 0;
    FirstMeans(START, SdrSize(8), [TdoMask([m]), RunTest(n), SdrTdo([a], [b]), Sdr([c])]);
    FirstMeans(r1, TdoMask([m]), [RunTest(n), SdrTdo([a], [b]), Sdr([c])]);
    FirstMeans(r2, RunTest(n), [SdrTdo([a], [b]), Sdr([c])]);
    FirstMeans(r3, SdrTdo([a], [b]), [Sdr([c])]);
    FirstMeans(r3, Sdr([c]), []);
    NothingMeant(r3);
    assert [SdrSize(8), TdoMask([m]), RunTest(n), SdrTdo([a], [b]), Sdr([c])]
        == [SdrSize(8)] + [TdoMask([m]), RunTest(n), SdrTdo([a], [b]), Sdr([c])];
    assert [TdoMask([m]), RunTest(n), SdrTdo([a], [b]), Sdr([c])]
        == [TdoMask([m])] + [RunTest(n), SdrTdo([a], [b]), Sdr([c])];
    assert [RunTest(n), SdrTdo([a], [b]), Sdr([c])] == [RunTest(n)] + [SdrTdo([a], [b]), Sdr([c])];
    assert [SdrTdo([a], [b]), Sdr([c])] == [SdrTdo([a], [b])] + [Sdr([c])] && [Sdr([c])] == [Sdr([c])] + [];
  }
}
