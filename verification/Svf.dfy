// The source language of the SVF compiler, after tokenising, and the commands that the
// compiler emits for each line, as a function of the remembered state.
module Svf {
  import opened Bytes
  import opened Csvf
  import opened HeadTail

  datatype Register = Data | Insn

  datatype Part = Head | Body | Tail

  // Operands are the bytes of the hex digits between the brackets, first digit first.
  datatype Operands = Operands(tdi: Option<seq<byte>>, tdo: Option<seq<byte>>, mask: Option<seq<byte>>)

  datatype Line =
    | RunTest(count: Long)
    | ShiftLine(register: Register, part: Part, length: nat, ops: Operands)
  {
    predicate IsBody() { ShiftLine? && part == Body }
  }

  // ---------- Remembered state ----------

  datatype Store = Store(numBits: nat, tdi: seq<byte>, tdo: seq<byte>, mask: seq<byte>)
  {
    predicate Sized()
    {
      |tdi| == |tdo| == |mask| == BitsToBytes(numBits)
    }
  }

  const EMPTY_STORE := Store(0, [], [], [])

  // TDI and MASK are remembered as long as the length stays the same; TDO defaults to
  // zeros on every line.
  function StoreAfter(s: Store, length: nat, ops: Operands): Store
  {
    var n := BitsToBytes(length);
    var tdi := if s.numBits != length then Repeat<byte>(0, n) else s.tdi;
    var mask := if s.numBits != length then Repeat<byte>(0xFF, n) else s.mask;
    Store(length,
          if ops.tdi.Some? then ops.tdi.value else tdi,
          if ops.tdo.Some? then ops.tdo.value else Repeat<byte>(0, n),
          if ops.mask.Some? then ops.mask.value else mask)
  }

  datatype Stores = Stores(head: Store, body: Store, tail: Store)
  {
    function Total(): nat
    {
      body.numBits + head.numBits + tail.numBits
    }

    predicate Sized()
    {
      head.Sized() && body.Sized() && tail.Sized()
    }

    function After(part: Part, length: nat, ops: Operands): Stores
    {
      match part
      case Head => this.(head := StoreAfter(head, length, ops))
      case Body => this.(body := StoreAfter(body, length, ops))
      case Tail => this.(tail := StoreAfter(tail, length, ops))
    }
  }

  const EMPTY_STORES := Stores(EMPTY_STORE, EMPTY_STORE, EMPTY_STORE)

  datatype Context = Context(data: Stores, insn: Stores, curLength: nat, curMask: seq<byte>, newMaskWritten: bool)

  const EMPTY_CONTEXT := Context(EMPTY_STORES, EMPTY_STORES, 0, [], false)

  // ---------- Emitted commands ----------

  // What headTail() leaves in the data buffer.
  function Splice(body: seq<byte>, head: seq<byte>, tail: seq<byte>, s: Stores): (r: seq<byte>)
    ensures |r| == BitsToBytes(s.Total())
  {
    ToBytes(Spliced(Value(body), Value(head), Value(tail), s.body.numBits, s.head.numBits, s.tail.numBits),
            BitsToBytes(s.Total()))
  }

  function SplicedTdi(s: Stores): (r: seq<byte>)
    ensures |r| == BitsToBytes(s.Total())
  {
    Splice(s.body.tdi, s.head.tdi, s.tail.tdi, s)
  }

  function SplicedTdo(s: Stores): (r: seq<byte>)
    ensures |r| == BitsToBytes(s.Total())
  {
    Splice(s.body.tdo, s.head.tdo, s.tail.tdo, s)
  }

  function SplicedMask(s: Stores): (r: seq<byte>)
    ensures |r| == BitsToBytes(s.Total())
  {
    Splice(s.body.mask, s.head.mask, s.tail.mask, s)
  }

  function SizeCommand(total: Long, curLength: nat): seq<Cmd>
  {
    if total != curLength then [XSdrSize(total)] else []
  }

  // A data register shift: XSDRSIZE if the length changed, XTDOMASK if a comparison needs
  // a mask that was not the last one sent, and the shift itself.
  function CompileData(cxt: Context, s: Stores, checked: bool): (Context, seq<Cmd>)
    requires s.Total() < 0x1_0000_0000
  {
    var mask := SplicedMask(s);
    var written := cxt.newMaskWritten && mask == cxt.curMask;
    var compare := checked && !IsAllZero(mask);
    var maskCmd := if compare && !written then [XTdoMask(Reversed(mask))] else [];
    var tdi := Reversed(SplicedTdi(s));
    var shift := if compare then XSdrTdo(Interleaved(tdi, Reversed(SplicedTdo(s)))) else XSdr(tdi);
    (Context(s, cxt.insn, s.Total(), mask, compare || written),
     SizeCommand(s.Total(), cxt.curLength) + maskCmd + [shift])
  }

  // An instruction register shift. The length is cut to a byte.
  function CompileInsn(s: Stores): Cmd
  {
    XSir(s.Total() % 256, Reversed(SplicedTdi(s)))
  }

  // The lines that parseLine() can make sense of: operands have the declared length, and a
  // shift has body or header bits and a length that fits its field.
  predicate OperandsSized(length: nat, ops: Operands)
  {
    && (ops.tdi.Some? ==> |ops.tdi.value| == BitsToBytes(length))
    && (ops.tdo.Some? ==> |ops.tdo.value| == BitsToBytes(length))
    && (ops.mask.Some? ==> |ops.mask.value| == BitsToBytes(length))
  }

  predicate Acceptable(cxt: Context, line: Line)
  {
    line.ShiftLine? ==>
      && OperandsSized(line.length, line.ops)
      && (line.part == Body && line.register == Data ==>
            cxt.data.head.numBits + line.length > 0
            && cxt.data.head.numBits + line.length + cxt.data.tail.numBits < 0x1_0000_0000)
      && (line.part == Body && line.register == Insn ==> cxt.insn.head.numBits + line.length > 0)
  }

  function CompileLine(cxt: Context, line: Line): (Context, seq<Cmd>)
    requires Acceptable(cxt, line)
  {
    match line
    case RunTest(count) => (cxt, [XRunTest(count)])
    case ShiftLine(Data, part, length, ops) =>
      var s := cxt.data.After(part, length, ops);
      if part == Body then CompileData(cxt, s, ops.tdo.Some?) else (cxt.(data := s), [])
    case ShiftLine(Insn, part, length, ops) =>
      var s := cxt.insn.After(part, length, ops);
      (cxt.(insn := s), if part == Body then [CompileInsn(s)] else [])
  }

  predicate AllAcceptable(cxt: Context, lines: seq<Line>)
    decreases |lines|
  {
    lines == [] ||
    (Acceptable(cxt, lines[0]) && AllAcceptable(CompileLine(cxt, lines[0]).0, lines[1..]))
  }

  function Compile(cxt: Context, lines: seq<Line>): seq<Cmd>
    requires AllAcceptable(cxt, lines)
    decreases |lines|
  {
    if lines == [] then []
    else
      var (next, cmds) := CompileLine(cxt, lines[0]);
      cmds + Compile(next, lines[1..])
  }
}
