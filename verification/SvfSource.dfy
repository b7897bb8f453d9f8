// What SVF lines mean, read directly: bit strings as numbers, no bytes, no commands.
module SvfSource {
  import opened Bits
  import opened Bytes
  import opened Trace
  import opened Svf
  import opened HeadTail
  import opened ProcessIndex

  // The remembered operands of one line kind. By default every bit is cared for.
  datatype Field = Field(bits: nat, tdi: nat, tdo: nat, mask: nat)

  function Ones(n: nat): nat
  {
    Pow2(n) - 1
  }

  function FieldAfter(f: Field, length: nat, ops: Operands): Field
  {
    Field(length,
          if ops.tdi.Some? then Value(ops.tdi.value) else if f.bits != length then 0 else f.tdi,
          if ops.tdo.Some? then Value(ops.tdo.value) else 0,
          if ops.mask.Some? then Value(ops.mask.value) else if f.bits != length then Ones(length) else f.mask)
  }

  datatype Fields = Fields(head: Field, body: Field, tail: Field)
  {
    function Total(): nat
    {
      body.bits + head.bits + tail.bits
    }

    function After(part: Part, length: nat, ops: Operands): Fields
    {
      match part
      case Head => this.(head := FieldAfter(head, length, ops))
      case Body => this.(body := FieldAfter(body, length, ops))
      case Tail => this.(tail := FieldAfter(tail, length, ops))
    }

    function Tdi(): nat
    {
      Join(body.tdi, head.tdi, tail.tdi, body.bits, head.bits)
    }

    function Tdo(): nat
    {
      Join(body.tdo, head.tdo, tail.tdo, body.bits, head.bits)
    }

    function Mask(): nat
    {
      Join(body.mask, head.mask, tail.mask, body.bits, head.bits)
    }
  }

  datatype Source = Source(data: Fields, insn: Fields)

  const NO_FIELD := Field(0, 0, 0, 0)
  const NO_SOURCE := Source(Fields(NO_FIELD, NO_FIELD, NO_FIELD), Fields(NO_FIELD, NO_FIELD, NO_FIELD))

  // What comes out of the register is judged if the line gave a TDO and the mask cares for
  // anything. Parts that have no TDO of their own are expected to give zeros.
  function CheckFor(f: Fields, checked: bool): Check
  {
    if checked && f.Mask() != 0 then Compare(f.Mask(), And(f.Tdo(), f.Mask())) else NoCheck
  }

  // Tail, body and head bits go through the register end to end.
  function DataShift(f: Fields, checked: bool): Shift
  {
    DrShift(f.Total(), f.Tdi(), CheckFor(f, checked))
  }

  function InsnShift(f: Fields, checked: bool): Shift
  {
    IrShift(f.Total(), f.Tdi(), CheckFor(f, checked))
  }

  function SourceAfter(s: Source, line: Line): Source
  {
    match line
    case RunTest(_) => s
    case ShiftLine(Data, part, length, ops) => s.(data := s.data.After(part, length, ops))
    case ShiftLine(Insn, part, length, ops) => s.(insn := s.insn.After(part, length, ops))
  }

  // The shift that a body line makes, given the operands in force after it.
  function LineShift(s: Source, line: Line): Shift
    requires line.IsBody()
  {
    var checked := line.ops.tdo.Some?;
    if line.register == Data then DataShift(s.data, checked) else InsnShift(s.insn, checked)
  }

  function SourceShifts(s: Source, lines: seq<Line>): seq<Shift>
    decreases |lines|
  {
    if lines == [] then []
    else
      var next := SourceAfter(s, lines[0]);
      (if lines[0].IsBody() then [LineShift(next, lines[0])] else []) + SourceShifts(next, lines[1..])
  }

  // RUNTEST waits where it stands.
  function SourceIdle(lines: seq<Line>): Idle
  {
    if lines == [] then Idle(0, [])
    else
      var rest := SourceIdle(lines[1..]);
      if lines[0].RunTest? then Idle(lines[0].count + rest.lead, rest.after)
      else if lines[0].IsBody() then Idle(0, [rest.lead] + rest.after)
      else rest
  }

  // Every RUNTEST that does not follow an SIR or SDR (not counting header and trailer lines
  // in between) waits for nothing, neither does the shift after such a RUNTEST, and the
  // first shift does not wait for exactly 0xFFFFFFFF clocks. Decided by one scan.
  predicate RunTestsPlaced(lines: seq<Line>, place: Place)
  {
    lines == [] ||
    if lines[0].RunTest? then
      if place.canOwn then
        && (place.stray ==> lines[0].count == 0)
        && (place.first ==> lines[0].count != ILLEGAL32)
        && RunTestsPlaced(lines[1..], ANYWHERE)
      else
        lines[0].count == 0 && RunTestsPlaced(lines[1..], place.(stray := true))
    else if lines[0].IsBody() then
      RunTestsPlaced(lines[1..], (if place.canOwn then ANYWHERE else place).(canOwn := true))
    else
      RunTestsPlaced(lines[1..], place)
  }

  // The padding bits of the stored masks only fall on bits that the combined mask cares
  // for anyway. An explicit mask has no padding; the default one does unless its length is
  // a multiple of eight.
  ghost predicate MaskCovered(s: Stores, mask: nat)
  {
    forall i: nat :: i < s.Total() && MaskPadding(s, i) ==> Bit(mask, i)
  }

  // Whether a padding bit of a header or body mask lands on bit i of the whole register.
  predicate MaskPadding(s: Stores, i: nat)
  {
    || (s.head.numBits <= i && Bit(Value(s.head.mask), i))
    || (s.head.numBits + s.body.numBits <= i < 8 * BitsToBytes(s.head.numBits + s.body.numBits)
        && Bit(Value(s.body.mask), i - s.head.numBits))
  }
}
