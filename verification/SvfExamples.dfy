// What the meaning of SVF comes to in small programs, spelled out.
module SvfExamples {
  import opened Bits
  import opened Bytes
  import opened Csvf
  import opened Trace
  import opened HeadTail
  import opened ProcessIndex
  import opened Svf
  import opened SvfSource
  import opened EndToEnd

  function Gives(tdi: byte): Operands
  {
    Operands(Some([tdi]), None, None)
  }

  lemma FirstLine(s: Source, line: Line, rest: seq<Line>)
    ensures SourceShifts(s, [line] + rest)
         == (if line.IsBody() then [LineShift(SourceAfter(s, line), line)] else [])
            + SourceShifts(SourceAfter(s, line), rest)
    ensures var idle := SourceIdle(rest);
            SourceIdle([line] + rest)
            == if line.RunTest? then Idle(line.count + idle.lead, idle.after)
               else if line.IsBody() then Idle(0, [idle.lead] + idle.after) else idle
  {
    hide LineShift, SourceAfter;
    assert ([line] + rest)[1..] == rest;
  }

  lemma NoLines(s: Source)
    ensures SourceShifts(s, []) == [] && SourceIdle([]) == Idle(0, [])
  {
  }

  // Three lines, the first and the last of which shift something.
  lemma ThreeLines(a: Line, b: Line, c: Line, s1: Source, s2: Source, s3: Source)
    requires a.IsBody() && c.IsBody() && (b.RunTest? || b.IsBody())
    requires s1 == SourceAfter(NO_SOURCE, a) && s2 == SourceAfter(s1, b) && s3 == SourceAfter(s2, c)
    ensures var (x, z) := (LineShift(s1, a), LineShift(s3, c));
            Intended([a, b, c]) == if b.RunTest? then [Event(x, b.count), Event(z, 0)]
                                   else [Event(x, 0), Event(LineShift(s2, b), 0), Event(z, 0)]
  {
    hide SourceShifts, SourceIdle, SourceAfter, LineShift;
    NoLines(s3);
    FirstLine(s2, c, []);
    FirstLine(s1, b, [c]);
    FirstLine(NO_SOURCE, a, [b, c]);
    assert [a, b, c] == [a] + [b, c] && [b, c] == [b] + [c] && [c] == [c] + [];
    var shifts := SourceShifts(NO_SOURCE, [a, b, c]);
    if b.RunTest? {
      assert shifts == [LineShift(s1, a), LineShift(s3, c)];
    } else {
      assert shifts == [LineShift(s1, a), LineShift(s2, b), LineShift(s3, c)];
    }
  }

  lemma JoinedBytes(a: byte, b: byte, c: byte)
    ensures Join(b, a, c, 8, 8) == a + 0x100 * b + 0x1_0000 * c
  {
    hide Shl;
    ShlByte(b);
    ShlByte(c);
    ShlShl(c, 8, 8);
    ShlByte(256 * c);
  }

  // HIR 8 TDI(a), TIR 8 TDI(c), SIR 8 TDI(b): the header's bits come out of the far end of
  // the chain first, the trailer's last.
  lemma EndToEndBits(a: byte, b: byte, c: byte)
    ensures Intended([ShiftLine(Insn, Head, 8, Gives(a)), ShiftLine(Insn, Tail, 8, Gives(c)),
                      ShiftLine(Insn, Body, 8, Gives(b))])
         == [Event(IrShift(24, a + 0x100 * b + 0x1_0000 * c, NoCheck), 0)]
  {
    hide SourceShifts, SourceIdle, Value, Join, Pow2;
    var h, t, l := ShiftLine(Insn, Head, 8, Gives(a)), ShiftLine(Insn, Tail, 8, Gives(c)),
                   ShiftLine(Insn, Body, 8, Gives(b));
    var s1 := SourceAfter(NO_SOURCE, h);
    var s2 := SourceAfter(s1, t);
    ValueOfByte(a);
    ValueOfByte(b);
    ValueOfByte(c);
    JoinedBytes(a, b, c);
    NoLines(SourceAfter(s2, l));
    FirstLine(s2, l, []);
    FirstLine(s1, t, [l]);
    FirstLine(NO_SOURCE, h, [t, l]);
    assert [h, t, l] == [h] + [t, l] && [t, l] == [t] + [l] && [l] == [l] + [];
  }

  lemma JoinedAlone(v: nat, n: nat)
    ensures Join(v, 0, 0, n, 0) == v
  {
    ShlZero(n);
  }

  // A data shift without header or trailer.
  lemma BodyAlone(f: Field, checked: bool)
    ensures DataShift(Fields(NO_FIELD, f, NO_FIELD), checked)
         == DrShift(f.bits, f.tdi, if checked && f.mask != 0 then Compare(f.mask, And(f.tdo, f.mask)) else NoCheck)
  {
    hide Join, And;
    JoinedAlone(f.tdi, f.bits);
    JoinedAlone(f.tdo, f.bits);
    JoinedAlone(f.mask, f.bits);
  }

  function Sdr(length: nat, ops: Operands): Line
  {
    ShiftLine(Data, Body, length, ops)
  }

  function WithBody(f: Field): Source
  {
    NO_SOURCE.(data := Fields(NO_FIELD, f, NO_FIELD))
  }

  lemma SdrMeans(f: Field, length: nat, ops: Operands)
    ensures var g := FieldAfter(f, length, ops);
            && SourceAfter(WithBody(f), Sdr(length, ops)) == WithBody(g)
            && LineShift(WithBody(g), Sdr(length, ops)) == DataShift(Fields(NO_FIELD, g, NO_FIELD), ops.tdo.Some?)
  {
    hide FieldAfter, DataShift;
  }

  // SDR 8 TDI(a) TDO(b) MASK(m), RUNTEST n, SDR 8 TDO(d): TDI and MASK are remembered, TDO is
  // not; the wait comes after the first shift.
  lemma Remembered(a: byte, b: byte, m: byte, d: byte, n: Long)
    requires m != 0
    ensures Intended([Sdr(8, Operands(Some([a]), Some([b]), Some([m]))), RunTest(n),
                      Sdr(8, Operands(None, Some([d]), None))])
         == [Event(DrShift(8, a, Compare(m, And(b, m))), n),
             Event(DrShift(8, a, Compare(m, And(d, m))), 0)]
  {
    var x, y := Operands(Some([a]), Some([b]), Some([m])), Operands(None, Some([d]), None);
    var f, g := Field(8, a, b, m), Field(8, a, d, m);
    hide Intended, Value, FieldAfter, DataShift, SourceAfter, LineShift, And;
    RememberedFields(a, b, m, d);
    SdrMeans(NO_FIELD, 8, x);
    RunTestMeans(WithBody(f), n);
    SdrMeans(f, 8, y);
    BodyAlone(f, true);
    BodyAlone(g, true);
    ThreeLines(Sdr(8, x), RunTest(n), Sdr(8, y), WithBody(f), WithBody(f), WithBody(g));
  }

  lemma RememberedFields(a: byte, b: byte, m: byte, d: byte)
    ensures FieldAfter(NO_FIELD, 8, Operands(Some([a]), Some([b]), Some([m]))) == Field(8, a, b, m)
    ensures FieldAfter(Field(8, a, b, m), 8, Operands(None, Some([d]), None))
         == Field(8, a, d, m)
  {
    hide Value;
    ValueOfByte(a);
    ValueOfByte(b);
    ValueOfByte(m);
    ValueOfByte(d);
  }

  lemma ForgottenFields(a: byte, m: byte, d: byte, e: byte)
    ensures FieldAfter(NO_FIELD, 8, Operands(Some([a]), None, Some([m]))) == Field(8, a, 0, m)
    ensures FieldAfter(Field(8, a, 0, m), 16, Operands(None, Some([d, e]), None))
         == Field(16, 0, 0x100 * d + e, 0xFFFF)
    ensures FieldAfter(Field(16, 0, 0x100 * d + e, 0xFFFF), 16, Operands(None, None, None))
         == Field(16, 0, 0, 0xFFFF)
  {
    hide Value, Ones;
    ValueOfByte(a);
    ValueOfByte(m);
    ValueOfByte(d);
    ValueSnoc([d], e);
    assert [d] + [e] == [d, e];
    SixteenOnes();
  }

  lemma RunTestMeans(s: Source, n: Long)
    ensures SourceAfter(s, RunTest(n)) == s
  {
  }

  // SDR 8 TDI(a) MASK(m), SDR 16 TDO(d e), SDR 16: another length forgets TDI and MASK, which
  // are zeros and ones then; without a TDO nothing is compared.
  lemma Forgotten(a: byte, m: byte, d: byte, e: byte, ones: nat)
    requires ones == 0xFFFF
    ensures Intended([Sdr(8, Operands(Some([a]), None, Some([m]))), Sdr(16, Operands(None, Some([d, e]), None)),
                      Sdr(16, Operands(None, None, None))])
         == [Event(DrShift(8, a, NoCheck), 0),
             Event(DrShift(16, 0, Compare(ones, And(0x100 * d + e, ones))), 0),
             Event(DrShift(16, 0, NoCheck), 0)]
  {
    hide Intended, Value, FieldAfter, DataShift, And, Sdr;
    ForgottenFields(a, m, d, e);
    ForgottenShifts(Operands(Some([a]), None, Some([m])), Operands(None, Some([d, e]), None), a, m,
                    0x100 * d + e, ones);
  }

  lemma ForgottenShifts(x: Operands, y: Operands, a: nat, m: nat, w: nat, ones: nat)
    requires FieldAfter(NO_FIELD, 8, x) == Field(8, a, 0, m) && x.tdo.None? && ones != 0
    requires FieldAfter(Field(8, a, 0, m), 16, y) == Field(16, 0, w, ones) && y.tdo.Some?
    requires FieldAfter(Field(16, 0, w, ones), 16, Operands(None, None, None)) == Field(16, 0, 0, ones)
    ensures Intended([Sdr(8, x), Sdr(16, y), Sdr(16, Operands(None, None, None))])
         == [Event(DrShift(8, a, NoCheck), 0), Event(DrShift(16, 0, Compare(ones, And(w, ones))), 0),
             Event(DrShift(16, 0, NoCheck), 0)]
  {
    hide Intended, FieldAfter, DataShift, And, Sdr;
    var f, g, h := Field(8, a, 0, m), Field(16, 0, w, ones), Field(16, 0, 0, ones);
    ThreeBodies(8, x, 16, y, 16, Operands(None, None, None), f, g, h);
    BodyAlone(f, false);
    BodyAlone(g, true);
    BodyAlone(h, false);
  }

  lemma ThreeBodies(k: nat, x: Operands, l: nat, y: Operands, m: nat, z: Operands, f: Field, g: Field, h: Field)
    requires f == FieldAfter(NO_FIELD, k, x) && g == FieldAfter(f, l, y) && h == FieldAfter(g, m, z)
    ensures Intended([Sdr(k, x), Sdr(l, y), Sdr(m, z)])
         == [Event(DataShift(Fields(NO_FIELD, f, NO_FIELD), x.tdo.Some?), 0),
             Event(DataShift(Fields(NO_FIELD, g, NO_FIELD), y.tdo.Some?), 0),
             Event(DataShift(Fields(NO_FIELD, h, NO_FIELD), z.tdo.Some?), 0)]
  {
    hide Intended, FieldAfter, DataShift, SourceAfter, LineShift;
    SdrMeans(NO_FIELD, k, x);
    SdrMeans(f, l, y);
    SdrMeans(g, m, z);
    ThreeLines(Sdr(k, x), Sdr(l, y), Sdr(m, z), WithBody(f), WithBody(g), WithBody(h));
  }

  lemma SixteenOnes()
    ensures Ones(16) == 0xFFFF
  {
    Pow2Small();
    assert Pow2(12) == 0x1000;
  }

  // A RUNTEST behind the first shift can be moved unless it waits for exactly 0xFFFFFFFF
  // clocks.
  lemma FirstWait(b: Line, n: Long)
    requires b.IsBody()
    ensures RunTestsPlaced([b, RunTest(n)], START) <==> n != 0xFFFF_FFFF
  {
    assert [b, RunTest(n)][1..] == [RunTest(n)] && [RunTest(n)][1..] == [];
    assert RunTestsPlaced([], ANYWHERE);
    assert RunTestsPlaced([RunTest(n)], START.(canOwn := true)) <==> n != ILLEGAL32;
  }
}
