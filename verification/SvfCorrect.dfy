// The commands the SVF compiler emits mean what the lines mean.
module SvfCorrect {
  import opened Bits
  import opened Bytes
  import opened Csvf
  import opened HeadTail
  import opened Trace
  import opened Svf
  import opened SvfSource

  // ---------- Stores and fields ----------

  // Operands fit the declared length, not only its bytes.
  predicate OperandsFit(length: nat, ops: Operands)
  {
    && (ops.tdi.Some? ==> Value(ops.tdi.value) < Pow2(length))
    && (ops.tdo.Some? ==> Value(ops.tdo.value) < Pow2(length))
    && (ops.mask.Some? ==> Value(ops.mask.value) < Pow2(length))
  }

  predicate Good(s: Store)
  {
    && s.Sized()
    && Value(s.tdi) < Pow2(s.numBits)
    && Value(s.tdo) < Pow2(s.numBits)
    && (Value(s.mask) < Pow2(s.numBits) || s.mask == Repeat<byte>(0xFF, BitsToBytes(s.numBits)))
  }

  function FieldOf(s: Store): Field
  {
    Field(s.numBits, Value(s.tdi), Value(s.tdo), Low(Value(s.mask), s.numBits))
  }

  function FieldsOf(s: Stores): Fields
  {
    Fields(FieldOf(s.head), FieldOf(s.body), FieldOf(s.tail))
  }

  function SourceOf(cxt: Context): Source
  {
    Source(FieldsOf(cxt.data), FieldsOf(cxt.insn))
  }

  predicate GoodStores(s: Stores)
  {
    Good(s.head) && Good(s.body) && Good(s.tail)
  }

  lemma {:induction false} ValueOfOnes(n: nat)
    ensures Value(Repeat<byte>(0xFF, n)) == Ones(8 * n)
  {
    if n == 0 {
    } else {
      ValueOfOnes(n - 1);
      ValueSnoc(Repeat<byte>(0xFF, n - 1), 0xFF);
      ByteWeight(n - 1);
    }
  }

  lemma {:induction false} LowOfOnes(m: nat, n: nat)
    requires n <= m
    ensures Low(Ones(m), n) == Ones(n)
    decreases n
  {
    if n != 0 {
      assert Ones(m) == 1 + 2 * Ones(m - 1);
      LowOfOnes(m - 1, n - 1);
    }
  }

  // The compiler's bytes and the source's numbers change in step.
  lemma StoreTracks(s: Store, length: nat, ops: Operands)
    requires Good(s) && OperandsSized(length, ops) && OperandsFit(length, ops)
    ensures Good(StoreAfter(s, length, ops))
    ensures FieldOf(StoreAfter(s, length, ops)) == FieldAfter(FieldOf(s), length, ops)
  {
    hide Value, BitsToBytes, Low, Ones;
    var n := BitsToBytes(length);
    ValueZero(n);
    ValueOfOnes(n);
    LowOfOnes(8 * n, length);
    if ops.mask.Some? {
      LowSmall(Value(ops.mask.value), length);
    }
  }

  lemma StoresTrack(s: Stores, part: Part, length: nat, ops: Operands)
    requires GoodStores(s) && OperandsSized(length, ops) && OperandsFit(length, ops)
    ensures GoodStores(s.After(part, length, ops))
    ensures FieldsOf(s.After(part, length, ops)) == FieldsOf(s).After(part, length, ops)
    ensures s.After(part, length, ops).Total() == FieldsOf(s).After(part, length, ops).Total()
  {
    hide Good, FieldOf, FieldAfter, StoreAfter;
    StoreTracks(s.head, length, ops);
    StoreTracks(s.body, length, ops);
    StoreTracks(s.tail, length, ops);
    BitsTrack(s.head, length, ops);
    BitsTrack(s.body, length, ops);
    BitsTrack(s.tail, length, ops);
  }

  lemma BitsTrack(s: Store, length: nat, ops: Operands)
    ensures FieldOf(s).bits == s.numBits
    ensures StoreAfter(s, length, ops).numBits == FieldAfter(FieldOf(s), length, ops).bits == length
  {
  }

  // ---------- Spliced operands ----------

  // Splicing operands that fit, and cutting to the register, is joining them.
  lemma SpliceFits(body: seq<byte>, head: seq<byte>, tail: seq<byte>, s: Stores)
    requires Value(body) < Pow2(s.body.numBits) && Value(head) < Pow2(s.head.numBits)
             && Value(tail) < Pow2(s.tail.numBits)
    ensures var j := Join(Value(body), Value(head), Value(tail), s.body.numBits, s.head.numBits);
            Value(Splice(body, head, tail, s)) == j == Low(j, s.Total()) && j < Pow2(s.Total())
  {
    hide Value, Spliced, Join, Low, Pow2, ToBytes, BitsToBytes;
    var b, h, t := s.body.numBits, s.head.numBits, s.tail.numBits;
    var j := Join(Value(body), Value(head), Value(tail), b, h);
    SplicedIsJoin(Value(body), Value(head), Value(tail), b, h, t);
    assert j < Pow2(s.Total());
    ValueOfToBytes(j, BitsToBytes(s.Total()));
    Pow2Monotone(s.Total(), 8 * BitsToBytes(s.Total()));
    LowSmall(j, 8 * BitsToBytes(s.Total()));
    LowSmall(j, s.Total());
  }

  // ---------- Masks, bit by bit ----------

  lemma BitSpliced(data: nat, head: nat, tail: nat, dataBits: nat, headBits: nat, tailBits: nat, i: nat)
    ensures Bit(Spliced(data, head, tail, dataBits, headBits, tailBits), i)
        <==> || (headBits <= i < 8 * BitsToBytes(dataBits + headBits) && Bit(data, i - headBits))
             || Bit(head, i)
             || (dataBits + headBits <= i < 8 * BitsToBytes(dataBits + headBits + tailBits)
                 && Bit(tail, i - (dataBits + headBits)))
  {
    hide Bit, Or, Low, Shl, BitsToBytes;
    var n := dataBits + headBits;
    var d := Low(Shl(data, headBits), 8 * BitsToBytes(n));
    var t := Low(Shl(tail, n), 8 * BitsToBytes(n + tailBits));
    BitOr(Or(d, head), t, i);
    BitOr(d, head, i);
    BitLow(Shl(data, headBits), 8 * BitsToBytes(n), i);
    BitLow(Shl(tail, n), 8 * BitsToBytes(n + tailBits), i);
    BitShl(data, headBits, i);
    BitShl(tail, n, i);
  }

  // The mask the compiler works with, cut to the register.
  function EffectiveMask(s: Stores): nat
  {
    Low(Value(SplicedMask(s)), s.Total())
  }

  lemma BitEffectiveMask(s: Stores, i: nat)
    ensures Bit(EffectiveMask(s), i)
        <==> i < s.Total() && Bit(Spliced(Value(s.body.mask), Value(s.head.mask), Value(s.tail.mask),
                                          s.body.numBits, s.head.numBits, s.tail.numBits), i)
  {
    hide Bit, Low, Spliced, Value, ToBytes, BitsToBytes;
    var v := Spliced(Value(s.body.mask), Value(s.head.mask), Value(s.tail.mask), s.body.numBits, s.head.numBits,
         s.tail.numBits);
    var n := BitsToBytes(s.Total());
    ValueOfToBytes(v, n);
    BitLow(v, 8 * n, i);
    BitLow(Low(v, 8 * n), s.Total(), i);
  }

  lemma BitJoinedMask(s: Stores, i: nat)
    ensures var d, h, t := s.body.numBits, s.head.numBits, s.tail.numBits;
            Bit(FieldsOf(s).Mask(), i) <==>
              || (h <= i < h + d && Bit(Value(s.body.mask), i - h))
              || (i < h && Bit(Value(s.head.mask), i))
              || (d + h <= i < d + h + t && Bit(Value(s.tail.mask), i - (d + h)))
  {
    hide Bit, Low, Spliced, Join, Value, BitsToBytes, Pow2;
    var d, h, t := s.body.numBits, s.head.numBits, s.tail.numBits;
    var bm, hm, tm := Value(s.body.mask), Value(s.head.mask), Value(s.tail.mask);
    LowBound(bm, d);
    LowBound(hm, h);
    LowBound(tm, t);
    SplicedIsJoin(Low(bm, d), Low(hm, h), Low(tm, t), d, h, t);
    BitSpliced(Low(bm, d), Low(hm, h), Low(tm, t), d, h, t, i);
    if i >= h {
      BitLow(bm, d, i - h);
    }
    BitLow(hm, h, i);
    if i >= d + h {
      BitLow(tm, t, i - (d + h));
    }
  }

  // The effective mask has the bits of the intended one, and those that padding adds.
  lemma EffectiveMaskBits(s: Stores, i: nat)
    requires i < s.Total()
    ensures Bit(EffectiveMask(s), i) <==> Bit(FieldsOf(s).Mask(), i) || MaskPadding(s, i)
  {
    hide Bit, Spliced, Value, BitsToBytes, EffectiveMask;
    BitEffectiveMask(s, i);
    BitJoinedMask(s, i);
    var d, h, t := s.body.numBits, s.head.numBits, s.tail.numBits;
    BitSpliced(Value(s.body.mask), Value(s.head.mask), Value(s.tail.mask), d, h, t, i);
    assert d + h + t <= 8 * BitsToBytes(d + h + t) && d + h <= 8 * BitsToBytes(d + h);
  }

  lemma NoMaskBitsAbove(s: Stores, i: nat)
    requires i >= s.Total()
    ensures !Bit(EffectiveMask(s), i) && !Bit(FieldsOf(s).Mask(), i)
  {
    hide Bit, Value, EffectiveMask;
    BitEffectiveMask(s, i);
    BitJoinedMask(s, i);
  }

  // The comparison uses the intended mask exactly when no padding bit adds to it.
  lemma EffectiveMaskExact(s: Stores)
    ensures EffectiveMask(s) == FieldsOf(s).Mask() <==> MaskCovered(s, FieldsOf(s).Mask())
    ensures EffectiveMask(s) == 0 ==> FieldsOf(s).Mask() == 0
  {
    hide Bit, MaskPadding, EffectiveMask;
    var e, m := EffectiveMask(s), FieldsOf(s).Mask();
    forall i: nat
      ensures Bit(e, i) <==> Bit(m, i) || (i < s.Total() && MaskPadding(s, i))
    {
      if i < s.Total() {
        EffectiveMaskBits(s, i);
      } else {
        NoMaskBitsAbove(s, i);
      }
    }
    if MaskCovered(s, m) {
      SameBits(e, m);
    }
    if e == 0 {
      forall i: nat
        ensures Bit(m, i) == Bit(0, i)
      {
        BitZero(i);
      }
      SameBits(m, 0);
    }
  }

  // A stored mask that cares for nothing is all zeros: only the default mask has padding,
  // and it cares for every bit.
  lemma CarelessMask(s: Store)
    requires Good(s) && FieldOf(s).mask == 0
    ensures Value(s.mask) == 0
  {
    hide Low, Value, BitsToBytes;
    var n := BitsToBytes(s.numBits);
    if Value(s.mask) < Pow2(s.numBits) {
      LowSmall(Value(s.mask), s.numBits);
    } else {
      assert s.mask == Repeat<byte>(0xFF, n);
      ValueOfOnes(n);
      assert Value(s.mask) == Ones(8 * n);
      LowOfOnes(8 * n, s.numBits);
      NoBits(s.numBits);
    }
  }

  lemma NoBits(n: nat)
    ensures Ones(n) == 0 ==> n == 0 && BitsToBytes(n) == 0 && Ones(8 * BitsToBytes(n)) == 0
  {
  }

  lemma {:induction false} ShlIsZero(v: nat, k: nat)
    ensures Shl(v, k) == 0 ==> v == 0
  {
    if k != 0 {
      ShlIsZero(v, k - 1);
    }
  }

  // The compiler drops a comparison exactly when the intended mask cares for nothing,
  // given that it uses the intended mask.
  lemma ZeroMaskExact(s: Stores)
    requires GoodStores(s)
    ensures IsAllZero(SplicedMask(s)) <==> Value(SplicedMask(s)) == 0
    ensures Value(SplicedMask(s)) == 0 ==> EffectiveMask(s) == 0
    ensures FieldsOf(s).Mask() == 0 ==> Value(SplicedMask(s)) == 0
  {
    hide Value, Low, Spliced, Good, SplicedMask;
    ZeroValue(SplicedMask(s));
    LowBound(Value(SplicedMask(s)), s.Total());
    if FieldsOf(s).Mask() == 0 {
      var f := FieldsOf(s);
      ShlIsZero(f.tail.mask, f.body.bits + f.head.bits);
      ShlIsZero(f.body.mask, f.head.bits);
      CarelessMask(s.head);
      CarelessMask(s.body);
      CarelessMask(s.tail);
      SplicedNothing(s);
    }
  }

  lemma SplicedNothing(s: Stores)
    requires Value(s.head.mask) == Value(s.body.mask) == Value(s.tail.mask) == 0
    ensures Value(SplicedMask(s)) == 0
  {
    hide Value, Splice, Join, Low, Pow2;
    ZeroFits(s.head.numBits);
    ZeroFits(s.body.numBits);
    ZeroFits(s.tail.numBits);
    SpliceFits(s.body.mask, s.head.mask, s.tail.mask, s);
    JoinOfZeros(s.body.numBits, s.head.numBits);
  }

  lemma JoinOfZeros(bodyBits: nat, headBits: nat)
    ensures Join(0, 0, 0, bodyBits, headBits) == 0
  {
    ShlZero(bodyBits + headBits);
    ShlZero(headBits);
  }

  lemma ZeroFits(n: nat)
    ensures 0 < Pow2(n)
  {
  }

  // ---------- One shift ----------

  // The TDI bits of an emitted shift are the joined TDI operands.
  lemma TdiExact(s: Stores)
    requires GoodStores(s)
    ensures Low(Payload(Reversed(SplicedTdi(s))), s.Total()) == FieldsOf(s).Tdi()
  {
    hide Value, Low, Splice, Pow2, Join;
    PayloadOfReversed(SplicedTdi(s));
    SpliceFits(s.body.tdi, s.head.tdi, s.tail.tdi, s);
  }

  // The registers hold what the compiler takes for granted about them.
  predicate Agree(cxt: Context, r: Regs)
  {
    && r.xsdrSize == cxt.curLength
    && (cxt.newMaskWritten ==> Reversed(cxt.curMask) <= r.mask)
  }

  function Compares(s: Stores, checked: bool): bool
  {
    checked && !IsAllZero(SplicedMask(s))
  }

  function DataCommand(s: Stores, checked: bool): Cmd
  {
    var tdi := Reversed(SplicedTdi(s));
    if Compares(s, checked) then XSdrTdo(Interleaved(tdi, Reversed(SplicedTdo(s)))) else XSdr(tdi)
  }

  lemma CheckExact(s: Stores, r: Regs)
    requires GoodStores(s) && r.xsdrSize == s.Total() && Reversed(SplicedMask(s)) <= r.mask
    ensures CheckOf(r, Interleaved(Reversed(SplicedTdi(s)), Reversed(SplicedTdo(s))))
         == Compare(EffectiveMask(s), And(FieldsOf(s).Tdo(), EffectiveMask(s)))
  {
    hide Value, Low, Splice, Pow2, Join, Interleaved, And, EverySecond, FirstBytes;
    var mask := SplicedMask(s);
    HalvesOfInterleaved(Reversed(SplicedTdi(s)), Reversed(SplicedTdo(s)));
    FirstBytesOfPrefix(r.mask, Reversed(mask));
    PayloadOfReversed(mask);
    PayloadOfReversed(SplicedTdo(s));
    SpliceFits(s.body.tdo, s.head.tdo, s.tail.tdo, s);
    AndLow(FieldsOf(s).Tdo(), Value(mask), s.Total());
  }

  // An emitted data register shift is the intended one exactly when the padding of the
  // masks adds nothing to a comparison.
  lemma DataShiftExact(s: Stores, r: Regs, checked: bool)
    requires GoodStores(s) && r.xsdrSize == s.Total()
    requires Compares(s, checked) ==> Reversed(SplicedMask(s)) <= r.mask
    ensures ShiftOf(r, DataCommand(s, checked)) == DataShift(FieldsOf(s), checked)
       <==> (checked ==> MaskCovered(s, FieldsOf(s).Mask()))
  {
    hide Low, Splice, Interleaved, And, EverySecond, CheckOf, EffectiveMask, MaskCovered, Payload, Join;
    TdiExact(s);
    HalvesOfInterleaved(Reversed(SplicedTdi(s)), Reversed(SplicedTdo(s)));
    if checked {
      EffectiveMaskExact(s);
      ZeroMaskExact(s);
      if Compares(s, checked) {
        CheckExact(s, r);
      }
    }
  }

  // An instruction shift is the intended one exactly when its length fits the byte that XSIR
  // has for it and no comparison is asked for, since XSIR makes none. With a length that fits,
  // and only then, does its payload have the size that goes with it.
  lemma InsnShiftExact(s: Stores, r: Regs, checked: bool)
    requires GoodStores(s)
    ensures ShiftOf(r, CompileInsn(s)) == InsnShift(FieldsOf(s), checked)
       <==> s.Total() < 256 && (checked ==> FieldsOf(s).Mask() == 0)
    ensures Sized(CompileInsn(s), None) <==> s.Total() < 256
  {
    hide Low, Splice, Payload, Join;
    TdiExact(s);
  }
}
