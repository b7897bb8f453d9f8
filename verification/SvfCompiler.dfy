// The SVF compiler as it runs: remembered bit stores updated in place, and commands
// appended to a byte buffer line by line.
module SvfCompiler {
  import opened Bytes
  import opened Buffers
  import opened Csvf
  import opened Svf
  import HT = HeadTail

  class BitStore {
    var numBits: nat
    var tdi: seq<byte>
    var tdo: seq<byte>
    var mask: seq<byte>

    constructor ()
      ensures View() == EMPTY_STORE
    {
      numBits, tdi, tdo, mask := 0, [], [], [];
    }

    function View(): Store
      reads this
    {
      Store(numBits, tdi, tdo, mask)
    }

    method ProcessLine(newLength: nat, ops: Operands)
      modifies this
      ensures View() == StoreAfter(old(View()), newLength, ops)
    {
      tdo := Repeat<byte>(0, BitsToBytes(newLength));
      if numBits != newLength {
        tdi := Repeat<byte>(0, BitsToBytes(newLength));
        mask := Repeat<byte>(0xFF, BitsToBytes(newLength));
      }
      numBits := newLength;
      if ops.tdi.Some? {
        tdi := ops.tdi.value;
      }
      if ops.tdo.Some? {
        tdo := ops.tdo.value;
      }
      if ops.mask.Some? {
        mask := ops.mask.value;
      }
    }
  }

  // A buffer holding the given bytes.
  method BufferOf(bytes: seq<byte>) returns (b: Buffer)
    ensures b.Valid() && fresh(b) && fresh(b.data) && b.Contents() == bytes
  {
    b := new Buffer(1024, 0);
    b.AppendBlock(bytes);
  }

  // Splice copies of three stored byte strings.
  method SpliceCopies(body: seq<byte>, head: seq<byte>, tail: seq<byte>, ghost s: Stores,
                      bodyBits: nat, headBits: nat, tailBits: nat)
    returns (r: seq<byte>)
    requires s.body.numBits == bodyBits && s.head.numBits == headBits && s.tail.numBits == tailBits
    requires |body| == BitsToBytes(bodyBits) && |head| == BitsToBytes(headBits) && |tail| == BitsToBytes(tailBits)
    requires bodyBits + headBits > 0
    ensures r == Splice(body, head, tail, s)
  {
    hide BitsToBytes, Value, ToBytes, HT.Spliced;
    var tmpHead := BufferOf(head);
    var tmpBody := BufferOf(body);
    var tmpTail := BufferOf(tail);
    HT.HeadTail(tmpBody, tmpHead, tmpTail, bodyBits, headBits, tailBits);
    r := tmpBody.data[..tmpBody.length];
    assert r == tmpBody.Contents();
    ToBytesOfValue(r);
  }

  method AllZeroBytes(s: seq<byte>) returns (zero: bool)
    ensures zero == IsAllZero(s)
  {
    var i := 0;
    while i < |s|
      invariant 0 <= i <= |s|
      invariant forall j :: 0 <= j < i ==> s[j] == 0
    {
      if s[i] != 0 {
        return false;
      }
      i := i + 1;
    }
    return true;
  }

  // Append src last byte first.
  method AppendSwapped(buf: Buffer, src: seq<byte>)
    requires buf.Valid()
    modifies buf, buf.data
    ensures buf.Valid() && (buf.data == old(buf.data) || fresh(buf.data))
    ensures buf.Contents() == old(buf.Contents()) + Reversed(src)
  {
    ghost var start := buf.Contents();
    var p := |src|;
    while p > 0
      invariant 0 <= p <= |src| && buf.Valid() && (buf.data == old(buf.data) || fresh(buf.data))
      invariant buf.Contents() == start + Reversed(src)[..|src| - p]
    {
      p := p - 1;
      assert Reversed(src)[..|src| - p] == Reversed(src)[..|src| - p - 1] + [src[p]];
      buf.AppendByte(src[p]);
    }
  }

  // Append the bytes of tdi and exp in turn, last bytes first.
  method AppendSwappedAndInterleaved(buf: Buffer, tdi: seq<byte>, exp: seq<byte>)
    requires buf.Valid() && |tdi| == |exp|
    modifies buf, buf.data
    ensures buf.Valid() && (buf.data == old(buf.data) || fresh(buf.data))
    ensures buf.Contents() == old(buf.Contents()) + Interleaved(Reversed(tdi), Reversed(exp))
  {
    hide Interleaved;
    ghost var start, all := buf.Contents(), Interleaved(Reversed(tdi), Reversed(exp));
    var p := |tdi|;
    while p > 0
      invariant 0 <= p <= |tdi| && buf.Valid() && (buf.data == old(buf.data) || fresh(buf.data))
      invariant buf.Contents() == start + all[..2 * (|tdi| - p)]
    {
      p := p - 1;
      InterleavedAt(Reversed(tdi), Reversed(exp), |tdi| - p - 1);
      buf.AppendByte(tdi[p]);
      buf.AppendByte(exp[p]);
    }
  }

  class ParseContext {
    const dataHead: BitStore
    const insnHead: BitStore
    const dataBody: BitStore
    const insnBody: BitStore
    const dataTail: BitStore
    const insnTail: BitStore
    var curLength: nat
    var curMask: seq<byte>
    var numCommands: nat
    var newMaskWritten: bool

    function StoreSet(): set<BitStore>
    {
      {dataHead, dataBody, dataTail, insnHead, insnBody, insnTail}
    }

    // The six stores are six objects, and hold as many bytes as their lengths say.
    ghost predicate Valid()
      reads this, StoreSet()
    {
      && dataHead != dataBody && dataHead != dataTail && dataHead != insnHead && dataHead != insnBody
           && dataHead != insnTail
      && dataBody != dataTail && dataBody != insnHead && dataBody != insnBody && dataBody != insnTail
      && dataTail != insnHead && dataTail != insnBody && dataTail != insnTail
      && insnHead != insnBody && insnHead != insnTail
      && insnBody != insnTail
      && View().data.Sized() && View().insn.Sized()
    }

    function View(): Context
      reads this, StoreSet()
    {
      Context(Stores(dataHead.View(), dataBody.View(), dataTail.View()),
              Stores(insnHead.View(), insnBody.View(), insnTail.View()),
              curLength, curMask, newMaskWritten)
    }

    constructor ()
      ensures Valid() && fresh(StoreSet())
      ensures View() == EMPTY_CONTEXT && numCommands == 0
    {
      dataHead := new BitStore();
      dataBody := new BitStore();
      dataTail := new BitStore();
      insnHead := new BitStore();
      insnBody := new BitStore();
      insnTail := new BitStore();
      curLength, curMask, numCommands, newMaskWritten := 0, [], 0, false;
    }

    // Send the register length if it is not the one in force.
    method EmitSize(csvfBuf: Buffer, total: Long)
      requires csvfBuf.Valid()
      modifies this`curLength, this`numCommands, csvfBuf, csvfBuf.data
      ensures csvfBuf.Valid() && (csvfBuf.data == old(csvfBuf.data) || fresh(csvfBuf.data))
      ensures csvfBuf.Contents() == old(csvfBuf.Contents()) + EncodeAll(SizeCommand(total, old(curLength)))
      ensures curLength == total && numCommands == old(numCommands) + |SizeCommand(total, old(curLength))|
    {
      hide LongBE;
      EncodeOne(XSdrSize(total));
      if total != curLength {
        curLength := total;
        numCommands := numCommands + 1;
        csvfBuf.AppendByte(XSDRSIZE);
        csvfBuf.AppendLongBE(curLength);
      }
    }

    // Remember the mask, and send it if this comparison needs it and it was not the last
    // one sent.
    method EmitMask(csvfBuf: Buffer, mask: seq<byte>, compare: bool)
      requires csvfBuf.Valid()
      modifies this`curMask, this`newMaskWritten, this`numCommands, csvfBuf, csvfBuf.data
      ensures csvfBuf.Valid() && (csvfBuf.data == old(csvfBuf.data) || fresh(csvfBuf.data))
      ensures var written := old(newMaskWritten) && mask == old(curMask);
              var cmds := if compare && !written then [XTdoMask(Reversed(mask))] else [];
              && csvfBuf.Contents() == old(csvfBuf.Contents()) + EncodeAll(cmds)
              && numCommands == old(numCommands) + |cmds|
              && newMaskWritten == (compare || written)
      ensures curMask == mask
    {
      EncodeOne(XTdoMask(Reversed(mask)));
      EncodeNone();
      hide EncodeAll, Reversed, Buffer.Valid;
      if mask != curMask {
        curMask := mask;
        newMaskWritten := false;
      }
      if compare && !newMaskWritten {
        numCommands := numCommands + 1;
        csvfBuf.AppendByte(XTDOMASK);
        AppendSwapped(csvfBuf, curMask);
        newMaskWritten := true;
      }
    }

    method EmitShift(csvfBuf: Buffer, tdi: seq<byte>, tdo: seq<byte>, compare: bool)
      requires csvfBuf.Valid() && (compare ==> |tdo| == |tdi|)
      modifies this`numCommands, csvfBuf, csvfBuf.data
      ensures csvfBuf.Valid() && (csvfBuf.data == old(csvfBuf.data) || fresh(csvfBuf.data))
      ensures var cmd := if compare then XSdrTdo(Interleaved(Reversed(tdi), Reversed(tdo))) else XSdr(Reversed(tdi));
              csvfBuf.Contents() == old(csvfBuf.Contents()) + EncodeAll([cmd])
      ensures numCommands == old(numCommands) + 1
    {
      hide Interleaved;
      numCommands := numCommands + 1;
      if compare {
        EncodeOne(XSdrTdo(Interleaved(Reversed(tdi), Reversed(tdo))));
        csvfBuf.AppendByte(XSDRTDO);
        AppendSwappedAndInterleaved(csvfBuf, tdi, tdo);
      } else {
        EncodeOne(XSdr(Reversed(tdi)));
        csvfBuf.AppendByte(XSDR);
        AppendSwapped(csvfBuf, tdi);
      }
    }

    // The commands of one data register shift.
    method EmitData(csvfBuf: Buffer, total: Long, mask: seq<byte>, tdi: seq<byte>, tdo: seq<byte>, compare: bool)
      requires csvfBuf.Valid() && (compare ==> |tdo| == |tdi|)
      modifies this`curLength, this`curMask, this`newMaskWritten, this`numCommands, csvfBuf, csvfBuf.data
      ensures csvfBuf.Valid() && (csvfBuf.data == old(csvfBuf.data) || fresh(csvfBuf.data))
      ensures curLength == total && curMask == mask
      ensures var written := old(newMaskWritten) && mask == old(curMask);
              var maskCmd := if compare && !written then [XTdoMask(Reversed(mask))] else [];
              var shift := if compare then XSdrTdo(Interleaved(Reversed(tdi), Reversed(tdo))) else XSdr(Reversed(tdi));
              var cmds := SizeCommand(total, old(curLength)) + maskCmd + [shift];
              && csvfBuf.Contents() == old(csvfBuf.Contents()) + EncodeAll(cmds)
              && numCommands == old(numCommands) + |cmds|
              && newMaskWritten == (compare || written)
    {
      hide EncodeAll, Interleaved, SizeCommand;
      ghost var written := newMaskWritten && mask == curMask;
      EncodeThree(SizeCommand(total, curLength),
                  if compare && !written then [XTdoMask(Reversed(mask))] else [],
                  if compare then XSdrTdo(Interleaved(Reversed(tdi), Reversed(tdo))) else XSdr(Reversed(tdi)));
      EmitSize(csvfBuf, total);
      EmitMask(csvfBuf, mask, compare);
      EmitShift(csvfBuf, tdi, tdo, compare);
    }

    // An SDR line.
    method ParseDataBody(length: nat, ops: Operands, csvfBuf: Buffer)
      requires Valid() && csvfBuf.Valid()
      requires Acceptable(View(), ShiftLine(Data, Body, length, ops))
      modifies this, dataBody, csvfBuf, csvfBuf.data
      ensures Valid() && csvfBuf.Valid() && (csvfBuf.data == old(csvfBuf.data) || fresh(csvfBuf.data))
      ensures var (cxt, cmds) := CompileLine(old(View()), ShiftLine(Data, Body, length, ops));
              && View() == cxt
              && csvfBuf.Contents() == old(csvfBuf.Contents()) + EncodeAll(cmds)
              && numCommands == old(numCommands) + |cmds|
    {
      hide EncodeAll, Splice, SizeCommand, StoreAfter, Interleaved, BitsToBytes, IsAllZero;
      SizedAfter(View().data, Body, length, ops);
      BodyLength(View().data.body, length, ops);
      dataBody.ProcessLine(length, ops);
      assert View().data == old(View()).data.After(Body, length, ops);
      var total := dataHead.numBits + dataBody.numBits + dataTail.numBits;
      var mask, tdi, tdo := SpliceData();
      var zeroMask := AllZeroBytes(mask);
      EmitData(csvfBuf, total, mask, tdi, tdo, !zeroMask && ops.tdo.Some?);
    }

    // The combined operands of the data register stores.
    method SpliceData() returns (mask: seq<byte>, tdi: seq<byte>, tdo: seq<byte>)
      requires Valid() && View().data.body.numBits + View().data.head.numBits > 0
      ensures mask == SplicedMask(View().data) && tdi == SplicedTdi(View().data) && tdo == SplicedTdo(View().data)
    {
      hide Splice, BitsToBytes;
      ghost var s := View().data;
      var bodyBits, headBits, tailBits := dataBody.numBits, dataHead.numBits, dataTail.numBits;
      mask := SpliceCopies(dataBody.mask, dataHead.mask, dataTail.mask, s, bodyBits, headBits, tailBits);
      tdi := SpliceCopies(dataBody.tdi, dataHead.tdi, dataTail.tdi, s, bodyBits, headBits, tailBits);
      tdo := SpliceCopies(dataBody.tdo, dataHead.tdo, dataTail.tdo, s, bodyBits, headBits, tailBits);
    }

    // An SIR line.
    method ParseInsnBody(length: nat, ops: Operands, csvfBuf: Buffer)
      requires Valid() && csvfBuf.Valid()
      requires Acceptable(View(), ShiftLine(Insn, Body, length, ops))
      modifies this, insnBody, csvfBuf, csvfBuf.data
      ensures Valid() && csvfBuf.Valid() && (csvfBuf.data == old(csvfBuf.data) || fresh(csvfBuf.data))
      ensures var (cxt, cmds) := CompileLine(old(View()), ShiftLine(Insn, Body, length, ops));
              && View() == cxt
              && csvfBuf.Contents() == old(csvfBuf.Contents()) + EncodeAll(cmds)
              && numCommands == old(numCommands) + |cmds|
    {
      hide EncodeAll, Splice, StoreAfter, BitsToBytes;
      SizedAfter(View().insn, Body, length, ops);
      BodyLength(View().insn.body, length, ops);
      insnBody.ProcessLine(length, ops);
      assert View().insn == old(View()).insn.After(Body, length, ops);
      ghost var s := View().insn;
      var bodyBits, headBits, tailBits := insnBody.numBits, insnHead.numBits, insnTail.numBits;
      var tdi := SpliceCopies(insnBody.tdi, insnHead.tdi, insnTail.tdi, s, bodyBits, headBits, tailBits);
      EmitInsn(csvfBuf, (bodyBits + headBits + tailBits) % 256, tdi);
    }

    method EmitInsn(csvfBuf: Buffer, numBits: byte, tdi: seq<byte>)
      requires csvfBuf.Valid()
      modifies this`numCommands, csvfBuf, csvfBuf.data
      ensures csvfBuf.Valid() && (csvfBuf.data == old(csvfBuf.data) || fresh(csvfBuf.data))
      ensures csvfBuf.Contents() == old(csvfBuf.Contents()) + EncodeAll([XSir(numBits, Reversed(tdi))])
      ensures numCommands == old(numCommands) + 1
    {
      EncodeOne(XSir(numBits, Reversed(tdi)));
      numCommands := numCommands + 1;
      csvfBuf.AppendByte(XSIR);
      csvfBuf.AppendByte(numBits);
      AppendSwapped(csvfBuf, tdi);
    }

    method EmitRunTest(csvfBuf: Buffer, count: Long)
      requires csvfBuf.Valid()
      modifies this`numCommands, csvfBuf, csvfBuf.data
      ensures csvfBuf.Valid() && (csvfBuf.data == old(csvfBuf.data) || fresh(csvfBuf.data))
      ensures csvfBuf.Contents() == old(csvfBuf.Contents()) + EncodeAll([XRunTest(count)])
      ensures numCommands == old(numCommands) + 1
    {
      hide LongBE;
      EncodeOne(XRunTest(count));
      numCommands := numCommands + 1;
      csvfBuf.AppendByte(XRUNTEST);
      csvfBuf.AppendLongBE(count);
    }

    method ParseLine(line: Line, csvfBuf: Buffer)
      requires Valid() && csvfBuf.Valid() && Acceptable(View(), line)
      modifies this, StoreSet(), csvfBuf, csvfBuf.data
      ensures Valid() && csvfBuf.Valid() && (csvfBuf.data == old(csvfBuf.data) || fresh(csvfBuf.data))
      ensures var (cxt, cmds) := CompileLine(old(View()), line);
              && View() == cxt
              && csvfBuf.Contents() == old(csvfBuf.Contents()) + EncodeAll(cmds)
              && numCommands == old(numCommands) + |cmds|
    {
      hide EncodeAll, StoreAfter, BitsToBytes, CompileData, CompileInsn, LongBE;
      EncodeNone();
      match line
      case RunTest(count) =>
        EmitRunTest(csvfBuf, count);
      case ShiftLine(Data, part, length, ops) =>
        SizedAfter(View().data, part, length, ops);
        match part {
          case Head => dataHead.ProcessLine(length, ops);
          case Tail => dataTail.ProcessLine(length, ops);
          case Body => ParseDataBody(length, ops, csvfBuf);
        }
      case ShiftLine(Insn, part, length, ops) =>
        SizedAfter(View().insn, part, length, ops);
        match part {
          case Head => insnHead.ProcessLine(length, ops);
          case Tail => insnTail.ProcessLine(length, ops);
          case Body => ParseInsnBody(length, ops, csvfBuf);
        }
    }
  }

  lemma EncodeNone()
    ensures EncodeAll([]) == []
  {
  }

  lemma EncodeThree(a: seq<Cmd>, b: seq<Cmd>, c: Cmd)
    ensures EncodeAll(a + b + [c]) == EncodeAll(a) + EncodeAll(b) + EncodeAll([c])
  {
    EncodeConcat(a, b);
    EncodeConcat(a + b, [c]);
  }

  lemma SizedAfter(s: Stores, part: Part, length: nat, ops: Operands)
    requires s.Sized() && OperandsSized(length, ops)
    ensures s.After(part, length, ops).Sized()
  {
    hide BitsToBytes;
  }

  lemma BodyLength(s: Store, length: nat, ops: Operands)
    ensures StoreAfter(s, length, ops).numBits == length
  {
  }
}
