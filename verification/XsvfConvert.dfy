// The XSVF compiler itself, reading byte by byte. The output is a sequence and not a
// Buffer: dropping a mask just shortens it, which leaves stale bytes behind the length.
module XsvfConvert {
  import opened Bytes
  import opened Buffers
  import opened Csvf
  import opened Xsvf
  import opened XsvfCompile

  predicate Supported(opcode: byte)
  {
    || opcode == XTDOMASK || opcode == XSDRTDO || opcode == XREPEAT || opcode == XRUNTEST || opcode == XSIR
    || opcode == XSDRSIZE || opcode == XSDR || opcode == XSDRB || opcode == XSDRC || opcode == XSDRE
    || opcode == XSTATE || opcode == XENDIR || opcode == XENDDR
  }

  // Filling a reversed operand in from its end.
  lemma FillOneMore(before: seq<byte>, src: seq<byte>, left: nat)
    requires 0 < left <= |src|
    ensures (before + (Repeat<byte>(0, left) + Reversed(src)[left..]))[|before| + left - 1 := src[|src| - left]]
         == before + (Repeat<byte>(0, left - 1) + Reversed(src)[left - 1..])
  {
    assert Reversed(src)[left - 1] == src[|src| - left];
    assert Reversed(src)[left - 1..] == [src[|src| - left]] + Reversed(src)[left..];
  }

  // The C function's locals are fields here, so that each of its cases can be a method.
  class Converter {
    const xsvf: seq<byte>
    var offset: nat
    var newXSize: Long
    var curXSize: Long
    var totOffset: nat
    var zeroMask: bool
    var out: seq<byte>
    var maxBufSize: nat

    function State(): XState
      reads this
    {
      XState(newXSize, curXSize, totOffset, zeroMask, out, maxBufSize)
    }

    constructor (xsvf: seq<byte>)
      ensures this.xsvf == xsvf && offset == 0 && State() == INITIAL
    {
      this.xsvf, offset := xsvf, 0;
      newXSize, curXSize, totOffset, zeroMask, out, maxBufSize := 0, 0, 0, false, [], 0;
    }

    method GetNextByte() returns (b: byte)
      requires offset < |xsvf|
      modifies this`offset
      ensures b == xsvf[old(offset)] && offset == old(offset) + 1
    {
      b := xsvf[offset];
      offset := offset + 1;
    }

    method GetNextLong() returns (v: Long)
      requires offset + 4 <= |xsvf|
      modifies this`offset
      ensures v == ReadLongBE(xsvf[old(offset)..old(offset) + 4]) && offset == old(offset) + 4
    {
      var a := GetNextByte();
      var b := GetNextByte();
      var c := GetNextByte();
      var d := GetNextByte();
      assert xsvf[old(offset)..old(offset) + 4] == [a, b, c, d];
      v := ReadLongBE([a, b, c, d]);
    }

    // Append numBytes bytes of the stream, last byte first.
    method SwapBytes(numBytes: nat)
      requires offset + numBytes <= |xsvf|
      modifies this`offset, this`out
      ensures offset == old(offset) + numBytes
      ensures out == old(out) + Reversed(xsvf[old(offset)..old(offset) + numBytes])
    {
      hide Reversed;
      ghost var before, src := out, xsvf[offset..offset + numBytes];
      out := out + Repeat<byte>(0, numBytes);
      var ptr, left := |out| - 1, numBytes;
      while left > 0
        invariant 0 <= left <= numBytes && offset == old(offset) + (numBytes - left)
        invariant ptr == |before| + left - 1
        invariant out == before + (Repeat<byte>(0, left) + Reversed(src)[left..])
      {
        var b := GetNextByte();
        FillOneMore(before, src, left);
        out := out[ptr := b];
        ptr, left := ptr - 1, left - 1;
      }
    }

    // Append numBytes bytes of the stream and then as many again, in turn, last bytes first.
    method SwapAndInterleaveBytes(numBytes: nat)
      requires offset + 2 * numBytes <= |xsvf|
      modifies this`offset, this`out
      ensures offset == old(offset) + 2 * numBytes
      ensures var tdi := xsvf[old(offset)..old(offset) + numBytes];
              var tdo := xsvf[old(offset) + numBytes..old(offset) + 2 * numBytes];
              out == old(out) + Interleaved(Reversed(tdi), Reversed(tdo))
    {
      hide Interleaved, Reversed;
      ghost var start, before := |out|, out;
      ghost var tdi := Reversed(xsvf[offset..offset + numBytes]);
      ghost var tdo := Reversed(xsvf[offset + numBytes..offset + 2 * numBytes]);
      out := out + Repeat<byte>(0, 2 * numBytes);
      var ptr, i := |out| - 2, numBytes;
      while i > 0
        invariant 0 <= i <= numBytes && offset == old(offset) + (numBytes - i)
        invariant |out| == start + 2 * numBytes && ptr == start + 2 * i - 2 && out[..start] == before
        invariant forall k :: i <= k < numBytes ==> out[start + 2 * k] == tdi[k]
      {
        var b := GetNextByte();
        assert tdi[i - 1] == b;
        out := out[ptr := b];
        ptr, i := ptr - 2, i - 1;
      }
      i := numBytes;
      ptr := |out| - 1;
      while i > 0
        invariant 0 <= i <= numBytes && offset == old(offset) + numBytes + (numBytes - i)
        invariant |out| == start + 2 * numBytes && ptr == start + 2 * i - 1 && out[..start] == before
        invariant forall k :: 0 <= k < numBytes ==> out[start + 2 * k] == tdi[k]
        invariant forall k :: i <= k < numBytes ==> out[start + 2 * k + 1] == tdo[k]
      {
        var b := GetNextByte();
        assert tdo[i - 1] == b;
        out := out[ptr := b];
        ptr, i := ptr - 2, i - 1;
      }
      InterleavedIs(tdi, tdo, out[start..]);
      assert out == out[..start] + out[start..];
    }

    method SendXSize(xSize: Long)
      modifies this`out
      ensures out == old(out) + SizeBytes(xSize)
    {
      out := out + [XSDRSIZE];
      out := out + LongBE(xSize);
    }

    // Write the size if it differs from the one last written.
    method Sync()
      modifies this`curXSize, this`out
      ensures State() == Synced(old(State()))
    {
      if newXSize != curXSize {
        curXSize := newXSize;
        SendXSize(curXSize);
      }
    }

    // The opcode at this place has been read, and c is the command.
    ghost predicate Reading(at: nat, c: XCmd, length: nat)
      reads this
    {
      offset == at + 1 && at <= |xsvf| && XFetch(xsvf[at..], newXSize) == XFetched(c, length)
    }

    // A command with one operand of the size in force.
    lemma OneOperand(at: nat, c: XCmd, length: nat)
      requires Reading(at, c, length) && (c.TdoMask? || c.Sdr? || c.SdrBegin? || c.SdrContinue? || c.SdrEnd?)
      ensures var n := BitsToBytes(newXSize);
              length == 1 + n && offset + n <= |xsvf|
              && xsvf[offset..offset + n] == match c case TdoMask(mask) => mask case _ => c.tdi
    {
      hide BitsToBytes, ReadLongBE;
    }

    method ConvertMask(ghost at: nat, ghost c: XCmd, ghost length: nat)
      requires Reading(at, c, length) && c.TdoMask?
      modifies this`offset, this`curXSize, this`zeroMask, this`out, this`maxBufSize
      ensures offset == at + length && State() == XStep(old(State()), c).st
    {
      hide XFetch, BitsToBytes, IsAllZero, Reversed, SizeBytes, Extended, Interleaved;
      OneOperand(at, c, length);
      Sync();
      var initLength, numBytes := |out|, BitsToBytes(curXSize);
      ghost var before := out;
      out := out + [XTDOMASK];
      SwapBytes(numBytes);
      zeroMask := AllZeroFrom(initLength + 1);
      ZeroBothWays(c.mask, out, before);
      if zeroMask {
        out := out[..initLength];
      } else {
        NeedBuffers(numBytes);
      }
    }

    // The player will have to keep an operand of this size.
    method NeedBuffers(numBytes: nat)
      modifies this`maxBufSize
      ensures maxBufSize == if numBytes > old(maxBufSize) then numBytes else old(maxBufSize)
    {
      if numBytes > maxBufSize {
        maxBufSize := numBytes;
      }
    }

    method AllZeroFrom(start: nat) returns (zero: bool)
      requires start <= |out|
      ensures zero <==> forall i :: start <= i < |out| ==> out[i] == 0
    {
      var p := start;
      while p < |out| && out[p] == 0
        invariant start <= p <= |out|
        invariant forall i :: start <= i < p ==> out[i] == 0
      {
        p := p + 1;
      }
      zero := p == |out|;
    }

    method Discard(numBytes: nat)
      requires offset + numBytes <= |xsvf|
      modifies this`offset
      ensures offset == old(offset) + numBytes
    {
      var left := numBytes;
      while left > 0
        invariant 0 <= left && offset + left == old(offset) + numBytes
      {
        var _ := GetNextByte();
        left := left - 1;
      }
    }

    method ConvertTdo(ghost at: nat, ghost c: XCmd, ghost length: nat) returns (status: XStatus)
      requires Reading(at, c, length) && c.SdrTdo?
      modifies this`offset, this`curXSize, this`out, this`maxBufSize
      ensures status == XStep(old(State()), c).status
      ensures status == XSuccess ==> offset == at + length && State() == XStep(old(State()), c).st
    {
      hide XFetch, BitsToBytes, Interleaved, Reversed, SizeBytes, Extended, IsAllZero;
      TwoOperands(at, c, length);
      Sync();
      if zeroMask {
        ShiftOnly(BitsToBytes(curXSize));
        status := XSuccess;
      } else {
        status := ShiftAndCompare(BitsToBytes(curXSize));
      }
    }

    // Write the bits to shift in, and skip the expected ones.
    method ShiftOnly(numBytes: nat)
      requires offset + 2 * numBytes <= |xsvf|
      modifies this`offset, this`out
      ensures offset == old(offset) + 2 * numBytes
      ensures out == old(out) + ([XSDR] + Reversed(xsvf[old(offset)..old(offset) + numBytes]))
    {
      hide Reversed;
      out := out + [XSDR];
      SwapBytes(numBytes);
      Discard(numBytes);
    }

    // Write both, if the player has room for them.
    method ShiftAndCompare(numBytes: nat) returns (status: XStatus)
      requires offset + 2 * numBytes <= |xsvf|
      modifies this`offset, this`out, this`maxBufSize
      ensures status == if numBytes > BUF_SIZE then UnsupportedSize else XSuccess
      ensures status == XSuccess ==>
                var tdi := xsvf[old(offset)..old(offset) + numBytes];
                var tdo := xsvf[old(offset) + numBytes..old(offset) + 2 * numBytes];
                && offset == old(offset) + 2 * numBytes
                && out == old(out) + ([XSDRTDO] + Interleaved(Reversed(tdi), Reversed(tdo)))
                && maxBufSize == if numBytes > old(maxBufSize) then numBytes else old(maxBufSize)
    {
      hide Reversed, Interleaved;
      if numBytes > BUF_SIZE {
        return UnsupportedSize;
      }
      NeedBuffers(numBytes);
      out := out + [XSDRTDO];
      SwapAndInterleaveBytes(numBytes);
      status := XSuccess;
    }

    lemma TwoOperands(at: nat, c: XCmd, length: nat)
      requires Reading(at, c, length) && c.SdrTdo?
      ensures var n := BitsToBytes(newXSize);
              length == 1 + 2 * n && offset + 2 * n <= |xsvf|
              && xsvf[offset..offset + n] == c.tdi && xsvf[offset + n..offset + 2 * n] == c.tdo
    {
      hide BitsToBytes, ReadLongBE;
    }

    method ConvertSdr(ghost at: nat, ghost c: XCmd, ghost length: nat)
      requires Reading(at, c, length) && c.Sdr?
      modifies this`offset, this`curXSize, this`out
      ensures offset == at + length && State() == XStep(old(State()), c).st
    {
      hide XFetch, BitsToBytes, Reversed;
      OneOperand(at, c, length);
      Sync();
      out := out + [XSDR];
      SwapBytes(BitsToBytes(curXSize));
    }

    // A shift in pieces becomes a single one, whose size is not known yet.
    method ConvertBegin(ghost at: nat, ghost c: XCmd, ghost length: nat)
      requires Reading(at, c, length) && c.SdrBegin?
      modifies this`offset, this`curXSize, this`totOffset, this`out
      ensures offset == at + length && State() == XStep(old(State()), c).st
    {
      hide XFetch, BitsToBytes, Reversed;
      OneOperand(at, c, length);
      curXSize := newXSize;
      SendXSize(curXSize);
      totOffset := |out| - 4;
      out := out + [XSDR];
      SwapBytes(BitsToBytes(newXSize));
    }

    // Add to the data of the shift under way, and patch its size.
    method ConvertMore(ghost at: nat, ghost c: XCmd, ghost length: nat)
      requires Reading(at, c, length) && (c.SdrContinue? || c.SdrEnd?)
      modifies this`offset, this`curXSize, this`out
      ensures offset == at + length && State() == XStep(old(State()), c).st
    {
      hide XFetch, BitsToBytes, Reversed, Overwrite;
      OneOperand(at, c, length);
      curXSize := (curXSize + newXSize) % 0x1_0000_0000;
      out := Overwrite(out, 0, totOffset, LongBE(curXSize));
      SwapBytes(BitsToBytes(newXSize));
    }

    // A command that is copied, remembered or skipped.
    method ConvertOther(opcode: byte, ghost at: nat, ghost c: XCmd, ghost length: nat) returns (status: XStatus)
      requires Reading(at, c, length) && opcode == xsvf[at]
      requires c.Repeats? || c.RunTest? || c.Sir? || c.SdrSize? || c.State? || c.EndIr? || c.EndDr?
      modifies this`offset, this`newXSize, this`out
      ensures status == XStep(old(State()), c).status
      ensures status == XSuccess ==> offset == at + length && State() == XStep(old(State()), c).st
    {
      hide BitsToBytes, Reversed, ReadLongBE, LongBE;
      ShortOperands(at, c, length);
      status := XSuccess;
      if opcode == XRUNTEST {
        out := out + [XRUNTEST];
        var count := GetNextLong();
        out := out + LongBE(count);
      } else if opcode == XSIR {
        out := out + [XSIR];
        var numBits := GetNextByte();
        out := out + [numBits];
        SwapBytes(BitsToBytes(numBits));
      } else if opcode == XSDRSIZE {
        newXSize := GetNextLong();
      } else {
        var operand := GetNextByte();
        if (opcode == XENDIR || opcode == XENDDR) && operand != 0 {
          status := UnsupportedData;
        }
      }
    }

    lemma ShortOperands(at: nat, c: XCmd, length: nat)
      requires Reading(at, c, length)
      ensures c.RunTest? || c.SdrSize? ==>
                length == 5 && offset + 4 <= |xsvf|
                && ReadLongBE(xsvf[offset..offset + 4]) == if c.RunTest? then c.count else c.size
      ensures c.Sir? ==>
                length == 2 + BitsToBytes(c.numBits) && offset + 1 + BitsToBytes(c.numBits) <= |xsvf|
                && xsvf[offset] == c.numBits && xsvf[offset + 1..offset + 1 + BitsToBytes(c.numBits)] == c.tdi
      ensures c.Repeats? || c.State? || c.EndIr? || c.EndDr? ==> length == 2 && offset < |xsvf|
      ensures c.EndIr? || c.EndDr? ==> xsvf[offset] == c.state
    {
      hide BitsToBytes, ReadLongBE;
      if c.RunTest? || c.SdrSize? {
        assert xsvf[at..][1..5] == xsvf[offset..offset + 4];
      }
      if c.Sir? {
        assert xsvf[at..][2..2 + BitsToBytes(c.numBits)] == xsvf[offset + 1..offset + 1 + BitsToBytes(c.numBits)];
      }
    }

    // Convert the command whose opcode has just been read.
    method ConvertOne(opcode: byte, ghost at: nat, ghost c: XCmd, ghost length: nat) returns (status: XStatus)
      requires Reading(at, c, length) && opcode == xsvf[at]
      modifies this
      ensures status == XStep(old(State()), c).status
      ensures status == XSuccess ==> offset == at + length && State() == XStep(old(State()), c).st
    {
      OpcodeOf(at, c, length);
      hide XFetch, XStep;
      status := XSuccess;
      StepSucceeds(State(), c);
      if opcode == XTDOMASK {
        ConvertMask(at, c, length);
      } else if opcode == XSDRTDO {
        status := ConvertTdo(at, c, length);
      } else if opcode == XSDR {
        ConvertSdr(at, c, length);
      } else if opcode == XSDRB {
        ConvertBegin(at, c, length);
      } else if opcode == XSDRC || opcode == XSDRE {
        ConvertMore(at, c, length);
      } else {
        status := ConvertOther(opcode, at, c, length);
      }
    }

    lemma StepSucceeds(st: XState, c: XCmd)
      ensures c.TdoMask? || c.Sdr? || c.SdrBegin? || c.SdrContinue? || c.SdrEnd? ==> XStep(st, c).status == XSuccess
    {
      hide Extended, Synced, SizeBytes, IsAllZero;
    }

    lemma OpcodeOf(at: nat, c: XCmd, length: nat)
      requires Reading(at, c, length)
      ensures at < |xsvf|
      ensures match xsvf[at]
              case 0x01 => c.TdoMask?
              case 0x03 => c.Sdr?
              case 0x09 => c.SdrTdo?
              case 0x0C => c.SdrBegin?
              case 0x0D => c.SdrContinue?
              case 0x0E => c.SdrEnd?
              case _ => c.Repeats? || c.RunTest? || c.Sir? || c.SdrSize? || c.State? || c.EndIr? || c.EndDr?
    {
      hide BitsToBytes, ReadLongBE;
    }

    // What is left to do gives the outcome of the whole.
    ghost predicate Converting(all: XOutcome, end: End)
      reads this
    {
      && offset <= |xsvf|
      && XRun(State(), XDecode(xsvf[offset..], newXSize).cmds) == all
      && XDecode(xsvf[offset..], newXSize).end == end
    }

    lemma NextConversion(all: XOutcome, end: End)
      requires Converting(all, end) && end != Truncated
      ensures offset < |xsvf|
      ensures match XFetch(xsvf[offset..], newXSize)
              case XStop(e) => e == end && all == XOutcome(State(), XSuccess)
                   && (end == Complete <==> xsvf[offset] == XCOMPLETE)
                               && !Supported(xsvf[offset])
              case XFetched(c, length) =>
                && Supported(xsvf[offset]) && offset + length <= |xsvf|
                && var o := XStep(State(), c);
                   if o.status != XSuccess then all == o
                   else all == XRun(o.st, XDecode(xsvf[offset + length..], SizeAfter(c, newXSize)).cmds)
                        && end == XDecode(xsvf[offset + length..], SizeAfter(c, newXSize)).end
    {
      hide XStep, BitsToBytes, ReadLongBE;
      if offset < |xsvf| {
        var f := XFetch(xsvf[offset..], newXSize);
        if f.XFetched? {
          assert xsvf[offset..][f.length..] == xsvf[offset + f.length..];
        }
      }
    }

    lemma NewSize(st: XState, c: XCmd)
      ensures XStep(st, c).st.newX == SizeAfter(c, st.newX)
    {
      hide SizeBytes, IsAllZero, BitsToBytes, Overwrite;
    }

    // Convert the whole program; the buffer holds the CSVF exactly when that succeeds.
    method XsvfSwapBytes() returns (status: XStatus)
      requires offset == 0 && XDecode(xsvf, newXSize).end != Truncated
      modifies this
      ensures var d, o := XDecode(xsvf, old(newXSize)), XRun(old(State()), XDecode(xsvf, old(newXSize)).cmds);
              && status == (if o.status == XSuccess && d.end != Complete then UnsupportedCmd else o.status)
              && (status == XSuccess ==> out == o.st.out + [XCOMPLETE] && maxBufSize == o.st.maxBuf)
    {
      hide XDecode, XRun, XStep, XFetch;
      ghost var d := XDecode(xsvf, newXSize);
      ghost var all := XRun(State(), d.cmds);
      assert xsvf[0..] == xsvf;
      while true
        invariant Converting(all, d.end)
        decreases |xsvf| - offset
      {
        NextConversion(all, d.end);
        ghost var f, at := XFetch(xsvf[offset..], newXSize), offset;
        var thisByte := GetNextByte();
        if thisByte == XCOMPLETE {
          break;
        }
        if !Supported(thisByte) {
          return UnsupportedCmd;
        }
        NewSize(State(), f.cmd);
        status := ConvertOne(thisByte, at, f.cmd, f.length);
        if status != XSuccess {
          return;
        }
      }
      out := out + [XCOMPLETE];
      status := XSuccess;
    }
  }

  lemma ZeroBothWays(mask: seq<byte>, out: seq<byte>, before: seq<byte>)
    requires out == before + [XTDOMASK] + Reversed(mask)
    ensures IsAllZero(mask) <==> forall i :: |before| + 1 <= i < |out| ==> out[i] == 0
    ensures out[..|before|] == before
  {
    assert forall i :: |before| + 1 <= i < |out| ==> out[i] == mask[|mask| - 1 - (i - |before| - 1)];
    assert forall i :: 0 <= i < |mask| ==> mask[i] == out[|out| - 1 - i];
  }

  lemma {:induction false} InterleavedIs(a: seq<byte>, b: seq<byte>, s: seq<byte>)
    requires |a| == |b| && |s| == 2 * |a|
    requires forall k :: 0 <= k < |a| ==> s[2 * k] == a[k] && s[2 * k + 1] == b[k]
    ensures s == Interleaved(a, b)
  {
    if a != [] {
      forall k | 0 <= k < |a| - 1
        ensures s[2..][2 * k] == a[1..][k] && s[2..][2 * k + 1] == b[1..][k]
      {
        assert s[2 * (k + 1)] == a[k + 1];
      }
      InterleavedIs(a[1..], b[1..], s[2..]);
      assert s == [s[2 * 0], s[2 * 0 + 1]] + s[2..];
    }
  }
}
