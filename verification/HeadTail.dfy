// Splicing header and trailer bits onto a shift register's data: bit strings of any
// length, stored most significant byte first in byte buffers.
module HeadTail {
  import opened Bits
  import opened Bytes
  import opened Buffers

  // The three bit strings laid end to end, tail first.
  function Join(data: nat, head: nat, tail: nat, dataBits: nat, headBits: nat): nat
  {
    Shl(tail, dataBits + headBits) + Shl(data, headBits) + head
  }

  // What splicing whole bytes gives, whether or not the padding bits in front of each
  // operand are zero: data is cut to the bytes that its bits and the head's need, the
  // tail to the bytes that all of them need, and what overlaps is merged with "|".
  function Spliced(data: nat, head: nat, tail: nat, dataBits: nat, headBits: nat, tailBits: nat): nat
  {
    Or(Or(Low(Shl(data, headBits), 8 * BitsToBytes(dataBits + headBits)), head),
       Low(Shl(tail, dataBits + headBits), 8 * BitsToBytes(dataBits + headBits + tailBits)))
  }

  // When every operand fits its declared length, splicing lays the strings end to end.
  lemma SplicedIsJoin(data: nat, head: nat, tail: nat, dataBits: nat, headBits: nat, tailBits: nat)
    requires data < Pow2(dataBits) && head < Pow2(headBits) && tail < Pow2(tailBits)
    ensures Spliced(data, head, tail, dataBits, headBits, tailBits) == Join(data, head, tail, dataBits, headBits)
    ensures Join(data, head, tail, dataBits, headBits) < Pow2(dataBits + headBits + tailBits)
  {
    hide Or, Shl, Low, Pow2, BitsToBytes;
    var n := dataBits + headBits;
    var low := Shl(data, headBits) + head;
    JoinBound(data, dataBits, head, headBits);
    JoinBound(tail, tailBits, low, n);
    Pow2Monotone(n, 8 * BitsToBytes(n));
    Pow2Monotone(n + tailBits, 8 * BitsToBytes(n + tailBits));
    LowSmall(Shl(data, headBits), 8 * BitsToBytes(n));
    LowSmall(Shl(tail, n), 8 * BitsToBytes(n + tailBits));
    OrIsAdd(data, head, headBits);
    OrIsAdd(tail, low, n);
  }

  // ---------- Arithmetic of the byte-wise shift ----------

  // C's "w >> n".
  function Shr(w: nat, n: nat): (r: nat)
    ensures r <= w
    decreases n
  {
    if n == 0 then w else Shr(w / 2, n - 1)
  }

  lemma {:induction false} ShrShr(w: nat, m: nat, n: nat)
    ensures Shr(Shr(w, m), n) == Shr(w, m + n)
    decreases m
  {
    if m != 0 {
      ShrShr(w / 2, m - 1, n);
    }
  }

  // A right shift acts on what is above and below separately while it does not reach up.
  lemma {:induction false} ShrOfJoin(a: nat, j: nat, w: nat, m: nat)
    ensures Shr(Shl(a, j + m) + w, m) == Shl(a, j) + Shr(w, m)
    decreases m
  {
    if m != 0 {
      HalfOfSum(Shl(a, j + m - 1), w);
      ShrOfJoin(a, j, w / 2, m - 1);
    }
  }

  lemma {:induction false} ShrZero(m: nat)
    ensures Shr(0, m) == 0
  {
    if m != 0 {
      ShrZero(m - 1);
    }
  }

  lemma {:induction false} ShrSmall(x: nat, m: nat)
    requires x < Pow2(m)
    ensures Shr(x, m) == 0
    decreases m
  {
    if m != 0 {
      ShrSmall(x / 2, m - 1);
    }
  }

  // Dropping the last byte.
  lemma ShrByte(v: nat, x: byte)
    ensures Shr(256 * v + x, 8) == v
  {
    ShlByte(v);
    ShrOfJoin(v, 0, x, 8);
    Pow2Small();
    ShrSmall(x, 8);
  }

  // out holds the bytes of s followed by a zero byte, shifted right by 8 - k bits and cut
  // to the length of out.
  ghost predicate IsShifted(out: seq<byte>, s: seq<byte>, k: nat)
    requires k <= 8
  {
    Value(out) == Low(Shr(Value(s), 8 - k), 8 * |out|)
  }

  lemma NothingShifted(s: seq<byte>, k: nat)
    requires k <= 8
    ensures IsShifted([], s, k)
  {
  }

  lemma FirstShifted(b: byte, x: byte, k: nat)
    requires k <= 8 && x == Shr(b, 8 - k)
    ensures IsShifted([x], [b], k)
  {
    assert Value([b]) == b by { ValueOfByte(b); }
    assert Value([x]) == x by { ValueOfByte(x); }
    assert Low(x, 8) == x by { Pow2Small(); LowSmall(x, 8); }
  }

  // The accumulator step: the low byte of (prev, next) shifted right by 8 - k bits.
  function NextShifted(ghost out: seq<byte>, ghost s: seq<byte>, prev: byte, next: byte, k: nat): (b: byte)
    requires 1 <= k <= 7
    requires IsShifted(out, s, k) && prev == if s == [] then 0 else s[|s| - 1]
    ensures IsShifted(out + [b], s + [next], k)
  {
    var b: byte := Shr((prev as int) * 256 + next, 8 - k) % 256;
    StepShifted(out, s, prev, next, k, b);
    b
  }

  lemma LastByte(s: seq<byte>, prev: byte)
    requires prev == if s == [] then 0 else s[|s| - 1]
    ensures Value(s) % 256 == prev
  {
  }

  lemma StepShifted(out: seq<byte>, s: seq<byte>, prev: byte, next: byte, k: nat, b: byte)
    requires 1 <= k <= 7
    requires IsShifted(out, s, k) && prev == if s == [] then 0 else s[|s| - 1]
    requires b == Shr((prev as int) * 256 + next, 8 - k) % 256
    ensures IsShifted(out + [b], s + [next], k)
  {
    hide Shr, Low, Value;
    var v := Value(s);
    assert v % 256 == prev by { LastByte(s, prev); }
    StepValue(v / 256, prev, next, 8 - k);
    ValueSnoc(s, next);
    ValueSnoc(out, b);
    assert 8 * |out + [b]| == 8 * |out| + 8;
    LowOfByte(Shr(v, 8 - k), b, |out|);
  }

  lemma StepValue(u: nat, prev: byte, next: byte, m: nat)
    requires m <= 8
    ensures Shr(256 * (256 * u + prev) + next, m)
         == 256 * Shr(256 * u + prev, m) + Shr((prev as int) * 256 + next, m) % 256
  {
    hide Shr, Shl;
    var big, w := 256 * (256 * u + prev) + next, (prev as int) * 256 + next;
    assert Shr(big, m) % 256 == Shr(w, m) % 256 by {
      ShlByte(u);
      ShlShl(u, 8, 8);
      ShlByte(256 * u);
      ShrOfJoin(u, 16 - m, w, m);
      ShlShl(u, 8 - m, 8);
      ShlByte(Shl(u, 8 - m));
    }
    assert Shr(big, m) / 256 == Shr(256 * u + prev, m) by {
      var q := Shr(big, m);
      ShrByte(q / 256, q % 256);
      ShrShr(big, m, 8);
      ShrShr(big, 8, m);
      ShrByte(256 * u + prev, next);
    }
  }

  // Shifting in a zero byte completes the shift.
  lemma ShiftComplete(out: seq<byte>, s: seq<byte>, k: nat)
    requires k <= 8 && IsShifted(out, s + [0], k)
    ensures Value(out) == Low(Shl(Value(s), k), 8 * |out|)
  {
    hide Shr, Shl, Low, Value;
    ValueSnoc(s, 0);
    ShlByte(Value(s));
    ShlShl(Value(s), k, 8 - k);
    ShrOfJoin(Value(s), k, 0, 8 - k);
    ShrZero(8 - k);
  }

  lemma AppendZeroBytes(out: seq<byte>, v: nat, k: nat, z: nat)
    requires Value(out) == Low(Shl(v, k), 8 * |out|)
    ensures Value(out + Repeat<byte>(0, z)) == Low(Shl(v, k + 8 * z), 8 * (|out| + z))
  {
    ValueConcat(out, Repeat<byte>(0, z));
    ValueZero(z);
    ShlShl(v, k, 8 * z);
    LowOfJoin(Shl(v, k), 8 * |out|, 0, 8 * z);
  }

  lemma WholeBytes(s: seq<byte>)
    ensures Value(s) == Low(Shl(Value(s), 0), 8 * |s|)
  {
    ValueBound(s);
    LowSmall(Value(s), 8 * |s|);
  }

  // ---------- shiftLeft ----------

  // Multiply the numBits-bit number in the buffer by two to the shiftCount. Padding bits
  // that the longer result has no byte for are lost.
  method ShiftLeft(buffer: Buffer, numBits: nat, shiftCount: nat)
    requires buffer.Valid() && buffer.length == BitsToBytes(numBits)
    modifies buffer, buffer.data
    ensures buffer.Valid() && (buffer.data == old(buffer.data) || fresh(buffer.data))
    ensures buffer.length == BitsToBytes(numBits + shiftCount)
    ensures Value(buffer.Contents()) == Low(Shl(Value(old(buffer.Contents())), shiftCount), 8 * buffer.length)
  {
    hide IsShifted, Value, Shl, Low;
    var shiftBytes, shiftBits := shiftCount / 8, shiftCount % 8;
    ghost var s := buffer.Contents();
    if shiftBits != 0 {
      ShiftBits(buffer, numBits, shiftBits);
      ShiftComplete(buffer.Contents(), s, shiftBits);
    } else {
      WholeBytes(s);
    }
    ghost var out := buffer.Contents();
    assert |out| + shiftBytes == BitsToBytes(numBits + shiftCount);
    if shiftBytes != 0 {
      buffer.AppendConst(0, shiftBytes);
    } else {
      assert out + Repeat<byte>(0, 0) == out;
    }
    AppendZeroBytes(out, Value(s), shiftBits, shiftBytes);
    assert shiftBits + 8 * shiftBytes == shiftCount;
  }

  // Insignificant bits in the first of the bytes that hold numBits bits.
  function Padding(numBits: nat): (n: nat)
    ensures n < 8 && numBits + n == 8 * BitsToBytes(numBits)
  {
    if numBits % 8 != 0 then 8 - numBits % 8 else 0
  }

  lemma LengthShifted(numBits: nat, k: nat)
    requires 1 <= k <= 7
    ensures BitsToBytes(numBits + k) == BitsToBytes(numBits) + if k > Padding(numBits) then 1 else 0
    ensures BitsToBytes(numBits) == 0 ==> Padding(numBits) == 0
  {
  }

  // The part of the shift below a whole byte: rebuild the bytes in a new buffer.
  method ShiftBits(buffer: Buffer, numBits: nat, shiftBits: nat)
    requires buffer.Valid() && buffer.length == BitsToBytes(numBits) && 1 <= shiftBits <= 7
    modifies buffer
    ensures buffer.Valid() && fresh(buffer.data)
    ensures buffer.length == BitsToBytes(numBits + shiftBits)
    ensures IsShifted(buffer.Contents(), old(buffer.Contents()) + [0], shiftBits)
  {
    hide IsShifted, Value, Shr, BitsToBytes, Padding;
    ghost var s := buffer.Contents();
    var newBuffer := new Buffer(1024, 0);
    var insignificant := Padding(numBits);
    LengthShifted(numBits, shiftBits);
    var accum: byte := 0;
    if buffer.length > 0 {
      accum := buffer.data[0];
      assert s[..1] == [accum];
      if shiftBits > insignificant {
        var lead: byte := Shr(accum, 8 - shiftBits);
        FirstShifted(accum, lead, shiftBits);
        newBuffer.AppendByte(lead);
        assert newBuffer.Contents() == [lead];
      } else {
        NothingShifted(s[..1], shiftBits);
      }
      accum := ShiftFollowing(buffer, newBuffer, shiftBits);
    } else {
      NothingShifted(s, shiftBits);
    }
    var last := NextShifted(newBuffer.Contents(), s, accum, 0, shiftBits);
    newBuffer.AppendByte(last);
    Swap(newBuffer, buffer);
  }

  // Append the shifted form of every byte of src after the first; returns its last byte.
  method ShiftFollowing(src: Buffer, dst: Buffer, shiftBits: nat) returns (prev: byte)
    requires src.Valid() && dst.Valid() && src != dst && src.data != dst.data
    requires src.length > 0 && 1 <= shiftBits <= 7
    requires IsShifted(dst.Contents(), src.Contents()[..1], shiftBits)
    modifies dst, dst.data
    ensures dst.Valid() && (dst.data == old(dst.data) || fresh(dst.data))
    ensures dst.length == old(dst.length) + src.length - 1
    ensures prev == src.Contents()[src.length - 1]
    ensures IsShifted(dst.Contents(), src.Contents(), shiftBits)
  {
    hide IsShifted, Value, Shr;
    ghost var s := src.Contents();
    prev := src.data[0];
    var p := 1;
    while p < src.length
      invariant 1 <= p <= src.length && src.Contents() == s
      invariant dst.Valid() && (dst.data == old(dst.data) || fresh(dst.data))
      invariant dst.length == old(dst.length) + p - 1
      invariant prev == s[p - 1]
      invariant IsShifted(dst.Contents(), s[..p], shiftBits)
    {
      var next := src.data[p];
      var b := NextShifted(dst.Contents(), s[..p], prev, next, shiftBits);
      assert s[..p + 1] == s[..p] + [next];
      dst.AppendByte(b);
      prev := next;
      p := p + 1;
    }
    assert s[..p] == s;
  }

  // ---------- Laying the pieces over each other ----------

  lemma OrLowPart(hi: nat, x: nat, y: nat, k: nat)
    requires x < Pow2(k) && y < Pow2(k)
    ensures Or(Shl(hi, k) + x, y) == Shl(hi, k) + Or(x, y)
  {
    assert Or(hi, 0) == hi by { OrZero(hi); }
    assert Shl(0, k) == 0 by { ShlZero(k); }
    assert Or(Shl(hi, k) + x, Shl(0, k) + y) == Shl(Or(hi, 0), k) + Or(x, y) by { OrOfJoins(hi, x, 0, y, k); }
  }

  lemma OrHighPart(x: nat, low: nat, y: nat, k: nat)
    requires low < Pow2(k)
    ensures Or(Shl(x, k) + low, Shl(y, k)) == Shl(Or(x, y), k) + low
  {
    assert Or(low, 0) == low by { OrZero(low); }
    assert Or(Shl(x, k) + low, Shl(y, k) + 0) == Shl(Or(x, y), k) + Or(low, 0) by { OrOfJoins(x, low, y, 0, k); }
  }

  // OR-ing head onto the last bytes of data.
  lemma MergeHead(hi: seq<byte>, lo: seq<byte>, head: seq<byte>)
    requires |lo| == |head|
    ensures Value(hi + OrBytes(lo, head)) == Or(Value(hi + lo), Value(head))
  {
    hide Or, Value, Shl, OrBytes;
    ValueConcat(hi, lo);
    ValueConcat(hi, OrBytes(lo, head));
    ValueOrBytes(lo, head);
    ValueBound(lo);
    ValueBound(head);
    OrLowPart(Value(hi), Value(lo), Value(head), 8 * |head|);
  }

  // Tail bytes in front of the data bytes, nothing shared.
  lemma MergeTailAligned(tail: seq<byte>, data: seq<byte>)
    ensures Value(tail + data) == Or(Value(data), Shl(Value(tail), 8 * |data|))
    ensures Shl(Value(tail), 8 * |data|) < Pow2(8 * (|tail| + |data|))
  {
    hide Or, Shl, Value, Pow2;
    var t, d := Value(tail), Value(data);
    assert Value(tail + data) == Shl(t, 8 * |data|) + d by { ValueConcat(tail, data); }
    assert d < Pow2(8 * |data|) by { ValueBound(data); }
    assert t < Pow2(8 * |tail|) by { ValueBound(tail); }
    assert 8 * (|tail| + |data|) == 8 * |tail| + 8 * |data|;
    OrIsAdd(t, d, 8 * |data|);
    JoinBound(t, 8 * |tail|, 0, 8 * |data|);
  }

  lemma OrByteFirst(hi: nat, lo: byte, first: byte)
    ensures Or(first, hi * 256 + lo) == hi * 256 + Or(lo, first)
  {
    OrOfSnoc(0, first, hi, lo);
    OrZero(hi);
    OrCommutes(lo, first);
  }

  // The last tail byte and the first data byte share a byte.
  lemma MergeTailShared(tail: seq<byte>, data: seq<byte>, shared: byte)
    requires tail != [] && data != [] && shared == Or(tail[|tail| - 1], data[0])
    ensures Value(tail[..|tail| - 1] + [shared] + data[1..]) == Or(Value(data), Shl(Value(tail), 8 * (|data| - 1)))
  {
    hide Or, Value, Shl;
    var hi, lo, first, rest := tail[..|tail| - 1], tail[|tail| - 1], data[0], data[1..];
    var k := 8 * |rest|;
    assert Value(data) == Shl(first, k) + Value(rest) by {
      assert data == [first] + rest;
      ValueConcat([first], rest);
      ValueOfByte(first);
    }
    assert Or(first, Value(tail)) == Value(hi + [shared]) by {
      assert tail == hi + [lo];
      ValueSnoc(hi, lo);
      ValueSnoc(hi, shared);
      OrByteFirst(Value(hi), lo, first);
    }
    assert Value(rest) < Pow2(k) by { ValueBound(rest); }
    OrHighPart(first, Value(rest), Value(tail), k);
    ValueConcat(hi + [shared], rest);
  }

  lemma SplicedLength(dataBits: nat, tailBits: nat)
    ensures dataBits % 8 == 0 ==> BitsToBytes(dataBits + tailBits) == BitsToBytes(dataBits) + BitsToBytes(tailBits)
    ensures dataBits % 8 != 0 ==>
              BitsToBytes(dataBits + tailBits) == BitsToBytes(dataBits) + BitsToBytes(tailBits + dataBits % 8) - 1
  {
  }

  lemma AlignedTailInPlace(d: seq<byte>, t: seq<byte>, dataBits: nat, tailBits: nat)
    requires dataBits % 8 == 0 && |d| == BitsToBytes(dataBits) && |t| == BitsToBytes(tailBits)
    ensures Value(t + d) == Or(Value(d), Low(Shl(Value(t), dataBits), 8 * BitsToBytes(dataBits + tailBits)))
  {
    SplicedLength(dataBits, tailBits);
    MergeTailAligned(t, d);
    assert 8 * |d| == dataBits;
    LowSmall(Shl(Value(t), dataBits), 8 * (|t| + |d|));
  }

  lemma SharedTailInPlace(d: seq<byte>, t: nat, t': seq<byte>, dataBits: nat, tailBits: nat, shared: byte)
    requires dataBits % 8 != 0 && |d| == BitsToBytes(dataBits) && |t'| == BitsToBytes(tailBits + dataBits % 8)
    requires Value(t') == Low(Shl(t, dataBits % 8), 8 * |t'|)
    requires shared == Or(t'[|t'| - 1], d[0])
    ensures Value(t'[..|t'| - 1] + [shared] + d[1..])
         == Or(Value(d), Low(Shl(t, dataBits), 8 * BitsToBytes(dataBits + tailBits)))
  {
    hide Or, Shl, Low, Value, BitsToBytes;
    SplicedLength(dataBits, tailBits);
    MergeTailShared(t', d, shared);
    var below := 8 * (|d| - 1);
    ShlShl(t, dataBits % 8, below);
    LowOfJoin(Shl(t, dataBits % 8), 8 * |t'|, 0, below);
    assert dataBits % 8 + below == dataBits;
  }

  // ---------- headTail ----------

  // OR the header into the end of the (already shifted) data.
  method AddHeader(dataBuf: Buffer, headBuf: Buffer)
    requires dataBuf.Valid() && headBuf.Valid() && dataBuf.data != headBuf.data
    requires headBuf.length <= dataBuf.length
    modifies dataBuf.data
    ensures dataBuf.Valid() && dataBuf.length == old(dataBuf.length)
    ensures Value(dataBuf.Contents()) == Or(Value(old(dataBuf.Contents())), Value(headBuf.Contents()))
  {
    hide Value, Or, OrBytes;
    ghost var before, head := dataBuf.Contents(), headBuf.Contents();
    var n := dataBuf.length - headBuf.length;
    var dst := n;
    while dst < dataBuf.length
      invariant n <= dst <= dataBuf.length && headBuf.Contents() == head && dataBuf.Valid()
      invariant forall j :: 0 <= j < dataBuf.length ==>
                  dataBuf.data[j] == if n <= j < dst then Or(before[j], head[j - n]) else before[j]
    {
      OrOfBytes(dataBuf.data[dst], headBuf.data[dst - n]);
      dataBuf.data[dst] := Or(dataBuf.data[dst], headBuf.data[dst - n]);
      dst := dst + 1;
    }
    assert dataBuf.Contents() == before[..n] + OrBytes(before[n..], head);
    assert before == before[..n] + before[n..];
    MergeHead(before[..n], before[n..], head);
  }

  // The new data buffer: the source bytes, of which the last is merged into the first
  // data byte if they overlap, then the data.
  method PutInFront(dataBuf: Buffer, src: seq<byte>, overlap: bool)
    requires dataBuf.Valid() && dataBuf.length > 0 && (overlap ==> src != [])
    requires overlap ==> Or(src[|src| - 1], dataBuf.data[0]) < 256
    modifies dataBuf
    ensures dataBuf.Valid() && fresh(dataBuf.data)
    ensures var d := old(dataBuf.Contents());
            dataBuf.Contents() == if overlap then src[..|src| - 1] + [Or(src[|src| - 1], d[0])] + d[1..] else src + d
  {
    hide Or;
    ghost var d := dataBuf.Contents();
    var first, rest := dataBuf.data[0], dataBuf.data[1..dataBuf.length];
    var newBuffer := new Buffer(1024, 0);
    if overlap {
      newBuffer.AppendBlock(src[..|src| - 1]);
      newBuffer.AppendByte(Or(src[|src| - 1], first));
      assert newBuffer.Contents() == src[..|src| - 1] + [Or(src[|src| - 1], d[0])];
    } else {
      newBuffer.AppendBlock(src);
      newBuffer.AppendByte(first);
      assert newBuffer.Contents() == src + [first];
      assert src + d == src + [first] + rest;
    }
    newBuffer.AppendBlock(rest);
    assert rest == d[1..];
    Swap(newBuffer, dataBuf);
  }

  // Put the tail in front of data whose header is in place.
  method AddTail(dataBuf: Buffer, tailBuf: Buffer, dataBits: nat, tailBits: nat)
    requires dataBuf.Valid() && tailBuf.Valid() && dataBuf != tailBuf && dataBuf.data != tailBuf.data
    requires dataBits > 0 && tailBits > 0
    requires dataBuf.length == BitsToBytes(dataBits) && tailBuf.length == BitsToBytes(tailBits)
    modifies dataBuf, tailBuf, tailBuf.data
    ensures dataBuf.Valid() && fresh(dataBuf.data)
    ensures dataBuf.length == BitsToBytes(dataBits + tailBits)
    ensures Value(dataBuf.Contents())
         == Or(Value(old(dataBuf.Contents())), Low(Shl(Value(old(tailBuf.Contents())), dataBits), 8 * dataBuf.length))
  {
    hide Value, Or, Shl, Low, BitsToBytes;
    ghost var d, t := dataBuf.Contents(), tailBuf.Contents();
    var tailShift := dataBits % 8;
    if tailShift != 0 {
      ShiftLeft(tailBuf, tailBits, tailShift);
    }
    SplicedLength(dataBits, tailBits);
    var src := tailBuf.data[..tailBuf.length];
    if BitsToBytes(dataBits + tailBits) == dataBuf.length + |src| {
      AlignedTailInPlace(d, t, dataBits, tailBits);
      PutInFront(dataBuf, src, false);
    } else if BitsToBytes(dataBits + tailBits) == dataBuf.length + |src| - 1 {
      OrOfBytes(src[|src| - 1], d[0]);
      SharedTailInPlace(d, Value(t), src, dataBits, tailBits, Or(src[|src| - 1], d[0]));
      PutInFront(dataBuf, src, true);
    } else {
      assert false; // headTail()'s internal error
    }
  }

  method HeadTail(dataBuf: Buffer, headBuf: Buffer, tailBuf: Buffer, dataBits: nat, headBits: nat, tailBits: nat)
    requires dataBuf.Valid() && headBuf.Valid() && tailBuf.Valid()
    requires dataBuf != headBuf && dataBuf != tailBuf && headBuf != tailBuf
    requires dataBuf.data != headBuf.data && dataBuf.data != tailBuf.data && headBuf.data != tailBuf.data
    requires dataBuf.length == BitsToBytes(dataBits)
    requires headBuf.length == BitsToBytes(headBits)
    requires tailBuf.length == BitsToBytes(tailBits)
    requires dataBits + headBits > 0
    modifies dataBuf, dataBuf.data, tailBuf, tailBuf.data
    ensures dataBuf.Valid()
    ensures dataBuf.length == BitsToBytes(dataBits + headBits + tailBits)
    ensures Value(dataBuf.Contents())
         == Spliced(Value(old(dataBuf.Contents())), Value(old(headBuf.Contents())), Value(old(tailBuf.Contents())),
                    dataBits, headBits, tailBits)
  {
    hide Value, Or, Shl, Low, BitsToBytes;
    ghost var d, h, t := Value(dataBuf.Contents()), Value(headBuf.Contents()), tailBuf.Contents();
    ShiftLeft(dataBuf, dataBits, headBits);
    AddHeader(dataBuf, headBuf);
    assert Value(dataBuf.Contents()) == Or(Low(Shl(d, headBits), 8 * dataBuf.length), h);
    if tailBits != 0 {
      AddTail(dataBuf, tailBuf, dataBits + headBits, tailBits);
    } else {
      NoTail(t, dataBits + headBits);
      OrZero(Value(dataBuf.Contents()));
    }
  }

  lemma NoTail(t: seq<byte>, n: nat)
    requires t == []
    ensures Low(Shl(Value(t), n), 8 * BitsToBytes(n)) == 0
  {
    ShlZero(n);
    LowBound(0, 8 * BitsToBytes(n));
  }
}
