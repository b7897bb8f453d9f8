// Reordering a whole CSVF buffer: index its commands, reorder the index, and write the
// commands out again.
module BuildIndex {
  import opened Bytes
  import opened Buffers
  import opened Csvf
  import opened Trace
  import opened ProcessIndex

  datatype Status = Success | InternalErr

  // How many bytes to copy for a command, given the size that is in force.
  function BlockLength(c: Cmd, numBytes: Option<nat>): nat
    requires c.XTdoMask? || c.XSdr? || c.XSdrTdo? ==> numBytes.Some?
  {
    match c
    case XSdrSize(_) => 5
    case XRunTest(_) => 5
    case XTdoMask(_) => numBytes.value + 1
    case XSdr(_) => numBytes.value + 1
    case XSdrTdo(_) => 2 * numBytes.value + 1
    case XSir(numBits, _) => BitsToBytes(numBits) + 2
  }

  // The size that csvfPlay() and buildIndex() copy by is the size the encoder wrote by.
  lemma BlockIsEncoding(c: Cmd, numBytes: Option<nat>)
    requires Sized(c, numBytes)
    ensures BlockLength(c, numBytes) == |Encode(c)|
  {
    hide BitsToBytes, LongBE;
  }

  // What is left to index at ptr.
  ghost predicate Indexing(all: Decoded, s: seq<byte>, ptr: nat, numBytes: Option<nat>, done: seq<Cmd>)
  {
    && ptr <= |s|
    && all.cmds == done + Decode(s[ptr..], numBytes).cmds
    && all.end == Decode(s[ptr..], numBytes).end
  }

  lemma IndexOne(all: Decoded, s: seq<byte>, ptr: nat, numBytes: Option<nat>, done: seq<Cmd>)
    requires Indexing(all, s, ptr, numBytes, done)
    ensures var f := Fetch(s[ptr..], numBytes);
            if f.Stop? then all == Decoded(done, f.end)
            else Indexing(all, s, ptr + f.length, NumBytes(f.cmd, numBytes), done + [f.cmd]) && |done| < |all.cmds|
  {
    hide Fetch, NumBytes;
    var f := Fetch(s[ptr..], numBytes);
    if f.Fetched? {
      assert s[ptr..][f.length..] == s[ptr + f.length..];
      var rest := Decode(s[ptr + f.length..], NumBytes(f.cmd, numBytes)).cmds;
      assert done + ([f.cmd] + rest) == (done + [f.cmd]) + rest;
    }
  }

  // Fill srcIndex with the commands of the buffer, in order.
  method IndexCommands(csvfBuf: Buffer, srcIndex: array<CmdPtr>) returns (status: Status)
    requires csvfBuf.Valid()
    requires Decode(csvfBuf.Contents(), None).end != Truncated
    requires srcIndex.Length >= |Decode(csvfBuf.Contents(), None).cmds| + 1
    requires Decode(csvfBuf.Contents(), None).end == Complete ==>
               srcIndex.Length == |Decode(csvfBuf.Contents(), None).cmds| + 1
    modifies srcIndex
    ensures var d := Decode(csvfBuf.Contents(), None);
            && (status == Success <==> d.end == Complete)
            && (status == Success ==> srcIndex[..] == IndexOf(d.cmds))
  {
    hide Decode, Fetch, NumBytes, IndexOf;
    ghost var s := csvfBuf.Contents();
    ghost var d := Decode(s, None);
    var numBytes: Option<nat> := None;
    var ptr, i := 0, 0;
    ghost var done: seq<Cmd> := [];
    assert s[0..] == s && [] + d.cmds == d.cmds;
    while true
      invariant csvfBuf.Contents() == s
      invariant Indexing(d, s, ptr, numBytes, done) && i == |done| <= |d.cmds|
      invariant forall j :: 0 <= j < i ==> srcIndex[j] == At(done[j])
      decreases |s| - ptr
    {
      IndexOne(d, s, ptr, numBytes, done);
      assert csvfBuf.data[ptr..csvfBuf.length] == s[ptr..];
      match Fetch(csvfBuf.data[ptr..csvfBuf.length], numBytes)
      case Stop(end) =>
        if end != Complete {
          return InternalErr;
        }
        srcIndex[i] := XComplete;
        assert srcIndex[..] == IndexOf(done);
        return Success;
      case Fetched(cmd, length) =>
        srcIndex[i] := At(cmd);
        i := i + 1;
        ptr := ptr + length;
        numBytes := NumBytes(cmd, numBytes);
        done := done + [cmd];
    }
  }

  lemma SizedTail(cmds: seq<Cmd>, i: nat, numBytes: Option<nat>)
    requires i < |cmds| && AllSized(cmds[i..], numBytes)
    ensures Sized(cmds[i], numBytes) && AllSized(cmds[i + 1..], NumBytes(cmds[i], numBytes))
    ensures EncodeAll(cmds[i..]) == Encode(cmds[i]) + EncodeAll(cmds[i + 1..])
  {
    hide Sized, NumBytes, Encode;
    assert cmds[i..][1..] == cmds[i + 1..];
  }

  // Write the indexed commands to newBuf.
  method CopyCommands(dstIndex: array<CmdPtr>, newBuf: Buffer, ghost cmds: seq<Cmd>)
    requires newBuf.Valid() && newBuf.Contents() == []
    requires IndexOf(cmds) <= dstIndex[..] && AllSized(cmds, None)
    modifies newBuf, newBuf.data
    ensures newBuf.Valid() && (newBuf.data == old(newBuf.data) || fresh(newBuf.data))
    ensures newBuf.Contents() == EncodeAll(cmds) + [XCOMPLETE]
  {
    hide IndexOf, AllSized, EncodeAll, Encode, Sized, NumBytes, BlockLength;
    assert forall j :: 0 <= j <= |cmds| ==> dstIndex[j] == IndexOf(cmds)[j];
    var numBytes: Option<nat> := None;
    var i := 0;
    ghost var out := EncodeAll(cmds);
    assert cmds[0..] == cmds && [] + out == out;
    while dstIndex[i] != XComplete
      invariant 0 <= i <= |cmds| && AllSized(cmds[i..], numBytes)
      invariant newBuf.Valid() && (newBuf.data == old(newBuf.data) || fresh(newBuf.data))
      invariant newBuf.Contents() + EncodeAll(cmds[i..]) == out
      decreases |cmds| - i
    {
      var cmd := dstIndex[i].cmd;
      SizedTail(cmds, i, numBytes);
      SizedNeedsSize(cmd, numBytes);
      BlockIsEncoding(cmd, numBytes);
      ghost var before := newBuf.Contents();
      newBuf.AppendBlock(Encode(cmd)[..BlockLength(cmd, numBytes)]);
      assert newBuf.Contents() == before + Encode(cmd);
      numBytes := NumBytes(cmd, numBytes);
      i := i + 1;
    }
    NothingEncoded(cmds, i);
    assert newBuf.Contents() + [] == newBuf.Contents();
    newBuf.AppendByte(XCOMPLETE);
  }

  lemma SizedNeedsSize(c: Cmd, numBytes: Option<nat>)
    requires Sized(c, numBytes)
    ensures c.XTdoMask? || c.XSdr? || c.XSdrTdo? ==> numBytes.Some?
  {
  }

  lemma NothingEncoded(cmds: seq<Cmd>, i: nat)
    requires i == |cmds|
    ensures EncodeAll(cmds[i..]) == []
  {
  }

  lemma CompleteIsNotEmpty(s: seq<byte>)
    ensures Decode(s, None).end == Complete ==> s != []
  {
  }

  method BuildIndex(numCommands: nat, csvfBuf: Buffer) returns (status: Status)
    requires csvfBuf.Valid()
    requires Decode(csvfBuf.Contents(), None).end != Truncated
    requires numCommands >= |Decode(csvfBuf.Contents(), None).cmds| + 1
    requires Decode(csvfBuf.Contents(), None).end == Complete ==>
               numCommands == |Decode(csvfBuf.Contents(), None).cmds| + 1
    modifies csvfBuf
    ensures csvfBuf.Valid()
    ensures var d := Decode(old(csvfBuf.Contents()), None);
            && (status == Success <==> d.end == Complete)
            && csvfBuf.Contents() == if status == Success then EncodeAll(Reordered(d.cmds, ILLEGAL32)) + [XCOMPLETE]
                                     else old(csvfBuf.Contents())
  {
    hide Decode, IndexOf, EncodeAll, Reordered;
    ghost var s := csvfBuf.Contents();
    ghost var d := Decode(s, None);
    var srcIndex := new CmdPtr[numCommands](_ => XComplete);
    var dstIndex := new CmdPtr[numCommands * 3 / 2](_ => XComplete);
    status := IndexCommands(csvfBuf, srcIndex);
    if status == Success {
      ProcessIndex.ProcessIndex(srcIndex, dstIndex, d.cmds);
      CompleteIsNotEmpty(s);
      EncodeDecoded(s, None);
      ReorderedShifts(Regs(0, []), None, d.cmds, ILLEGAL32);
      var newBuf := new Buffer(csvfBuf.length * 4 / 3, 0);
      CopyCommands(dstIndex, newBuf, Reordered(d.cmds, ILLEGAL32));
      Swap(newBuf, csvfBuf);
    }
  }

  // Decoding what buildIndex() wrote gives the reordered commands of its input.
  lemma BuildIndexDecodes(s: seq<byte>)
    ensures var d := Decode(s, None);
            Decode(EncodeAll(Reordered(d.cmds, ILLEGAL32)) + [XCOMPLETE], None)
            == Decoded(Reordered(d.cmds, ILLEGAL32), Complete)
  {
    hide Decode, EncodeAll, Reordered;
    var cmds := Decode(s, None).cmds;
    EncodeDecoded(s, None);
    ReorderedShifts(Regs(0, []), None, cmds, ILLEGAL32);
    DecodeEncoded(Reordered(cmds, ILLEGAL32), None, []);
    assert [XCOMPLETE] + [] == [XCOMPLETE];
  }
}
