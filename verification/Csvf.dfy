// The byte-coded target language of both compilers: its commands, their encoding, and
// what a stream of them makes the JTAG chain do.
module Csvf {
  import opened Bytes

  datatype Option<T> = None | Some(value: T)

  type Long = v: nat | v < 0x1_0000_0000

  const XCOMPLETE: byte := 0x00
  const XTDOMASK: byte := 0x01
  const XSIR: byte := 0x02
  const XSDR: byte := 0x03
  const XRUNTEST: byte := 0x04
  const XSDRSIZE: byte := 0x08
  const XSDRTDO: byte := 0x09

  // Size of the player's mask and data buffers.
  const BUF_SIZE: nat := 2048

  // Payloads are as in the stream: least significant byte first, and for XSDRTDO the
  // bytes to shift in alternating with the bytes expected back.
  datatype Cmd =
    | XTdoMask(mask: seq<byte>)
    | XSir(numBits: byte, tdi: seq<byte>)
    | XSdr(tdi: seq<byte>)
    | XRunTest(count: Long)
    | XSdrSize(size: Long)
    | XSdrTdo(pairs: seq<byte>)
  {
    predicate IsShift() { XSir? || XSdr? || XSdrTdo? }
  }

  // Whether buffers of n bytes are enough to play a command: it is the mask and the bytes
  // to compare that a player has to keep.
  predicate FitsIn(c: Cmd, n: nat)
  {
    && (c.XTdoMask? ==> |c.mask| <= n)
    && (c.XSdrTdo? ==> |c.pairs| <= 2 * n)
  }

  predicate AllFitIn(cmds: seq<Cmd>, n: nat)
  {
    forall c :: c in cmds ==> FitsIn(c, n)
  }

  lemma FitConcat(a: seq<Cmd>, b: seq<Cmd>, n: nat)
    ensures AllFitIn(a + b, n) <==> AllFitIn(a, n) && AllFitIn(b, n)
  {
    hide FitsIn;
    assert forall c :: c in a ==> c in a + b;
    assert forall c :: c in b ==> c in a + b;
  }

  lemma FitOne(c: Cmd, n: nat)
    ensures AllFitIn([c], n) <==> FitsIn(c, n)
    ensures AllFitIn([], n)
  {
    assert c in [c];
  }

  // ---------- Encoding ----------

  // The payload sizes that the encoding relies on: numBytes is what the last XSDRSIZE gave.
  predicate Sized(c: Cmd, numBytes: Option<nat>)
  {
    match c
    case XTdoMask(mask) => numBytes == Some(|mask|)
    case XSir(numBits, tdi) => |tdi| == BitsToBytes(numBits)
    case XSdr(tdi) => numBytes == Some(|tdi|)
    case XRunTest(_) => true
    case XSdrSize(_) => true
    case XSdrTdo(pairs) => numBytes.Some? && |pairs| == 2 * numBytes.value
  }

  function NumBytes(c: Cmd, numBytes: Option<nat>): Option<nat>
  {
    if c.XSdrSize? then Some(BitsToBytes(c.size)) else numBytes
  }

  predicate AllSized(cmds: seq<Cmd>, numBytes: Option<nat>)
  {
    cmds == [] || (Sized(cmds[0], numBytes) && AllSized(cmds[1..], NumBytes(cmds[0], numBytes)))
  }

  function Encode(c: Cmd): seq<byte>
  {
    match c
    case XTdoMask(mask) => [XTDOMASK] + mask
    case XSir(numBits, tdi) => [XSIR, numBits] + tdi
    case XSdr(tdi) => [XSDR] + tdi
    case XRunTest(count) => [XRUNTEST] + LongBE(count)
    case XSdrSize(size) => [XSDRSIZE] + LongBE(size)
    case XSdrTdo(pairs) => [XSDRTDO] + pairs
  }

  function EncodeAll(cmds: seq<Cmd>): seq<byte>
  {
    if cmds == [] then [] else Encode(cmds[0]) + EncodeAll(cmds[1..])
  }

  lemma EncodeOne(c: Cmd)
    ensures EncodeAll([c]) == Encode(c)
  {
    assert EncodeAll([c][1..]) == [];
  }

  lemma {:induction false} EncodeConcat(a: seq<Cmd>, b: seq<Cmd>)
    ensures EncodeAll(a + b) == EncodeAll(a) + EncodeAll(b)
  {
    hide Encode;
    if a == [] {
      assert a + b == b;
    } else {
      var ab := a + b;
      assert ab[0] == a[0] && ab[1..] == a[1..] + b;
      EncodeConcat(a[1..], b);
    }
  }

  // ---------- Decoding ----------

  datatype End = Complete | NoSize | Unrecognised | Truncated

  datatype Fetched = Fetched(cmd: Cmd, length: nat) | Stop(end: End)

  datatype Decoded = Decoded(cmds: seq<Cmd>, end: End)

  // The command at the start of s, given the size that is in force.
  function Fetch(s: seq<byte>, numBytes: Option<nat>): (f: Fetched)
    ensures f.Fetched? ==> 1 <= f.length <= |s| && Sized(f.cmd, numBytes)
    ensures f.Stop? && f.end == Complete ==> s != [] && s[0] == XCOMPLETE
  {
    if s == [] then Stop(Truncated)
    else if s[0] == XCOMPLETE then Stop(Complete)
    else if s[0] == XRUNTEST || s[0] == XSDRSIZE then
      if |s| < 5 then Stop(Truncated)
      else Fetched(if s[0] == XRUNTEST then XRunTest(ReadLongBE(s[1..5])) else XSdrSize(ReadLongBE(s[1..5])), 5)
    else if s[0] == XSIR then
      if |s| < 2 || |s| < 2 + BitsToBytes(s[1]) then Stop(Truncated)
      else Fetched(XSir(s[1], s[2..2 + BitsToBytes(s[1])]), 2 + BitsToBytes(s[1]))
    else if s[0] == XTDOMASK || s[0] == XSDR || s[0] == XSDRTDO then
      if numBytes == None then Stop(NoSize)
      else
        var n := numBytes.value;
        var length := 1 + if s[0] == XSDRTDO then 2 * n else n;
        if |s| < length then Stop(Truncated)
        else if s[0] == XTDOMASK then Fetched(XTdoMask(s[1..1 + n]), length)
        else if s[0] == XSDR then Fetched(XSdr(s[1..1 + n]), length)
        else Fetched(XSdrTdo(s[1..1 + 2 * n]), length)
    else Stop(Unrecognised)
  }

  function Decode(s: seq<byte>, numBytes: Option<nat>): (d: Decoded)
    decreases |s|
  {
    match Fetch(s, numBytes)
    case Stop(end) => Decoded([], end)
    case Fetched(cmd, length) =>
      var rest := Decode(s[length..], NumBytes(cmd, numBytes));
      Decoded([cmd] + rest.cmds, rest.end)
  }

  // A command is fetched back from its own encoding.
  lemma FetchEncoded(c: Cmd, rest: seq<byte>, numBytes: Option<nat>)
    requires Sized(c, numBytes)
    ensures Fetch(Encode(c) + rest, numBytes) == Fetched(c, |Encode(c)|)
  {
    hide BitsToBytes, ReadLongBE, LongBE;
    var s := Encode(c) + rest;
    assert s[0] == Encode(c)[0];
    match c
    case XTdoMask(mask) => assert s[1..1 + |mask|] == mask;
    case XSir(numBits, tdi) => assert s[1] == numBits && s[2..2 + |tdi|] == tdi;
    case XSdr(tdi) => assert s[1..1 + |tdi|] == tdi;
    case XRunTest(count) =>
      assert s[1..5] == LongBE(count) + [];
      ReadWrittenLong(count, []);
    case XSdrSize(size) =>
      assert s[1..5] == LongBE(size) + [];
      ReadWrittenLong(size, []);
    case XSdrTdo(pairs) => assert s[1..1 + |pairs|] == pairs;
  }

  lemma DecodeCommand(c: Cmd, tail: seq<byte>, numBytes: Option<nat>)
    requires Sized(c, numBytes)
    ensures var rest := Decode(tail, NumBytes(c, numBytes));
            Decode(Encode(c) + tail, numBytes) == Decoded([c] + rest.cmds, rest.end)
  {
    hide Fetch, Encode, Sized, NumBytes;
    FetchEncoded(c, tail, numBytes);
    assert (Encode(c) + tail)[|Encode(c)|..] == tail;
  }

  lemma DecodeNothing(numBytes: Option<nat>, junk: seq<byte>)
    ensures Decode([XCOMPLETE] + junk, numBytes) == Decoded([], Complete)
  {
  }

  // Decoding undoes encoding; what follows the end of the stream is ignored.
  lemma {:induction false} DecodeEncoded(cmds: seq<Cmd>, numBytes: Option<nat>, junk: seq<byte>)
    requires AllSized(cmds, numBytes)
    ensures Decode(EncodeAll(cmds) + ([XCOMPLETE] + junk), numBytes) == Decoded(cmds, Complete)
  {
    hide Decode, Encode, Sized, NumBytes;
    if cmds == [] {
      assert EncodeAll(cmds) + ([XCOMPLETE] + junk) == [XCOMPLETE] + junk;
      DecodeNothing(numBytes, junk);
    } else {
      var tail := EncodeAll(cmds[1..]) + ([XCOMPLETE] + junk);
      assert EncodeAll(cmds) + ([XCOMPLETE] + junk) == Encode(cmds[0]) + tail;
      DecodeEncoded(cmds[1..], NumBytes(cmds[0], numBytes), junk);
      DecodeCommand(cmds[0], tail, numBytes);
      assert cmds == [cmds[0]] + cmds[1..];
    }
  }

  // Whatever decodes is well sized, and is exactly what was in the stream, up to its end.
  lemma {:induction false} EncodeDecoded(s: seq<byte>, numBytes: Option<nat>)
    ensures AllSized(Decode(s, numBytes).cmds, numBytes)
    ensures EncodeAll(Decode(s, numBytes).cmds) <= s
    ensures Decode(s, numBytes).end == Complete ==> EncodeAll(Decode(s, numBytes).cmds) + [XCOMPLETE] <= s
    decreases |s|
  {
    hide Fetch, Encode, Sized, NumBytes;
    var f := Fetch(s, numBytes);
    if f.Fetched? {
      var tail := s[f.length..];
      var rest := Decode(tail, NumBytes(f.cmd, numBytes));
      EncodeDecoded(tail, NumBytes(f.cmd, numBytes));
      EncodeFetched(s, numBytes);
      assert ([f.cmd] + rest.cmds)[1..] == rest.cmds;
      PrefixBehind(s, f.length, EncodeAll(rest.cmds));
      PrefixBehind(s, f.length, EncodeAll(rest.cmds) + [XCOMPLETE]);
      Regroup(s[..f.length], EncodeAll(rest.cmds), [XCOMPLETE]);
    }
  }

  lemma PrefixBehind(s: seq<byte>, n: nat, p: seq<byte>)
    requires n <= |s|
    ensures p <= s[n..] ==> s[..n] + p <= s
  {
  }

  lemma EncodeFetched(s: seq<byte>, numBytes: Option<nat>)
    requires Fetch(s, numBytes).Fetched?
    ensures Encode(Fetch(s, numBytes).cmd) == s[..Fetch(s, numBytes).length]
  {
    hide BitsToBytes, ReadLongBE, LongBE;
    if |s| >= 5 {
      WriteReadLong(s[1..5]);
    }
  }

  // ---------- The bytes of each command ----------

  // A long is sent most significant byte first.
  lemma LongBytes(a: byte, b: byte, c: byte, d: byte)
    ensures var v := 0x100_0000 * a as nat + 0x1_0000 * b as nat + 0x100 * c as nat + d as nat;
            v < 0x1_0000_0000 && LongBE(v) == [a, b, c, d] && ReadLongBE([a, b, c, d]) == v
  {
    var v := 0x100_0000 * a as nat + 0x1_0000 * b as nat + 0x100 * c as nat + d as nat;
    assert v / 0x100_0000 == a as nat && v / 0x1_0000 == 0x100 * a as nat + b as nat;
    assert v / 0x100 == 0x1_0000 * a as nat + 0x100 * b as nat + c as nat;
    WriteReadLong([a, b, c, d]);
  }

  lemma CommandBytes(s: seq<byte>, n: byte, a: byte, b: byte, c: byte, d: byte)
    ensures var v := 0x100_0000 * a as nat + 0x1_0000 * b as nat + 0x100 * c as nat + d as nat;
            && v < 0x1_0000_0000
            && Encode(XTdoMask(s)) == [0x01] + s && Encode(XSir(n, s)) == [0x02, n] + s
            && Encode(XSdr(s)) == [0x03] + s && Encode(XSdrTdo(s)) == [0x09] + s
            && Encode(XRunTest(v)) == [0x04, a, b, c, d] && Encode(XSdrSize(v)) == [0x08, a, b, c, d]
            && Fetch([0x00] + s, None) == Stop(Complete)
  {
    hide LongBE, ReadLongBE;
    LongBytes(a, b, c, d);
  }
}
