// The byte stream that carries channel commands to the FPGA. A command starts with a byte
// whose top bit says whether it reads, then a big-endian 16-bit length in which zero stands
// for 65536; the payload of a write follows.
module Frames {
  import opened Bytes
  import opened Csvf

  datatype Command = WriteCommand(chan: byte, data: seq<byte>) | ReadCommand(chan: byte, count: nat)

  const BLOCK: nat := 0x10000

  predicate Sane(c: Command)
  {
    c.chan < 128 && if c.WriteCommand? then 1 <= |c.data| <= BLOCK else 1 <= c.count <= BLOCK
  }

  ghost predicate AllSane(cs: seq<Command>)
  {
    forall i :: 0 <= i < |cs| ==> Sane(cs[i])
  }

  function Header(first: byte, count: nat): seq<byte>
    requires 1 <= count <= BLOCK
  {
    var count16 := if count == BLOCK then 0 else count;
    [first, count16 / 256, count16 % 256]
  }

  function Frame(c: Command): seq<byte>
    requires Sane(c)
  {
    if c.WriteCommand? then Header(c.chan, |c.data|) + c.data else Header(c.chan + 128, c.count)
  }

  ghost function FrameAll(cs: seq<Command>): seq<byte>
    requires AllSane(cs)
  {
    if cs == [] then [] else Frame(cs[0]) + FrameAll(cs[1..])
  }

  // The bytes of a frame: the channel, with the top bit set for a read, and the count's two
  // bytes, the more significant first, both zero for 65536.
  lemma FrameBytes(chan: byte, data: seq<byte>, high: byte, low: byte)
    requires chan < 128 && |data| == 256 * high as nat + low as nat > 0
    ensures Frame(WriteCommand(chan, data)) == [chan, high, low] + data
    ensures Frame(ReadCommand(chan, |data|)) == [128 + chan, high, low]
    ensures Frame(ReadCommand(chan, 65536)) == [128 + chan, 0, 0]
  {
  }

  lemma FullFrame(chan: byte, data: seq<byte>)
    requires chan < 128 && |data| == 65536
    ensures Frame(WriteCommand(chan, data)) == [chan, 0, 0] + data
  {
  }

  function Count(high: byte, low: byte): (n: nat)
    ensures 1 <= n <= BLOCK
  {
    var count16: nat := 256 * (high as nat) + low as nat;
    if count16 == 0 then BLOCK else count16
  }

  // A command and the size of its frame.
  datatype Framed = Framed(command: Command, size: nat)

  // The command at the front of the stream; None when the stream stops inside its frame.
  function ParseOne(s: seq<byte>): (f: Option<Framed>)
    ensures f.Some? ==> 3 <= f.value.size <= |s|
  {
    if |s| < 3 then None
    else
      var count := Count(s[1], s[2]);
      if s[0] >= 128 then Some(Framed(ReadCommand(s[0] - 128, count), 3))
      else if |s| < 3 + count then None
      else Some(Framed(WriteCommand(s[0], s[3..3 + count]), 3 + count))
  }

  // What the other end makes of the stream.
  ghost function Parse(s: seq<byte>): Option<seq<Command>>
    decreases |s|
  {
    if s == [] then Some([])
    else
      match ParseOne(s)
      case None => None
      case Some(f) =>
        match Parse(s[f.size..])
        case None => None
        case Some(rest) => Some([f.command] + rest)
  }

  lemma ParseOneFrame(c: Command, rest: seq<byte>)
    requires Sane(c)
    ensures ParseOne(Frame(c) + rest) == Some(Framed(c, |Frame(c)|))
  {
    var f := Frame(c);
    var s := f + rest;
    assert Count(s[1], s[2]) == if c.WriteCommand? then |c.data| else c.count;
    if c.WriteCommand? {
      assert s[3..|f|] == c.data;
    }
  }

  lemma FrameOneParsed(s: seq<byte>)
    requires ParseOne(s).Some?
    ensures Sane(ParseOne(s).value.command)
    ensures Frame(ParseOne(s).value.command) == s[..ParseOne(s).value.size]
  {
    var f := ParseOne(s).value;
    var header := Header(s[0], Count(s[1], s[2]));
    assert header == s[..3];
    if f.command.WriteCommand? {
      assert s[..f.size] == s[..3] + s[3..f.size];
    }
  }

  // No two lists of commands share a stream: the other end recovers every channel, every
  // count and every payload.
  lemma {:induction false} ParseFramed(cs: seq<Command>)
    requires AllSane(cs)
    ensures Parse(FrameAll(cs)) == Some(cs)
  {
    hide Frame, ParseOne;
    if cs != [] {
      var f, rest := Frame(cs[0]), FrameAll(cs[1..]);
      ParseOneFrame(cs[0], rest);
      ParseFramed(cs[1..]);
      assert (f + rest)[|f|..] == rest;
      assert [cs[0]] + cs[1..] == cs;
    }
  }

  // And a stream that can be parsed is the framing of what it parses to.
  lemma {:induction false} FrameParsed(s: seq<byte>)
    requires Parse(s).Some?
    ensures AllSane(Parse(s).value) && FrameAll(Parse(s).value) == s
    decreases |s|
  {
    hide Frame, ParseOne, Sane;
    if s != [] {
      var cs, size := Parse(s).value, ParseOne(s).value.size;
      FrameOneParsed(s);
      FrameParsed(s[size..]);
      assert cs[1..] == Parse(s[size..]).value;
      assert s == s[..size] + s[size..];
    }
  }

  lemma {:induction false} FrameAllMore(cs: seq<Command>, c: Command)
    requires AllSane(cs) && Sane(c)
    ensures AllSane(cs + [c]) && FrameAll(cs + [c]) == FrameAll(cs) + Frame(c)
  {
    hide Frame, Sane;
    if cs == [] {
      assert FrameAll([c]) == Frame(c) + FrameAll([]);
      assert cs + [c] == [c];
    } else {
      FrameAllMore(cs[1..], c);
      assert (cs + [c])[1..] == cs[1..] + [c];
    }
  }

  // The write commands for a payload of any size.
  ghost function Blocks(chan: byte, data: seq<byte>): (cs: seq<Command>)
    requires chan < 128
    ensures AllSane(cs)
  {
    if data == [] then []
    else if |data| < BLOCK then [WriteCommand(chan, data)]
    else [WriteCommand(chan, data[..BLOCK])] + Blocks(chan, data[BLOCK..])
  }

  lemma BlocksStep(chan: byte, data: seq<byte>, pos: nat, done: seq<Command>)
    requires chan < 128 && pos <= |data|
    ensures |data| - pos >= BLOCK ==>
              done + Blocks(chan, data[pos..])
              == done + [WriteCommand(chan, data[pos..pos + BLOCK])] + Blocks(chan, data[pos + BLOCK..])
    ensures 0 < |data| - pos < BLOCK ==> done + Blocks(chan, data[pos..]) == done + [WriteCommand(chan, data[pos..])]
    ensures |data| == pos ==> done + Blocks(chan, data[pos..]) == done
  {
    if |data| - pos >= BLOCK {
      assert data[pos..][BLOCK..] == data[pos + BLOCK..];
      assert data[pos..][..BLOCK] == data[pos..pos + BLOCK];
    }
  }

  ghost function PayloadOn(chan: byte, cs: seq<Command>): seq<byte>
  {
    if cs == [] then []
    else (if cs[0].WriteCommand? && cs[0].chan == chan then cs[0].data else []) + PayloadOn(chan, cs[1..])
  }

  // The blocks deliver the payload to its channel and nothing to any other.
  lemma {:induction false} BlocksDeliver(chan: byte, data: seq<byte>, other: byte)
    requires chan < 128
    ensures PayloadOn(other, Blocks(chan, data)) == if other == chan then data else []
  {
    if |data| >= BLOCK {
      var cs := Blocks(chan, data);
      assert cs[1..] == Blocks(chan, data[BLOCK..]);
      BlocksDeliver(chan, data[BLOCK..], other);
      assert data == data[..BLOCK] + data[BLOCK..];
    }
  }

  // And they are as few as can be: each but the last has 65536 bytes, so that the framing adds
  // three bytes for every 65536 begun.
  lemma {:induction false} BlocksLength(chan: byte, data: seq<byte>)
    requires chan < 128
    ensures |Blocks(chan, data)| == (|data| + 65535) / 65536
    ensures |FrameAll(Blocks(chan, data))| == |data| + 3 * |Blocks(chan, data)|
    decreases |data|
  {
    if data == [] {
    } else if |data| < 65536 {
      var c := WriteCommand(chan, data);
      assert [c][1..] == [] && FrameAll([c]) == Frame(c) + FrameAll([]);
    } else {
      var rest := Blocks(chan, data[65536..]);
      BlocksLength(chan, data[65536..]);
      assert Blocks(chan, data)[1..] == rest;
    }
  }
}
