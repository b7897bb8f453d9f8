// The CSVF player: an interpreter that reads the byte stream and drives the JTAG port.
module CsvfPlay {
  import opened Bits
  import opened Bytes
  import opened Csvf
  import opened Trace
  import opened Jtag

  datatype Status = Success | CompareFailed | UnknownCmd

  // The port to a device: every operation is logged, and what a device captures is up to
  // the device.
  class JtagPort {
    const device: Device
    var log: seq<Op>

    constructor (device: Device)
      ensures this.device == device && log == []
    {
      this.device := device;
      log := [];
    }

    method Do(op: Op)
      modifies this
      ensures log == old(log) + [op]
    {
      log := log + [op];
    }

    // Shift numBits bits of data in, on to the next state with the last one.
    method ShiftInOnly(numBits: nat, data: seq<byte>)
      modifies this
      ensures log == old(log) + [ShiftIn(numBits, Low(Payload(data), numBits))]
    {
      log := log + [ShiftIn(numBits, Low(Payload(data), numBits))];
    }

    // The same, keeping what comes out: numBits bits, padded with zeros to whole bytes.
    method ShiftInOut(numBits: nat, data: seq<byte>) returns (tdo: seq<byte>)
      modifies this
      ensures |tdo| == BitsToBytes(numBits) && Payload(tdo) == Low(device(old(log)), numBits)
      ensures log == old(log) + [Op.ShiftInOut(numBits, Low(Payload(data), numBits), Payload(tdo))]
    {
      tdo := Captures(device(log), numBits);
      log := log + [Op.ShiftInOut(numBits, Low(Payload(data), numBits), Payload(tdo))];
    }
  }

  function Captures(v: nat, numBits: nat): (tdo: seq<byte>)
    ensures |tdo| == BitsToBytes(numBits) && Payload(tdo) == Low(v, numBits)
  {
    CapturedBytes(Low(v, numBits), numBits, v);
    Reversed(ToBytes(Low(v, numBits), BitsToBytes(numBits)))
  }

  lemma CapturedBytes(w: nat, numBits: nat, v: nat)
    requires w == Low(v, numBits)
    ensures Payload(Reversed(ToBytes(w, BitsToBytes(numBits)))) == w
  {
    hide Low, Value, ToBytes, Pow2, BitsToBytes;
    var n := BitsToBytes(numBits);
    ReversedTwice(ToBytes(w, n));
    ValueOfToBytes(w, n);
    LowBound(v, numBits);
    Pow2Monotone(numBits, 8 * n);
    LowSmall(w, 8 * n);
  }

  // ---------- Comparing ----------

  method TdoMatchFailed(tdoData: seq<byte>, tdoMask: array<byte>, tdoExpected: seq<byte>) returns (failed: bool)
    requires |tdoData| == |tdoExpected| <= tdoMask.Length
    ensures var mask := tdoMask[..|tdoData|]; failed <==> AndBytes(tdoData, mask) != AndBytes(tdoExpected, mask)
  {
    hide And;
    ghost var mask := tdoMask[..|tdoData|];
    var i := 0;
    while i < |tdoData|
      invariant 0 <= i <= |tdoData|
      invariant forall j :: 0 <= j < i ==> AndBytes(tdoData, mask)[j] == AndBytes(tdoExpected, mask)[j]
    {
      if And(tdoData[i], tdoMask[i]) != And(tdoExpected[i], tdoMask[i]) {
        assert AndBytes(tdoData, mask)[i] != AndBytes(tdoExpected, mask)[i];
        return true;
      }
      i := i + 1;
    }
    return false;
  }

  lemma ReversedAndBytes(a: seq<byte>, b: seq<byte>)
    requires |a| == |b|
    ensures Payload(AndBytes(a, b)) == And(Payload(a), Payload(b))
  {
    hide And, Value, AndBytes, Reversed;
    ValueAndBytes(Reversed(a), Reversed(b));
    var x, y := Reversed(AndBytes(a, b)), AndBytes(Reversed(a), Reversed(b));
    forall i | 0 <= i < |a|
      ensures x[i] == y[i]
    {
      assert x[i] == AndBytes(a, b)[|a| - 1 - i];
    }
    assert x == y;
  }

  lemma SamePayload(a: seq<byte>, b: seq<byte>)
    requires |a| == |b|
    ensures Payload(a) == Payload(b) <==> a == b
  {
    hide Value;
    if Payload(a) == Payload(b) {
      ValueInjective(Reversed(a), Reversed(b));
      ReversedTwice(a);
      ReversedTwice(b);
    }
  }

  // Comparing byte by byte is comparing the register's bits under the mask.
  lemma ComparisonExact(tdo: seq<byte>, r: Regs, pairs: seq<byte>, v: nat)
    requires |tdo| == BitsToBytes(r.xsdrSize) && |pairs| == 2 * |tdo| && Payload(tdo) == Low(v, r.xsdrSize)
    ensures AndBytes(tdo, FirstBytes(r.mask, |tdo|)) == AndBytes(EverySecond(pairs, 1), FirstBytes(r.mask, |tdo|))
       <==> And(Payload(tdo), CheckOf(r, pairs).mask) == CheckOf(r, pairs).expected
  {
    hide And, Low, Payload, EverySecond, AndBytes, FirstBytes, Pow2;
    var mask, expected := FirstBytes(r.mask, |tdo|), EverySecond(pairs, 1);
    SamePayload(AndBytes(tdo, mask), AndBytes(expected, mask));
    ReversedAndBytes(tdo, mask);
    ReversedAndBytes(expected, mask);
    LowBound(v, r.xsdrSize);
    AndLow(Payload(tdo), Payload(mask), r.xsdrSize);
  }

  // ---------- Playing ----------

  method Idle(port: JtagPort, xruntest: nat)
    modifies port
    ensures port.log == old(port.log) + Waiting(xruntest)
  {
    if xruntest != 0 {
      port.Do(Clocks(xruntest));
    }
  }

  method PlayUnjudged(port: JtagPort, toShift: Op, numBits: nat, tdi: seq<byte>, xruntest: nat)
    modifies port
    ensures port.log == old(port.log) + Unjudged(toShift, numBits, Low(Payload(tdi), numBits), xruntest)
  {
    port.Do(toShift);
    port.ShiftInOnly(numBits, tdi);
    port.Do(ClockFsm(0x1, 2));
    Idle(port, xruntest);
  }

  lemma FirstBytesOfArray(memory: seq<byte>, n: nat)
    requires n <= |memory|
    ensures FirstBytes(memory, n) == memory[..n]
  {
  }

  // One attempt at an XSDRTDO.
  method PlayAttempt(port: JtagPort, xsdrSize: nat, pairs: seq<byte>, tdoMask: array<byte>, xruntest: nat)
    returns (failed: bool)
    requires |pairs| == 2 * BitsToBytes(xsdrSize) && BitsToBytes(xsdrSize) <= tdoMask.Length
    modifies port
    ensures var r := Regs(xsdrSize, tdoMask[..]);
            var shift := ShiftOf(r, XSdrTdo(pairs));
            && port.log == Attempt(port.device, old(port.log), xsdrSize, shift.tdi, xruntest)
            && var captured := Captured(port.device, old(port.log), xsdrSize);
               failed <==> And(captured, shift.check.mask) != shift.check.expected
  {
    hide And, Low, Payload, EverySecond, AndBytes, FirstBytes, BitsToBytes, CheckOf;
    ghost var log := port.log;
    var tdiData, tdoExpected := EverySecond(pairs, 0), EverySecond(pairs, 1);
    port.Do(ClockFsm(0x1, 3));
    var tdoData := port.ShiftInOut(xsdrSize, tdiData);
    port.Do(ClockFsm(0x1A, 6));
    Idle(port, xruntest);
    failed := TdoMatchFailed(tdoData, tdoMask, tdoExpected);
    ghost var tdo := Captured(port.device, log, xsdrSize);
    assert Payload(tdoData) == tdo;
    assert port.log == log + ([ClockFsm(0x1, 3), Op.ShiftInOut(xsdrSize, Low(Payload(tdiData), xsdrSize), tdo),
                               ClockFsm(0x1A, 6)]
                              + Waiting(xruntest));
    FirstBytesOfArray(tdoMask[..], |tdoData|);
    assert tdoMask[..|tdoData|] == tdoMask[..][..|tdoData|];
    ComparisonExact(tdoData, Regs(xsdrSize, tdoMask[..]), pairs, port.device(log + [ClockFsm(0x1, 3)]));
  }

  // An XSDRTDO: try up to 32 times.
  method PlayJudged(port: JtagPort, xsdrSize: nat, pairs: seq<byte>, tdoMask: array<byte>, xruntest: nat)
    returns (ok: bool)
    requires |pairs| == 2 * BitsToBytes(xsdrSize) && BitsToBytes(xsdrSize) <= tdoMask.Length
    modifies port
    ensures var e := Event(ShiftOf(Regs(xsdrSize, tdoMask[..]), XSdrTdo(pairs)), xruntest);
            PlayOne(port.device, old(port.log), e) == Outcome(port.log, ok)
  {
    hide ShiftOf, Attempt, Captured, BitsToBytes;
    ghost var r := Regs(xsdrSize, tdoMask[..]);
    ghost var e := Event(ShiftOf(r, XSdrTdo(pairs)), xruntest);
    JudgedShift(r, pairs);
    var i := 0;
    var failed := true;
    while failed && i < 32
      invariant 0 <= i <= 32
      invariant if failed && i < 32 then PlayOne(port.device, old(port.log), e) == Retry(port.device, port.log, e, i)
                else PlayOne(port.device, old(port.log), e) == Outcome(port.log, i < 32)
      decreases 32 - i
    {
      failed := PlayAttempt(port, xsdrSize, pairs, tdoMask, xruntest);
      i := i + 1;
    }
    ok := i != 32;
  }

  lemma JudgedShift(r: Regs, pairs: seq<byte>)
    ensures var s := ShiftOf(r, XSdrTdo(pairs)); s.DrShift? && s.check.Compare? && s.bits == r.xsdrSize
  {
  }

  // The streams that the player can be run on: it does not check where they end, nor that they
  // fit its buffers.
  predicate CanPlay(s: seq<byte>)
  {
    Decode(s, Some(0)).end != Truncated && AllFitIn(Decode(s, Some(0)).cmds, BUF_SIZE)
  }

  // What is left to play.
  ghost predicate Playing(device: Device, all: Outcome, end: End, log: seq<Op>, r: Regs, xruntest: nat, s: seq<byte>)
  {
    var d := Decode(s, Some(BitsToBytes(r.xsdrSize)));
    && all == PlayAll(device, log, Events(r, xruntest, d.cmds))
    && d.end == end
    && AllFitIn(d.cmds, BUF_SIZE)
  }

  lemma PlayNext(device: Device, all: Outcome, end: End, log: seq<Op>, r: Regs, xruntest: nat, s: seq<byte>)
    requires Playing(device, all, end, log, r, xruntest, s)
    ensures var f := Fetch(s, Some(BitsToBytes(r.xsdrSize)));
            if f.Stop? then all == Outcome(log, true) && end == f.end
            else
              && FitsIn(f.cmd, BUF_SIZE)
              && var x := if f.cmd.XRunTest? then f.cmd.count else xruntest;
                 var out := if f.cmd.IsShift() then PlayOne(device, log, Event(ShiftOf(r, f.cmd), xruntest))
                            else Outcome(log, true);
                 if out.ok then Playing(device, all, end, out.log, Next(r, f.cmd), x, s[f.length..]) else all == out
  {
    hide Fetch, ShiftOf, PlayOne, BitsToBytes, FitsIn;
    var f := Fetch(s, Some(BitsToBytes(r.xsdrSize)));
    if f.Fetched? {
      SizeCarries(r, f.cmd);
      var rest := Decode(s[f.length..], NumBytes(f.cmd, Some(BitsToBytes(r.xsdrSize))));
      var cmds := [f.cmd] + rest.cmds;
      assert cmds[1..] == rest.cmds;
      assert f.cmd in cmds && forall c :: c in rest.cmds ==> c in cmds;
      EventsOfCons(device, log, r, xruntest, f.cmd, rest.cmds);
    }
  }

  lemma SizeCarries(r: Regs, c: Cmd)
    ensures NumBytes(c, Some(BitsToBytes(r.xsdrSize))) == Some(BitsToBytes(Next(r, c).xsdrSize))
  {
    hide BitsToBytes;
  }

  lemma EventsOfCons(device: Device, log: seq<Op>, r: Regs, xruntest: nat, c: Cmd, rest: seq<Cmd>)
    ensures var x := if c.XRunTest? then c.count else xruntest;
            var out := if c.IsShift() then PlayOne(device, log, Event(ShiftOf(r, c), xruntest)) else Outcome(log, true);
            PlayAll(device, log, Events(r, xruntest, [c] + rest))
            == if out.ok then PlayAll(device, out.log, Events(Next(r, c), x, rest)) else out
  {
    hide ShiftOf, PlayOne;
    assert ([c] + rest)[1..] == rest;
    if c.IsShift() {
      var e := Event(ShiftOf(r, c), xruntest);
      assert ([e] + Events(Next(r, c), xruntest, rest))[1..] == Events(Next(r, c), xruntest, rest);
    } else {
      assert [] + Events(Next(r, c), xruntest, rest) == Events(Next(r, c), xruntest, rest);
    }
  }

  // What playing a stream comes to: reset, then the events of its commands, then a
  // complaint if it ends in something that is no command.
  function Played(device: Device, log: seq<Op>, memory: seq<byte>, s: seq<byte>): (Outcome, Status)
  {
    var d := Decode(s, Some(0));
    var out := PlayAll(device, log + [ClockFsm(0x1F, 6)], Events(Regs(0, memory), 0, d.cmds));
    (out, if !out.ok then CompareFailed else if d.end == Complete then Success else UnknownCmd)
  }

  // tdoMask is the player's mask buffer, whose initial contents may be anything.
  method CsvfPlay(port: JtagPort, csvfData: seq<byte>, tdoMask: array<byte>) returns (status: Status)
    requires tdoMask.Length == BUF_SIZE
    requires CanPlay(csvfData)
    modifies port, tdoMask
    ensures Played(port.device, old(port.log), old(tdoMask[..]), csvfData)
            == (Outcome(port.log, status != CompareFailed), status)
  {
    hide Decode, Fetch, ShiftOf, BitsToBytes, Playing, PlayOne, PlayAll, Events, Unjudged;
    var xsdrSize, xruntest := 0, 0;
    ghost var d := Decode(csvfData, Some(0));
    ghost var all := Played(port.device, port.log, tdoMask[..], csvfData).0;
    port.Do(ClockFsm(0x1F, 6));
    var ptr := 0;
    assert csvfData[0..] == csvfData;
    StartPlaying(port.device, all, d.end, port.log, tdoMask[..], csvfData);
    while true
      invariant 0 <= ptr <= |csvfData|
      invariant Playing(port.device, all, d.end, port.log, Regs(xsdrSize, tdoMask[..]), xruntest, csvfData[ptr..])
      decreases |csvfData| - ptr
    {
      PlayNext(port.device, all, d.end, port.log, Regs(xsdrSize, tdoMask[..]), xruntest, csvfData[ptr..]);
      var f := Fetch(csvfData[ptr..], Some(BitsToBytes(xsdrSize)));
      if f.Stop? {
        return if f.end == Complete then Success else UnknownCmd;
      }
      ghost var rest := csvfData[ptr..][f.length..];
      assert rest == csvfData[ptr + f.length..];
      ptr := ptr + f.length;
      match f.cmd
      case XTdoMask(mask) => CopyMask(mask, tdoMask);
      case XRunTest(count) => xruntest := count;
      case XSdrSize(size) => xsdrSize := size;
      case XSir(numBits, tdi) =>
        UnjudgedShift(port.device, port.log, Regs(xsdrSize, tdoMask[..]), f.cmd, xruntest);
        PlayUnjudged(port, ClockFsm(0x3, 4), numBits, tdi, xruntest);
      case XSdr(tdi) =>
        UnjudgedShift(port.device, port.log, Regs(xsdrSize, tdoMask[..]), f.cmd, xruntest);
        PlayUnjudged(port, ClockFsm(0x1, 3), xsdrSize, tdi, xruntest);
      case XSdrTdo(pairs) =>
        var ok := PlayJudged(port, xsdrSize, pairs, tdoMask, xruntest);
        if !ok {
          return CompareFailed;
        }
    }
  }

  lemma UnjudgedShift(device: Device, log: seq<Op>, r: Regs, c: Cmd, xruntest: nat)
    requires c.XSir? || c.XSdr?
    ensures var (toShift, bits) := if c.XSir? then (ClockFsm(0x3, 4), c.numBits as nat)
                                   else (ClockFsm(0x1, 3), r.xsdrSize);
            PlayOne(device, log, Event(ShiftOf(r, c), xruntest))
            == Outcome(log + Unjudged(toShift, bits, Low(Payload(c.tdi), bits), xruntest), true)
  {
    hide Low, Payload, Unjudged;
  }

  method CopyMask(mask: seq<byte>, tdoMask: array<byte>)
    requires |mask| <= tdoMask.Length
    modifies tdoMask
    ensures tdoMask[..] == Overlay(old(tdoMask[..]), mask)
  {
    var i := 0;
    while i < |mask|
      invariant 0 <= i <= |mask|
      invariant forall j :: 0 <= j < tdoMask.Length ==> tdoMask[j] == if j < i then mask[j] else old(tdoMask[j])
    {
      tdoMask[i] := mask[i];
      i := i + 1;
    }
  }

  lemma StartPlaying(device: Device, all: Outcome, end: End, log: seq<Op>, memory: seq<byte>, s: seq<byte>)
    requires all == PlayAll(device, log, Events(Regs(0, memory), 0, Decode(s, Some(0)).cmds))
    requires end == Decode(s, Some(0)).end
    requires AllFitIn(Decode(s, Some(0)).cmds, BUF_SIZE)
    ensures Playing(device, all, end, log, Regs(0, memory), 0, s)
  {
    hide Decode, Events, PlayAll, FitsIn;
    assert BitsToBytes(0) == 0;
  }
}
