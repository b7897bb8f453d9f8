// What a list of CSVF commands means: the register shifts it makes, in order, and how
// long the chain idles after each of them.
module Trace {
  import opened Bits
  import opened Bytes
  import opened Csvf

  // How the bits shifted out are judged: not at all, or under a mask.
  datatype Check = NoCheck | Compare(mask: nat, expected: nat)

  // One register shift: the bits shifted in, as a number.
  datatype Shift =
    | IrShift(bits: nat, tdi: nat, check: Check)
    | DrShift(bits: nat, tdi: nat, check: Check)

  datatype Event = Event(shift: Shift, wait: nat)

  // The registers that commands leave behind for later commands.
  datatype Regs = Regs(xsdrSize: nat, mask: seq<byte>)

  // The number that a stream payload stands for: least significant byte first.
  function Payload(s: seq<byte>): nat
  {
    Value(Reversed(s))
  }

  // Every second byte of s, from the given start.
  function EverySecond(s: seq<byte>, start: nat): (r: seq<byte>)
    requires start <= 1
    ensures |r| == |s| / 2 && forall i :: 0 <= i < |r| ==> r[i] == s[2 * i + start]
  {
    if |s| < 2 then [] else [s[start]] + EverySecond(s[2..], start)
  }

  lemma {:induction false} HalvesOfInterleaved(a: seq<byte>, b: seq<byte>)
    requires |a| == |b|
    ensures EverySecond(Interleaved(a, b), 0) == a && EverySecond(Interleaved(a, b), 1) == b
  {
    if a != [] {
      HalvesOfInterleaved(a[1..], b[1..]);
      assert Interleaved(a, b)[2..] == Interleaved(a[1..], b[1..]);
    }
  }

  // Writing to the start of a piece of memory leaves the rest of it alone.
  function Overlay(memory: seq<byte>, s: seq<byte>): seq<byte>
  {
    if |s| >= |memory| then s else s + memory[|s|..]
  }

  // The first n bytes of a piece of memory.
  function FirstBytes(memory: seq<byte>, n: nat): (r: seq<byte>)
    ensures |r| == n
  {
    if n <= |memory| then memory[..n] else memory + Repeat<byte>(0, n - |memory|)
  }

  lemma PayloadOfReversed(s: seq<byte>)
    ensures Payload(Reversed(s)) == Value(s)
  {
    ReversedTwice(s);
  }

  lemma FirstBytesOfPrefix(memory: seq<byte>, s: seq<byte>)
    requires s <= memory
    ensures FirstBytes(memory, |s|) == s
  {
  }

  function Next(r: Regs, c: Cmd): Regs
  {
    match c
    case XSdrSize(size) => r.(xsdrSize := size)
    case XTdoMask(mask) => r.(mask := Overlay(r.mask, mask))
    case _ => r
  }

  // The comparison an XSDRTDO asks for, bit by bit of the register.
  function CheckOf(r: Regs, pairs: seq<byte>): Check
  {
    var mask := Payload(FirstBytes(r.mask, BitsToBytes(r.xsdrSize)));
    Compare(Low(mask, r.xsdrSize), And(Payload(EverySecond(pairs, 1)), mask))
  }

  function ShiftOf(r: Regs, c: Cmd): Shift
    requires c.IsShift()
  {
    match c
    case XSir(numBits, tdi) => IrShift(numBits, Low(Payload(tdi), numBits), NoCheck)
    case XSdr(tdi) => DrShift(r.xsdrSize, Low(Payload(tdi), r.xsdrSize), NoCheck)
    case XSdrTdo(pairs) => DrShift(r.xsdrSize, Low(Payload(EverySecond(pairs, 0)), r.xsdrSize), CheckOf(r, pairs))
  }

  // The shifts that a command list makes; waiting does not come into it.
  function Shifts(r: Regs, cmds: seq<Cmd>): seq<Shift>
    decreases |cmds|
  {
    if cmds == [] then []
    else (if cmds[0].IsShift() then [ShiftOf(r, cmds[0])] else []) + Shifts(Next(r, cmds[0]), cmds[1..])
  }

  // ---------- Two readings of XRUNTEST ----------

  // Idle clocks before the first shift, and after each shift.
  datatype Idle = Idle(lead: nat, after: seq<nat>)

  // "Wait here": how the SVF compiler emits RUNTEST.
  function WaitsHere(cmds: seq<Cmd>): (w: Idle)
  {
    if cmds == [] then Idle(0, [])
    else
      var rest := WaitsHere(cmds[1..]);
      match cmds[0]
      case XRunTest(count) => Idle(count + rest.lead, rest.after)
      case c => if c.IsShift() then Idle(0, [rest.lead] + rest.after) else rest
  }

  // "Wait this long after every shift from now on": how csvfPlay() reads it.
  function WaitsAfterEach(cmds: seq<Cmd>, register: nat): (w: seq<nat>)
  {
    if cmds == [] then []
    else
      match cmds[0]
      case XRunTest(count) => WaitsAfterEach(cmds[1..], count)
      case c => (if c.IsShift() then [register] else []) + WaitsAfterEach(cmds[1..], register)
  }

  function Zip(shifts: seq<Shift>, waits: seq<nat>): (t: seq<Event>)
    requires |shifts| == |waits|
    ensures |t| == |shifts| && forall i :: 0 <= i < |t| ==> t[i] == Event(shifts[i], waits[i])
  {
    seq(|shifts|, i requires 0 <= i < |shifts| => Event(shifts[i], waits[i]))
  }

  // What csvfPlay() makes of a command list.
  function Events(r: Regs, xruntest: nat, cmds: seq<Cmd>): seq<Event>
    decreases |cmds|
  {
    if cmds == [] then []
    else
      match cmds[0]
      case XRunTest(count) => Events(r, count, cmds[1..])
      case c =>
        (if c.IsShift() then [Event(ShiftOf(r, c), xruntest)] else []) + Events(Next(r, c), xruntest, cmds[1..])
  }

  lemma {:induction false} EventsAreZipped(r: Regs, xruntest: nat, cmds: seq<Cmd>)
    ensures |Shifts(r, cmds)| == |WaitsAfterEach(cmds, xruntest)|
    ensures Events(r, xruntest, cmds) == Zip(Shifts(r, cmds), WaitsAfterEach(cmds, xruntest))
    decreases |cmds|
  {
    if cmds != [] {
      hide ShiftOf, Next;
      var c := cmds[0];
      var register := if c.XRunTest? then c.count else xruntest;
      EventsAreZipped(Next(r, c), register, cmds[1..]);
      if c.IsShift() {
        ZipCons(ShiftOf(r, c), register, Shifts(Next(r, c), cmds[1..]), WaitsAfterEach(cmds[1..], register));
      }
      NextOfRunTest(r, c);
    }
  }

  lemma ZipCons(s: Shift, w: nat, shifts: seq<Shift>, waits: seq<nat>)
    requires |shifts| == |waits|
    ensures Zip([s] + shifts, [w] + waits) == [Event(s, w)] + Zip(shifts, waits)
  {
  }

  lemma NextOfRunTest(r: Regs, c: Cmd)
    ensures c.XRunTest? ==> Next(r, c) == r
  {
  }

  lemma {:induction false} ShiftCount(r: Regs, cmds: seq<Cmd>)
    ensures |Shifts(r, cmds)| == |WaitsHere(cmds).after|
    decreases |cmds|
  {
    if cmds != [] {
      hide ShiftOf;
      ShiftCount(Next(r, cmds[0]), cmds[1..]);
    }
  }

  // ---------- Running through commands ----------

  function RegsAfter(r: Regs, cmds: seq<Cmd>): Regs
    decreases |cmds|
  {
    if cmds == [] then r else RegsAfter(Next(r, cmds[0]), cmds[1..])
  }

  function NumBytesAfter(numBytes: Option<nat>, cmds: seq<Cmd>): Option<nat>
    decreases |cmds|
  {
    if cmds == [] then numBytes else NumBytesAfter(NumBytes(cmds[0], numBytes), cmds[1..])
  }

  lemma {:induction false} ShiftsConcat(r: Regs, a: seq<Cmd>, b: seq<Cmd>)
    ensures Shifts(r, a + b) == Shifts(r, a) + Shifts(RegsAfter(r, a), b)
    decreases |a|
  {
    hide ShiftOf, Next;
    if a == [] {
      assert a + b == b;
    } else {
      assert (a + b)[1..] == a[1..] + b;
      ShiftsConcat(Next(r, a[0]), a[1..], b);
    }
  }

  lemma {:induction false} SizedConcat(numBytes: Option<nat>, a: seq<Cmd>, b: seq<Cmd>)
    ensures AllSized(a + b, numBytes) <==> AllSized(a, numBytes) && AllSized(b, NumBytesAfter(numBytes, a))
    decreases |a|
  {
    hide Sized, NumBytes;
    if a == [] {
      assert a + b == b;
    } else {
      assert (a + b)[1..] == a[1..] + b;
      SizedConcat(NumBytes(a[0], numBytes), a[1..], b);
    }
  }

  function RunTestAfter(xruntest: nat, cmds: seq<Cmd>): nat
    decreases |cmds|
  {
    if cmds == [] then xruntest
    else RunTestAfter(if cmds[0].XRunTest? then cmds[0].count else xruntest, cmds[1..])
  }

  lemma {:induction false} EventsConcat(r: Regs, xruntest: nat, a: seq<Cmd>, b: seq<Cmd>)
    ensures Events(r, xruntest, a + b) == Events(r, xruntest, a) + Events(RegsAfter(r, a), RunTestAfter(xruntest, a), b)
    decreases |a|
  {
    hide ShiftOf, Next;
    if a == [] {
      assert a + b == b;
    } else {
      assert (a + b)[1..] == a[1..] + b;
      NextOfRunTest(r, a[0]);
      EventsConcat(Next(r, a[0]), if a[0].XRunTest? then a[0].count else xruntest, a[1..], b);
    }
  }
}
