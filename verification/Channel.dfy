// The channel protocol over a USB device: writes are framed, collected in a buffer and sent
// in chunks, while a single completion report holds at most one finished read that nobody
// has asked for yet.
module Channel {
  import opened Bytes
  import opened Queue
  import opened Usb
  import opened Frames
  import Csvf

  datatype FLStatus = FlSuccess | FlUsbErr | FlProtocolErr | FlBadState | FlEarlyTerm

  // A finished read: what was asked for, and how many bytes came.
  datatype Delivery = Delivery(request: Request, actual: nat)

  // The bytes that the submitted transfers take to the device.
  ghost function Carried(s: seq<Xfer>): seq<byte>
  {
    if s == [] then []
    else Carried(s[..|s| - 1]) + match s[|s| - 1] case WriteX(data) => data case ReadX(_) => []
  }

  // The reads among the submitted transfers, in order.
  ghost function Reads(s: seq<Xfer>): (r: seq<Request>)
  {
    if s == [] then []
    else Reads(s[..|s| - 1]) + match s[|s| - 1] case WriteX(_) => [] case ReadX(request) => [request]
  }

  // How the reads among the completed transfers ended, in order.
  ghost function Finished(s: seq<Xfer>, bus: Bus): (d: seq<Delivery>)
    ensures |d| == |Reads(s)| && forall i :: 0 <= i < |d| ==> d[i].request == Reads(s)[i]
  {
    if s == [] then []
    else
      Finished(s[..|s| - 1], bus)
      + match s[|s| - 1] case WriteX(_) => [] case ReadX(request) => [Delivery(request, |bus(|s| - 1).data|)]
  }

  lemma {:induction false} ReadsOfPrefix(s: seq<Xfer>, n: nat)
    requires n <= |s|
    ensures Reads(s[..n]) <= Reads(s)
  {
    if n < |s| {
      ReadsOfPrefix(s[..|s| - 1], n);
      assert s[..|s| - 1][..n] == s[..n];
    } else {
      assert s[..n] == s;
    }
  }

  lemma ReadsMore(s: seq<Xfer>, x: Xfer)
    ensures Reads(s + [x]) == Reads(s) + match x case WriteX(_) => [] case ReadX(request) => [request]
    ensures Carried(s + [x]) == Carried(s) + match x case WriteX(data) => data case ReadX(_) => []
  {
    assert (s + [x])[..|s|] == s;
  }

  ghost function Reported(report: CompletionReport): seq<Delivery>
  {
    if report.isRead then [Delivery(report.request, report.actual)] else []
  }

  // Every finished read has been handed out, in order and once, except for one that the
  // report may hold.
  ghost predicate Accounted(handedOut: seq<Delivery>, report: CompletionReport, s: seq<Xfer>, bus: Bus)
  {
    Finished(s, bus) == handedOut + Reported(report)
  }

  // Overwriting a report that holds no read loses nothing.
  lemma AccountedStep(out: seq<Delivery>, before: CompletionReport, after: CompletionReport,
                      s: seq<Xfer>, n: nat, bus: Bus)
    requires n < |s| && Accounted(out, before, s[..n], bus) && !before.isRead
    requires after.isRead == s[n].ReadX? && (after.isRead ==> after.request == s[n].request)
    requires after.actual == |bus(n).data|
    ensures Accounted(out, after, s[..n + 1], bus)
  {
    assert s[..n + 1][..n] == s[..n];
  }

  // Without the guard a finished read is lost: the report held a read, the next transfer
  // completes, and the read is in neither place.
  lemma UnguardedOverwriteLosesRead(out: seq<Delivery>, before: CompletionReport, after: CompletionReport,
                                    s: seq<Xfer>, n: nat, bus: Bus)
    requires n < |s| && Accounted(out, before, s[..n], bus) && before.isRead
    requires after.isRead == s[n].ReadX? && (after.isRead ==> after.request == s[n].request)
    requires after.actual == |bus(n).data|
    ensures !Accounted(out, after, s[..n + 1], bus)
  {
    assert s[..n + 1][..n] == s[..n];
    assert |Finished(s[..n + 1], bus)| == |out| + 1 + |Reported(after)|;
  }

  // Nothing but full chunks has been sent since before.
  ghost predicate ChunksSent(before: seq<Xfer>, after: seq<Xfer>, size: nat)
  {
    before <= after && forall i :: |before| <= i < |after| ==> after[i].WriteX? && |after[i].data| == size
  }

  lemma NothingSent(s: seq<Xfer>, size: nat)
    ensures ChunksSent(s, s, size)
  {
  }

  lemma ChunksSentMore(a: seq<Xfer>, b: seq<Xfer>, c: seq<Xfer>, size: nat)
    requires ChunksSent(a, b, size) && ChunksSent(b, c, size)
    ensures ChunksSent(a, c, size)
  {
  }

  lemma {:induction false} ChunksReadNothing(before: seq<Xfer>, after: seq<Xfer>, size: nat)
    requires ChunksSent(before, after, size)
    ensures Reads(after) == Reads(before)
  {
    if |before| < |after| {
      ChunksReadNothing(before, after[..|after| - 1], size);
    } else {
      assert before == after;
    }
  }

  // The requests that cover count bytes from dest on.
  ghost function Tiles(dest: nat, count: nat): (r: seq<Request>)
    decreases count
  {
    if count == 0 then []
    else if count < BLOCK then [Request(Own(dest), count)]
    else [Request(Own(dest), BLOCK)] + Tiles(dest + BLOCK, count - BLOCK)
  }

  lemma TilesStep(done: seq<Request>, dest: nat, count: nat)
    ensures count == 0 ==> done + Tiles(dest, count) == done
    ensures 0 < count < BLOCK ==> done + Tiles(dest, count) == done + [Request(Own(dest), count)]
    ensures count >= BLOCK ==>
              done + Tiles(dest, count) == done + [Request(Own(dest), BLOCK)] + Tiles(dest + BLOCK, count - BLOCK)
  {
  }

  // The commands that go with the requests.
  ghost function Asks(chan: byte, r: seq<Request>): seq<Command>
  {
    if r == [] then [] else Asks(chan, r[..|r| - 1]) + [ReadCommand(chan, r[|r| - 1].length)]
  }

  lemma AsksMore(chan: byte, r: seq<Request>, x: Request)
    ensures Asks(chan, r + [x]) == Asks(chan, r) + [ReadCommand(chan, x.length)]
  {
    assert (r + [x])[..|r|] == r;
  }

  // Every byte is in exactly one of them, and each is small enough for one transfer.
  lemma {:induction false} TilesCover(dest: nat, count: nat, at: nat)
    ensures forall i :: 0 <= i < |Tiles(dest, count)| ==> 1 <= Tiles(dest, count)[i].length <= BLOCK
    ensures Covering(Tiles(dest, count), at) == if dest <= at < dest + count then 1 else 0
    decreases count
  {
    if count >= BLOCK {
      TilesCover(dest + BLOCK, count - BLOCK, at);
      assert Tiles(dest, count)[1..] == Tiles(dest + BLOCK, count - BLOCK);
    } else if count > 0 {
      assert Tiles(dest, count)[1..] == [];
    }
  }

  // All but the last are for 65536 bytes.
  lemma {:induction false} TilesFull(dest: nat, count: nat, i: nat)
    ensures |Tiles(dest, count)| == (count + 65535) / 65536
    ensures i < |Tiles(dest, count)| ==>
              Tiles(dest, count)[i]
              == Request(Own(dest + 65536 * i), if i < count / 65536 then 65536 else count - 65536 * i)
    decreases count
  {
    if count >= 65536 {
      TilesFull(dest + 65536, count - 65536, if i > 0 then i - 1 else 0);
    }
  }

  // How many of the requests write to the given place.
  ghost function Covering(r: seq<Request>, at: nat): nat
  {
    if r == [] then 0
    else (if r[0].dest.Own? && r[0].dest.at <= at < r[0].dest.at + r[0].length then 1 else 0) + Covering(r[1..], at)
  }

  lemma Onward(base: seq<byte>, data: seq<byte>, from: nat, to: nat)
    requires from <= to <= |data|
    ensures base + data[..from] + data[from..to] == base + data[..to]
  {
  }

  // What a context has reported, how many transfers have completed, and how many items are in
  // use out of how many.
  datatype Mark = Mark(report: CompletionReport, told: bool, heldCap: nat, completed: nat, inUse: nat, items: nat)

  // Nothing has been waited for from m to n, and the ring has not grown for less than it had.
  ghost predicate Unwaited(m: Mark, n: Mark)
  {
    && n.report == m.report && n.told == m.told && n.heldCap == m.heldCap && n.completed == m.completed
    && m.inUse <= n.inUse && (n.inUse <= m.items ==> n.items == m.items)
  }

  // How many bytes n full chunks and a part of one have.
  ghost function BytesAt(n: nat, size: nat, part: nat): nat
  {
    n * size + part
  }

  // How many chunks it takes to hold that many bytes, the last of them maybe not full.
  ghost function Chunks(bytes: nat, size: nat): nat
    requires size > 0
  {
    (bytes + size - 1) / size
  }

  lemma Multiple(d: int, size: int)
    requires size >= 0
    ensures d >= 1 ==> d * size >= size
    ensures d <= -1 ==> d * size <= -size
  {
  }

  lemma QuotientIs(x: nat, size: nat, q: nat, r: nat)
    requires x == q * size + r && r < size
    ensures x / size == q
  {
    assert x == x / size * size + x % size;
    Multiple(x / size - q, size);
  }

  // A command that asks for data takes at least one chunk and at most three.
  lemma ThreeBytes(size: nat)
    requires size > 0
    ensures 1 <= Chunks(3, size) <= 3
  {
    var q := Chunks(3, size);
    assert size + 2 == q * size + (size + 2) % size;
    Multiple(q - 3, size);
    assert (q - 3) * size == q * size - 3 * size;
    assert q >= 1;
  }

  // Filling a chunk up makes one more of them. If the bytes stay fewer than four chunks have,
  // there were no more than two before.
  lemma ChunkDone(n: nat, size: nat, part: nat, more: nat)
    requires part + more == size > 0
    ensures BytesAt(n + 1, size, 0) == BytesAt(n, size, part) + more
    ensures BytesAt(n, size, part) + more < 4 * size ==> n <= 2
  {
    if n >= 3 {
      assert n * size >= 3 * size;
    }
  }

  // So many chunks hold the bytes after more have come.
  lemma {:induction false} ChunksHold(n: nat, size: nat, part: nat, more: nat, k: nat, rest: nat)
    requires rest < size && BytesAt(k, size, rest) == BytesAt(n, size, part) + more
    ensures k + (if rest > 0 then 1 else 0) == n + Chunks(part + more, size)
  {
    var x, q := part + more + size - 1, k - n;
    assert q * size == k * size - n * size;
    assert q * size + rest == part + more;
    Multiple(q, size);
    assert q >= 0;
    hide BytesAt;
    if rest > 0 {
      assert (q + 1) * size == q * size + size;
      QuotientIs(x, size, q + 1, rest - 1);
    } else {
      QuotientIs(x, size, q, size - 1);
    }
  }

  class FLContext {
    const device: UsbDevice
    var isCommCapable: bool
    var chunkSize: nat

    // The prepared buffer, if there is one, and how much of it is in use.
    var writeBuf: Transfer?
    var written: nat

    var report: CompletionReport

    // The reads handed out, and the commands issued; intact says that no failure has cut a
    // command short.
    ghost var handedOut: seq<Delivery>
    ghost var commands: seq<Command>
    ghost var intact: bool

    // Of the read in the report: whether its failure has been returned by a call, and how many
    // items there were when it completed.
    ghost var told: bool
    ghost var heldCap: nat

    ghost predicate Buffering()
      reads this`chunkSize, this`writeBuf, this`written, writeBuf
      reads device, device.queue, device.queue.itemArray, device.queue.Items()
    {
      && device.Valid() && 1 <= chunkSize <= MAX_LENGTH && written < chunkSize
      && (writeBuf == null ==> written == 0)
      && (writeBuf != null ==> device.Prepared(writeBuf) && written <= |writeBuf.buffer|)
    }

    ghost predicate Reporting()
      reads this`report, this`handedOut, device
    {
      device.completed <= |device.submitted|
      && Accounted(handedOut, report, device.submitted[..device.completed], device.bus)
    }

    // How the last transfer to complete ended.
    ghost function LastEnd(): Completion
      requires device.completed > 0
      reads device
    {
      device.bus(device.completed - 1)
    }

    // A read in the report is the last transfer that completed, and whoever waited for it has
    // been told if it failed.
    ghost predicate Held()
      reads this`report, this`writeBuf, this`told, this`heldCap
      reads device, device.queue, device.queue.itemArray, device.queue.Items()
    {
      if !report.isRead then report.holder == null && !told
      else
        && 0 < device.completed <= |device.submitted|
        && device.submitted[device.completed - 1] == ReadX(report.request)
        && report.actual == |LastEnd().data| && (told <==> !LastEnd().ok)
        && (report.holder != null <==> report.request.dest.Borrowed?)
        && (report.holder != null ==> Lent(report.holder))
    }

    // How many items are in flight or prepared.
    ghost function InUse(): nat
      reads this`writeBuf, device, device.queue
    {
      device.NumOutstanding() + if writeBuf == null then 0 else 1
    }

    // Whether the buffer that holds a read has been given out again: as many items are in use
    // as there were when the read completed.
    ghost predicate GivenOut()
      reads this`writeBuf, this`heldCap, device, device.queue
    {
      heldCap <= InUse()
    }

    // The buffer that holds the bytes of a read without a destination is given out again as the
    // last of the items there are: then it is the one prepared and, once that is submitted, in
    // flight. Until then it has the bytes that came.
    ghost predicate Lent(holder: Transfer)
      requires device.completed > 0
      reads this`writeBuf, this`heldCap, device, device.queue, device.queue.itemArray, device.queue.Items()
    {
      && holder in device.queue.Items() && device.queue.Valid()
      && (holder in device.queue.InFlight() <==> heldCap <= device.NumOutstanding())
      && (holder == writeBuf <==> writeBuf != null && heldCap == device.NumOutstanding() + 1)
      && (!GivenOut() ==>
            && heldCap == device.queue.itemArray.Length && holder == device.queue.LastTaken()
            && holder.buffer == LastEnd().data)
    }

    ghost function Now(): Mark
      reads this`report, this`told, this`heldCap, this`writeBuf, device, device.queue
    {
      Mark(report, told, heldCap, device.completed, InUse(), device.queue.itemArray.Length)
    }

    // How many bytes those items are good for, if all that are in flight are full.
    ghost function Position(): nat
      reads this`chunkSize, this`written, device, device.queue
    {
      BytesAt(device.NumOutstanding(), chunkSize, written)
    }

    // So many bytes can be appended without waiting for a transfer: a finished read is in the
    // way of that, or few enough are in flight.
    ghost predicate NoWait(bytes: nat)
      reads this`report, this`chunkSize, this`written, device, device.queue
    {
      report.isRead || Position() + bytes < 4 * chunkSize
    }

    ghost predicate Valid(): (v: bool)
      reads this`chunkSize, this`writeBuf, this`written, this`report, this`handedOut, this`told, this`heldCap, writeBuf
      reads device, device.queue, device.queue.itemArray, device.queue.Items()
      ensures v ==> 1 <= chunkSize <= MAX_LENGTH && written < chunkSize
      ensures v && writeBuf != null ==> writeBuf in device.queue.Items() && written <= |writeBuf.buffer|
    {
      Buffering() && Reporting() && Held()
    }

    // What has been written and not yet sent.
    ghost function Pending(): seq<byte>
      requires writeBuf != null ==> written <= |writeBuf.buffer|
      reads this`writeBuf, this`written, writeBuf
    {
      if writeBuf == null then [] else writeBuf.buffer[..written]
    }

    // Everything written: the transfers sent, then the bytes pending.
    ghost function Stream(): seq<byte>
      requires writeBuf != null ==> written <= |writeBuf.buffer|
      reads this`writeBuf, this`written, writeBuf, device`submitted
    {
      Carried(device.submitted) + Pending()
    }

    // The stream is the framing of the commands.
    ghost predicate Framed()
      requires writeBuf != null ==> written <= |writeBuf.buffer|
      reads this`writeBuf, this`written, this`intact, this`commands, writeBuf, device`submitted
    {
      intact ==> AllSane(commands) && Stream() == FrameAll(commands)
    }

    // How many submitted reads have not been handed out.
    ghost function Outstanding(): int
      reads this`handedOut, device`submitted
    {
      |Reads(device.submitted)| - |handedOut|
    }

    // What has been handed out is the first of the submitted reads; a read that finished
    // and was not handed out is in the report and the next in line.
    lemma HandedOutInOrder()
      requires Reporting()
      ensures Outstanding() >= |Reported(report)|
      ensures forall i :: 0 <= i < |handedOut| ==> handedOut[i].request == Reads(device.submitted)[i]
      ensures report.isRead ==> report.request == Reads(device.submitted)[|handedOut|]
      ensures device.completed == |device.submitted| ==> Outstanding() == |Reported(report)|
    {
      var done := device.submitted[..device.completed];
      ReadsOfPrefix(device.submitted, device.completed);
      assert Finished(done, device.bus) == handedOut + Reported(report);
      if report.isRead {
        assert Finished(done, device.bus)[|handedOut|] == Reported(report)[0];
      }
      if device.completed == |device.submitted| {
        assert done == device.submitted;
      }
    }

    // Nothing is in flight just when everything has completed.
    lemma InFlightCount()
      requires Valid()
      ensures |device.submitted| - device.completed == device.NumOutstanding()
      ensures Reporting() && Held()
    {
      device.OldestInFlight();
    }

    lemma NothingWritten()
      requires Valid() && writeBuf == null
      ensures written == 0
    {
    }

    // If the only read was submitted last, then once it or everything has completed, it is in
    // the report and nothing is in flight.
    lemma OnlyReadHeld(request: Request)
      requires Valid() && handedOut == [] && (report.isRead || device.NumOutstanding() == 0)
      requires Reads(device.submitted) == [request] && device.submitted != []
      requires device.submitted[|device.submitted| - 1] == ReadX(request)
      ensures report.isRead && report.request == request
      ensures device.completed == |device.submitted| && device.NumOutstanding() == 0
    {
      hide FLContext.Valid, Accounted;
      var sent := device.submitted;
      InFlightCount();
      HandedOutInOrder();
      assert Reads(sent[..|sent| - 1]) == [];
      if report.isRead && device.completed < |sent| {
        OnlyWrites(sent[..|sent| - 1], device.completed - 1);
      }
    }

    // Nor is it in the report before.
    lemma OnlyReadAhead(request: Request)
      requires Valid() && handedOut == [] && device.NumOutstanding() > 0
      requires Reads(device.submitted) == [request] && device.submitted != []
      requires device.submitted[|device.submitted| - 1] == ReadX(request)
      ensures !report.isRead
    {
      if report.isRead {
        OnlyReadHeld(request);
      }
    }

    // Where the bytes of a read are, or are no more, once others have been written: with three
    // chunks they are untouched, and the fourth goes over them.
    lemma FourthOverwrites(holder: Transfer, start: seq<byte>, more: seq<byte>)
      requires Valid() && device.completed > 0 && Lent(holder) && heldCap == 4
      requires Position() == |more| && Stream() == start + more && (writeBuf == null || written > 0)
      ensures |more| <= 3 * chunkSize ==> holder.buffer == LastEnd().data && holder != writeBuf
      ensures 3 * chunkSize < |more| < 4 * chunkSize ==> holder == writeBuf && more[3 * chunkSize..] <= holder.buffer
      ensures |more| >= 4 * chunkSize ==> device.queue.Valid() && holder in device.queue.InFlight()
    {
      hide FLContext.Valid, Carried, BytesAt, UnboundedQueue.Valid, UnboundedQueue.Items, UnboundedQueue.InFlight,
           UnboundedQueue.LastTaken;
      FourthChunk(device.NumOutstanding(), chunkSize, written, |more|);
      if writeBuf == null {
        NothingWritten();
      } else if 3 * chunkSize < |more| < 4 * chunkSize {
        var sent, pending := Carried(device.submitted), Pending();
        assert (sent + pending)[|sent + pending| - written..] == pending;
        assert (start + more)[|start + more| - written..] == more[3 * chunkSize..];
      }
    }

    // The other end, parsing the stream, recovers the commands that were issued.
    lemma StreamDecodes()
      requires writeBuf != null ==> written <= |writeBuf.buffer|
      requires Framed() && intact
      ensures Parse(Stream()) == Csvf.Some(commands)
    {
      ParseFramed(commands);
    }

    constructor (device: UsbDevice, isCommCapable: bool)
      requires device.Valid() && device.submitted == [] && device.completed == 0
      ensures Valid() && Framed() && this.device == device && this.isCommCapable == isCommCapable
      ensures commands == [] && handedOut == [] && intact && writeBuf == null && written == 0 && !report.isRead
    {
      this.device, this.isCommCapable := device, isCommCapable;
      chunkSize, writeBuf, written, report := MAX_LENGTH, null, 0, NO_REPORT;
      handedOut, commands, intact, told, heldCap := [], [], true, false, 0;
    }

    lemma HeldLast()
      requires Held() && report.holder != null
      ensures Lent(report.holder) && (!GivenOut() ==> heldCap == device.queue.itemArray.Length)
      ensures writeBuf == report.holder <==> writeBuf != null && heldCap == device.NumOutstanding() + 1
    {
      hide UnboundedQueue.Valid, UnboundedQueue.InFlight, UnboundedQueue.LastTaken, UnboundedQueue.Items;
    }

    // What submitting and preparing leave alone.
    twostate predicate SameReport()
      reads this, device, device.queue, device.queue.itemArray
    {
      && report == old(report) && handedOut == old(handedOut) && told == old(told) && heldCap == old(heldCap)
      && device.completed == old(device.completed) && old(device.submitted) <= device.submitted
      && device.queue.Valid() && device.queue.Items() >= old(device.queue.Items())
    }

    // The ring has not been replaced, if it had room.
    twostate predicate SameRing()
      reads device, device.queue, device.queue.itemArray
    {
      old(device.queue.Valid()) && device.queue.Valid()
      && (old(device.HasRoom()) ==>
            && device.queue.itemArray == old(device.queue.itemArray)
            && device.queue.LastTaken() == old(device.queue.LastTaken()))
    }

    // A read in the report stays there while more is submitted, and so does the buffer that its
    // bytes are in.
    twostate lemma ReportStays()
      requires old(Held() && Reporting()) && SameReport()
      requires report.holder != null && old(Lent(report.holder)) ==> Lent(report.holder)
      ensures Held() && Reporting()
    {
      hide UnboundedQueue.Valid, UnboundedQueue.InFlight, UnboundedQueue.LastTaken, UnboundedQueue.Items, Accounted,
           FLContext.Lent;
      assert device.submitted[..device.completed] == old(device.submitted[..device.completed]);
    }

    twostate lemma AfterPrepare(new item: Transfer)
      requires old(Held() && Reporting()) && SameReport() && SameRing() && old(writeBuf) == null && writeBuf == item
      requires device.queue.InFlight() == old(device.queue.InFlight()) && item !in device.queue.InFlight()
      requires device.NumOutstanding() == old(device.NumOutstanding())
      requires device.HasRoom() && (item == device.queue.LastTaken() <==> device.OneLeft())
      requires report.holder != null ==> report.holder.buffer == old(report.holder.buffer)
      ensures Held() && Reporting()
    {
      hide UnboundedQueue.Valid, UnboundedQueue.InFlight, UnboundedQueue.LastTaken, UnboundedQueue.Items,
           FLContext.Reporting, FLContext.Held;
      ReportStays();
    }

    twostate lemma AfterSubmit()
      requires old(Held() && Reporting()) && SameReport() && SameRing() && old(writeBuf) != null && writeBuf == null
      requires device.queue.InFlight() == old(device.queue.InFlight()) + [old(writeBuf)]
      requires device.NumOutstanding() == old(device.NumOutstanding()) + 1
      requires old(device.HasRoom()) && (device.HasRoom() <==> old(writeBuf) != device.queue.LastTaken())
      requires report.holder != null ==> report.holder.buffer == old(report.holder.buffer)
      ensures Held() && Reporting()
    {
      hide UnboundedQueue.Valid, UnboundedQueue.InFlight, UnboundedQueue.LastTaken, UnboundedQueue.Items,
           FLContext.Reporting, FLContext.Held;
      ReportStays();
    }

    twostate lemma AfterRead(new item: Transfer)
      requires old(Held() && Reporting()) && SameReport() && SameRing() && old(writeBuf) == writeBuf == null
      requires device.queue.InFlight() == old(device.queue.InFlight()) + [item]
      requires device.NumOutstanding() == old(device.NumOutstanding()) + 1
      requires old(device.HasRoom()) ==> (item == device.queue.LastTaken() <==> !device.HasRoom())
      requires report.holder != null ==> report.holder.buffer == old(report.holder.buffer)
      ensures Held() && Reporting()
    {
      hide UnboundedQueue.InFlight, UnboundedQueue.LastTaken, UnboundedQueue.Items, FLContext.Reporting, FLContext.Held;
      ReportStays();
    }

    twostate lemma AfterWriting()
      requires old(Held() && Reporting()) && SameReport() && SameRing() && writeBuf == old(writeBuf)
      requires device.queue.itemArray == old(device.queue.itemArray)
      requires device.queue.InFlight() == old(device.queue.InFlight())
      requires device.NumOutstanding() == old(device.NumOutstanding())
      requires device.queue.LastTaken() == old(device.queue.LastTaken())
      requires report.holder != null && report.holder != writeBuf ==> report.holder.buffer == old(report.holder.buffer)
      ensures Held() && Reporting()
    {
      hide UnboundedQueue.Valid, UnboundedQueue.InFlight, UnboundedQueue.LastTaken, UnboundedQueue.Items,
           FLContext.Reporting, FLContext.Held;
      ReportStays();
    }

    // Beside the prepared buffer, the one that has just been taken is free.
    lemma FreeBeside(data: seq<byte>)
      requires Buffering() && device.Holding(report, data) && (report.holder != null ==> report.holder != writeBuf)
      ensures device.queue.Valid() && (report.holder != null ==> InUse() < device.queue.itemArray.Length)
    {
      if report.holder != null {
        device.queue.LastTakenIsLast();
      }
    }

    // What has just completed is held, if it is a read.
    lemma NewlyHeld(n: nat)
      requires device.completed == n + 1 <= |device.submitted| && device.queue.Valid()
      requires Tells(report, device.submitted[n], device.bus(n)) && device.Holding(report, device.bus(n).data)
      requires report.holder != null ==> report.holder != writeBuf && InUse() < device.queue.itemArray.Length
      requires (told <==> report.isRead && !device.bus(n).ok) && heldCap == device.queue.itemArray.Length
      ensures Held()
    {
      if report.holder != null {
        device.queue.LastTakenIsLast();
      }
    }

    // Have the oldest transfer reported. What is being written is left alone.
    method ReportOne() returns (status: FLStatus)
      requires Buffering() && device.NumOutstanding() > 0
      modifies this`report, this`told, this`heldCap
      modifies device`completed, device.queue`numItems, device.queue`takeIndex, device.queue.Items()`buffer
      ensures Buffering() && (writeBuf != null ==> writeBuf.buffer == old(writeBuf.buffer)) && device.queue.Valid()
      ensures device.completed == old(device.completed) + 1 <= |device.submitted|
      ensures device.NumOutstanding() == old(device.NumOutstanding()) - 1
      ensures status == if device.bus(old(device.completed)).ok then FlSuccess else FlUsbErr
      ensures report.isRead == device.submitted[old(device.completed)].ReadX?
      ensures told == (report.isRead && status != FlSuccess) && heldCap == device.queue.itemArray.Length
      ensures Tells(report, device.submitted[old(device.completed)], device.bus(old(device.completed)))
      ensures device.Holding(report, device.bus(old(device.completed)).data)
      ensures report.holder != null ==> report.holder != writeBuf
    {
      hide Carry, UsbDevice.Holding, UsbDevice.Prepared, UsbDevice.Valid, UnboundedQueue.Valid, UnboundedQueue.InFlight,
           UnboundedQueue.LastTaken, UnboundedQueue.Items;
      device.OldestInFlight();
      var uStatus;
      uStatus, report := device.AwaitCompletion(report, writeBuf);
      status := if uStatus == UsbSuccess then FlSuccess else FlUsbErr;
      told, heldCap := report.isRead && status != FlSuccess, device.queue.itemArray.Length;
      device.OldestInFlight();
    }

    // Let the oldest transfer complete; the report has to be free. With nothing in flight there
    // is nothing to wait for, which is an error.
    method AwaitOne() returns (status: FLStatus)
      requires Valid() && !report.isRead
      modifies this`report, this`told, this`heldCap
      modifies device`completed, device.queue`numItems, device.queue`takeIndex, device.queue.Items()`buffer
      ensures Valid() && (writeBuf != null ==> writeBuf.buffer == old(writeBuf.buffer))
      ensures told ==> status == FlUsbErr
      ensures old(device.NumOutstanding()) == 0 ==> status == FlUsbErr && !report.isRead
      ensures old(device.NumOutstanding()) > 0 ==>
                && device.NumOutstanding() == old(device.NumOutstanding()) - 1
                && device.completed == old(device.completed) + 1
                && status == (if device.bus(old(device.completed)).ok then FlSuccess else FlUsbErr)
                && heldCap == device.queue.itemArray.Length
                && (report.isRead <==> device.submitted[old(device.completed)].ReadX?)
    {
      hide Accounted, Tells, FLContext.Buffering, FLContext.Reporting, FLContext.Held, UsbDevice.Holding,
           UsbDevice.Valid, UnboundedQueue.Valid, UnboundedQueue.Items, UnboundedQueue.InFlight,
           UnboundedQueue.LastTaken;
      ReportingMeans();
      BufferingMeans();
      if device.NumOutstanding() == 0 {
        return FlUsbErr;
      }
      ghost var n, before := device.completed, report;
      status := ReportOne();
      BufferingMeans();
      FreeBeside(device.bus(n).data);
      NewlyReported(n, before);
      NewlyHeld(n);
    }

    lemma ReportingMeans()
      requires Reporting() && Held()
      ensures device.completed <= |device.submitted|
      ensures Accounted(handedOut, report, device.submitted[..device.completed], device.bus)
      ensures !report.isRead ==> !told && report.holder == null
    {
      hide Accounted;
    }

    lemma NewlyReported(n: nat, before: CompletionReport)
      requires device.completed == n + 1 <= |device.submitted|
      requires Accounted(handedOut, before, device.submitted[..n], device.bus) && !before.isRead
      requires Tells(report, device.submitted[n], device.bus(n))
      ensures Reporting()
    {
      hide Accounted;
      AccountedStep(handedOut, before, report, device.submitted, n, device.bus);
    }

    lemma BufferingMeans()
      requires Buffering()
      ensures 1 <= chunkSize <= MAX_LENGTH && written < chunkSize && device.Valid()
      ensures writeBuf != null ==> writeBuf in device.queue.Items() && written <= |writeBuf.buffer|
    {
    }

    // Reduce the depth of the work queue a little, unless a read has finished.
    method Throttle(depth: nat) returns (status: FLStatus, queueDepth: nat)
      requires Valid() && depth == device.NumOutstanding()
      modifies this`report, this`told, this`heldCap
      modifies device`completed, device.queue`numItems, device.queue`takeIndex, device.queue.Items()`buffer
      ensures Valid() && (status == FlSuccess || status == FlUsbErr)
      ensures Stream() == old(Stream()) && (status == FlSuccess && told ==> old(told))
      ensures status == FlSuccess ==> queueDepth == device.NumOutstanding() && (queueDepth <= 2 || report.isRead)
      ensures old(report.isRead) || depth <= 2 ==>
                status == FlSuccess && Now() == old(Now()) && device.NumOutstanding() == depth
      ensures (forall i :: old(device.completed) <= i < |device.submitted| ==> device.bus(i).ok) ==> status == FlSuccess
      ensures device.NumOutstanding() <= depth
    {
      hide FLContext.Valid, Carried;
      queueDepth := depth;
      while queueDepth > 2 && !report.isRead
        invariant old(report.isRead) || depth <= 2 ==> Now() == old(Now()) && queueDepth == depth
        invariant Valid() && queueDepth == device.NumOutstanding() <= depth
        invariant Stream() == old(Stream()) && (told ==> old(told)) && old(device.completed) <= device.completed
      {
        InFlightCount();
        ghost var n := device.completed;
        status := AwaitOne();
        assert status != FlSuccess ==> !device.bus(n).ok;
        if status != FlSuccess {
          return;
        }
        queueDepth := queueDepth - 1;
      }
      status := FlSuccess;
    }

    // Get a new buffer. It is the one that holds a finished read exactly when no other is free.
    method Prepare()
      requires Valid() && writeBuf == null
      modifies this`writeBuf, this`written, device.queue
      ensures Valid() && writeBuf != null && written == 0
      ensures Stream() == old(Stream()) && device.NumOutstanding() == old(device.NumOutstanding())
      ensures device.queue.Items() >= old(device.queue.Items())
      ensures fresh(device.queue.Items() - old(device.queue.Items()))
      ensures Unwaited(old(Now()), Now()) && Position() == old(Position())
      ensures report.holder != null && old(!GivenOut()) ==> (writeBuf == report.holder <==> device.OneLeft())
    {
      hide Accounted, UsbDevice.Valid, UsbDevice.Prepared, FLContext.Held, FLContext.Reporting, FLContext.Lent,
           UnboundedQueue.InFlight, UnboundedQueue.Items, UnboundedQueue.Valid, UnboundedQueue.LastTaken;
      assert written == 0;
      device.OldestInFlight();
      device.queue.NoMoreThanThereAre();
      if report.holder != null {
        HeldLast();
      }
      writeBuf := device.WriteAsyncPrepare();
      written := 0;
      device.PreparedIsFree(writeBuf);
      device.OldestInFlight();
      AfterPrepare(writeBuf);
      if report.holder != null {
        HeldLast();
      }
    }

    // Copy bytes to the buffer, behind those in use.
    method CopyData(data: seq<byte>)
      requires Valid() && writeBuf != null
      modifies writeBuf`buffer
      ensures Valid() && writeBuf.buffer == old(writeBuf.buffer[..written]) + data
    {
      hide Accounted, UsbDevice.Valid, UsbDevice.Prepared, FLContext.Held, FLContext.Reporting,
           UnboundedQueue.InFlight, UnboundedQueue.LastTaken, UnboundedQueue.Valid;
      device.OldestInFlight();
      device.CopyIn(writeBuf, written, data);
      device.OldestInFlight();
      AfterWriting();
    }

    // Put bytes in the buffer, which has room for them.
    method Fill(data: seq<byte>)
      requires Valid() && writeBuf != null && written + |data| < chunkSize
      modifies this`written, writeBuf`buffer
      ensures Valid() && Stream() == old(Stream()) + data
      ensures written == old(written) + |data| && writeBuf.buffer == old(writeBuf.buffer[..written]) + data
      ensures Position() == old(Position()) + |data|
    {
      hide Accounted, UsbDevice.Valid, UsbDevice.Prepared, FLContext.Held, FLContext.Reporting, UnboundedQueue.Items;
      CopyData(data);
      written := written + |data|;
    }

    // Submit the first length bytes of the buffer.
    method Submit(length: nat)
      requires Valid() && writeBuf != null && length <= |writeBuf.buffer| && length <= MAX_LENGTH
      modifies this`writeBuf, this`written, device`submitted, device.queue, writeBuf`isRead, writeBuf`length,
               writeBuf`dest
      ensures Valid() && writeBuf == null && written == 0
      ensures device.submitted == old(device.submitted) + [WriteX(old(writeBuf.buffer[..length]))]
      ensures device.queue.itemArray == old(device.queue.itemArray)
      ensures device.NumOutstanding() == old(device.NumOutstanding()) + 1
      ensures device.queue.Items() >= old(device.queue.Items())
      ensures fresh(device.queue.Items() - old(device.queue.Items()))
    {
      hide Accounted, UsbDevice.Valid, UsbDevice.Prepared, FLContext.Held, FLContext.Reporting,
           UnboundedQueue.InFlight, UnboundedQueue.LastTaken, UnboundedQueue.Valid;
      device.OldestInFlight();
      var status := device.WriteAsyncSubmit(writeBuf, length);
      writeBuf, written := null, 0;
      device.OldestInFlight();
      AfterSubmit();
    }

    // Fill this buffer up, and submit it.
    method SendChunk(data: seq<byte>)
      requires Valid() && writeBuf != null && written + |data| == chunkSize
      modifies this`writeBuf, this`written, writeBuf, device`submitted, device.queue
      ensures Valid() && writeBuf == null && written == 0 && Stream() == old(Stream()) + data
      ensures device.queue.itemArray == old(device.queue.itemArray)
      ensures device.NumOutstanding() == old(device.NumOutstanding()) + 1
      ensures device.queue.Items() >= old(device.queue.Items())
      ensures fresh(device.queue.Items() - old(device.queue.Items()))
      ensures ChunksSent(old(device.submitted), device.submitted, chunkSize)
    {
      hide FLContext.Valid, UsbDevice.Valid, Carried, Reads;
      ghost var sent, pending := Carried(device.submitted), Pending();
      CopyData(data);
      assert writeBuf.buffer[..chunkSize] == pending + data;
      ReadsMore(device.submitted, WriteX(pending + data));
      Submit(chunkSize);
      assert sent + (pending + data) + [] == sent + pending + data;
    }

    // Reduce the depth of the work queue, then fill this buffer up and submit it.
    method SendNext(data: seq<byte>, depth: nat) returns (status: FLStatus, queueDepth: nat)
      requires Valid() && writeBuf != null && written + |data| == chunkSize && depth == device.NumOutstanding()
      modifies this`writeBuf, this`written, this`report, this`told, this`heldCap, writeBuf
      modifies device, device.queue, device.queue.Items()
      ensures told && status != FlUsbErr ==> old(told)
      ensures Valid() && (status == FlSuccess || status == FlUsbErr)
      ensures device.queue.Items() >= old(device.queue.Items())
      ensures fresh(device.queue.Items() - old(device.queue.Items()))
      ensures ChunksSent(old(device.submitted), device.submitted, chunkSize)
      ensures status == FlSuccess ==>
                writeBuf == null && queueDepth == device.NumOutstanding() && Stream() == old(Stream()) + data
      ensures status != FlSuccess ==> Stream() == old(Stream())
      ensures old(NoWait(|data|)) ==>
                status == FlSuccess && Unwaited(old(Now()), Now()) && Position() == old(Position()) + |data|
    {
      hide FLContext.Valid, UsbDevice.Valid, FLContext.Stream, FLContext.Pending, BytesAt;
      ChunkDone(depth, chunkSize, written, |data|);
      status, queueDepth := Throttle(depth);
      if status == FlSuccess {
        SendChunk(data);
        queueDepth := queueDepth + 1;
      }
    }

    // Send a chunk, and get a new buffer.
    method SendChunkOf(data: seq<byte>, depth: nat) returns (status: FLStatus, queueDepth: nat)
      requires Valid() && writeBuf != null && written + |data| == chunkSize && depth == device.NumOutstanding()
      modifies this`writeBuf, this`written, this`report, this`told, this`heldCap
      modifies device, device.queue, device.queue.Items()
      ensures told && status != FlUsbErr ==> old(told)
      ensures Valid() && (status == FlSuccess || status == FlUsbErr)
      ensures device.queue.Items() >= old(device.queue.Items())
      ensures fresh(device.queue.Items() - old(device.queue.Items()))
      ensures ChunksSent(old(device.submitted), device.submitted, chunkSize)
      ensures status == FlSuccess ==>
                && writeBuf != null && written == 0 && queueDepth == device.NumOutstanding()
                && Stream() == old(Stream()) + data
      ensures status != FlSuccess ==> Stream() == old(Stream())
      ensures old(NoWait(|data|)) ==>
                status == FlSuccess && Unwaited(old(Now()), Now()) && Position() == old(Position()) + |data|
    {
      hide FLContext.Valid, UsbDevice.Valid, FLContext.Stream, FLContext.Pending, FLContext.Position, FLContext.NoWait,
           FLContext.Now, ChunksSent;
      status, queueDepth := SendNext(data, depth);
      if status == FlSuccess {
        Prepare();
      }
    }

    // While data does not fit in the buffer, send chunks of it.
    method AppendChunks(data: seq<byte>) returns (status: FLStatus, pos: nat, queueDepth: nat)
      requires Valid() && writeBuf != null
      modifies this`writeBuf, this`written, this`report, this`told, this`heldCap
      modifies device, device.queue, device.queue.Items()
      ensures told && status != FlUsbErr ==> old(told)
      ensures Valid() && (status == FlSuccess || status == FlUsbErr)
      ensures device.queue.Items() >= old(device.queue.Items())
      ensures fresh(device.queue.Items() - old(device.queue.Items()))
      ensures ChunksSent(old(device.submitted), device.submitted, chunkSize)
      ensures pos <= |data| && Stream() == old(Stream()) + data[..pos]
      ensures status == FlSuccess ==>
                && writeBuf != null && queueDepth == device.NumOutstanding()
                && |data| - pos <= chunkSize - written && (data == [] || pos < |data|)
      ensures old(NoWait(|data|)) ==>
                status == FlSuccess && Unwaited(old(Now()), Now()) && Position() == old(Position()) + pos
    {
      hide FLContext.Valid, UsbDevice.Valid, FLContext.Stream, FLContext.Pending, FLContext.Position, ChunksSent;
      pos, queueDepth := 0, device.NumOutstanding();
      NothingSent(device.submitted, chunkSize);
      var spaceAvailable := chunkSize - written;
      while |data| - pos > spaceAvailable
        invariant told ==> old(told)
        invariant old(NoWait(|data|)) ==> Unwaited(old(Now()), Now()) && Position() == old(Position()) + pos
        invariant Valid() && writeBuf != null && spaceAvailable == chunkSize - written
        invariant queueDepth == device.NumOutstanding()
        invariant pos <= |data| && (data == [] || pos < |data|)
        invariant Stream() == old(Stream()) + data[..pos]
        invariant ChunksSent(old(device.submitted), device.submitted, chunkSize)
        invariant device.queue.Items() >= old(device.queue.Items())
        invariant fresh(device.queue.Items() - old(device.queue.Items()))
        decreases |data| - pos
      {
        ghost var sent := device.submitted;
        status, queueDepth := SendChunkOf(data[pos..pos + spaceAvailable], queueDepth);
        ChunksSentMore(old(device.submitted), sent, device.submitted, chunkSize);
        if status != FlSuccess {
          return;
        }
        Onward(old(Stream()), data, pos, pos + spaceAvailable);
        pos := pos + spaceAvailable;
        spaceAvailable := chunkSize;
      }
      status := FlSuccess;
    }

    // Append data that fits in the buffer, sending the buffer if that fills it.
    method AppendRest(data: seq<byte>, depth: nat) returns (status: FLStatus)
      requires Valid() && writeBuf != null && written + |data| <= chunkSize && depth == device.NumOutstanding()
      modifies this`writeBuf, this`written, this`report, this`told, this`heldCap
      modifies device, device.queue, device.queue.Items()
      ensures told && status != FlUsbErr ==> old(told)
      ensures Valid() && (status == FlSuccess || status == FlUsbErr)
      ensures device.queue.Items() >= old(device.queue.Items())
      ensures fresh(device.queue.Items() - old(device.queue.Items()))
      ensures ChunksSent(old(device.submitted), device.submitted, chunkSize)
      ensures status == FlSuccess ==>
                Stream() == old(Stream()) + data && (data != [] ==> writeBuf == null || written > 0)
      ensures status != FlSuccess ==> Stream() == old(Stream())
      ensures old(NoWait(|data|)) ==>
                status == FlSuccess && Unwaited(old(Now()), Now()) && Position() == old(Position()) + |data|
    {
      hide FLContext.Valid, UsbDevice.Valid, FLContext.Stream, FLContext.Pending, FLContext.Position, ChunksSent;
      NothingSent(device.submitted, chunkSize);
      if written + |data| == chunkSize {
        var queueDepth;
        status, queueDepth := SendNext(data, depth);
      } else {
        Fill(data);
        status := FlSuccess;
      }
    }

    // Append data to the buffer there is, sending chunks as it fills up.
    method AppendToBuffer(data: seq<byte>) returns (status: FLStatus, ghost appended: nat)
      requires Valid() && writeBuf != null
      modifies this`writeBuf, this`written, this`report, this`told, this`heldCap
      modifies device, device.queue, device.queue.Items()
      ensures told && status != FlUsbErr ==> old(told)
      ensures Valid() && ChunksSent(old(device.submitted), device.submitted, chunkSize)
      ensures device.queue.Items() >= old(device.queue.Items())
      ensures fresh(device.queue.Items() - old(device.queue.Items()))
      ensures status == FlSuccess || status == FlUsbErr
      ensures appended <= |data| && Stream() == old(Stream()) + data[..appended]
      ensures status == FlSuccess ==> appended == |data| && (data != [] ==> writeBuf == null || written > 0)
      ensures old(NoWait(|data|)) ==>
                status == FlSuccess && Unwaited(old(Now()), Now()) && Position() == old(Position()) + |data|
    {
      hide FLContext.Valid, UsbDevice.Valid, FLContext.Stream, FLContext.Pending, FLContext.Position, ChunksSent;
      var pos, queueDepth;
      status, pos, queueDepth := AppendChunks(data);
      ghost var sent := device.submitted;
      appended := pos;
      if status == FlSuccess {
        Onward(old(Stream()), data, pos, |data|);
        status := AppendRest(data[pos..], queueDepth);
        ChunksSentMore(old(device.submitted), sent, device.submitted, chunkSize);
        appended := if status == FlSuccess then |data| else pos;
      }
    }

    // Append data to the stream, sending a chunk whenever the buffer is full. On failure
    // the first appended bytes have gone in. With a finished read in the report there is
    // nothing to fail, and the buffer of that read is given out again exactly when what was
    // pending and the data take no fewer chunks than there are items that are not in flight.
    method BufferAppend(data: seq<byte>) returns (status: FLStatus, ghost appended: nat)
      requires Valid()
      modifies this`writeBuf, this`written, this`report, this`told, this`heldCap
      modifies device, device.queue, device.queue.Items()
      ensures told && status != FlUsbErr ==> old(told)
      ensures Valid() && ChunksSent(old(device.submitted), device.submitted, chunkSize)
      ensures device.queue.Items() >= old(device.queue.Items())
      ensures fresh(device.queue.Items() - old(device.queue.Items()))
      ensures status == FlSuccess || status == FlUsbErr
      ensures Reads(device.submitted) == old(Reads(device.submitted))
      ensures appended <= |data| && Stream() == old(Stream()) + data[..appended]
      ensures status == FlSuccess ==> appended == |data| && (data != [] ==> writeBuf == null || written > 0)
      ensures old(NoWait(|data|)) ==>
                status == FlSuccess && Unwaited(old(Now()), Now()) && Position() == old(Position()) + |data|
      ensures old(report.isRead) && data != [] ==>
                (GivenOut() <==> heldCap - old(device.NumOutstanding()) <= Chunks(old(written) + |data|, chunkSize))
    {
      hide FLContext.Valid, UsbDevice.Valid, FLContext.Stream, FLContext.Pending, BytesAt, ChunksSent;
      if writeBuf == null {
        Prepare();
      }
      status, appended := AppendToBuffer(data);
      ChunksReadNothing(old(device.submitted), device.submitted, chunkSize);
      if old(report.isRead) && data != [] {
        UseIs(old(device.NumOutstanding()), old(written), |data|);
      }
    }

    // How many items are in use when bytes have been appended to what there was.
    lemma UseIs(n: nat, part: nat, bytes: nat)
      requires Valid() && (writeBuf == null || written > 0)
      requires Position() == BytesAt(n, chunkSize, part) + bytes
      ensures InUse() == n + Chunks(part + bytes, chunkSize)
    {
      ChunksHold(n, chunkSize, part, bytes, device.NumOutstanding(), written);
    }

    method SetAsyncWriteChunkSize(size: nat) returns (status: FLStatus)
      requires Valid() && size < 0x10000
      modifies this`chunkSize
      ensures Valid() && status == if writeBuf != null then FlBadState else FlSuccess
      ensures chunkSize == if writeBuf != null then old(chunkSize) else if size > 0 then size else 0x10000
    {
      if writeBuf != null {
        return FlBadState;
      }
      chunkSize := if size > 0 then size else 0x10000;
      status := FlSuccess;
    }

    // Send what is pending.
    method FlushAsyncWrites() returns (status: FLStatus)
      requires Valid()
      modifies this`writeBuf, this`written, device`submitted, device.queue, device.queue.Items()
      ensures Valid() && Stream() == old(Stream())
      ensures device.queue.Items() >= old(device.queue.Items())
      ensures fresh(device.queue.Items() - old(device.queue.Items()))
      ensures status == if old(Pending()) != [] && !isCommCapable then FlProtocolErr else FlSuccess
      ensures device.submitted == if status != FlSuccess || old(Pending()) == [] then old(device.submitted)
                                  else old(device.submitted) + [WriteX(old(Pending()))]
      ensures Reads(device.submitted) == old(Reads(device.submitted))
      ensures status == FlSuccess ==>
                Pending() == [] && written == 0 && (writeBuf != null ==> writeBuf == old(writeBuf) && old(written) == 0)
      ensures device.queue.itemArray == old(device.queue.itemArray) && InUse() == old(InUse())
    {
      hide FLContext.Valid, UsbDevice.Valid, Carried, Reads;
      if writeBuf != null && written > 0 {
        if !isCommCapable {
          return FlProtocolErr;
        }
        ReadsMore(device.submitted, WriteX(Pending()));
        Submit(written);
      } else if writeBuf == null {
        NothingWritten();
      }
      status := FlSuccess;
    }

    // Send what is pending and wait until everything has completed, or a read has.
    method AwaitAsyncWrites() returns (status: FLStatus)
      requires Valid()
      modifies this`writeBuf, this`written, this`report, this`told, this`heldCap
      modifies device, device.queue, device.queue.Items()
      ensures told && status != FlUsbErr ==> old(told)
      ensures Valid() && Stream() == old(Stream())
      ensures device.queue.Items() >= old(device.queue.Items())
      ensures fresh(device.queue.Items() - old(device.queue.Items()))
      ensures status == FlSuccess ==> device.NumOutstanding() == 0 && Carried(device.submitted) == Stream()
      ensures status == FlBadState ==> report.isRead && device.NumOutstanding() > 0
      ensures status == FlSuccess ==> written == 0
      ensures Reads(device.submitted) == old(Reads(device.submitted))
      ensures old(Pending()) == [] ==> device.submitted == old(device.submitted)
      ensures isCommCapable && (forall i :: old(device.completed) <= i < |device.submitted| ==> device.bus(i).ok)
              ==> status == FlSuccess || status == FlBadState
      ensures device.queue.itemArray == old(device.queue.itemArray)
      ensures report.isRead && old(!report.isRead) ==> heldCap == device.queue.itemArray.Length
    {
      hide FLContext.Valid, UsbDevice.Valid, Carried, Reads;
      InFlightCount();
      status := FlushAsyncWrites();
      if status != FlSuccess {
        return;
      }
      ghost var sent := device.submitted;
      var queueDepth := device.NumOutstanding();
      while queueDepth > 0 && !report.isRead
        invariant told ==> old(told)
        invariant Valid() && queueDepth == device.NumOutstanding() && Pending() == [] && Stream() == old(Stream())
        invariant old(device.completed) <= device.completed && written == 0
        invariant device.queue.itemArray == old(device.queue.itemArray) && device.submitted == sent
        invariant report.isRead && old(!report.isRead) ==> heldCap == device.queue.itemArray.Length
        invariant Reads(device.submitted) == old(Reads(device.submitted))
        invariant device.queue.Items() >= old(device.queue.Items())
        invariant fresh(device.queue.Items() - old(device.queue.Items()))
      {
        InFlightCount();
        ghost var n := device.completed;
        status := AwaitOne();
        if status != FlSuccess {
          assert !device.bus(n).ok;
          return;
        }
        queueDepth := queueDepth - 1;
      }
      status := if queueDepth > 0 then FlBadState else FlSuccess;
    }

    // Append a header and a payload to the stream.
    method AppendFrame(header: seq<byte>, payload: seq<byte>) returns (status: FLStatus, ghost torn: bool)
      requires Valid() && header != []
      modifies this`writeBuf, this`written, this`report, this`told, this`heldCap
      modifies device, device.queue, device.queue.Items()
      ensures told && status != FlUsbErr ==> old(told)
      ensures Valid() && (status == FlSuccess || status == FlUsbErr)
      ensures device.queue.Items() >= old(device.queue.Items())
      ensures fresh(device.queue.Items() - old(device.queue.Items()))
      ensures Reads(device.submitted) == old(Reads(device.submitted))
      ensures old(Stream()) <= Stream()
      ensures status == FlSuccess ==> Stream() == old(Stream()) + header + payload && (writeBuf == null || written > 0)
      ensures !torn && status != FlSuccess ==> Stream() == old(Stream())
      ensures old(NoWait(|header + payload|)) ==>
                && status == FlSuccess && Unwaited(old(Now()), Now())
                && Position() == old(Position()) + |header + payload|
    {
      hide FLContext.Valid, UsbDevice.Valid, FLContext.Stream, FLContext.Pending, FLContext.Position, Reads;
      ghost var appended;
      status, appended := BufferAppend(header);
      torn := appended > 0;
      if status == FlSuccess && payload != [] {
        status, appended := BufferAppend(payload);
      }
    }

    // Append one command to the stream.
    method AppendCommand(c: Command) returns (status: FLStatus)
      requires Valid() && Framed() && Sane(c)
      modifies this`writeBuf, this`written, this`report, this`told, this`heldCap, this`commands, this`intact
      modifies device, device.queue, device.queue.Items()
      ensures told && status != FlUsbErr ==> old(told)
      ensures Valid() && Framed() && (status == FlSuccess || status == FlUsbErr)
      ensures device.queue.Items() >= old(device.queue.Items())
      ensures fresh(device.queue.Items() - old(device.queue.Items()))
      ensures Reads(device.submitted) == old(Reads(device.submitted))
      ensures old(Stream()) <= Stream()
      ensures status == FlSuccess ==>
                && Stream() == old(Stream()) + Frame(c) && (writeBuf == null || written > 0)
                && commands == old(commands) + [c] && intact == old(intact)
      ensures status != FlSuccess ==> commands == old(commands) && (intact ==> Stream() == old(Stream()))
      ensures old(NoWait(|Frame(c)|)) ==>
                status == FlSuccess && Unwaited(old(Now()), Now()) && Position() == old(Position()) + |Frame(c)|
    {
      hide FLContext.Valid, UsbDevice.Valid, FLContext.Stream, FLContext.Pending, FLContext.Position, FLContext.NoWait,
           FLContext.Now, Unwaited, Reads;
      var header := if c.WriteCommand? then Header(c.chan, |c.data|) else Header(c.chan + 128, c.count);
      ghost var stream, torn := Stream(), false;
      var payload := if c.WriteCommand? then c.data else [];
      assert header + payload == Frame(c);
      status, torn := AppendFrame(header, payload);
      if status != FlSuccess {
        intact := intact && !torn;
        return;
      }
      Issue(c, stream);
    }

    // A command has gone in, behind the stream that was.
    ghost method Issue(c: Command, stream: seq<byte>)
      requires Valid() && Sane(c) && Stream() == stream + Frame(c)
      requires intact ==> AllSane(commands) && stream == FrameAll(commands)
      modifies this`commands
      ensures Framed() && commands == old(commands) + [c]
    {
      hide FLContext.Valid, FLContext.Stream, FLContext.Pending, Frame, FrameAll;
      if intact {
        FrameAllMore(commands, c);
      }
      commands := commands + [c];
    }

    // Append the next write command for a payload, of which those in done have been appended.
    method AppendBlock(block: Command, ghost done: seq<Command>, ghost start: Written) returns (status: FLStatus)
      requires Valid() && Framed() && Sane(block) && AllSane(done) && WrittenSince(start, done)
      modifies this`writeBuf, this`written, this`report, this`told, this`heldCap, this`commands, this`intact
      modifies device, device.queue, device.queue.Items()
      ensures told && status != FlUsbErr ==> old(told)
      ensures Valid() && Framed() && (status == FlSuccess || status == FlUsbErr)
      ensures device.queue.Items() >= old(device.queue.Items())
      ensures fresh(device.queue.Items() - old(device.queue.Items()))
      ensures Reads(device.submitted) == old(Reads(device.submitted))
      ensures start.stream <= Stream() && AllSane(done + [block])
      ensures status == FlSuccess ==> WrittenSince(start, done + [block]) && (writeBuf == null || written > 0)
      ensures start.mark.report.isRead ==> status == FlSuccess
    {
      hide FLContext.Valid, FLContext.Framed, UsbDevice.Valid, FLContext.Stream, FLContext.Pending, FLContext.Position,
           Reads, Frame, FrameAll;
      FrameAllMore(done, block);
      status := AppendCommand(block);
    }

    // Since the start the commands in done have been written and nothing else. With a finished
    // read in the report nothing has been waited for.
    ghost predicate WrittenSince(start: Written, done: seq<Command>)
      requires AllSane(done) && (writeBuf != null ==> written <= |writeBuf.buffer|)
      reads this, writeBuf, device, device.queue
    {
      && commands == start.commands + done && intact == start.intact
      && Stream() == start.stream + FrameAll(done)
      && (start.mark.report.isRead ==> Unwaited(start.mark, Now()) && Position() == start.position + |FrameAll(done)|)
    }

    // Write data to a channel, in blocks of up to 64K. With a finished read in the report its
    // buffer is given out again exactly as when the framed blocks are appended at once.
    method WriteChannelAsync(chan: byte, data: seq<byte>) returns (status: FLStatus)
      requires Valid() && Framed()
      modifies this`writeBuf, this`written, this`report, this`told, this`heldCap, this`commands, this`intact
      modifies device, device.queue, device.queue.Items()
      ensures told && status != FlUsbErr ==> old(told)
      ensures Valid() && Framed()
      ensures device.queue.Items() >= old(device.queue.Items())
      ensures fresh(device.queue.Items() - old(device.queue.Items()))
      ensures Reads(device.submitted) == old(Reads(device.submitted))
      ensures data == [] || !isCommCapable ==>
                status == FlProtocolErr && commands == old(commands) && Stream() == old(Stream())
      ensures data != [] && isCommCapable ==> status == FlSuccess || status == FlUsbErr
      ensures old(Stream()) <= Stream()
      ensures status == FlSuccess ==>
                && commands == old(commands) + Blocks(chan % 128, data) && intact == old(intact)
                && Stream() == old(Stream()) + FrameAll(Blocks(chan % 128, data))
      ensures data != [] && isCommCapable && old(report.isRead) ==>
                && status == FlSuccess && Unwaited(old(Now()), Now()) && (writeBuf == null || written > 0)
                && Position() == old(Position()) + |FrameAll(Blocks(chan % 128, data))|
                && (GivenOut() <==> heldCap - old(device.NumOutstanding())
                                    <= Chunks(old(written) + |FrameAll(Blocks(chan % 128, data))|, chunkSize))
    {
      hide FLContext.Valid, FLContext.Framed, UsbDevice.Valid, FLContext.Stream, FLContext.Pending,
           FLContext.WrittenSince, BytesAt, Chunks, Reads, Frame, FrameAll, Blocks;
      if data == [] || !isCommCapable {
        return FlProtocolErr;
      }
      ghost var start := Written(commands, intact, Stream(), Now(), Position());
      ghost var done: seq<Command> := [];
      NothingWrittenSince();
      var pos := 0;
      assert data[0..] == data && done + Blocks(chan % 128, data) == Blocks(chan % 128, data);
      while |data| - pos >= BLOCK
        invariant told ==> old(told)
        invariant pos <= |data| && Valid() && Framed() && AllSane(done) && WrittenSince(start, done)
        invariant pos == |data| ==> writeBuf == null || written > 0
        invariant device.queue.Items() >= old(device.queue.Items())
        invariant fresh(device.queue.Items() - old(device.queue.Items()))
        invariant Reads(device.submitted) == old(Reads(device.submitted))
        invariant start.stream <= Stream()
        invariant Blocks(chan % 128, data) == done + Blocks(chan % 128, data[pos..])
      {
        var block := WriteCommand(chan % 128, data[pos..pos + BLOCK]);
        status := AppendBlock(block, done, start);
        if status != FlSuccess {
          return;
        }
        BlocksStep(chan % 128, data, pos, done);
        done := done + [block];
        pos := pos + BLOCK;
      }
      BlocksStep(chan % 128, data, pos, done);
      if pos < |data| {
        var block := WriteCommand(chan % 128, data[pos..]);
        status := AppendBlock(block, done, start);
        if status != FlSuccess {
          return;
        }
        done := done + [block];
      }
      status := FlSuccess;
      AllWritten(start, done, old(device.NumOutstanding()), old(written));
    }

    lemma NothingWrittenSince()
      requires Valid()
      ensures WrittenSince(Written(commands, intact, Stream(), Now(), Position()), [])
    {
      hide FLContext.Valid, FLContext.Pending, Carried, BytesAt;
    }

    lemma AllWritten(start: Written, done: seq<Command>, n: nat, part: nat)
      requires Valid() && (writeBuf == null || written > 0) && AllSane(done) && WrittenSince(start, done)
      requires start.position == BytesAt(n, chunkSize, part)
      ensures commands == start.commands + done && intact == start.intact
      ensures Stream() == start.stream + FrameAll(done)
      ensures start.mark.report.isRead ==>
                && Unwaited(start.mark, Now()) && Position() == start.position + |FrameAll(done)|
                && (GivenOut() <==> heldCap - n <= Chunks(part + |FrameAll(done)|, chunkSize))
    {
      hide FLContext.Valid, FLContext.Pending, Carried, BytesAt, Chunks;
      if start.mark.report.isRead {
        UseIs(n, part, |FrameAll(done)|);
      }
    }

    // Write data to a channel and wait until it has gone.
    method WriteChannel(chan: byte, data: seq<byte>) returns (status: FLStatus)
      requires Valid() && Framed()
      modifies this`writeBuf, this`written, this`report, this`told, this`heldCap, this`commands, this`intact
      modifies device, device.queue, device.queue.Items()
      ensures told && status != FlUsbErr ==> old(told)
      ensures Valid() && Framed()
      ensures Reads(device.submitted) == old(Reads(device.submitted))
      ensures status == FlSuccess ==>
                && commands == old(commands) + Blocks(chan % 128, data) && intact == old(intact)
                && Carried(device.submitted) == Stream() && device.completed == |device.submitted|
    {
      hide FLContext.Stream, FLContext.Pending, Reads, Reporting, Carry;
      status := WriteChannelAsync(chan, data);
      if status == FlSuccess {
        status := AwaitAsyncWrites();
        device.OldestInFlight();
      }
    }

    // Ask the device for data, with no write buffer prepared.
    method RequestData(dest: Dest, count: nat)
      requires Valid() && writeBuf == null && count <= BLOCK
      modifies device`submitted, device.queue, device.queue.Items()
      ensures Valid() && Stream() == old(Stream())
      ensures device.queue.Items() >= old(device.queue.Items())
      ensures fresh(device.queue.Items() - old(device.queue.Items()))
      ensures device.submitted == old(device.submitted) + [ReadX(Request(dest, count))]
      ensures Reads(device.submitted) == old(Reads(device.submitted)) + [Request(dest, count)]
      ensures Unwaited(old(Now()), Now()) && InUse() == old(InUse()) + 1
    {
      hide Carried, Reads, Accounted, UsbDevice.Valid, UsbDevice.Prepared, FLContext.Held, FLContext.Reporting,
           UnboundedQueue.InFlight, UnboundedQueue.LastTaken, UnboundedQueue.Valid;
      device.OldestInFlight();
      device.queue.NoMoreThanThereAre();
      ReadsMore(device.submitted, ReadX(Request(dest, count)));
      ghost var item;
      var uStatus;
      uStatus, item := device.ReadAsync(dest, count);
      device.OldestInFlight();
      AfterRead(item);
    }

    // Send a command and everything before it.
    method SendCommand(c: Command) returns (status: FLStatus)
      requires Valid() && Framed() && Sane(c) && isCommCapable
      modifies this`writeBuf, this`written, this`report, this`told, this`heldCap, this`commands, this`intact
      modifies device, device.queue, device.queue.Items()
      ensures told && status != FlUsbErr ==> old(told)
      ensures Valid() && Framed() && (status == FlSuccess || status == FlUsbErr)
      ensures device.queue.Items() >= old(device.queue.Items())
      ensures fresh(device.queue.Items() - old(device.queue.Items()))
      ensures Reads(device.submitted) == old(Reads(device.submitted))
      ensures status == FlSuccess ==>
                commands == old(commands) + [c] && intact == old(intact) && writeBuf == null
      ensures old(NoWait(|Frame(c)|)) ==>
                && status == FlSuccess && Unwaited(old(Now()), Now())
                && InUse() == old(device.NumOutstanding()) + Chunks(old(written) + |Frame(c)|, chunkSize)
                && device.completed == old(device.completed) && report.isRead == old(report.isRead)
                && |device.submitted| == |old(device.submitted)| + Chunks(old(written) + |Frame(c)|, chunkSize)
                && (InUse() < old(device.queue.itemArray.Length) ==>
                      device.HasRoom() && device.queue.itemArray.Length == old(device.queue.itemArray.Length))
    {
      hide FLContext.Valid, UsbDevice.Valid, FLContext.Stream, FLContext.Pending, FLContext.Reporting, FLContext.Held,
           FLContext.NoWait, BytesAt, Reads, Frame, FrameAll, AllSane, Chunks;
      InFlightCount();
      status := AppendCommand(c);
      if status == FlSuccess {
        if old(NoWait(|Frame(c)|)) {
          UseIs(old(device.NumOutstanding()), old(written), |Frame(c)|);
        }
        status := FlushAsyncWrites();
        InFlightCount();
      }
    }

    // Reduce the depth of the work queue, then ask the device for data.
    method RequestNext(dest: Dest, count: nat) returns (status: FLStatus)
      requires Valid() && writeBuf == null && count <= BLOCK
      modifies this`report, this`told, this`heldCap, device, device.queue, device.queue.Items()
      ensures Valid() && Stream() == old(Stream()) && (status == FlSuccess || status == FlUsbErr)
      ensures status == FlSuccess && told ==> old(told)
      ensures device.queue.Items() >= old(device.queue.Items())
      ensures fresh(device.queue.Items() - old(device.queue.Items()))
      ensures device.submitted == if status == FlSuccess then old(device.submitted) + [ReadX(Request(dest, count))]
                                  else old(device.submitted)
      ensures status == FlSuccess ==>
                Reads(device.submitted) == old(Reads(device.submitted)) + [Request(dest, count)]
      ensures old(report.isRead) ==>
                status == FlSuccess && Unwaited(old(Now()), Now()) && InUse() == old(InUse()) + 1
      ensures (forall i :: old(device.completed) <= i < |old(device.submitted)| ==> device.bus(i).ok)
              ==> status == FlSuccess
      ensures status == FlSuccess ==> device.NumOutstanding() > 0
      ensures old(device.HasRoom()) ==> device.queue.itemArray.Length == old(device.queue.itemArray.Length)
    {
      hide FLContext.Valid, UsbDevice.Valid, FLContext.Stream, FLContext.Pending, Reads;
      var queueDepth;
      status, queueDepth := Throttle(device.NumOutstanding());
      if status == FlSuccess {
        RequestData(dest, count);
      }
    }

    // Send a read command and everything before it, then ask for the data.
    method ReadChannelAsyncSubmit(chan: byte, count: nat, dest: Dest) returns (status: FLStatus)
      requires Valid() && Framed()
      modifies this`writeBuf, this`written, this`report, this`told, this`heldCap, this`commands, this`intact
      modifies device, device.queue, device.queue.Items()
      ensures told && status != FlUsbErr ==> old(told)
      ensures Valid() && Framed()
      ensures device.queue.Items() >= old(device.queue.Items())
      ensures fresh(device.queue.Items() - old(device.queue.Items()))
      ensures !isCommCapable || count == 0 || count > BLOCK ==> status == FlProtocolErr && Stream() == old(Stream())
      ensures status == FlSuccess ==>
                && commands == old(commands) + [ReadCommand(chan % 128, count)] && intact == old(intact)
                && Reads(device.submitted) == old(Reads(device.submitted)) + [Request(dest, count)]
                && writeBuf == null && device.NumOutstanding() > 0
                && device.submitted != [] && device.submitted[|device.submitted| - 1] == ReadX(Request(dest, count))
      ensures status != FlSuccess ==> Reads(device.submitted) == old(Reads(device.submitted))
      ensures isCommCapable && 1 <= count <= BLOCK && old(report.isRead) ==>
                && status == FlSuccess && Unwaited(old(Now()), Now())
                && InUse() == old(device.NumOutstanding()) + Chunks(old(written) + 3, chunkSize) + 1
      ensures isCommCapable && 1 <= count <= BLOCK && old(NoWait(3)) ==>
                var sent := Chunks(old(written) + 3, chunkSize);
                && ((forall i :: old(device.completed) <= i < old(|device.submitted|) + sent ==> device.bus(i).ok)
                    ==> status == FlSuccess)
                && (status == FlSuccess ==> |device.submitted| == old(|device.submitted|) + sent + 1)
                && (old(device.NumOutstanding()) + sent < old(device.queue.itemArray.Length) ==>
                      device.queue.itemArray.Length == old(device.queue.itemArray.Length))
    {
      hide FLContext.Valid, UsbDevice.Valid, FLContext.Stream, FLContext.Pending, FLContext.Now, Reads, Frame, FrameAll,
           Chunks;
      if !isCommCapable || count == 0 || count > BLOCK {
        return FlProtocolErr;
      }
      var c := ReadCommand(chan % 128, count);
      ReadFrame(c);
      status := SendCommand(c);
      if status == FlSuccess {
        status := RequestNext(dest, count);
      }
    }

    lemma ReadFrame(c: Command)
      requires Sane(c) && c.ReadCommand?
      ensures |Frame(c)| == 3
    {
    }

    // Wait until there is a read in the report.
    method AwaitRead() returns (status: FLStatus)
      requires Valid()
      modifies this`report, this`told, this`heldCap
      modifies device`completed, device.queue`numItems, device.queue`takeIndex, device.queue.Items()`buffer
      ensures Valid() && Stream() == old(Stream()) && (status == FlSuccess || status == FlUsbErr)
      ensures status == FlSuccess ==> report.isRead && told == old(told)
      ensures old(Outstanding()) > 0
              && (forall i :: old(device.completed) <= i < |device.submitted| ==> device.bus(i).ok)
              ==> status == FlSuccess
      ensures old(report.isRead) ==> status == FlSuccess && report == old(report) && Now() == old(Now())
    {
      hide FLContext.Valid, FLContext.Pending, FLContext.Reporting, Carried, Reads;
      InFlightCount();
      while !report.isRead
        invariant Valid() && old(device.completed) <= device.completed && Stream() == old(Stream())
        invariant if old(report.isRead) then Now() == old(Now()) else !told && !old(told)
        decreases device.NumOutstanding()
      {
        InFlightCount();
        HandedOutInOrder();
        ghost var n := device.completed;
        status := AwaitOne();
        if status != FlSuccess {
          assert n < |device.submitted| ==> !device.bus(n).ok;
          return;
        }
      }
      status := FlSuccess;
    }

    // Wait for the next read, and hand it out. A failed read is handed out, as if all were
    // well, exactly when an earlier call has returned its failure. The bytes of a read without
    // a destination are those that came, in a buffer that is free, unless that has been given
    // out again since.
    method ReadChannelAsyncAwait() returns (status: FLStatus, request: Request, actual: nat, holder: Transfer?)
      requires Valid()
      modifies this`report, this`told, this`heldCap, this`handedOut
      modifies device`completed, device.queue`numItems, device.queue`takeIndex, device.queue.Items()`buffer
      ensures Valid() && (status == FlSuccess || status == FlUsbErr)
      ensures Stream() == old(Stream()) && (old(Framed()) ==> Framed())
      ensures status == FlSuccess ==>
                && handedOut == old(handedOut) + [Delivery(request, actual)]
                && Outstanding() >= 0 && request == Reads(device.submitted)[old(|handedOut|)]
      ensures status == FlSuccess ==>
                && device.completed > 0 && !told && (LastEnd().ok <==> !old(told))
                && actual == |LastEnd().data| && (holder != null <==> request.dest.Borrowed?)
                && (holder != null ==> Lent(holder))
      ensures status != FlSuccess ==> handedOut == old(handedOut)
      ensures old(Outstanding()) > 0
              && (forall i :: old(device.completed) <= i < |device.submitted| ==> device.bus(i).ok)
              ==> status == FlSuccess
      ensures old(report.isRead) ==>
                && status == FlSuccess && request == old(report.request) && holder == old(report.holder)
                && device.completed == old(device.completed) && heldCap == old(heldCap) && InUse() == old(InUse())
    {
      hide FLContext.Valid, FLContext.Pending, FLContext.Reporting, FLContext.Held, FLContext.Lent, FLContext.Stream,
           Carried, Reads;
      request, actual, holder := Request(Own(0), 0), 0, null;
      status := AwaitRead();
      if status == FlSuccess {
        request, actual, holder := report.request, report.actual, report.holder;
        Consume();
      }
    }

    // Take the read out of the report.
    method Consume()
      requires Valid() && report.isRead
      modifies this`report, this`told, this`handedOut
      ensures Valid() && !told && handedOut == old(handedOut) + [Delivery(old(report).request, old(report).actual)]
      ensures Outstanding() >= 0 && old(report).request == Reads(device.submitted)[old(|handedOut|)]
      ensures device.completed > 0 && (LastEnd().ok <==> !old(told)) && old(report).actual == |LastEnd().data|
      ensures old(report).holder != null <==> old(report).request.dest.Borrowed?
      ensures old(report).holder != null ==> Lent(old(report).holder)
    {
      hide Finished, Reads, Carry, UsbDevice.Prepared, UnboundedQueue.Valid, UnboundedQueue.InFlight;
      HandedOutInOrder();
      handedOut := handedOut + Reported(report);
      report, told := NO_REPORT, false;
      assert handedOut + [] == handedOut;
    }

    // Wait for the next read, which has to be complete.
    method AwaitFullRead() returns (status: FLStatus)
      requires Valid()
      modifies this`report, this`told, this`heldCap, this`handedOut
      modifies device`completed, device.queue`numItems, device.queue`takeIndex, device.queue.Items()`buffer
      ensures told && status != FlUsbErr ==> old(told)
      ensures Valid() && (old(Framed()) ==> Framed())
      ensures old(handedOut) <= handedOut
      ensures |handedOut| <= old(|handedOut|) + 1
      ensures status == FlSuccess ==>
                && |handedOut| == old(|handedOut|) + 1 && Outstanding() >= 0
                && handedOut[old(|handedOut|)] == Whole(Reads(device.submitted)[old(|handedOut|)])
    {
      hide FLContext.Valid, Reads;
      var request, actual, holder;
      status, request, actual, holder := ReadChannelAsyncAwait();
      if status == FlSuccess && actual != request.length {
        status := FlEarlyTerm;
      }
    }

    // Since the start, done has been asked for on the channel, and all but the last of
    // everything outstanding has come back whole.
    ghost predicate Asked(start: Start, done: seq<Request>, extra: int)
      reads this, writeBuf, device, device.queue, device.queue.itemArray, device.queue.Items()
    {
      && Valid() && Framed()
      && Reads(device.submitted) == start.asked + done
      && commands == start.commands + Asks(start.chan, done)
      && Outstanding() == |start.asked| - |start.handedOut| + extra
      && HandedOutWhole(start.handedOut)
    }

    // The reads handed out since then came back whole.
    ghost predicate HandedOutWhole(before: seq<Delivery>)
      reads this`handedOut, device`submitted
    {
      && before <= handedOut && |handedOut| <= |Reads(device.submitted)|
      && forall i :: |before| <= i < |handedOut| ==> handedOut[i] == Whole(Reads(device.submitted)[i])
    }

    // Ask for one more block.
    method SubmitBlock(chan: byte, count: nat, dest: Dest,
                       ghost start: Start, ghost done: seq<Request>, ghost extra: int)
      returns (status: FLStatus)
      requires Asked(start, done, extra) && start.chan == chan % 128
      modifies this`writeBuf, this`written, this`report, this`told, this`heldCap, this`commands, this`intact
      modifies device, device.queue, device.queue.Items()
      ensures told && status != FlUsbErr ==> old(told)
      ensures Valid() && Framed()
      ensures device.queue.Items() >= old(device.queue.Items())
      ensures fresh(device.queue.Items() - old(device.queue.Items()))
      ensures status == FlSuccess ==> Asked(start, done + [Request(dest, count)], extra + 1)
    {
      hide FLContext.Valid, FLContext.Framed, Reads, Asks, UnboundedQueue.Items;
      status := ReadChannelAsyncSubmit(chan, count, dest);
      AsksMore(start.chan, done, Request(dest, count));
    }

    // Wait for the next block, which has to come back whole.
    method AwaitBlock(ghost start: Start, ghost done: seq<Request>, ghost extra: int) returns (status: FLStatus)
      requires Asked(start, done, extra)
      modifies this`report, this`told, this`heldCap, this`handedOut
      modifies device`completed, device.queue`numItems, device.queue`takeIndex, device.queue.Items()`buffer
      ensures told && status != FlUsbErr ==> old(told)
      ensures Valid() && Framed()
      ensures status == FlSuccess ==> Asked(start, done, extra - 1)
    {
      hide FLContext.Valid, FLContext.Framed, Reads, Asks, UnboundedQueue.Items;
      status := AwaitFullRead();
    }

    // Ask for one more block, then wait for the one before it.
    method NextBlock(chan: byte, count: nat, dest: Dest,
                     ghost start: Start, ghost done: seq<Request>, ghost extra: int)
      returns (status: FLStatus)
      requires Asked(start, done, extra) && start.chan == chan % 128
      modifies this`writeBuf, this`written, this`report, this`told, this`heldCap
      modifies this`handedOut, this`commands, this`intact
      modifies device, device.queue, device.queue.Items()
      ensures told && status != FlUsbErr ==> old(told)
      ensures Valid() && Framed()
      ensures device.queue.Items() >= old(device.queue.Items())
      ensures fresh(device.queue.Items() - old(device.queue.Items()))
      ensures status == FlSuccess ==> Asked(start, done + [Request(dest, count)], extra)
    {
      hide FLContext.Valid, FLContext.Framed, FLContext.Asked;
      status := SubmitBlock(chan, count, dest, start, done, extra);
      if status == FlSuccess {
        status := AwaitBlock(start, done + [Request(dest, count)], extra + 1);
      }
    }

    // Read count bytes from a channel, asking for each block before waiting for the one
    // before it.
    method ReadChannel(chan: byte, count: nat, dest: nat) returns (status: FLStatus)
      requires Valid() && Framed()
      modifies this`writeBuf, this`written, this`report, this`told, this`heldCap
      modifies this`handedOut, this`commands, this`intact
      modifies device, device.queue, device.queue.Items()
      ensures told && status != FlUsbErr ==> old(told)
      ensures Valid() && Framed()
      ensures count == 0 || !isCommCapable ==> status == FlProtocolErr && handedOut == old(handedOut)
      ensures status == FlSuccess ==>
                Asked(old(Start(chan % 128, Reads(device.submitted), commands, handedOut)), Tiles(dest, count), 0)
    {
      hide FLContext.Valid, FLContext.Framed, FLContext.Asked, Reads, Tiles, Header;
      if count == 0 || !isCommCapable {
        return FlProtocolErr;
      }
      ghost var start := Start(chan % 128, Reads(device.submitted), commands, handedOut);
      ghost var done: seq<Request> := [];
      NothingAsked(chan % 128);
      var at: nat, left: nat := dest, count;
      assert done + Tiles(at, left) == Tiles(dest, count);
      TilesStep(done, at, left);
      if count >= BLOCK {
        status := SubmitBlock(chan, BLOCK, Own(at), start, done, 0);
        if status != FlSuccess {
          return;
        }
        done := done + [Request(Own(at), BLOCK)];
        at, left := at + BLOCK, left - BLOCK;
        while left >= BLOCK
          invariant told ==> old(told)
          invariant Tiles(dest, count) == done + Tiles(at, left)
          invariant Asked(start, done, 1) && Valid() && Framed()
          invariant device.queue.Items() >= old(device.queue.Items())
          invariant fresh(device.queue.Items() - old(device.queue.Items()))
        {
          status := NextBlock(chan, BLOCK, Own(at), start, done, 1);
          if status != FlSuccess {
            return;
          }
          TilesStep(done, at, left);
          done := done + [Request(Own(at), BLOCK)];
          at, left := at + BLOCK, left - BLOCK;
        }
        TilesStep(done, at, left);
        if left > 0 {
          status := NextBlock(chan, left, Own(at), start, done, 1);
          if status != FlSuccess {
            return;
          }
          done := done + [Request(Own(at), left)];
        }
      } else {
        status := SubmitBlock(chan, left, Own(at), start, done, 0);
        if status != FlSuccess {
          return;
        }
        done := done + [Request(Own(at), left)];
      }
      assert done == Tiles(dest, count);
      status := AwaitBlock(start, done, 1);
    }

    lemma NothingAsked(chan: byte)
      requires Valid() && Framed()
      ensures Asked(Start(chan, Reads(device.submitted), commands, handedOut), [], 0)
    {
      HandedOutInOrder();
    }
  }

  lemma NoBytes(size: nat)
    ensures BytesAt(0, size, 0) == 0
  {
  }

  // Before the only read, everything is a write.
  lemma {:induction false} OnlyWrites(s: seq<Xfer>, at: nat)
    requires Reads(s) == [] && at < |s|
    ensures s[at].WriteX?
  {
    if at < |s| - 1 {
      OnlyWrites(s[..|s| - 1], at);
    }
  }

  lemma FourthChunk(n: nat, size: nat, part: nat, bytes: nat)
    requires part < size && BytesAt(n, size, part) == bytes
    ensures bytes <= 3 * size ==> n + (if part > 0 then 1 else 0) <= 3
    ensures 3 * size < bytes < 4 * size ==> n == 3 && part == bytes - 3 * size
    ensures bytes >= 4 * size ==> n >= 4
  {
    Multiple(n - 3, size);
    assert (n - 3) * size == n * size - 3 * size;
  }

  // Ask for data without saying where it should go, before anything else.
  method AskFirst(handle: FLContext, chan: byte, count: nat) returns (status: FLStatus)
    requires handle.Valid() && handle.Framed() && handle.isCommCapable && 1 <= count <= BLOCK
    requires handle.device.submitted == [] && handle.device.completed == 0 && handle.device.queue.itemArray.Length == 4
    requires handle.handedOut == [] && handle.writeBuf == null && handle.written == 0 && !handle.report.isRead
    requires forall i :: 0 <= i < 4 ==> handle.device.bus(i).ok
    modifies handle`writeBuf, handle`written, handle`report, handle`told, handle`heldCap, handle`commands, handle`intact
    modifies handle.device, handle.device.queue, handle.device.queue.Items()
    ensures handle.Valid() && handle.Framed()
    ensures handle.device.queue.Items() >= old(handle.device.queue.Items())
    ensures fresh(handle.device.queue.Items() - old(handle.device.queue.Items()))
    ensures status == FlSuccess && handle.Pending() == [] && !handle.report.isRead
    ensures |handle.device.submitted| == Chunks(3, handle.chunkSize) + 1 <= 4
    ensures handle.device.submitted[|handle.device.submitted| - 1] == ReadX(Request(Borrowed, count))
    ensures Reads(handle.device.submitted) == [Request(Borrowed, count)] && handle.device.queue.itemArray.Length == 4
  {
    hide FLContext.Valid, UsbDevice.Valid, FLContext.Stream, FLContext.Framed, FrameAll, Carried, Chunks, BytesAt;
    handle.InFlightCount();
    NoBytes(handle.chunkSize);
    ThreeBytes(handle.chunkSize);
    status := handle.ReadChannelAsyncSubmit(chan, count, Borrowed);
    handle.OnlyReadAhead(Request(Borrowed, count));
  }

  // Then wait for it with the writes: the read is in the report, and nothing is in flight.
  method HoldRead(handle: FLContext, chan: byte, count: nat) returns (status: FLStatus)
    requires handle.Valid() && handle.Framed() && handle.isCommCapable && 1 <= count <= BLOCK
    requires handle.device.submitted == [] && handle.device.completed == 0 && handle.device.queue.itemArray.Length == 4
    requires handle.handedOut == [] && handle.writeBuf == null && handle.written == 0 && !handle.report.isRead
    requires forall i :: 0 <= i < 4 ==> handle.device.bus(i).ok
    modifies handle, handle.device, handle.device.queue, handle.device.queue.Items()
    ensures handle.Valid() && handle.Framed() && handle.chunkSize == old(handle.chunkSize)
    ensures handle.device.queue.Items() >= old(handle.device.queue.Items())
    ensures fresh(handle.device.queue.Items() - old(handle.device.queue.Items()))
    ensures status == FlSuccess && handle.isCommCapable
    ensures handle.report.isRead && handle.report.request == Request(Borrowed, count)
    ensures handle.device.completed == Chunks(3, handle.chunkSize) + 1 && handle.device.NumOutstanding() == 0
    ensures handle.heldCap == 4 && handle.written == 0
  {
    hide FLContext.Valid, UsbDevice.Valid, FLContext.Stream, FLContext.Pending, FrameAll, Carried, Chunks;
    status := AskFirst(handle, chan, count);
    status := handle.AwaitAsyncWrites();
    handle.OnlyReadHeld(Request(Borrowed, count));
  }

  // Write to a channel, then take the read that has been in the report all the while.
  method TakeAfterWriting(handle: FLContext, chan: byte, data: seq<byte>)
    returns (status: FLStatus, actual: nat, holder: Transfer?)
    requires handle.Valid() && handle.Framed() && handle.isCommCapable && data != []
    requires handle.report.isRead && handle.report.request.dest.Borrowed?
    requires handle.heldCap == 4 && handle.device.NumOutstanding() == 0 && handle.written == 0
    modifies handle, handle.device, handle.device.queue, handle.device.queue.Items()
    ensures handle.Valid() && handle.device.completed == old(handle.device.completed) > 0
    ensures status == FlSuccess && holder != null && handle.chunkSize == old(handle.chunkSize)
    ensures actual == |handle.LastEnd().data|
    ensures |FrameAll(Blocks(chan % 128, data))| <= 3 * handle.chunkSize ==>
              holder.buffer == handle.LastEnd().data && holder != handle.writeBuf
    ensures 3 * handle.chunkSize < |FrameAll(Blocks(chan % 128, data))| < 4 * handle.chunkSize ==>
              && holder == handle.writeBuf
              && FrameAll(Blocks(chan % 128, data))[3 * handle.chunkSize..] <= holder.buffer
    ensures |FrameAll(Blocks(chan % 128, data))| >= 4 * handle.chunkSize ==>
              handle.device.queue.Valid() && holder in handle.device.queue.InFlight()
  {
    hide FLContext.Valid, UsbDevice.Valid, FLContext.Stream, FLContext.Pending, Carried, Chunks, Blocks, FrameAll,
         BytesAt, FLContext.Lent, FLContext.LastEnd, FLContext.Framed, UnboundedQueue.InFlight, UnboundedQueue.Valid;
    ghost var start, framed := handle.Stream(), FrameAll(Blocks(chan % 128, data));
    NoBytes(handle.chunkSize);
    status := handle.WriteChannelAsync(chan, data);
    var request;
    status, request, actual, holder := handle.ReadChannelAsyncAwait();
    handle.FourthOverwrites(holder, start, framed);
  }

  // A caller that asks for data without saying where it should go, lets it come, and writes
  // to a channel before taking it: the buffer that is handed over has the bytes that came
  // exactly when what is written, headers and all, takes no more than three chunks. Beyond
  // that it is the fourth of the ring's four buffers, which the fourth chunk goes into.
  method BorrowAcrossWrite(bus: Bus, chan: byte, count: nat, size: nat, data: seq<byte>)
    returns (handle: FLContext, status: FLStatus, actual: nat, holder: Transfer?)
    requires 1 <= count <= BLOCK && data != [] && size < 0x10000
    requires forall i :: 0 <= i < 4 ==> bus(i).ok
    ensures handle.Valid() && handle.chunkSize == if size > 0 then size else 0x10000
    ensures status == FlSuccess && holder != null && actual == |bus(Chunks(3, handle.chunkSize)).data|
    ensures |FrameAll(Blocks(chan % 128, data))| <= 3 * handle.chunkSize ==>
              holder.buffer == bus(Chunks(3, handle.chunkSize)).data && holder != handle.writeBuf
    ensures 3 * handle.chunkSize < |FrameAll(Blocks(chan % 128, data))| < 4 * handle.chunkSize ==>
              && holder == handle.writeBuf
              && FrameAll(Blocks(chan % 128, data))[3 * handle.chunkSize..] <= holder.buffer
    ensures |FrameAll(Blocks(chan % 128, data))| >= 4 * handle.chunkSize ==>
              handle.device.queue.Valid() && holder in handle.device.queue.InFlight()
  {
    hide FLContext.Valid, UsbDevice.Valid, FLContext.Stream, FLContext.Pending, Carried, Chunks, Blocks, FrameAll,
         UnboundedQueue.InFlight, UnboundedQueue.Valid;
    var device := new UsbDevice(bus);
    handle := new FLContext(device, true);
    status := handle.SetAsyncWriteChunkSize(size);
    status := HoldRead(handle, chan, count);
    status, actual, holder := TakeAfterWriting(handle, chan, data);
  }

  // What writing to a channel started from.
  datatype Written = Written(commands: seq<Command>, intact: bool, stream: seq<byte>, mark: Mark, position: nat)

  // Where a synchronous read started from.
  datatype Start = Start(chan: byte, asked: seq<Request>, commands: seq<Command>, handedOut: seq<Delivery>)

  ghost function Whole(request: Request): Delivery
  {
    Delivery(request, request.length)
  }
}
