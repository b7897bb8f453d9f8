// Asynchronous bulk transfers over the ring queue. The bus is first-in first-out: it
// completes transfers in the order in which they were submitted, each with an outcome that
// is up to the bus.
module Usb {
  import opened Bytes
  import opened Queue

  // A read request: where the bytes should go, and how many.
  datatype Request = Request(dest: Dest, length: nat)

  // A transfer as the bus sees it.
  datatype Xfer = WriteX(data: seq<byte>) | ReadX(request: Request)

  // How a transfer ends; for a read, with the bytes that came.
  datatype Completion = Completion(ok: bool, data: seq<byte>)

  // The outcome of the n-th transfer to complete.
  type Bus = nat -> Completion

  // What has completed: for a read, what was asked for and how many bytes came, and, if no
  // destination was given, the transfer whose buffer they are in.
  datatype CompletionReport = Report(isRead: bool, request: Request, actual: nat, holder: Transfer?)

  const NO_REPORT := Report(false, Request(Own(0), 0), 0, null)

  datatype UsbStatus = UsbSuccess | UsbEmptyQueue | UsbTransferError | UsbAsyncSize

  const MAX_LENGTH: nat := 0x10000

  // What the bus would carry if the transfer completed now.
  function View(t: Transfer): Xfer
    reads t
  {
    if t.isRead then ReadX(Request(t.dest, t.length))
    else WriteX(if t.length <= |t.buffer| then t.buffer[..t.length] else t.buffer)
  }

  // The report says how the transfer ended.
  ghost predicate Tells(report: CompletionReport, x: Xfer, c: Completion)
  {
    && report.isRead == x.ReadX?
    && (report.isRead ==> report.request == x.request)
    && report.actual == |c.data|
    && (report.holder != null <==> report.isRead && report.request.dest.Borrowed?)
  }

  // The transfers s carry what x says.
  ghost predicate Carry(s: seq<Transfer>, x: seq<Xfer>): (c: bool)
    reads s
    ensures c ==> |s| == |x|
  {
    |s| == |x| && forall i :: 0 <= i < |s| ==> View(s[i]) == x[i]
  }

  lemma CarryMore(s: seq<Transfer>, x: seq<Xfer>, t: Transfer)
    requires Carry(s, x)
    ensures Carry(s + [t], x + [View(t)])
  {
  }

  lemma CarryLess(s: seq<Transfer>, x: seq<Xfer>, from: nat)
    requires from <= |x| && |s| > 0 && Carry(s, x[from..])
    ensures from < |x| && Carry(s[1..], x[from + 1..])
  {
  }

  class UsbDevice {
    const queue: UnboundedQueue
    const bus: Bus

    // How many transfers have completed, and every transfer ever submitted, as it was then.
    var completed: nat
    ghost var submitted: seq<Xfer>

    // What is in flight is what was submitted and has not completed: nobody has touched
    // the buffer of a transfer in flight.
    ghost predicate Valid()
      reads this, queue, queue.itemArray, queue.Items()
    {
      && queue.Valid()
      && completed <= |submitted|
      && Carry(queue.InFlight(), submitted[completed..])
    }

    // The item that the next submission will use.
    ghost predicate Prepared(item: Transfer): (p: bool)
      reads this, queue, queue.itemArray, queue.Items()
      ensures p ==> Valid() && item in queue.Items()
    {
      Valid() && queue.numItems < queue.itemArray.Length && item == queue.Slot() && item in queue.Items()
    }

    constructor (bus: Bus)
      ensures Valid() && fresh(queue) && fresh(queue.Items()) && this.bus == bus
      ensures submitted == [] && completed == 0 && queue.itemArray.Length == 4
    {
      this.bus := bus;
      queue := new UnboundedQueue(4);
      submitted, completed := [], 0;
    }

    function NumOutstanding(): nat
      reads queue
    {
      queue.numItems
    }

    // Whether a put can do without growth, and whether it would take the last free item.
    predicate HasRoom()
      reads queue
    {
      queue.numItems < queue.itemArray.Length
    }

    predicate OneLeft()
      reads queue
    {
      queue.numItems + 1 == queue.itemArray.Length
    }

    // A prepared item is not in flight, and its buffer may be written.
    lemma PreparedIsFree(item: Transfer)
      requires Prepared(item)
      ensures item !in queue.InFlight()
    {
      queue.SlotIsFree();
    }

    // The oldest transfer in flight is the first that has not completed.
    lemma OldestInFlight()
      requires Valid()
      ensures queue.Valid()
      ensures |submitted| - completed == NumOutstanding()
      ensures NumOutstanding() > 0 ==> View(queue.InFlight()[0]) == submitted[completed]
    {
    }

    // The item that the next transfer will use; a second request gets the same item.
    method NextItem(ghost prepared: Transfer?) returns (item: Transfer)
      requires Valid() && (prepared != null ==> Prepared(prepared))
      modifies queue
      ensures Prepared(item) && (prepared != null ==> item == prepared)
      ensures NumOutstanding() == old(NumOutstanding()) && queue.InFlight() == old(queue.InFlight())
      ensures queue.Items() >= old(queue.Items()) && fresh(queue.Items() - old(queue.Items()))
      ensures old(HasRoom()) ==> queue.itemArray == old(queue.itemArray) && queue.LastTaken() == old(queue.LastTaken())
      ensures HasRoom() && (item == queue.LastTaken() <==> OneLeft())
      ensures old(!HasRoom()) ==> fresh(item)
    {
      ghost var flying := queue.InFlight();
      assert Carry(flying, submitted[completed..]);
      hide Carry, UnboundedQueue.Valid, UnboundedQueue.InFlight, UnboundedQueue.Wrapped, UnboundedQueue.Items;
      item := queue.Put();
      assert Carry(flying, submitted[completed..]);
      queue.SlotIsFree();
      queue.LastTakenIsLast();
    }

    // Get the item from whose buffer the next write will be sent.
    method WriteAsyncPrepare() returns (item: Transfer)
      requires Valid()
      modifies queue
      ensures Prepared(item) && NumOutstanding() == old(NumOutstanding()) && queue.InFlight() == old(queue.InFlight())
      ensures queue.Items() >= old(queue.Items()) && fresh(queue.Items() - old(queue.Items()))
      ensures old(HasRoom()) ==> queue.itemArray == old(queue.itemArray) && queue.LastTaken() == old(queue.LastTaken())
      ensures HasRoom() && (item == queue.LastTaken() <==> OneLeft())
      ensures old(!HasRoom()) ==> fresh(item)
    {
      hide UsbDevice.Valid, UsbDevice.Prepared, UnboundedQueue.Items;
      item := NextItem(null);
    }

    // Fill the buffer of a prepared item from the given position on. Nothing in flight
    // notices.
    method CopyIn(item: Transfer, at: nat, data: seq<byte>)
      requires Prepared(item) && at <= |item.buffer|
      modifies item`buffer
      ensures Prepared(item) && item.buffer == old(item.buffer[..at]) + data
    {
      hide UnboundedQueue.Valid, UnboundedQueue.InFlight, UnboundedQueue.Wrapped;
      PreparedIsFree(item);
      item.buffer := item.buffer[..at] + data;
    }

    // Describe the next transfer.
    method FillIn(item: Transfer, isRead: bool, dest: Dest, length: nat)
      requires Prepared(item)
      modifies item`isRead, item`dest, item`length
      ensures Prepared(item)
      ensures item.isRead == isRead && item.dest == dest && item.length == length
    {
      hide UnboundedQueue.Valid, UnboundedQueue.InFlight, UnboundedQueue.Wrapped;
      PreparedIsFree(item);
      item.isRead := isRead;
      item.dest := dest;
      item.length := length;
    }

    // Commit the prepared item, which looks like x.
    method Commit(ghost item: Transfer, ghost x: Xfer)
      requires Prepared(item) && View(item) == x
      modifies this`submitted, queue`numItems, queue`putIndex
      ensures Valid() && submitted == old(submitted) + [x]
      ensures NumOutstanding() == old(NumOutstanding()) + 1
      ensures queue.InFlight() == old(queue.InFlight()) + [item] && queue.LastTaken() == old(queue.LastTaken())
    {
      hide Carry, View, UnboundedQueue.Valid, UnboundedQueue.InFlight, UnboundedQueue.Wrapped;
      CarryMore(queue.InFlight(), submitted[completed..], item);
      assert (submitted + [x])[completed..] == submitted[completed..] + [x];
      ghost var more := queue.InFlight() + [item];
      assert Carry(more, submitted[completed..] + [x]);
      queue.CommitPut();
      submitted := submitted + [x];
      assert queue.InFlight() == more;
      assert Carry(more, submitted[completed..]);
    }

    // Send the first length bytes of the buffer that was given out.
    method WriteAsyncSubmit(ghost prepared: Transfer, length: nat) returns (status: UsbStatus)
      requires Prepared(prepared) && length <= |prepared.buffer|
      modifies this`submitted, queue, prepared`isRead, prepared`length, prepared`dest
      ensures Valid()
      ensures queue.Items() >= old(queue.Items()) && fresh(queue.Items() - old(queue.Items()))
      ensures queue.itemArray == old(queue.itemArray) && queue.LastTaken() == old(queue.LastTaken())
      ensures status == if length > MAX_LENGTH then UsbAsyncSize else UsbSuccess
      ensures status == UsbSuccess ==>
                && submitted == old(submitted) + [WriteX(prepared.buffer[..length])]
                && NumOutstanding() == old(NumOutstanding()) + 1
                && queue.InFlight() == old(queue.InFlight()) + [prepared]
                && (HasRoom() <==> prepared != queue.LastTaken())
      ensures status != UsbSuccess ==>
                && Prepared(prepared) && submitted == old(submitted) && NumOutstanding() == old(NumOutstanding())
                && queue.InFlight() == old(queue.InFlight())
    {
      hide UsbDevice.Valid, UnboundedQueue.Items;
      if length > MAX_LENGTH {
        return UsbAsyncSize;
      }
      var item := NextItem(prepared);
      FillIn(item, false, item.dest, length);
      Commit(item, WriteX(item.buffer[..length]));
      status := UsbSuccess;
    }

    // Ask for length bytes to be read to dest, with the item given.
    method ReadAsync(dest: Dest, length: nat) returns (status: UsbStatus, ghost item: Transfer?)
      requires Valid()
      modifies this`submitted, queue, queue.Items()`isRead, queue.Items()`length, queue.Items()`dest
      ensures Valid()
      ensures queue.Items() >= old(queue.Items()) && fresh(queue.Items() - old(queue.Items()))
      ensures status == if length > MAX_LENGTH then UsbAsyncSize else UsbSuccess
      ensures status == UsbSuccess ==>
                && submitted == old(submitted) + [ReadX(Request(dest, length))]
                && NumOutstanding() == old(NumOutstanding()) + 1
                && item != null && queue.InFlight() == old(queue.InFlight()) + [item]
                && (old(HasRoom()) ==>
                      queue.itemArray == old(queue.itemArray) && queue.LastTaken() == old(queue.LastTaken()))
                && (item == queue.LastTaken() <==> !HasRoom())
                && (old(!HasRoom()) ==> fresh(item))
      ensures status != UsbSuccess ==> submitted == old(submitted) && NumOutstanding() == old(NumOutstanding())
    {
      hide UsbDevice.Valid, UnboundedQueue.Items;
      item := null;
      if length > MAX_LENGTH {
        return UsbAsyncSize, null;
      }
      var next := NextItem(null);
      item := next;
      FillIn(next, true, dest, length);
      Commit(next, ReadX(Request(dest, length)));
      status := UsbSuccess;
    }

    // The bytes of a read for which no destination was given come to rest in the buffer of its
    // own item.
    method Receive(wrapper: Transfer, data: seq<byte>, ghost prepared: Transfer?) returns (holder: Transfer?)
      requires Valid() && queue.Valid() && NumOutstanding() > 0 && wrapper == queue.InFlight()[0]
      requires prepared != null ==> Prepared(prepared)
      modifies queue.Items()`buffer
      ensures Valid() && (prepared != null ==> Prepared(prepared) && prepared.buffer == old(prepared.buffer))
      ensures queue.Valid() && wrapper == queue.InFlight()[0]
      ensures holder == old(if wrapper.isRead && wrapper.dest.Borrowed? then wrapper else null)
      ensures holder != null ==> holder.buffer == data && holder != prepared
    {
      ghost var flying, x := queue.InFlight(), submitted[completed..];
      assert Carry(flying, x) && wrapper in flying;
      queue.InFlightOwned();
      if prepared != null {
        PreparedIsFree(prepared);
      }
      hide Carry, View, UnboundedQueue.Valid, UnboundedQueue.InFlight, UnboundedQueue.Wrapped, UnboundedQueue.Items;
      holder := null;
      if wrapper.isRead && wrapper.dest.Borrowed? {
        TakeIn(wrapper, data, flying, x);
        holder := wrapper;
      }
    }

    // What a read in flight has in its buffer is nobody else's business.
    method TakeIn(wrapper: Transfer, data: seq<byte>, ghost flying: seq<Transfer>, ghost x: seq<Xfer>)
      requires Carry(flying, x) && wrapper.isRead
      modifies wrapper`buffer
      ensures Carry(flying, x) && wrapper.buffer == data
    {
      wrapper.buffer := data;
      assert forall i :: 0 <= i < |flying| ==> View(flying[i]) == old(View(flying[i]));
    }

    // Whether the bytes that a report holds are as they came, in an item that is free and the
    // last to be given out again.
    ghost predicate Holding(report: CompletionReport, data: seq<byte>)
      reads queue, queue.itemArray, report.holder
    {
      report.holder != null ==>
        queue.Valid() && report.holder.buffer == data && HasRoom() && report.holder == queue.LastTaken()
    }

    // Wait for the oldest transfer in flight, and say what it was. A failed transfer is
    // reported as well. An item that was given out for writing stays given out.
    method AwaitCompletion(before: CompletionReport, ghost prepared: Transfer?)
      returns (status: UsbStatus, report: CompletionReport)
      requires Valid() && (prepared != null ==> Prepared(prepared))
      modifies this`completed, queue`numItems, queue`takeIndex, queue.Items()`buffer
      ensures Valid() && (prepared != null ==> Prepared(prepared) && prepared.buffer == old(prepared.buffer))
      ensures old(completed) == |submitted| ==>
                && status == UsbEmptyQueue && report == before && completed == old(completed)
                && NumOutstanding() == old(NumOutstanding())
      ensures old(completed) < |submitted| ==>
                && completed == old(completed) + 1 && NumOutstanding() == old(NumOutstanding()) - 1
                && status == (if bus(old(completed)).ok then UsbSuccess else UsbTransferError)
                && Tells(report, submitted[old(completed)], bus(old(completed)))
                && Holding(report, bus(old(completed)).data)
                && (report.holder != null ==> report.holder != prepared)
    {
      OldestInFlight();
      hide Holding, Tells, Carry, View, UnboundedQueue.Valid, UnboundedQueue.InFlight, UnboundedQueue.Items,
           UsbDevice.Valid, UsbDevice.Prepared;
      if NumOutstanding() == 0 {
        return UsbEmptyQueue, before;
      }
      status := if bus(completed).ok then UsbSuccess else UsbTransferError;
      report := CompleteOldest(prepared);
    }

    method CompleteOldest(ghost prepared: Transfer?) returns (report: CompletionReport)
      requires Valid() && NumOutstanding() > 0 && completed < |submitted| && (prepared != null ==> Prepared(prepared))
      modifies this`completed, queue`numItems, queue`takeIndex, queue.Items()`buffer
      ensures Valid() && (prepared != null ==> Prepared(prepared) && prepared.buffer == old(prepared.buffer))
      ensures completed == old(completed) + 1 && NumOutstanding() == old(NumOutstanding()) - 1
      ensures Tells(report, submitted[old(completed)], bus(old(completed)))
      ensures Holding(report, bus(old(completed)).data)
      ensures report.holder != null ==> report.holder != prepared
    {
      OldestInFlight();
      hide Carry, View, UnboundedQueue.Valid, UnboundedQueue.InFlight, UnboundedQueue.Items, UsbDevice.Prepared,
           UsbDevice.Valid;
      var _, wrapper := queue.Take();
      Looks(wrapper, submitted[completed]);
      var data := bus(completed).data;
      var isRead, request := wrapper.isRead, Request(wrapper.dest, wrapper.length);
      var holder := ReceiveAndRetire(wrapper, data, prepared);
      report := Report(isRead, request, |data|, holder);
    }

    method ReceiveAndRetire(wrapper: Transfer, data: seq<byte>, ghost prepared: Transfer?) returns (holder: Transfer?)
      requires Valid() && queue.Valid() && NumOutstanding() > 0 && wrapper == queue.InFlight()[0]
      requires prepared != null ==> Prepared(prepared)
      modifies this`completed, queue`numItems, queue`takeIndex, queue.Items()`buffer
      ensures Valid() && queue.Valid()
      ensures prepared != null ==> Prepared(prepared) && prepared.buffer == old(prepared.buffer)
      ensures completed == old(completed) + 1 && NumOutstanding() == old(NumOutstanding()) - 1
      ensures holder == old(if wrapper.isRead && wrapper.dest.Borrowed? then wrapper else null)
      ensures holder != null ==> holder.buffer == data && holder != prepared && HasRoom() && holder == queue.LastTaken()
    {
      hide Carry, UnboundedQueue.Valid, UnboundedQueue.InFlight, UnboundedQueue.Items, UsbDevice.Prepared,
           UsbDevice.Valid;
      holder := Receive(wrapper, data, prepared);
      assert wrapper == queue.InFlight()[0];
      Retire(prepared);
    }

    lemma Looks(t: Transfer, x: Xfer)
      requires View(t) == x
      ensures t.isRead == x.ReadX? && (t.isRead ==> x.request == Request(t.dest, t.length))
    {
    }

    // Retire the oldest transfer in flight.
    method Retire(ghost prepared: Transfer?)
      requires Valid() && NumOutstanding() > 0 && (prepared != null ==> Prepared(prepared))
      modifies this`completed, queue`numItems, queue`takeIndex
      ensures Valid() && queue.Valid() && (prepared != null ==> Prepared(prepared))
      ensures completed == old(completed) + 1 && NumOutstanding() == old(NumOutstanding()) - 1
      ensures queue.InFlight() == old(queue.InFlight())[1..]
      ensures queue.LastTaken() == old(queue.InFlight())[0] && HasRoom()
    {
      ghost var flying := queue.InFlight();
      assert |flying| > 0 && Carry(flying, submitted[completed..]);
      hide Carry, View, UnboundedQueue.InFlight, UnboundedQueue.Wrapped;
      CarryLess(flying, submitted, completed);
      assert queue.numItems <= queue.itemArray.Length;
      hide UnboundedQueue.Valid;
      flying := flying[1..];
      completed := completed + 1;
      assert Carry(flying, submitted[completed..]);
      queue.CommitTake();
      assert queue.InFlight() == flying;
      assert Carry(flying, submitted[completed..]);
    }
  }
}
