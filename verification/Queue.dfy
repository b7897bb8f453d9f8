// The ring queue of USB transfers. Putting and taking have two phases: first get the
// item, then commit. A full queue doubles when an item is asked for, so asking never fails
// (allocation failure is not modelled).
module Queue {
  import opened Bytes

  // Where the bytes of a read should go: to the caller's memory, or to the buffer that comes
  // with the transfer.
  datatype Dest = Own(at: nat) | Borrowed

  // A transfer and the buffer that comes with it.
  class Transfer {
    var buffer: seq<byte>
    var isRead: bool
    var length: nat
    var dest: Dest

    constructor ()
    {
      buffer, isRead, length, dest := [], false, 0, Borrowed;
    }
  }

  datatype Status = Success | EmptyQueue

  class UnboundedQueue {
    var itemArray: array<Transfer>
    var putIndex: nat
    var takeIndex: nat
    var numItems: nat

    ghost predicate Valid()
      reads this, itemArray
    {
      && numItems <= itemArray.Length
      && putIndex < itemArray.Length && takeIndex < itemArray.Length
      && putIndex == Wrapped(takeIndex + numItems)
      && Distinct(itemArray[..])
    }

    function Wrapped(i: nat): nat
      reads this
    {
      if i < itemArray.Length then i else i - itemArray.Length
    }

    static ghost predicate Distinct(s: seq<Transfer>)
    {
      forall i, j :: 0 <= i < j < |s| ==> s[i] != s[j]
    }

    // The transfers in flight, in the order in which they were committed.
    ghost function InFlight(): (s: seq<Transfer>)
      requires Valid()
      reads this, itemArray
      ensures |s| == numItems
      ensures forall i :: 0 <= i < numItems ==> s[i] == itemArray[Wrapped(takeIndex + i)]
    {
      if takeIndex + numItems <= itemArray.Length then itemArray[takeIndex..takeIndex + numItems]
      else itemArray[takeIndex..] + itemArray[..takeIndex + numItems - itemArray.Length]
    }

    // Every transfer the queue owns, in flight or free.
    ghost function Items(): (s: set<Transfer>)
      reads this`itemArray, itemArray
    {
      set t | t in itemArray[..]
    }

    // The transfer that the next put will be about, if there is room for one.
    ghost function Slot(): Transfer
      requires Valid() && numItems < itemArray.Length
      reads this, itemArray
    {
      itemArray[putIndex]
    }

    // The item that was taken last, as long as the array has not grown.
    ghost function LastTaken(): Transfer
      requires Valid()
      reads this, itemArray
    {
      itemArray[if takeIndex == 0 then itemArray.Length - 1 else takeIndex - 1]
    }

    // It is the last of the free items to be given out again: the next put is about it exactly
    // when it is the only one left.
    lemma LastTakenIsLast()
      requires Valid() && numItems < itemArray.Length
      ensures Slot() == LastTaken() <==> numItems == itemArray.Length - 1
      ensures LastTaken() in Items() && LastTaken() !in InFlight()
    {
      var k := if takeIndex == 0 then itemArray.Length - 1 else takeIndex - 1;
      assert itemArray[k] in itemArray[..];
      assert putIndex != k ==> itemArray[..][putIndex] != itemArray[..][k];
      forall i | 0 <= i < numItems
        ensures InFlight()[i] != LastTaken()
      {
        var j := Wrapped(takeIndex + i);
        assert j != k && j < itemArray.Length;
        assert itemArray[..][j] != itemArray[..][k];
      }
    }

    // The slot is not in flight.
    lemma SlotIsFree()
      requires Valid() && numItems < itemArray.Length
      ensures Slot() in Items() && Slot() !in InFlight()
    {
      assert itemArray[putIndex] in itemArray[..];
      forall i | 0 <= i < numItems
        ensures InFlight()[i] != Slot()
      {
        var k := Wrapped(takeIndex + i);
        assert k != putIndex && k < itemArray.Length;
        assert itemArray[..][k] != itemArray[..][putIndex];
      }
    }

    lemma NoMoreThanThereAre()
      requires Valid()
      ensures numItems <= itemArray.Length
    {
    }

    lemma InFlightOwned()
      requires Valid()
      ensures forall t :: t in InFlight() ==> t in Items()
    {
    }

    constructor (capacity: nat)
      requires capacity >= 1
      ensures Valid() && fresh(itemArray) && fresh(Items())
      ensures InFlight() == [] && itemArray.Length == capacity
    {
      var first := new Transfer();
      var items := new Transfer[capacity](_ => first);
      itemArray := items;
      putIndex, takeIndex, numItems := 0, 0, 0;
      new;
      FillWithFresh(items, 0);
    }

    // Fill an array with new transfers from the given index on.
    static method FillWithFresh(a: array<Transfer>, from: nat)
      requires from <= a.Length && Distinct(a[..from])
      modifies a
      ensures Distinct(a[..]) && a[..from] == old(a[..from])
      ensures forall i :: from <= i < a.Length ==> fresh(a[i])
    {
      var i := from;
      while i < a.Length
        invariant from <= i <= a.Length && Distinct(a[..i])
        invariant a[..from] == old(a[..from])
        invariant forall j :: from <= j < i ==> fresh(a[j])
        invariant forall j :: 0 <= j < i ==> allocated(a[j])
      {
        var t := new Transfer();
        a[i] := t;
        i := i + 1;
      }
      assert a[..i] == a[..];
    }

    method Put() returns (item: Transfer)
      requires Valid()
      modifies this
      ensures Valid() && (itemArray == old(itemArray) || fresh(itemArray))
      ensures InFlight() == old(InFlight()) && numItems < itemArray.Length
      ensures item == Slot()
      ensures old(Items()) <= Items() && fresh(Items() - old(Items()))
      ensures old(numItems < itemArray.Length) ==>
                itemArray == old(itemArray) && item == old(Slot()) && LastTaken() == old(LastTaken())
      ensures old(numItems == itemArray.Length) ==> itemArray.Length == 2 * old(itemArray.Length) && fresh(item)
    {
      if numItems == itemArray.Length {
        Grow();
      }
      item := itemArray[putIndex];
    }

    // The items of a full queue in the order of a straightened-out array.
    method Straightened(newArray: array<Transfer>)
      requires Valid() && numItems == itemArray.Length <= newArray.Length && newArray != itemArray
      modifies newArray
      ensures newArray[..numItems] == InFlight()
    {
      var firstHalf := itemArray.Length - takeIndex;
      forall i | 0 <= i < firstHalf {
        newArray[i] := itemArray[takeIndex + i];
      }
      assert newArray[..firstHalf] == itemArray[takeIndex..];
      forall i | 0 <= i < takeIndex {
        newArray[firstHalf + i] := itemArray[i];
      }
      assert newArray[firstHalf..numItems] == itemArray[..takeIndex];
      assert newArray[..numItems] == newArray[..firstHalf] + newArray[firstHalf..numItems];
    }

    // All items of a full queue are in flight.
    lemma AllFlying()
      requires Valid() && numItems == itemArray.Length
      ensures forall t :: t in itemArray[..] ==> t in InFlight()
    {
      forall k | 0 <= k < itemArray.Length
        ensures itemArray[k] in InFlight()
      {
        var j := if k >= takeIndex then k - takeIndex else k + itemArray.Length - takeIndex;
        assert InFlight()[j] == itemArray[k];
      }
    }

    // Double a full queue, straightening it out.
    method Grow()
      requires Valid() && numItems == itemArray.Length
      modifies this
      ensures Valid() && fresh(itemArray) && itemArray.Length == 2 * old(itemArray.Length)
      ensures InFlight() == old(InFlight()) && numItems == old(numItems)
      ensures old(Items()) <= Items() && fresh(Items() - old(Items()))
      ensures fresh(Slot())
    {
      ghost var flying := InFlight();
      var n, any := itemArray.Length, itemArray[0];
      var newArray := new Transfer[2 * n](_ => any);
      Straightened(newArray);
      FlyingDistinct();
      AllFlying();
      InFlightOwned();
      FillWithFresh(newArray, n);
      itemArray := newArray;
      takeIndex := 0;
      putIndex := n;
      DoubledItems(flying);
    }

    // After growth the queue owns what was in flight and what was created.
    lemma DoubledItems(flying: seq<Transfer>)
      requires |flying| <= itemArray.Length && itemArray[..|flying|] == flying
      ensures forall t :: t in flying ==> t in Items()
      ensures forall t :: t in Items() ==>
                t in flying || exists i :: |flying| <= i < itemArray.Length && itemArray[i] == t
    {
      assert itemArray[..] == flying + itemArray[|flying|..];
    }

    lemma FlyingDistinct()
      requires Valid()
      ensures Distinct(InFlight())
    {
      forall i, j | 0 <= i < j < numItems
        ensures InFlight()[i] != InFlight()[j]
      {
        var k, l := Wrapped(takeIndex + i), Wrapped(takeIndex + j);
        assert k != l;
        assert itemArray[..][k] != itemArray[..][l];
      }
    }

    method CommitPut()
      requires Valid() && numItems < itemArray.Length
      modifies this`numItems, this`putIndex
      ensures Valid() && InFlight() == old(InFlight()) + [old(Slot())]
      ensures LastTaken() == old(LastTaken())
    {
      numItems := numItems + 1;
      putIndex := putIndex + 1;
      if putIndex == itemArray.Length {
        putIndex := 0;
      }
    }

    method Take() returns (status: Status, item: Transfer?)
      requires Valid()
      ensures if numItems == 0 then status == EmptyQueue else status == Success && item == InFlight()[0]
    {
      if numItems == 0 {
        return EmptyQueue, null;
      }
      return Success, itemArray[takeIndex];
    }

    method CommitTake()
      requires Valid() && numItems > 0
      modifies this`numItems, this`takeIndex
      ensures Valid() && InFlight() == old(InFlight())[1..] && LastTaken() == old(InFlight())[0]
      ensures old(numItems < itemArray.Length) ==> Slot() == old(Slot())
    {
      numItems := numItems - 1;
      takeIndex := takeIndex + 1;
      if takeIndex == itemArray.Length {
        takeIndex := 0;
      }
    }
  }
}
