// Moving each run-test command from behind the shift it belongs to, where SVF puts it,
// to a place in front of it, where the player wants it.
module ProcessIndex {
  import opened Csvf
  import opened Trace

  // Stands for "no XRUNTEST emitted yet". It is also a possible count.
  const ILLEGAL32: nat := 0xFFFF_FFFF

  function FirstShift(cmds: seq<Cmd>): (k: nat)
    ensures k <= |cmds|
    ensures forall i :: 0 <= i < k ==> !cmds[i].IsShift()
    ensures k < |cmds| ==> cmds[k].IsShift()
  {
    if cmds == [] || cmds[0].IsShift() then 0 else 1 + FirstShift(cmds[1..])
  }

  // What follows the first shift.
  function Behind(cmds: seq<Cmd>): seq<Cmd>
    requires FirstShift(cmds) < |cmds|
  {
    cmds[FirstShift(cmds) + 1..]
  }

  // The XRUNTEST directly behind the first shift, if there is one.
  function OwnRunTest(cmds: seq<Cmd>): (own: seq<Cmd>)
    ensures own == [] || (|own| == 1 && own[0].XRunTest?)
  {
    if FirstShift(cmds) < |cmds| && Behind(cmds) != [] && Behind(cmds)[0].XRunTest? then [Behind(cmds)[0]] else []
  }

  // Its count, or zero.
  function OwnWait(cmds: seq<Cmd>): Long
  {
    if OwnRunTest(cmds) == [] then 0 else OwnRunTest(cmds)[0].count
  }

  // What follows the first shift and its own XRUNTEST.
  function AfterGroup(cmds: seq<Cmd>): (rest: seq<Cmd>)
    requires FirstShift(cmds) < |cmds|
    ensures |rest| < |cmds|
  {
    Behind(cmds)[|OwnRunTest(cmds)|..]
  }

  // The reordered commands, group by group: a group ends with a shift and the XRUNTEST
  // directly behind it, if any. oldrt is the last count put in front of a group.
  function Reordered(cmds: seq<Cmd>, oldrt: nat): seq<Cmd>
    decreases |cmds|
  {
    if cmds == [] then []
    else
      var k := FirstShift(cmds);
      var hoisted := if OwnWait(cmds) != oldrt then [XRunTest(OwnWait(cmds))] else [];
      if k == |cmds| then hoisted + cmds
      else hoisted + cmds[..k + 1] + Reordered(AfterGroup(cmds), OwnWait(cmds))
  }

  // ---------- When reordering keeps the meaning ----------

  predicate AllZero(cmds: seq<Cmd>)
  {
    forall c :: c in cmds && c.XRunTest? ==> c.count == 0
  }

  predicate NoRunTest(cmds: seq<Cmd>)
  {
    forall c :: c in cmds ==> !c.XRunTest?
  }

  // Where a scan of the commands stands: whether an XRUNTEST here would be a shift's own,
  // whether the group at hand has a stray XRUNTEST, and whether its shift is the first.
  datatype Place = Place(canOwn: bool, stray: bool, first: bool)

  const ANYWHERE := Place(false, false, false)

  // Every XRUNTEST that does not directly follow a shift waits for nothing, and neither
  // does the shift in whose group it stands; and the very first shift does not wait for
  // exactly 0xFFFFFFFF clocks. One scan over the commands decides it.
  predicate Placed(cmds: seq<Cmd>, place: Place)
  {
    cmds == [] ||
    if cmds[0].XRunTest? then
      if place.canOwn then
        && (place.stray ==> cmds[0].count == 0)
        && (place.first ==> cmds[0].count != ILLEGAL32)
        && Placed(cmds[1..], ANYWHERE)
      else
        cmds[0].count == 0 && Placed(cmds[1..], place.(stray := true))
    else
      var here := if place.canOwn then ANYWHERE else place;
      Placed(cmds[1..], here.(canOwn := cmds[0].IsShift()))
  }

  // The register after running through commands none of which is a shift.
  function RegisterAfter(cmds: seq<Cmd>, register: nat): nat
    decreases |cmds|
  {
    if cmds == [] then register
    else RegisterAfter(cmds[1..], if cmds[0].XRunTest? then cmds[0].count else register)
  }

  lemma {:induction false} WaitsAfterPrefix(pre: seq<Cmd>, rest: seq<Cmd>, register: nat)
    requires forall c :: c in pre ==> !c.IsShift()
    ensures WaitsAfterEach(pre + rest, register) == WaitsAfterEach(rest, RegisterAfter(pre, register))
    decreases |pre|
  {
    if pre == [] {
      assert pre + rest == rest;
    } else {
      assert (pre + rest)[1..] == pre[1..] + rest;
      WaitsAfterPrefix(pre[1..], rest, if pre[0].XRunTest? then pre[0].count else register);
    }
  }

  lemma {:induction false} WaitsHerePrefix(pre: seq<Cmd>, rest: seq<Cmd>)
    requires forall c :: c in pre ==> !c.IsShift()
    ensures WaitsHere(pre + rest).after == WaitsHere(rest).after
    ensures WaitsHere(pre + rest).lead == WaitsHere(pre).lead + WaitsHere(rest).lead
    ensures WaitsHere(pre).lead == 0 <==> AllZero(pre)
    decreases |pre|
  {
    if pre == [] {
      assert pre + rest == rest;
    } else {
      assert (pre + rest)[1..] == pre[1..] + rest;
      WaitsHerePrefix(pre[1..], rest);
      assert pre == [pre[0]] + pre[1..];
    }
  }

  lemma {:induction false} RegisterAfterZeros(pre: seq<Cmd>, register: nat)
    requires AllZero(pre)
    ensures RegisterAfter(pre, register) == if NoRunTest(pre) then register else 0
    decreases |pre|
  {
    if pre != [] {
      assert pre == [pre[0]] + pre[1..];
      RegisterAfterZeros(pre[1..], if pre[0].XRunTest? then pre[0].count else register);
    }
  }

  lemma ReadOneHere(c: Cmd, rest: seq<Cmd>)
    ensures var w := WaitsHere(rest);
            WaitsHere([c] + rest) == if c.XRunTest? then Idle(c.count + w.lead, w.after)
                                     else if c.IsShift() then Idle(0, [w.lead] + w.after) else w
  {
    assert ([c] + rest)[1..] == rest;
  }

  lemma ReadOneAfterEach(c: Cmd, rest: seq<Cmd>, register: nat)
    ensures WaitsAfterEach([c] + rest, register)
         == if c.XRunTest? then WaitsAfterEach(rest, c.count)
            else (if c.IsShift() then [register] else []) + WaitsAfterEach(rest, register)
  {
    assert ([c] + rest)[1..] == rest;
  }

  lemma Split2<T>(s: seq<T>, k: nat)
    requires k <= |s|
    ensures s == s[..k] + s[k..]
  {
  }

  lemma Split3<T>(s: seq<T>, k: nat)
    requires k < |s|
    ensures s == s[..k] + ([s[k]] + s[k + 1..])
  {
  }

  lemma BehindShift(cmds: seq<Cmd>)
    requires FirstShift(cmds) < |cmds|
    ensures Behind(cmds) == OwnRunTest(cmds) + AfterGroup(cmds)
  {
    hide FirstShift, Behind;
  }

  // A group: commands that are no shifts, a shift, and perhaps its own XRUNTEST.
  lemma GroupShape(cmds: seq<Cmd>)
    requires FirstShift(cmds) < |cmds|
    ensures var k := FirstShift(cmds); cmds == cmds[..k] + ([cmds[k]] + (OwnRunTest(cmds) + AfterGroup(cmds)))
  {
    hide FirstShift, OwnRunTest, AfterGroup;
    BehindShift(cmds);
    assert Behind(cmds) == cmds[FirstShift(cmds) + 1..];
    Split3(cmds, FirstShift(cmds));
  }

  // A group that waits w and starts with pre: the shift waits for w and for strays that
  // come later; anything to wait for in front of it would come before the shift.
  ghost predicate ReadsAs(cmds: seq<Cmd>, pre: seq<Cmd>, w: nat, rest: seq<Cmd>)
  {
    && (WaitsHere(cmds).lead == 0 <==> AllZero(pre))
    && WaitsHere(cmds).after == [w + WaitsHere(rest).lead] + WaitsHere(rest).after
  }

  lemma PartsHere(pre: seq<Cmd>, shift: Cmd, own: seq<Cmd>, w: Long, rest: seq<Cmd>)
    requires shift.IsShift() && forall c :: c in pre ==> !c.IsShift()
    requires own == [XRunTest(w)] || (own == [] && w == 0)
    ensures ReadsAs(pre + ([shift] + (own + rest)), pre, w, rest)
  {
    hide WaitsHere, AllZero;
    WaitsHerePrefix(pre, [shift] + (own + rest));
    ReadOneHere(shift, own + rest);
    if own != [] {
      ReadOneHere(XRunTest(w), rest);
    } else {
      assert own + rest == rest;
    }
  }

  lemma GroupHere(cmds: seq<Cmd>)
    requires FirstShift(cmds) < |cmds|
    ensures ReadsAs(cmds, cmds[..FirstShift(cmds)], OwnWait(cmds), AfterGroup(cmds))
  {
    hide FirstShift, OwnRunTest, AfterGroup, ReadsAs;
    var k := FirstShift(cmds);
    PartsHere(cmds[..k], cmds[k], OwnRunTest(cmds), OwnWait(cmds), AfterGroup(cmds));
    GroupShape(cmds);
  }

  lemma GroupAfterEach(cmds: seq<Cmd>, oldrt: nat, register: nat)
    requires FirstShift(cmds) < |cmds|
    ensures var r := RegisterAfter(cmds[..FirstShift(cmds)],
                                   if OwnWait(cmds) != oldrt then OwnWait(cmds) else register);
            (WaitsAfterEach(Reordered(cmds, oldrt), register)
             == [r] + WaitsAfterEach(Reordered(AfterGroup(cmds), OwnWait(cmds)), r))
  {
    hide WaitsAfterEach, AfterGroup, OwnWait, FirstShift, RegisterAfter;
    var k, w := FirstShift(cmds), OwnWait(cmds);
    var pre, rest := cmds[..k], Reordered(AfterGroup(cmds), w);
    assert cmds[..k + 1] == pre + [cmds[k]];
    WaitsAfterPrefix(pre, [cmds[k]] + rest, if w != oldrt then w else register);
    ReadOneAfterEach(cmds[k], rest, RegisterAfter(pre, if w != oldrt then w else register));
    if w != oldrt {
      assert Reordered(cmds, oldrt) == [XRunTest(w)] + (pre + ([cmds[k]] + rest));
      ReadOneAfterEach(XRunTest(w), pre + ([cmds[k]] + rest), register);
    } else {
      assert Reordered(cmds, oldrt) == pre + ([cmds[k]] + rest);
    }
  }

  lemma SameCons(a: nat, x: seq<nat>, b: nat, y: seq<nat>)
    ensures [a] + x == [b] + y <==> a == b && x == y
  {
    assert ([a] + x)[1..] == x && ([b] + y)[1..] == y;
    assert ([a] + x)[0] == a && ([b] + y)[0] == b;
  }

  lemma PlacedCons(c: Cmd, rest: seq<Cmd>, place: Place)
    ensures Placed([c] + rest, place)
        <==> if c.XRunTest? && place.canOwn then
               && (place.stray ==> c.count == 0)
               && (place.first ==> c.count != ILLEGAL32)
               && Placed(rest, ANYWHERE)
             else if c.XRunTest? then c.count == 0 && Placed(rest, place.(stray := true))
             else Placed(rest, (if place.canOwn then ANYWHERE else place).(canOwn := c.IsShift()))
  {
    assert ([c] + rest)[1..] == rest;
  }

  lemma {:induction false} PlacedPrefix(pre: seq<Cmd>, rest: seq<Cmd>, stray: bool, first: bool)
    requires forall c :: c in pre ==> !c.IsShift()
    ensures Placed(pre + rest, Place(false, stray, first))
       <==> AllZero(pre) && Placed(rest, Place(false, stray || !NoRunTest(pre), first))
  {
    if pre == [] {
      assert pre + rest == rest;
    } else {
      hide Placed;
      assert pre == [pre[0]] + pre[1..] && pre + rest == [pre[0]] + (pre[1..] + rest);
      PlacedCons(pre[0], pre[1..] + rest, Place(false, stray, first));
      PlacedPrefix(pre[1..], rest, stray || pre[0].XRunTest?, first);
    }
  }

  lemma PlacedOwn(own: seq<Cmd>, w: Long, rest: seq<Cmd>, stray: bool, first: bool)
    requires own == [XRunTest(w)] || (own == [] && w == 0 && (rest == [] || !rest[0].XRunTest?))
    ensures Placed(own + rest, Place(true, stray, first))
       <==> (stray ==> w == 0) && (first ==> w != ILLEGAL32) && Placed(rest, ANYWHERE)
  {
    if own == [] {
      assert own + rest == rest;
    } else {
      PlacedCons(XRunTest(w), rest, Place(true, stray, first));
    }
  }

  // The condition, group by group.
  ghost predicate PlacedAs(cmds: seq<Cmd>, first: bool, pre: seq<Cmd>, w: nat, rest: seq<Cmd>)
  {
    Placed(cmds, Place(false, false, first))
    <==> AllZero(pre) && (NoRunTest(pre) || w == 0) && (first ==> w != ILLEGAL32) && Placed(rest, ANYWHERE)
  }

  lemma PartsPlaced(pre: seq<Cmd>, shift: Cmd, own: seq<Cmd>, w: Long, rest: seq<Cmd>, first: bool)
    requires shift.IsShift() && forall c :: c in pre ==> !c.IsShift()
    requires own == [XRunTest(w)] || (own == [] && w == 0 && (rest == [] || !rest[0].XRunTest?))
    ensures PlacedAs(pre + ([shift] + (own + rest)), first, pre, w, rest)
  {
    hide Placed, AllZero, NoRunTest;
    PlacedPrefix(pre, [shift] + (own + rest), false, first);
    PlacedCons(shift, own + rest, Place(false, !NoRunTest(pre), first));
    PlacedOwn(own, w, rest, !NoRunTest(pre), first);
  }

  lemma GroupPlaced(cmds: seq<Cmd>, first: bool)
    requires FirstShift(cmds) < |cmds|
    ensures PlacedAs(cmds, first, cmds[..FirstShift(cmds)], OwnWait(cmds), AfterGroup(cmds))
  {
    hide FirstShift, PlacedAs;
    var k := FirstShift(cmds);
    PartsPlaced(cmds[..k], cmds[k], OwnRunTest(cmds), OwnWait(cmds), AfterGroup(cmds), first);
    GroupShape(cmds);
  }

  // The exact condition under which the output, read by the player, waits as the input
  // says. It is stated for any point of the run: either nothing was hoisted yet and the
  // register is still zero, or the register holds what was hoisted last.
  lemma {:induction false} ReorderedMeaning(cmds: seq<Cmd>, oldrt: nat, register: nat, first: bool)
    requires if first then oldrt == ILLEGAL32 && register == 0 else oldrt == register
    ensures (WaitsHere(cmds) == Idle(0, WaitsAfterEach(Reordered(cmds, oldrt), register)))
       <==> Placed(cmds, Place(false, false, first))
    decreases |cmds|
  {
    hide WaitsHere, WaitsAfterEach, Reordered, AfterGroup, OwnWait, FirstShift, AllZero, NoRunTest, RegisterAfter,
         Placed;
    var k := FirstShift(cmds);
    if k == |cmds| {
      NothingToHoist(cmds, oldrt, register);
      PlacedPrefix(cmds, [], false, first);
      PlacedNothing(Place(false, !NoRunTest(cmds), first));
      assert cmds + [] == cmds && cmds[..k] == cmds;
    } else {
      GroupHere(cmds);
      GroupPlaced(cmds, first);
      GroupAfterEach(cmds, oldrt, register);
      var w, rest := OwnWait(cmds), AfterGroup(cmds);
      var r := RegisterAfter(cmds[..k], if w != oldrt then w else register);
      SameCons(w + WaitsHere(rest).lead, WaitsHere(rest).after, r, WaitsAfterEach(Reordered(rest, w), r));
      if AllZero(cmds[..k]) {
        RegisterAfterZeros(cmds[..k], if w != oldrt then w else register);
        ReorderedMeaning(rest, w, w, false);
      }
    }
  }

  lemma PlacedNothing(place: Place)
    ensures Placed([], place)
  {
  }

  lemma NothingToHoist(cmds: seq<Cmd>, oldrt: nat, register: nat)
    requires FirstShift(cmds) == |cmds|
    ensures WaitsAfterEach(Reordered(cmds, oldrt), register) == WaitsHere(cmds).after == []
    ensures WaitsHere(cmds).lead == 0 <==> AllZero(cmds[..|cmds|])
  {
    assert cmds + [] == cmds && cmds[..|cmds|] == cmds;
    WaitsHerePrefix(cmds, []);
    if cmds != [] {
      var hoisted := if 0 != oldrt then [XRunTest(0)] else [];
      WaitsAfterPrefix(hoisted + cmds, [], register);
      assert hoisted + cmds + [] == Reordered(cmds, oldrt);
    }
  }

  // ---------- What reordering leaves alone ----------

  // The commands other than XRUNTEST, in order.
  function WithoutRunTest(cmds: seq<Cmd>): seq<Cmd>
  {
    if cmds == [] then []
    else (if cmds[0].XRunTest? then [] else [cmds[0]]) + WithoutRunTest(cmds[1..])
  }

  lemma {:induction false} WithoutRunTestConcat(a: seq<Cmd>, b: seq<Cmd>)
    ensures WithoutRunTest(a + b) == WithoutRunTest(a) + WithoutRunTest(b)
  {
    if a == [] {
      assert a + b == b;
    } else {
      assert (a + b)[1..] == a[1..] + b;
      WithoutRunTestConcat(a[1..], b);
    }
  }

  lemma GroupWithoutRunTest(cmds: seq<Cmd>)
    requires FirstShift(cmds) < |cmds|
    ensures WithoutRunTest(cmds) == WithoutRunTest(cmds[..FirstShift(cmds) + 1]) + WithoutRunTest(AfterGroup(cmds))
  {
    hide FirstShift, WithoutRunTest, Behind, OwnRunTest, AfterGroup;
    SplitBehind(cmds);
    WithoutRunTestConcat(cmds[..FirstShift(cmds) + 1], Behind(cmds));
    BehindWithoutRunTest(cmds);
  }

  lemma SplitBehind(cmds: seq<Cmd>)
    requires FirstShift(cmds) < |cmds|
    ensures cmds == cmds[..FirstShift(cmds) + 1] + Behind(cmds)
  {
    hide FirstShift;
    Split2(cmds, FirstShift(cmds) + 1);
  }

  lemma BehindWithoutRunTest(cmds: seq<Cmd>)
    requires FirstShift(cmds) < |cmds|
    ensures WithoutRunTest(Behind(cmds)) == WithoutRunTest(AfterGroup(cmds))
  {
    hide FirstShift, WithoutRunTest, Behind, AfterGroup;
    BehindShift(cmds);
    if OwnRunTest(cmds) != [] {
      DropRunTest(OwnRunTest(cmds)[0], AfterGroup(cmds));
      assert OwnRunTest(cmds) == [OwnRunTest(cmds)[0]];
    } else {
      assert OwnRunTest(cmds) + AfterGroup(cmds) == AfterGroup(cmds);
    }
  }

  lemma DropRunTest(c: Cmd, rest: seq<Cmd>)
    ensures c.XRunTest? ==> WithoutRunTest([c] + rest) == WithoutRunTest(rest)
  {
    assert ([c] + rest)[1..] == rest;
  }

  // What Reordered puts behind the hoisted XRUNTEST, if it hoists one.
  function Kept(cmds: seq<Cmd>): seq<Cmd>
    decreases |cmds|, 0
  {
    if FirstShift(cmds) == |cmds| then cmds
    else cmds[..FirstShift(cmds) + 1] + Reordered(AfterGroup(cmds), OwnWait(cmds))
  }

  lemma ReorderedShape(cmds: seq<Cmd>, oldrt: nat)
    requires cmds != []
    ensures Reordered(cmds, oldrt)
         == if OwnWait(cmds) != oldrt then [XRunTest(OwnWait(cmds))] + Kept(cmds) else Kept(cmds)
  {
    hide FirstShift, OwnWait, AfterGroup;
  }

  // Reordering moves XRUNTESTs only.
  lemma {:induction false} OrderKept(cmds: seq<Cmd>, oldrt: nat)
    ensures WithoutRunTest(Reordered(cmds, oldrt)) == WithoutRunTest(cmds)
    decreases |cmds|
  {
    if cmds != [] {
      hide FirstShift, WithoutRunTest, AfterGroup, OwnWait, Reordered;
      if FirstShift(cmds) < |cmds| {
        OrderKept(AfterGroup(cmds), OwnWait(cmds));
        WithoutRunTestConcat(cmds[..FirstShift(cmds) + 1], Reordered(AfterGroup(cmds), OwnWait(cmds)));
        GroupWithoutRunTest(cmds);
      }
      assert WithoutRunTest(Kept(cmds)) == WithoutRunTest(cmds);
      ReorderedShape(cmds, oldrt);
      DropRunTest(XRunTest(OwnWait(cmds)), Kept(cmds));
    }
  }

  lemma {:induction false} ShiftsIgnoreRunTest(r: Regs, cmds: seq<Cmd>)
    ensures Shifts(r, WithoutRunTest(cmds)) == Shifts(r, cmds)
    decreases |cmds|
  {
    if cmds != [] {
      hide ShiftOf;
      ShiftsIgnoreRunTest(Next(r, cmds[0]), cmds[1..]);
      if cmds[0].XRunTest? {
        assert WithoutRunTest(cmds) == WithoutRunTest(cmds[1..]);
      } else {
        assert WithoutRunTest(cmds)[1..] == WithoutRunTest(cmds[1..]);
      }
    }
  }

  lemma {:induction false} SizesIgnoreRunTest(cmds: seq<Cmd>, numBytes: Option<nat>)
    ensures AllSized(WithoutRunTest(cmds), numBytes) == AllSized(cmds, numBytes)
    decreases |cmds|
  {
    if cmds != [] {
      SizesIgnoreRunTest(cmds[1..], NumBytes(cmds[0], numBytes));
      if cmds[0].XRunTest? {
        assert WithoutRunTest(cmds) == WithoutRunTest(cmds[1..]);
      } else {
        assert WithoutRunTest(cmds)[1..] == WithoutRunTest(cmds[1..]);
      }
    }
  }

  // The same shifts come out, and their payloads still have the sizes in force.
  lemma ReorderedShifts(r: Regs, numBytes: Option<nat>, cmds: seq<Cmd>, oldrt: nat)
    ensures Shifts(r, Reordered(cmds, oldrt)) == Shifts(r, cmds)
    ensures AllSized(Reordered(cmds, oldrt), numBytes) == AllSized(cmds, numBytes)
  {
    OrderKept(cmds, oldrt);
    ShiftsIgnoreRunTest(r, cmds);
    ShiftsIgnoreRunTest(r, Reordered(cmds, oldrt));
    SizesIgnoreRunTest(cmds, numBytes);
    SizesIgnoreRunTest(Reordered(cmds, oldrt), numBytes);
  }

  // ---------- How much comes out ----------

  // An XRUNTEST(0) is added only where a nonzero one was in force, so at most one command
  // is added for every two.
  lemma {:induction false} ReorderedLength(cmds: seq<Cmd>, oldrt: nat)
    ensures 2 * |Reordered(cmds, oldrt)| <= 3 * |cmds| + if oldrt != 0 then 1 else 0
    decreases |cmds|
  {
    if cmds != [] && FirstShift(cmds) < |cmds| {
      hide FirstShift;
      ReorderedLength(AfterGroup(cmds), OwnWait(cmds));
    }
  }

  // No XRUNTEST sets the register to the value that the last one gave it.
  predicate NoneRepeats(cmds: seq<Cmd>, register: nat)
  {
    cmds == [] ||
    if cmds[0].XRunTest? then cmds[0].count != register && NoneRepeats(cmds[1..], cmds[0].count)
    else NoneRepeats(cmds[1..], register)
  }

  // Every XRUNTEST directly follows a shift.
  predicate OnlyOwnWaits(cmds: seq<Cmd>)
  {
    forall i :: 0 <= i < |cmds| && cmds[i].XRunTest? ==> i > 0 && cmds[i - 1].IsShift()
  }

  lemma {:induction false} NoneRepeatsAfter(pre: seq<Cmd>, rest: seq<Cmd>, register: nat)
    requires NoRunTest(pre) && NoneRepeats(rest, register)
    ensures NoneRepeats(pre + rest, register)
  {
    if pre == [] {
      assert pre + rest == rest;
    } else {
      assert (pre + rest)[1..] == pre[1..] + rest;
      NoneRepeatsAfter(pre[1..], rest, register);
    }
  }

  lemma {:induction false} NoneEmittedTwice(cmds: seq<Cmd>, oldrt: nat)
    requires OnlyOwnWaits(cmds)
    ensures NoneRepeats(Reordered(cmds, oldrt), oldrt)
    decreases |cmds|
  {
    if cmds != [] {
      hide FirstShift, NoneRepeats, NoRunTest, OnlyOwnWaits, AfterGroup, OwnWait, Reordered;
      var k, w := FirstShift(cmds), OwnWait(cmds);
      GroupHasNoRunTest(cmds);
      if k < |cmds| {
        NoneEmittedTwice(AfterGroup(cmds), w);
        NoneRepeatsAfter(cmds[..k + 1], Reordered(AfterGroup(cmds), w), w);
      } else {
        NoneRepeatsNothing(w);
        NoneRepeatsAfter(cmds, [], w);
        assert cmds + [] == cmds;
      }
      assert NoneRepeats(Kept(cmds), w);
      ReorderedShape(cmds, oldrt);
      if w != oldrt {
        NoneRepeatsFirst(w, Kept(cmds), oldrt);
      }
    }
  }

  lemma NoneRepeatsNothing(register: nat)
    ensures NoneRepeats([], register)
  {
  }

  lemma NoneRepeatsFirst(w: Long, rest: seq<Cmd>, oldrt: nat)
    requires w != oldrt && NoneRepeats(rest, w)
    ensures NoneRepeats([XRunTest(w)] + rest, oldrt)
  {
    assert ([XRunTest(w)] + rest)[1..] == rest;
  }

  lemma GroupHasNoRunTest(cmds: seq<Cmd>)
    requires OnlyOwnWaits(cmds)
    ensures var k := FirstShift(cmds);
            if k == |cmds| then NoRunTest(cmds) else NoRunTest(cmds[..k + 1]) && OnlyOwnWaits(AfterGroup(cmds))
  {
    hide FirstShift;
    var k := FirstShift(cmds);
    forall i | 0 <= i <= k && i < |cmds|
      ensures !cmds[i].XRunTest?
    {
      if i > 0 {
        assert !cmds[i - 1].IsShift();
      }
    }
  }

  // ---------- processIndex ----------

  // What an index entry points at.
  datatype CmdPtr = XComplete | At(cmd: Cmd)

  // An index of the given commands, ended by an entry for XCOMPLETE.
  function IndexOf(cmds: seq<Cmd>): (index: seq<CmdPtr>)
    ensures |index| == |cmds| + 1
    ensures index[|cmds|] == XComplete && forall i :: 0 <= i < |cmds| ==> index[i] == At(cmds[i])
  {
    if cmds == [] then [XComplete] else [At(cmds[0])] + IndexOf(cmds[1..])
  }

  lemma FirstShiftFrom(cmds: seq<Cmd>, s: nat, k: nat)
    requires s <= k <= |cmds|
    requires forall i :: s <= i < k ==> !cmds[i].IsShift()
    requires k < |cmds| ==> cmds[k].IsShift()
    ensures FirstShift(cmds[s..]) == k - s
  {
    assert forall i :: 0 <= i < |cmds| - s ==> cmds[s..][i] == cmds[s + i];
  }

  // For a group whose shift is entry k (or the end of cmds, for the commands after the
  // last shift): the count it waits, and the entry that the next group starts at.
  function WaitAt(cmds: seq<Cmd>, k: nat): Long
  {
    if k + 1 < |cmds| && cmds[k + 1].XRunTest? then cmds[k + 1].count else 0
  }

  function NextAt(cmds: seq<Cmd>, k: nat): (next: nat)
    requires k <= |cmds|
    ensures k <= next <= |cmds| && (k < |cmds| ==> k < next)
  {
    if k == |cmds| then k else if k + 1 < |cmds| && cmds[k + 1].XRunTest? then k + 2 else k + 1
  }

  function Hoisted(newrt: Long, oldrt: nat): (h: seq<Cmd>)
    ensures |h| <= 1
  {
    if newrt != oldrt then [XRunTest(newrt)] else []
  }

  lemma BehindFrom(cmds: seq<Cmd>, s: nat, k: nat)
    requires s <= k < |cmds| && FirstShift(cmds[s..]) == k - s
    ensures Behind(cmds[s..]) == cmds[k + 1..]
  {
    hide FirstShift;
  }

  lemma RestFrom(cmds: seq<Cmd>, s: nat, k: nat)
    requires s <= k < |cmds| && FirstShift(cmds[s..]) == k - s
    ensures OwnWait(cmds[s..]) == WaitAt(cmds, k)
    ensures AfterGroup(cmds[s..]) == cmds[NextAt(cmds, k)..]
  {
    hide FirstShift, Behind;
    BehindFrom(cmds, s, k);
  }

  lemma GroupFrom(cmds: seq<Cmd>, s: nat, k: nat, oldrt: nat)
    requires s <= k < |cmds| && FirstShift(cmds[s..]) == k - s
    ensures Reordered(cmds[s..], oldrt)
         == Hoisted(WaitAt(cmds, k), oldrt) + cmds[s..k + 1] + Reordered(cmds[NextAt(cmds, k)..], WaitAt(cmds, k))
  {
    hide FirstShift, OwnWait, AfterGroup, WaitAt, NextAt;
    RestFrom(cmds, s, k);
    assert cmds[s..][..k - s + 1] == cmds[s..k + 1];
  }

  lemma LastGroupFrom(cmds: seq<Cmd>, s: nat, k: nat, oldrt: nat)
    requires s < |cmds| == k && FirstShift(cmds[s..]) == k - s
    ensures Reordered(cmds[s..], oldrt) == Hoisted(0, oldrt) + cmds[s..]
  {
    hide FirstShift;
  }

  // Emitting one group more leaves the rest to be reordered.
  lemma EmitStep(cmds: seq<Cmd>, s: nat, k: nat, oldrt: nat, done: seq<Cmd>)
    requires s < |cmds| && s <= k <= |cmds| && FirstShift(cmds[s..]) == k - s
    ensures var e := if k < |cmds| then k + 1 else k;
            done + Reordered(cmds[s..], oldrt)
            == (done + Hoisted(WaitAt(cmds, k), oldrt) + cmds[s..e])
               + Reordered(cmds[NextAt(cmds, k)..], WaitAt(cmds, k))
  {
    hide FirstShift, Reordered, Hoisted;
    if k < |cmds| {
      GroupFrom(cmds, s, k, oldrt);
    } else {
      LastGroupFrom(cmds, s, k, oldrt);
      assert cmds[NextAt(cmds, k)..] == [];
      NothingReordered(WaitAt(cmds, k));
      assert cmds[s..k] == cmds[s..];
    }
  }

  lemma NothingReordered(oldrt: nat)
    ensures Reordered([], oldrt) == []
  {
  }

  // Copy the entries of src from s to ptr to the end of what is in dst.
  method CopyBacklog(src: array<CmdPtr>, s: nat, ptr: nat, dst: array<CmdPtr>, d: nat,
                     ghost cmds: seq<Cmd>, ghost done: seq<Cmd>)
    returns (d': nat)
    requires src != dst && s <= ptr <= |cmds| && src.Length == |cmds| + 1 && src[..] == IndexOf(cmds)
    requires d == |done| && d + (ptr - s) <= dst.Length
    requires forall i :: 0 <= i < d ==> dst[i] == At(done[i])
    modifies dst
    ensures d' == d + (ptr - s)
    ensures forall i :: 0 <= i < d' ==> dst[i] == At((done + cmds[s..ptr])[i])
  {
    var i := s;
    d' := d;
    while i < ptr
      invariant s <= i <= ptr && d' == d + (i - s)
      invariant src[..] == IndexOf(cmds)
      invariant forall j :: 0 <= j < d' ==> dst[j] == At((done + cmds[s..ptr])[j])
    {
      assert src[..][i] == At(cmds[i]);
      dst[d'] := src[i];
      i, d' := i + 1, d' + 1;
    }
  }

  // Emit one group: an XRUNTEST if the count changes, then the backlog.
  method EmitGroup(srcIndex: array<CmdPtr>, src: nat, ptr: nat, dstIndex: array<CmdPtr>, dst: nat,
                   oldrt: nat, newrt: Long,
                   ghost cmds: seq<Cmd>, ghost done: seq<Cmd>)
    returns (dst': nat, ghost done': seq<Cmd>)
    requires srcIndex != dstIndex && srcIndex[..] == IndexOf(cmds) && src <= ptr <= |cmds|
    requires dst == |done| && dst + |Hoisted(newrt, oldrt)| + (ptr - src) <= dstIndex.Length
    requires forall i :: 0 <= i < dst ==> dstIndex[i] == At(done[i])
    modifies dstIndex
    ensures done' == done + Hoisted(newrt, oldrt) + cmds[src..ptr]
    ensures dst' == |done'| && forall i :: 0 <= i < dst' ==> dstIndex[i] == At(done'[i])
  {
    hide IndexOf;
    dst', done' := dst, done;
    if newrt != oldrt {
      dstIndex[dst'] := At(XRunTest(newrt));
      done' := done' + [XRunTest(newrt)];
      dst' := dst' + 1;
    }
    dst' := CopyBacklog(srcIndex, src, ptr, dstIndex, dst', cmds, done');
    done' := done' + cmds[src..ptr];
  }

  lemma IndexIsPrefix(out: seq<Cmd>, dst: seq<CmdPtr>)
    requires |dst| > |out| && dst[|out|] == XComplete
    requires forall i :: 0 <= i < |out| ==> dst[i] == At(out[i])
    ensures IndexOf(out) <= dst
  {
    hide IndexOf;
  }

  // Skip to the next shift, or to the end.
  method FindShift(srcIndex: array<CmdPtr>, src: nat, ghost cmds: seq<Cmd>) returns (ptr: nat)
    requires srcIndex[..] == IndexOf(cmds) && src <= |cmds|
    ensures src <= ptr <= |cmds| && FirstShift(cmds[src..]) == ptr - src
    ensures srcIndex[ptr] == if ptr < |cmds| then At(cmds[ptr]) else XComplete
  {
    hide IndexOf, FirstShift;
    ptr := src;
    assert forall i :: 0 <= i <= |cmds| ==> srcIndex[i] == IndexOf(cmds)[i];
    while srcIndex[ptr] != XComplete && !srcIndex[ptr].cmd.IsShift()
      invariant src <= ptr <= |cmds|
      invariant forall i :: src <= i < ptr ==> !cmds[i].IsShift()
      decreases |cmds| - ptr
    {
      ptr := ptr + 1;
    }
    FirstShiftFrom(cmds, src, ptr);
  }

  // Step past the shift at k, if there is one, and look for its XRUNTEST.
  method OwnWaitAt(srcIndex: array<CmdPtr>, k: nat, ghost cmds: seq<Cmd>) returns (newrt: Long, ptr: nat, next: nat)
    requires srcIndex[..] == IndexOf(cmds) && k <= |cmds|
    ensures newrt == WaitAt(cmds, k) && next == NextAt(cmds, k)
    ensures ptr == if k < |cmds| then k + 1 else k
  {
    hide IndexOf;
    assert forall i :: 0 <= i <= |cmds| ==> srcIndex[i] == IndexOf(cmds)[i];
    newrt, ptr := 0, k;
    if srcIndex[ptr] != XComplete {
      ptr := ptr + 1;
    }
    next := ptr;
    if srcIndex[ptr] != XComplete && srcIndex[ptr].cmd.XRunTest? {
      newrt := srcIndex[ptr].cmd.count;
      next := ptr + 1;
    }
  }

  lemma EndOfIndex(cmds: seq<Cmd>, ptr: nat, entry: CmdPtr, oldrt: nat)
    requires ptr <= |cmds| && entry == IndexOf(cmds)[ptr] && entry == XComplete
    ensures ptr == |cmds| && Reordered(cmds[ptr..], oldrt) == []
  {
  }

  method ProcessIndex(srcIndex: array<CmdPtr>, dstIndex: array<CmdPtr>, ghost cmds: seq<Cmd>)
    requires srcIndex != dstIndex && srcIndex[..] == IndexOf(cmds)
    requires dstIndex.Length == srcIndex.Length * 3 / 2
    modifies dstIndex
    ensures IndexOf(Reordered(cmds, ILLEGAL32)) <= dstIndex[..]
  {
    hide FirstShift, IndexOf, Reordered, WaitAt, NextAt, Hoisted;
    ReorderedLength(cmds, ILLEGAL32);
    ghost var out := Reordered(cmds, ILLEGAL32);
    var oldrt: nat := ILLEGAL32;
    var ptr, src, dst := 0, 0, 0;
    ghost var done: seq<Cmd> := [];
    assert cmds[0..] == cmds;
    while srcIndex[ptr] != XComplete
      invariant srcIndex[..] == IndexOf(cmds)
      invariant 0 <= src == ptr <= |cmds|
      invariant out == done + Reordered(cmds[ptr..], oldrt)
      invariant dst == |done| <= dstIndex.Length
      invariant forall i :: 0 <= i < dst ==> dstIndex[i] == At(done[i])
      decreases |cmds| - ptr
    {
      assert srcIndex[ptr] == IndexOf(cmds)[ptr];
      ptr := FindShift(srcIndex, src, cmds);
      EmitStep(cmds, src, ptr, oldrt, done);
      var newrt: Long, next: nat;
      newrt, ptr, next := OwnWaitAt(srcIndex, ptr, cmds);
      dst, done := EmitGroup(srcIndex, src, ptr, dstIndex, dst, oldrt, newrt, cmds, done);
      oldrt := newrt;
      ptr := next;
      src := ptr;
    }
    EndOfIndex(cmds, ptr, srcIndex[ptr], oldrt);
    assert done + [] == done;
    dstIndex[dst] := srcIndex[ptr];
    IndexIsPrefix(out, dstIndex[..]);
  }
}
