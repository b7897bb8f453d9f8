// The EEPROM format of the FX2 boot loader: a header, records of up to 1023 bytes at an
// address, and a last record that resets the chip (section 3.4.3 of the Cypress EZ-USB FX2LP
// Technical Reference Manual).
module I2cFormat {
  import opened Bytes

  const MAX_CHUNK: nat := 1023

  // ---------- Which bytes are stored ----------

  // The mask at i; past the end there is zero fill.
  function MaskAt(mask: seq<byte>, i: nat): byte
  {
    if i < |mask| then mask[i] else 0
  }

  function NextOne(mask: seq<byte>, i: nat): (j: nat)
    ensures i <= |mask| ==> i <= j <= |mask|
    ensures i > |mask| ==> j == i
    ensures j < |mask| ==> mask[j] != 0
    ensures forall k :: i <= k < j && k < |mask| ==> mask[k] == 0
    decreases |mask| - i
  {
    if i >= |mask| || mask[i] != 0 then i else NextOne(mask, i + 1)
  }

  function NextZero(mask: seq<byte>, i: nat): (j: nat)
    requires i <= |mask|
    ensures i <= j <= |mask| && (j < |mask| ==> mask[j] == 0)
    ensures forall k :: i <= k < j ==> mask[k] != 0
    decreases |mask| - i
  {
    if i == |mask| || mask[i] == 0 then i else NextZero(mask, i + 1)
  }

  // A stretch of memory.
  datatype Chunk = Chunk(start: nat, length: nat)

  // Whether the gap at z is worth a new record: four zeros, and not within four bytes of the
  // end. The length less four is taken in unsigned arithmetic.
  predicate WorthSplitting(mask: seq<byte>, z: nat)
  {
    && (|mask| < 4 || z + 4 < |mask|)
    && MaskAt(mask, z) == 0 && MaskAt(mask, z + 1) == 0 && MaskAt(mask, z + 2) == 0 && MaskAt(mask, z + 3) == 0
  }

  // For fewer than four bytes that wraps around: they, and only they, are split within four
  // bytes of the end, wherever nothing more is meant.
  lemma SmallImages(mask: seq<byte>, z: nat)
    requires z < |mask|
    ensures WorthSplitting(mask, z) && z + 4 >= |mask|
       <==> |mask| < 4 && forall k :: z <= k < |mask| ==> mask[k] == 0
  {
    assert forall k :: z <= k < |mask| ==> MaskAt(mask, k) == mask[k];
  }

  // The stretches to store, with one under way since start.
  function Chunks(mask: seq<byte>, start: nat, i: nat): (cs: seq<Chunk>)
    requires start <= i < |mask| && mask[i] != 0
    decreases |mask| - i, 1
  {
    var z := NextZero(mask, i);
    if z == |mask| then [Chunk(start, |mask| - start)]
    else if WorthSplitting(mask, z) then
      [Chunk(start, z - start)] + AfterSplit(mask, z)
    else if |mask| < 4 || z + 4 < |mask| then
      InnerGap(mask, z);
      Chunks(mask, start, NextOne(mask, z))
    else [Chunk(start, |mask| - start)]
  }

  // The stretches when one has just been ended by a gap at z.
  function AfterSplit(mask: seq<byte>, z: nat): seq<Chunk>
    requires z < |mask|
    decreases |mask| - z, 0
  {
    var o := NextOne(mask, z + 4);
    if o >= |mask| then [] else Chunks(mask, o, o)
  }

  lemma ChunksSplit(mask: seq<byte>, start: nat, i: nat, z: nat)
    requires start <= i < |mask| && mask[i] != 0 && z == NextZero(mask, i) < |mask| && WorthSplitting(mask, z)
    ensures i < z && Chunks(mask, start, i) == [Chunk(start, z - start)] + AfterSplit(mask, z)
  {
    hide NextZero, NextOne, WorthSplitting, AfterSplit;
  }

  lemma ChunksGoOn(mask: seq<byte>, start: nat, i: nat, z: nat)
    requires start <= i < |mask| && mask[i] != 0 && z == NextZero(mask, i) < |mask|
    requires !WorthSplitting(mask, z) && (|mask| < 4 || z + 4 < |mask|)
    ensures i < z < NextOne(mask, z) < |mask| && Chunks(mask, start, i) == Chunks(mask, start, NextOne(mask, z))
  {
    InnerGap(mask, z);
    hide NextZero, NextOne, WorthSplitting, AfterSplit;
  }

  lemma ChunksEnd(mask: seq<byte>, start: nat, i: nat, z: nat)
    requires start <= i < |mask| && mask[i] != 0 && z == NextZero(mask, i)
    requires z == |mask| || !(|mask| < 4 || z + 4 < |mask|)
    ensures i < z && Chunks(mask, start, i) == [Chunk(start, |mask| - start)]
  {
    hide NextZero, NextOne, AfterSplit;
  }

  lemma InnerGap(mask: seq<byte>, z: nat)
    requires z < |mask| && mask[z] == 0 && !WorthSplitting(mask, z) && (|mask| < 4 || z + 4 < |mask|)
    ensures z < NextOne(mask, z) < |mask| && NextOne(mask, z) <= z + 3
  {
    var o := NextOne(mask, z);
    if o > z + 3 {
      assert forall k :: z <= k < z + 4 ==> MaskAt(mask, k) == 0;
    }
  }

  function AllChunks(mask: seq<byte>): seq<Chunk>
  {
    var i := NextOne(mask, 0);
    if i == |mask| then [] else Chunks(mask, i, i)
  }

  // In order, not overlapping, not empty, and from at on.
  predicate InOrder(cs: seq<Chunk>, at: nat, n: nat)
    decreases |cs|
  {
    if cs == [] then at <= n
    else at <= cs[0].start && cs[0].length > 0 && InOrder(cs[1..], cs[0].start + cs[0].length, n)
  }

  predicate Stored(cs: seq<Chunk>, i: nat)
    decreases |cs|
  {
    cs != [] && (cs[0].start <= i < cs[0].start + cs[0].length || Stored(cs[1..], i))
  }

  // The chunks are in order from start on, and store what is meant and all before i.
  predicate Covers(cs: seq<Chunk>, mask: seq<byte>, start: nat, i: nat)
  {
    && InOrder(cs, start, |mask|)
    && forall k :: start <= k < |mask| && (mask[k] != 0 || k < i) ==> Stored(cs, k)
  }

  lemma {:induction false} ChunksCover(mask: seq<byte>, start: nat, i: nat)
    requires start <= i < |mask| && mask[i] != 0
    ensures Covers(Chunks(mask, start, i), mask, start, i)
    decreases |mask| - i
  {
    hide Covers, WorthSplitting;
    var z := NextZero(mask, i);
    if z < |mask| && WorthSplitting(mask, z) {
      var o := NextOne(mask, z + 4);
      if o < |mask| {
        ChunksCover(mask, o, o);
      }
      SplitCovers(mask, start, i, z, if o < |mask| then Chunks(mask, o, o) else []);
    } else if z < |mask| && (|mask| < 4 || z + 4 < |mask|) {
      InnerGap(mask, z);
      var o := NextOne(mask, z);
      ChunksCover(mask, start, o);
      CoversLess(Chunks(mask, start, o), mask, start, o, i);
    } else {
      WholeCovers(mask, start, i);
    }
  }

  lemma CoversMeans(cs: seq<Chunk>, mask: seq<byte>, start: nat, i: nat, k: nat)
    requires Covers(cs, mask, start, i)
    ensures InOrder(cs, start, |mask|)
    ensures start <= k < |mask| && (mask[k] != 0 || k < i) ==> Stored(cs, k)
  {
  }

  lemma CoversLess(cs: seq<Chunk>, mask: seq<byte>, start: nat, o: nat, i: nat)
    requires Covers(cs, mask, start, o) && i <= o
    ensures Covers(cs, mask, start, i)
  {
  }

  lemma WholeCovers(mask: seq<byte>, start: nat, i: nat)
    requires start < |mask|
    ensures Covers([Chunk(start, |mask| - start)], mask, start, i)
  {
    var cs := [Chunk(start, |mask| - start)];
    assert cs[1..] == [] && InOrder([], |mask|, |mask|);
    assert InOrder(cs, start, |mask|);
  }

  lemma SplitCovers(mask: seq<byte>, start: nat, i: nat, z: nat, rest: seq<Chunk>)
    requires start <= i < z < |mask| && WorthSplitting(mask, z)
    requires NextOne(mask, z + 4) >= |mask| ==> rest == []
    requires NextOne(mask, z + 4) < |mask| ==> Covers(rest, mask, NextOne(mask, z + 4), NextOne(mask, z + 4))
    ensures Covers([Chunk(start, z - start)] + rest, mask, start, i)
  {
    var cs, o := [Chunk(start, z - start)] + rest, NextOne(mask, z + 4);
    assert cs[1..] == rest;
    if o < |mask| {
      OrderFrom(rest, z, o, |mask|);
    }
    assert InOrder(rest, z, |mask|);
    assert InOrder(cs, start, |mask|);
    forall k | start <= k < |mask| && (mask[k] != 0 || k < i)
      ensures Stored(cs, k)
    {
      if k >= z {
        assert MaskAt(mask, k) != 0;
        assert k >= o && Stored(rest, k);
      }
    }
  }

  lemma OrderFrom(cs: seq<Chunk>, at: nat, from: nat, n: nat)
    requires InOrder(cs, from, n) && at <= from
    ensures InOrder(cs, at, n)
  {
  }

  // ---------- Exactly which zeros are stored ----------

  // Where the run of zeros around i starts.
  function RunStart(mask: seq<byte>, i: nat): (a: nat)
    requires i < |mask| && mask[i] == 0
    ensures a <= i && mask[a] == 0 && (a > 0 ==> mask[a - 1] != 0)
    ensures forall k :: a <= k <= i ==> mask[k] == 0
  {
    if i == 0 || mask[i - 1] != 0 then i else RunStart(mask, i - 1)
  }

  // A byte that is not meant is stored all the same when something meant comes before its
  // run and the run is not worth splitting at.
  predicate Bridged(mask: seq<byte>, i: nat)
    requires i < |mask| && mask[i] == 0
  {
    RunStart(mask, i) > 0 && !WorthSplitting(mask, RunStart(mask, i))
  }

  lemma RunStartIs(mask: seq<byte>, z: nat, k: nat)
    requires z <= k < |mask| && (z > 0 ==> mask[z - 1] != 0) && forall j :: z <= j <= k ==> mask[j] == 0
    ensures RunStart(mask, k) == z
  {
  }

  lemma RunStartFrom(mask: seq<byte>, z: nat, k: nat)
    requires z <= k < |mask| && mask[k] == 0 && (z > 0 ==> mask[z - 1] != 0)
    ensures RunStart(mask, k) >= z
  {
  }

  lemma {:induction false} NotStoredBefore(cs: seq<Chunk>, at: nat, n: nat, k: nat)
    requires InOrder(cs, at, n) && k < at
    ensures !Stored(cs, k)
    decreases |cs|
  {
    if cs != [] {
      NotStoredBefore(cs[1..], cs[0].start + cs[0].length, n, k);
    }
  }

  lemma {:induction false} ChunksExact(mask: seq<byte>, start: nat, i: nat, k: nat)
    requires start <= i < |mask| && mask[i] != 0 && i <= k < |mask|
    ensures Stored(Chunks(mask, start, i), k) <==> mask[k] != 0 || Bridged(mask, k)
    decreases |mask| - i, 1
  {
    hide WorthSplitting, Covers;
    var z, cs := NextZero(mask, i), Chunks(mask, start, i);
    ChunksCover(mask, start, i);
    CoversMeans(cs, mask, start, i, k);
    if k >= z {
      if WorthSplitting(mask, z) {
        ExactAfterSplit(mask, start, i, z, k);
      } else if |mask| < 4 || z + 4 < |mask| {
        InnerGap(mask, z);
        var o := NextOne(mask, z);
        ChunksCover(mask, start, o);
        if k < o {
          RunStartIs(mask, z, k);
          CoversMeans(Chunks(mask, start, o), mask, start, o, k);
        } else {
          ChunksExact(mask, start, o, k);
        }
      } else {
        assert Stored([Chunk(start, |mask| - start)], k);
        if mask[k] == 0 {
          RunStartFrom(mask, z, k);
          TooNearTheEnd(mask, RunStart(mask, k));
        }
      }
    }
  }

  lemma TooNearTheEnd(mask: seq<byte>, a: nat)
    requires |mask| >= 4 && a + 4 >= |mask|
    ensures !WorthSplitting(mask, a)
  {
  }

  lemma ExactAfterSplit(mask: seq<byte>, start: nat, i: nat, z: nat, k: nat)
    requires start <= i < |mask| && mask[i] != 0 && z == NextZero(mask, i) <= k < |mask| && WorthSplitting(mask, z)
    ensures Stored(Chunks(mask, start, i), k) <==> mask[k] != 0 || Bridged(mask, k)
    decreases |mask| - i, 0
  {
    hide Covers;
    var o, cs := NextOne(mask, z + 4), Chunks(mask, start, i);
    var rest := if o >= |mask| then [] else Chunks(mask, o, o);
    assert forall j :: z <= j < z + 4 && j < |mask| ==> MaskAt(mask, j) == mask[j];
    assert forall j :: z <= j < o && j < |mask| ==> mask[j] == 0;
    ChunksSplit(mask, start, i, z);
    assert AfterSplit(mask, z) == rest && cs[1..] == rest;
    assert Stored(cs, k) <==> Stored(rest, k);
    if k < o {
      RunStartIs(mask, z, k);
      if o < |mask| {
        ChunksCover(mask, o, o);
        CoversMeans(rest, mask, o, o, k);
        NotStoredBefore(rest, o, |mask|, k);
      }
    } else {
      ChunksExact(mask, o, o, k);
    }
  }

  // What is stored: all that is meant, and the gaps that are not worth splitting at.
  lemma StoredExact(mask: seq<byte>, k: nat)
    requires k < |mask|
    ensures InOrder(AllChunks(mask), 0, |mask|)
    ensures Stored(AllChunks(mask), k) <==> mask[k] != 0 || Bridged(mask, k)
  {
    hide WorthSplitting;
    var i := NextOne(mask, 0);
    if k < i {
      RunStartIs(mask, 0, k);
    }
    if i < |mask| {
      ChunksCover(mask, i, i);
      var cs := Chunks(mask, i, i);
      CoversMeans(cs, mask, i, i, k);
      OrderFrom(cs, 0, i, |mask|);
      if k < i {
        NotStoredBefore(cs, i, |mask|, k);
      } else {
        ChunksExact(mask, i, i, k);
      }
    }
  }

  // There is something that is not stored between one stretch and the next.
  predicate Apart(cs: seq<Chunk>)
  {
    forall k :: 0 < k < |cs| ==> cs[k - 1].start + cs[k - 1].length < cs[k].start
  }

  lemma NoneApart()
    ensures Apart([])
  {
  }

  lemma ApartMore(c: Chunk, cs: seq<Chunk>)
    requires Apart(cs) && (cs != [] ==> c.start + c.length < cs[0].start)
    ensures Apart([c] + cs)
  {
    assert forall k :: 0 < k < |[c] + cs| ==> ([c] + cs)[k] == cs[k - 1];
  }

  lemma {:induction false} ChunksApart(mask: seq<byte>, start: nat, i: nat)
    requires start <= i < |mask| && mask[i] != 0
    ensures var cs := Chunks(mask, start, i); Apart(cs) && cs != [] && cs[0].start == start
    decreases |mask| - i
  {
    hide WorthSplitting, Apart, NextOne, NextZero, MaskAt, Chunks;
    var z := NextZero(mask, i);
    if z < |mask| && WorthSplitting(mask, z) {
      var o := NextOne(mask, z + 4);
      if o < |mask| {
        ChunksApart(mask, o, o);
      }
      NoneApart();
      ChunksSplit(mask, start, i, z);
      ApartMore(Chunk(start, z - start), AfterSplit(mask, z));
    } else if z < |mask| && (|mask| < 4 || z + 4 < |mask|) {
      InnerGap(mask, z);
      ChunksGoOn(mask, start, i, z);
      ChunksApart(mask, start, NextOne(mask, z));
    } else {
      ChunksEnd(mask, start, i, z);
      NoneApart();
      ApartMore(Chunk(start, |mask| - start), []);
      assert [Chunk(start, |mask| - start)] + [] == [Chunk(start, |mask| - start)];
    }
  }
}
