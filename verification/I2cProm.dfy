// Building and reading FX2 boot loader EEPROM images.
module I2cProm {
  import opened Bytes
  import opened Buffers
  import opened Csvf
  import opened HexImage
  import opened I2cFormat
  import opened I2cRoundTrip

  datatype I2CStatus = I2cSuccess | NotInitialised | DestBufferNotEmpty

  const LOADER: byte := 0xC2

  function Header(vid: nat, pid: nat, did: nat, configByte: byte): (s: seq<byte>)
    requires vid < 0x1_0000 && pid < 0x1_0000 && did < 0x1_0000
    ensures |s| == 8 && s[0] == LOADER
  {
    [LOADER, vid % 256, vid / 256, pid % 256, pid / 256, did % 256, did / 256, configByte]
  }

  // The fields of a header, from where they are.
  lemma HeaderFields(vid: nat, pid: nat, did: nat, configByte: byte)
    requires vid < 0x1_0000 && pid < 0x1_0000 && did < 0x1_0000
    ensures var h := Header(vid, pid, did, configByte);
            && h[0] == 0xC2 && h[7] == configByte
            && h[1] as nat + 256 * h[2] as nat == vid && h[3] as nat + 256 * h[4] as nat == pid
            && h[5] as nat + 256 * h[6] as nat == did
  {
  }

  // The bytes are set in place; a buffer that was longer keeps stale bytes behind them.
  method Initialise(buf: Buffer, vid: nat, pid: nat, did: nat, configByte: byte)
    requires vid < 0x1_0000 && pid < 0x1_0000 && did < 0x1_0000
    requires buf.Valid() && buf.data.Length >= 8
    modifies buf`length, buf.data
    ensures buf.length == 8 <= buf.data.Length && buf.Contents() == Header(vid, pid, did, configByte)
    ensures old(buf.length) <= 8 ==> buf.Valid()
  {
    buf.length := 8;
    buf.data[0] := 0xC2;
    buf.data[1] := vid % 256;
    buf.data[2] := vid / 256;
    buf.data[3] := pid % 256;
    buf.data[4] := pid / 256;
    buf.data[5] := did % 256;
    buf.data[6] := did / 256;
    buf.data[7] := configByte;
  }

  method Finalise(buf: Buffer) returns (status: I2CStatus)
    requires buf.Valid()
    modifies buf`data, buf`length, buf.data
    ensures buf.Valid() && (buf.data == old(buf.data) || fresh(buf.data))
    ensures status == if old(buf.length) < 8 || old(buf.data[0]) != LOADER then NotInitialised else I2cSuccess
    ensures buf.Contents() == old(buf.Contents()) + if status == I2cSuccess then LAST_RECORD else []
  {
    if buf.length < 8 || buf.data[0] != 0xC2 {
      return NotInitialised;
    }
    buf.AppendBlock(LAST_RECORD);
    status := I2cSuccess;
  }

  // ---------- Writing ----------

  // Zero what is not meant among the bytes from start on.
  method ZeroUnmasked(out: array<byte>, start: nat, mask: seq<byte>)
    requires start + |mask| <= out.Length
    modifies out
    ensures forall k {:trigger out[k]} :: 0 <= k < out.Length ==>
              out[k] == if start <= k < start + |mask| && mask[k - start] == 0 then 0 else old(out[k])
  {
    var i := 0;
    while i < |mask|
      invariant 0 <= i <= |mask|
      invariant forall k {:trigger out[k]} :: 0 <= k < out.Length ==>
                  out[k] == if start <= k < start + i && mask[k - start] == 0 then 0 else old(out[k])
    {
      if mask[i] == 0 {
        out[start + i] := 0;
      }
      i := i + 1;
    }
  }

  // One record.
  method DumpRecord(destination: Buffer, data: seq<byte>, mask: seq<byte>, address: nat, length: nat)
    requires destination.Valid() && |data| == |mask| < 0x1_0000 && address + length <= |data|
    modifies destination`data, destination`length, destination.data
    ensures destination.Valid() && (destination.data == old(destination.data) || fresh(destination.data))
    ensures destination.Contents()
         == old(destination.Contents()) + RecordBytes(Zeroed(data, mask), Chunk(address, length))
  {
    hide Zeroed;
    ghost var before := destination.Contents();
    destination.AppendWordBE(length);
    destination.AppendWordBE(address);
    var startBlock := destination.length;
    ghost var head := destination.Contents();
    destination.AppendBlock(data[address..address + length]);
    ghost var full := destination.Contents();
    ZeroUnmasked(destination.data, startBlock, mask[address..address + length]);
    ZeroedBlock(full, destination.Contents(), head, data, mask, address, length);
    RecordJoins(before, head, Zeroed(data, mask), Chunk(address, length));
  }

  lemma RecordJoins(before: seq<byte>, head: seq<byte>, z: seq<byte>, c: Chunk)
    requires |z| < 0x1_0000 && Fits(c, |z|)
    requires head == before + [c.length / 256, c.length % 256] + [c.start / 256, c.start % 256]
    ensures head + z[c.start..c.start + c.length] == before + RecordBytes(z, c)
  {
    assert head == before + (WordBE(c.length) + WordBE(c.start));
    Regroup(before, WordBE(c.length) + WordBE(c.start), z[c.start..c.start + c.length]);
  }

  lemma ZeroedBlock(full: seq<byte>, out: seq<byte>, head: seq<byte>, data: seq<byte>, mask: seq<byte>,
                    address: nat, length: nat)
    requires |data| == |mask| && address + length <= |data| && full == head + data[address..address + length]
    requires |out| == |full|
    requires forall k {:trigger out[k]} :: 0 <= k < |out| ==>
               out[k] == if |head| <= k < |head| + length && mask[address..address + length][k - |head|] == 0 then 0
                         else full[k]
    ensures out == head + Zeroed(data, mask)[address..address + length]
  {
  }

  // A stretch, in records of up to 1023 bytes.
  method DumpChunk(destination: Buffer, data: seq<byte>, mask: seq<byte>, start: nat, count: nat)
    requires destination.Valid() && |data| == |mask| < 0x1_0000 && start + count <= |data|
    modifies destination`data, destination`length, destination.data
    ensures destination.Valid() && (destination.data == old(destination.data) || fresh(destination.data))
    ensures AllFit(Pieces(Chunk(start, count)), |data|)
    ensures destination.Contents() == old(destination.Contents())
            + if count == 0 then [] else RecordsOf(Zeroed(data, mask), Pieces(Chunk(start, count)))
  {
    PiecesFit(Chunk(start, count), |data|);
    if count == 0 {
      return;
    }
    hide RecordBytes, RecordsOf, Pieces, Zeroed, AllFit, Remaining;
    ghost var z := Zeroed(data, mask);
    ghost var goal := destination.Contents() + Remaining(z, start, count);
    RemainingIs(z, start, count);
    var address: nat, length: nat := start, count;
    while length > 1023
      invariant address + length == start + count && length > 0
      invariant destination.Valid() && (destination.data == old(destination.data) || fresh(destination.data))
      invariant destination.Contents() + Remaining(z, address, length) == goal
    {
      FirstPiece(z, address, length);
      Regroup(destination.Contents(), RecordBytes(z, Chunk(address, 1023)),
           Remaining(z, address + 1023, length - 1023));
      DumpRecord(destination, data, mask, address, 1023);
      address := address + 1023;
      length := length - 1023;
    }
    OnlyPiece(z, address, length);
    DumpRecord(destination, data, mask, address, length);
  }

  // The records for a stretch.
  ghost function Remaining(z: seq<byte>, start: nat, count: nat): seq<byte>
    requires |z| < 0x1_0000 && start + count <= |z|
  {
    PiecesFit(Chunk(start, count), |z|);
    RecordsOf(z, Pieces(Chunk(start, count)))
  }

  lemma RemainingIs(z: seq<byte>, start: nat, count: nat)
    requires |z| < 0x1_0000 && start + count <= |z|
    ensures AllFit(Pieces(Chunk(start, count)), |z|)
    ensures Remaining(z, start, count) == RecordsOf(z, Pieces(Chunk(start, count)))
  {
    PiecesFit(Chunk(start, count), |z|);
  }

  lemma {:induction false} PiecesFit(c: Chunk, n: nat)
    requires Fits(c, n)
    ensures AllFit(Pieces(c), n)
    decreases c.length
  {
    if c.length > MAX_CHUNK {
      PiecesFit(Chunk(c.start + MAX_CHUNK, c.length - MAX_CHUNK), n);
    }
  }

  lemma FirstPiece(z: seq<byte>, start: nat, count: nat)
    requires |z| < 0x1_0000 && start + count <= |z| && count > MAX_CHUNK
    ensures Remaining(z, start, count)
         == RecordBytes(z, Chunk(start, MAX_CHUNK)) + Remaining(z, start + MAX_CHUNK, count - MAX_CHUNK)
  {
    hide RecordBytes;
    var c, rest := Chunk(start, count), Pieces(Chunk(start + MAX_CHUNK, count - MAX_CHUNK));
    assert Pieces(c)[0] == Chunk(start, MAX_CHUNK) && Pieces(c)[1..] == rest;
  }

  lemma OnlyPiece(z: seq<byte>, start: nat, count: nat)
    requires |z| < 0x1_0000 && start + count <= |z| && count <= MAX_CHUNK
    ensures Remaining(z, start, count) == RecordBytes(z, Chunk(start, count))
  {
    hide RecordBytes;
    assert Pieces(Chunk(start, count))[1..] == [];
    assert RecordsOf(z, []) == [];
  }

  lemma {:induction false} PiecesOfConcat(a: seq<Chunk>, b: seq<Chunk>)
    ensures AllPieces(a + b) == AllPieces(a) + AllPieces(b)
    decreases |a|
  {
    hide Pieces;
    if a == [] {
      assert a + b == b;
    } else {
      assert (a + b)[1..] == a[1..] + b;
      PiecesOfConcat(a[1..], b);
    }
  }

  lemma {:induction false} RecordsOfConcat(z: seq<byte>, a: seq<Chunk>, b: seq<Chunk>)
    requires |z| < 0x1_0000 && AllFit(a, |z|) && AllFit(b, |z|)
    ensures AllFit(a + b, |z|) && RecordsOf(z, a + b) == RecordsOf(z, a) + RecordsOf(z, b)
    decreases |a|
  {
    hide RecordBytes;
    assert AllFit(a + b, |z|);
    if a == [] {
      assert a + b == b;
    } else {
      assert (a + b)[1..] == a[1..] + b;
      RecordsOfConcat(z, a[1..], b);
    }
  }

  // The chunks done are in the buffer, and what is left follows from start and i.
  ghost predicate Writing(before: seq<byte>, now: seq<byte>, z: seq<byte>, mask: seq<byte>, done: seq<Chunk>)
  {
    && |z| == |mask| < 0x1_0000 && AllFit(AllPieces(done), |z|)
    && now == before + RecordsOf(z, AllPieces(done))
  }

  lemma WritingMore(before: seq<byte>, now: seq<byte>, z: seq<byte>, mask: seq<byte>, done: seq<Chunk>, c: Chunk)
    requires Writing(before, now, z, mask, done) && c.length > 0 && AllFit(Pieces(c), |z|)
    ensures Writing(before, now + RecordsOf(z, Pieces(c)), z, mask, done + [c])
  {
    hide RecordsOf, Pieces, AllFit;
    PiecesOfConcat(done, [c]);
    assert AllPieces([c]) == Pieces(c) + AllPieces([]) == Pieces(c);
    RecordsOfConcat(z, AllPieces(done), Pieces(c));
    Regroup(before, RecordsOf(z, AllPieces(done)), RecordsOf(z, Pieces(c)));
  }

  lemma WritingNothing(before: seq<byte>, z: seq<byte>, mask: seq<byte>)
    requires |z| == |mask| < 0x1_0000
    ensures Writing(before, before, z, mask, [])
  {
    assert RecordsOf(z, []) == [] && before + [] == before;
  }

  // Chunk by chunk; a gap of four zeros starts a new one, unless the end is near.
  method WriteChunks(destination: Buffer, data: seq<byte>, mask: seq<byte>)
    requires destination.Valid() && |data| == |mask| < 0x1_0000
    modifies destination`data, destination`length, destination.data
    ensures destination.Valid() && (destination.data == old(destination.data) || fresh(destination.data))
    ensures Writing(old(destination.Contents()), destination.Contents(), Zeroed(data, mask), mask, AllChunks(mask))
  {
    hide AllChunks, Rest, Writing, Progress, Zeroed, WorthSplitting, NextOne, NextZero, Pieces, AllPieces,
         RecordsOf, AllFit;
    ghost var before, z, done := destination.Contents(), Zeroed(data, mask), [];
    WritingNothing(before, z, mask);
    var n := |mask|;
    var i := ScanZeros(mask, 0);
    ProgressStarts(mask);
    if i == n {
      return;
    }
    var chunkStart: nat := i;
    while i < n
      invariant Progress(mask, done, chunkStart, i)
      invariant destination.Valid() && (destination.data == old(destination.data) || fresh(destination.data))
      invariant Writing(before, destination.Contents(), z, mask, done)
      decreases n - i
    {
      var s := i;
      i := ScanOnes(mask, i);
      ProgressMore(mask, done, chunkStart, s);
      if i == n || !(n < 4 || i + 4 < n) {
        EmitChunk(destination, data, mask, chunkStart, n - chunkStart, before, done);
        return;
      }
      if WorthSplitting(mask, i) {
        EmitChunk(destination, data, mask, chunkStart, i - chunkStart, before, done);
        done := done + [Chunk(chunkStart, i - chunkStart)];
        i := ScanZeros(mask, i + 4);
        chunkStart := i;
      } else {
        i := ScanZeros(mask, i);
      }
    }
    ProgressDone(mask, done, chunkStart, i);
  }

  // The chunks are those done, and then the rest.
  ghost predicate Progress(mask: seq<byte>, done: seq<Chunk>, start: nat, i: nat)
  {
    && (i < |mask| ==> start <= i && mask[i] != 0)
    && AllChunks(mask) == done + Rest(mask, start, i)
  }

  lemma ProgressStarts(mask: seq<byte>)
    ensures var i := NextOne(mask, 0);
            i <= |mask| && Progress(mask, [], i, i) && (i == |mask| ==> AllChunks(mask) == [])
  {
    var i := NextOne(mask, 0);
    assert [] + Rest(mask, i, i) == AllChunks(mask);
  }

  lemma ProgressDone(mask: seq<byte>, done: seq<Chunk>, start: nat, i: nat)
    requires Progress(mask, done, start, i) && i >= |mask|
    ensures AllChunks(mask) == done
  {
    assert done + [] == done;
  }

  // One turn of the loop, whichever way it goes.
  lemma ProgressMore(mask: seq<byte>, done: seq<Chunk>, start: nat, s: nat)
    requires Progress(mask, done, start, s) && s < |mask|
    ensures var z := NextZero(mask, s);
            && start <= s < z <= |mask|
            && (z == |mask| || !(|mask| < 4 || z + 4 < |mask|) ==>
                  AllChunks(mask) == done + [Chunk(start, |mask| - start)])
            && (z < |mask| && WorthSplitting(mask, z) ==>
                  var o := NextOne(mask, z + 4);
                  z < o && Progress(mask, done + [Chunk(start, z - start)], o, o))
            && (z < |mask| && !WorthSplitting(mask, z) && (|mask| < 4 || z + 4 < |mask|) ==>
                  z < NextOne(mask, z) && Progress(mask, done, start, NextOne(mask, z)))
  {
    hide Rest, NextZero, NextOne, WorthSplitting, AllChunks;
    var z := NextZero(mask, s);
    if z == |mask| || !(|mask| < 4 || z + 4 < |mask|) {
      RestEnds(mask, start, s, z);
    } else if WorthSplitting(mask, z) {
      RestSplits(mask, start, s, z);
      var o := NextOne(mask, z + 4);
      assert done + ([Chunk(start, z - start)] + Rest(mask, o, o))
          == done + [Chunk(start, z - start)] + Rest(mask, o, o);
    } else {
      RestGoesOn(mask, start, s, z);
    }
    NearEndNotWorth(mask, z);
  }

  lemma NearEndNotWorth(mask: seq<byte>, z: nat)
    ensures WorthSplitting(mask, z) ==> |mask| < 4 || z + 4 < |mask|
  {
  }

  // Dump a chunk, and count it as done.
  method EmitChunk(destination: Buffer, data: seq<byte>, mask: seq<byte>, start: nat, count: nat,
                   ghost before: seq<byte>, ghost done: seq<Chunk>)
    requires destination.Valid() && |data| == |mask| < 0x1_0000 && start + count <= |data| && count > 0
    requires Writing(before, destination.Contents(), Zeroed(data, mask), mask, done)
    modifies destination`data, destination`length, destination.data
    ensures destination.Valid() && (destination.data == old(destination.data) || fresh(destination.data))
    ensures Writing(before, destination.Contents(), Zeroed(data, mask), mask, done + [Chunk(start, count)])
  {
    hide Writing, Zeroed, Pieces, RecordsOf, AllFit;
    ghost var now := destination.Contents();
    DumpChunk(destination, data, mask, start, count);
    WritingMore(before, now, Zeroed(data, mask), mask, done, Chunk(start, count));
  }

  method ScanZeros(mask: seq<byte>, start: nat) returns (i: nat)
    ensures i == NextOne(mask, start)
  {
    i := start;
    while i < |mask| && mask[i] == 0
      invariant start <= i && NextOne(mask, i) == NextOne(mask, start)
    {
      i := i + 1;
    }
  }

  method ScanOnes(mask: seq<byte>, start: nat) returns (i: nat)
    requires start <= |mask|
    ensures i == NextZero(mask, start)
  {
    i := start;
    while i < |mask| && mask[i] != 0
      invariant start <= i <= |mask| && NextZero(mask, i) == NextZero(mask, start)
    {
      i := i + 1;
    }
  }

  // The chunks from here on.
  function Rest(mask: seq<byte>, start: nat, i: nat): seq<Chunk>
    requires i < |mask| ==> start <= i && mask[i] != 0
  {
    if i >= |mask| then [] else Chunks(mask, start, i)
  }

  lemma RestEnds(mask: seq<byte>, start: nat, s: nat, z: nat)
    requires start <= s < |mask| && mask[s] != 0 && z == NextZero(mask, s)
    requires z == |mask| || !(|mask| < 4 || z + 4 < |mask|)
    ensures s < z && Rest(mask, start, s) == [Chunk(start, |mask| - start)]
  {
    hide NextZero, NextOne, Chunks;
    ChunksEnd(mask, start, s, z);
  }

  lemma RestSplits(mask: seq<byte>, start: nat, s: nat, z: nat)
    requires start <= s < |mask| && mask[s] != 0 && z == NextZero(mask, s) < |mask| && WorthSplitting(mask, z)
    ensures s < z
    ensures Rest(mask, start, s) == [Chunk(start, z - start)] + Rest(mask, NextOne(mask, z + 4), NextOne(mask, z + 4))
  {
    hide NextZero, NextOne, WorthSplitting, Chunks;
    ChunksSplit(mask, start, s, z);
  }

  lemma RestGoesOn(mask: seq<byte>, start: nat, s: nat, z: nat)
    requires start <= s < |mask| && mask[s] != 0 && z == NextZero(mask, s) < |mask|
    requires !WorthSplitting(mask, z) && (|mask| < 4 || z + 4 < |mask|)
    ensures s < z < NextOne(mask, z) < |mask|
    ensures Rest(mask, start, s) == Rest(mask, start, NextOne(mask, z))
  {
    hide NextZero, NextOne, WorthSplitting, Chunks;
    ChunksGoOn(mask, start, s, z);
  }

  // Write the records of an image behind the header.
  method WritePromRecords(destination: Buffer, sourceData: Buffer, sourceMask: Buffer) returns (status: I2CStatus)
    requires destination.Valid() && sourceData.Valid() && sourceMask.Valid()
    requires sourceData.length == sourceMask.length < 0x1_0000
    modifies destination`data, destination`length, destination.data
    ensures destination.Valid() && (destination.data == old(destination.data) || fresh(destination.data))
    ensures status == if old(destination.length) != 8 || old(destination.data[0]) != LOADER then NotInitialised
                      else I2cSuccess
    ensures destination.Contents() == old(destination.Contents())
            + if status == I2cSuccess then old(PromRecords(sourceData.Contents(), sourceMask.Contents())) else []
  {
    if destination.length != 8 || destination.data[0] != 0xC2 {
      return NotInitialised;
    }
    var data, mask := sourceData.data[..sourceData.length], sourceMask.data[..sourceMask.length];
    hide AllChunks, AllPieces, RecordsOf, Zeroed;
    WriteChunks(destination, data, mask);
    status := I2cSuccess;
  }

  // ---------- Reading ----------

  // Read the records into empty buffers.
  method ReadPromRecords(destData: Buffer, destMask: Buffer, source: seq<byte>) returns (status: I2CStatus)
    requires Separate(destData, destMask)
    requires |source| >= 13 && source[0] == LOADER ==> ReadRecords(source[8..], BLANK, 0, 0).Some?
    modifies destData, destData.data, destMask, destMask.data
    ensures destData.Valid() && destMask.Valid()
    ensures status == if |source| < 13 || source[0] != LOADER then NotInitialised
                      else if old(destData.length) != 0 || old(destMask.length) != 0 then DestBufferNotEmpty
                      else I2cSuccess
    ensures status == I2cSuccess ==>
              ReadRecords(source[8..], BLANK, old(destData.fill), old(destMask.fill))
              == Some(Image(destData.Contents(), destMask.Contents()))
  {
    if |source| < 8 + 5 || source[0] != 0xC2 {
      return NotInitialised;
    }
    if destData.length != 0 || destMask.length != 0 {
      return DestBufferNotEmpty;
    }
    hide ReadRecords, Put;
    FillAside(source[8..], BLANK, BLANK, 0, 0, destData.fill, destMask.fill);
    ReadChunks(destData, destMask, source);
    status := I2cSuccess;
  }

  // Record by record, behind the header.
  method ReadChunks(destData: Buffer, destMask: Buffer, source: seq<byte>)
    requires Separate(destData, destMask) && destData.length == destMask.length == 0 && |source| >= 13
    requires ReadRecords(source[8..], BLANK, destData.fill, destMask.fill).Some?
    modifies destData, destData.data, destMask, destMask.data
    ensures Separate(destData, destMask)
    ensures ReadRecords(source[8..], BLANK, old(destData.fill), old(destMask.fill)) == Some(ImageOf(destData, destMask))
  {
    hide ReadRecords, Reading, Put, WordAt, ImageOf;
    ghost var f, g := destData.fill, destMask.fill;
    ghost var all := ReadRecords(source[8..], BLANK, f, g);
    var ptr: nat := 8;
    ReadingStarts(destData, destMask, source);
    while ptr < |source|
      invariant Separate(destData, destMask) && destData.fill == f && destMask.fill == g
      invariant Reading(source, ptr, ImageOf(destData, destMask), f, g, all)
      invariant destData.data == old(destData.data) || fresh(destData.data)
      invariant destMask.data == old(destMask.data) || fresh(destMask.data)
      decreases |source| - ptr
    {
      NextRecord(source, ptr, ImageOf(destData, destMask), f, g, all);
      var word := WordAt(source, ptr);
      var chunkAddress := WordAt(source, ptr + 2);
      if word >= 0x8000 {
        return;
      }
      var chunkLength := word % 1024;
      ptr := ptr + 4;
      PutBlock(destData, destMask, chunkAddress, source[ptr..ptr + chunkLength]);
      ptr := ptr + chunkLength;
    }
    ReadNothing(source, ptr, ImageOf(destData, destMask), f, g, all);
  }

  // Two buffers of their own.
  ghost predicate Separate(destData: Buffer, destMask: Buffer)
    reads destData, destMask, destData.data, destMask.data
  {
    && destData.Valid() && destMask.Valid() && destData != destMask && destData.data != destMask.data
  }

  ghost function ImageOf(destData: Buffer, destMask: Buffer): Image
    requires Separate(destData, destMask)
    reads destData, destMask, destData.data, destMask.data
  {
    Image(destData.Contents(), destMask.Contents())
  }

  function WordAt(s: seq<byte>, i: nat): nat
    requires i + 2 <= |s|
  {
    256 * (s[i] as nat) + s[i + 1] as nat
  }

  // Reading on from ptr gives the outcome of the whole.
  ghost predicate Reading(source: seq<byte>, ptr: nat, image: Image, f: byte, g: byte,
                          all: Option<Image>)
  {
    ptr <= |source| && all.Some? && ReadRecords(source[ptr..], image, f, g) == all
  }

  // Whether the bytes suffice does not depend on the fill.
  lemma {:induction false} FillAside(s: seq<byte>, a: Image, b: Image, f: byte, g: byte, h: byte, k: byte)
    ensures ReadRecords(s, a, f, g).Some? <==> ReadRecords(s, b, h, k).Some?
    decreases |s|
  {
    hide Put;
    if |s| >= 4 {
      var word, address := WordAt(s, 0), WordAt(s, 2);
      var length := word % 1024;
      if word < 0x8000 && |s| >= 4 + length {
        var block := s[4..4 + length];
        FillAside(s[4 + length..], Put(a, f, g, address, block), Put(b, h, k, address, block), f, g, h, k);
      }
    }
  }

  lemma ReadingStarts(destData: Buffer, destMask: Buffer, source: seq<byte>)
    requires Separate(destData, destMask) && destData.length == 0 && destMask.length == 0
    requires |source| >= 13 && ReadRecords(source[8..], BLANK, destData.fill, destMask.fill).Some?
    ensures var f, g := destData.fill, destMask.fill;
            Reading(source, 8, ImageOf(destData, destMask), f, g, ReadRecords(source[8..], BLANK, f, g))
  {
    hide ReadRecords;
    assert destData.Contents() == [] && destMask.Contents() == [];
  }

  method PutBlock(destData: Buffer, destMask: Buffer, address: nat, block: seq<byte>)
    requires Separate(destData, destMask)
    modifies destData`data, destData`length, destData.data, destMask`data, destMask`length, destMask.data
    ensures Separate(destData, destMask)
    ensures destData.data == old(destData.data) || fresh(destData.data)
    ensures destMask.data == old(destMask.data) || fresh(destMask.data)
    ensures destData.fill == old(destData.fill) && destMask.fill == old(destMask.fill)
    ensures ImageOf(destData, destMask)
         == Put(old(ImageOf(destData, destMask)), destData.fill, destMask.fill, address, block)
  {
    hide Overwrite;
    destData.WriteBlock(address, block);
    destMask.WriteConst(address, 1, |block|);
  }

  lemma ReadNothing(source: seq<byte>, ptr: nat, image: Image, f: byte, g: byte, all: Option<Image>)
    requires Reading(source, ptr, image, f, g, all) && ptr >= |source|
    ensures all == Some(image)
  {
  }

  lemma NextRecord(source: seq<byte>, ptr: nat, image: Image, f: byte, g: byte, all: Option<Image>)
    requires Reading(source, ptr, image, f, g, all) && ptr < |source|
    ensures ptr + 4 <= |source|
    ensures var word, address := WordAt(source, ptr), WordAt(source, ptr + 2);
            if word >= 0x8000 then all == Some(image)
            else
              ptr + 4 + word % 1024 <= |source|
              && Reading(source, ptr + 4 + word % 1024,
                         Put(image, f, g, address, source[ptr + 4..ptr + 4 + word % 1024]), f, g, all)
  {
    hide Put;
    var rest := source[ptr..];
    if |rest| >= 4 {
      var word := WordAt(rest, 0);
      var length := word % 1024;
      if word < 0x8000 && |rest| >= 4 + length {
        assert rest[4 + length..] == source[ptr + 4 + length..];
        assert rest[4..4 + length] == source[ptr + 4..ptr + 4 + length];
      }
    }
  }
}
