// EEPROM records as bytes, and reading them back.
module I2cRoundTrip {
  import opened Bytes
  import opened Csvf
  import opened HexImage
  import opened I2cFormat

  // ---------- Writing ----------

  // A long stretch takes several records.
  function Pieces(c: Chunk): (ps: seq<Chunk>)
    decreases c.length
  {
    if c.length > MAX_CHUNK then [Chunk(c.start, MAX_CHUNK)] + Pieces(Chunk(c.start + MAX_CHUNK, c.length - MAX_CHUNK))
    else [c]
  }

  function AllPieces(cs: seq<Chunk>): seq<Chunk>
  {
    if cs == [] then [] else Pieces(cs[0]) + AllPieces(cs[1..])
  }

  // The data with zeros where nothing is meant.
  function Zeroed(data: seq<byte>, mask: seq<byte>): (z: seq<byte>)
    requires |data| == |mask|
    ensures |z| == |mask| && forall i :: 0 <= i < |mask| ==> z[i] == if mask[i] == 0 then 0 else data[i]
  {
    seq(|mask|, i requires 0 <= i < |mask| => if mask[i] == 0 then 0 else data[i])
  }

  predicate Fits(c: Chunk, n: nat)
  {
    c.start + c.length <= n
  }

  function WordBE(w: nat): (s: seq<byte>)
    requires w < 0x1_0000
    ensures |s| == 2
  {
    [w / 256, w % 256]
  }

  function RecordBytes(z: seq<byte>, c: Chunk): seq<byte>
    requires |z| < 0x1_0000 && Fits(c, |z|)
  {
    WordBE(c.length) + WordBE(c.start) + z[c.start..c.start + c.length]
  }

  predicate AllFit(cs: seq<Chunk>, n: nat)
  {
    forall i :: 0 <= i < |cs| ==> Fits(cs[i], n)
  }

  function RecordsOf(z: seq<byte>, cs: seq<Chunk>): seq<byte>
    requires |z| < 0x1_0000 && AllFit(cs, |z|)
  {
    if cs == [] then [] else RecordBytes(z, cs[0]) + RecordsOf(z, cs[1..])
  }

  const LAST_RECORD: seq<byte> := [0x80, 0x01, 0xE6, 0x00, 0x00]

  // The bytes of a record: its length and its address, the more significant byte first, and
  // then its data.
  lemma RecordLayout(z: seq<byte>, c: Chunk, a: byte, b: byte, d: byte, e: byte)
    requires |z| < 0x1_0000 && Fits(c, |z|)
    requires c.length == 256 * a as nat + b as nat && c.start == 256 * d as nat + e as nat
    ensures RecordBytes(z, c) == [a, b, d, e] + z[c.start..c.start + c.length]
  {
  }

  // The last record says that it is, and writes a single zero to E600, which lets the chip go.
  lemma LastRecordMeans(image: Image, f: byte, g: byte)
    ensures |LAST_RECORD| == 5 && ReadRecords(LAST_RECORD, image, f, g) == Some(image)
    ensures 256 * LAST_RECORD[0] as nat + LAST_RECORD[1] as nat == 0x8000 + 1
    ensures 256 * LAST_RECORD[2] as nat + LAST_RECORD[3] as nat == 0xE600 && LAST_RECORD[4] == 0
  {
  }

  // A long stretch is cut into records of 1023 bytes, one behind the other, and what is left.
  lemma {:induction false} PiecesFull(c: Chunk, i: nat)
    requires c.length > 0
    ensures |Pieces(c)| == (c.length + 1022) / 1023
    ensures i < |Pieces(c)| ==>
              Pieces(c)[i] == Chunk(c.start + 1023 * i, if i < |Pieces(c)| - 1 then 1023 else c.length - 1023 * i)
    decreases c.length
  {
    if c.length > 1023 {
      PiecesFull(Chunk(c.start + 1023, c.length - 1023), if i > 0 then i - 1 else 0);
    }
  }

  // ---------- Reading ----------

  // Record by record, until one says that it is the last. None when the bytes run out. Gaps
  // are filled with the buffers' fill bytes.
  function ReadRecords(s: seq<byte>, image: Image, f: byte, g: byte): Option<Image>
    decreases |s|
  {
    if s == [] then Some(image)
    else if |s| < 4 then None
    else
      var word: nat := 256 * (s[0] as nat) + s[1] as nat;
      if word >= 0x8000 then Some(image)
      else
        var length := word % 1024;
        if |s| < 4 + length then None
        else
          ReadRecords(s[4 + length..], Put(image, f, g, 256 * (s[2] as nat) + s[3] as nat, s[4..4 + length]), f, g)
  }

  // ---------- Round trip ----------

  lemma {:induction false} PiecesInOrder(c: Chunk, rest: seq<Chunk>, at: nat, n: nat)
    requires at <= c.start && c.length > 0 && InOrder(rest, c.start + c.length, n)
    ensures InOrder(Pieces(c) + rest, at, n)
    ensures forall i :: 0 <= i < |Pieces(c)| ==> Pieces(c)[i].length <= MAX_CHUNK
    ensures forall k :: Stored(Pieces(c) + rest, k) <==> Stored([c] + rest, k)
    decreases c.length
  {
    assert ([c] + rest)[1..] == rest;
    if c.length > MAX_CHUNK {
      var d := Chunk(c.start + MAX_CHUNK, c.length - MAX_CHUNK);
      PiecesInOrder(d, rest, d.start, n);
      assert (Pieces(c) + rest)[1..] == Pieces(d) + rest;
      assert ([d] + rest)[1..] == rest;
    }
  }

  lemma {:induction false} AllPiecesInOrder(cs: seq<Chunk>, at: nat, n: nat)
    requires InOrder(cs, at, n)
    ensures InOrder(AllPieces(cs), at, n)
    ensures forall i :: 0 <= i < |AllPieces(cs)| ==> AllPieces(cs)[i].length <= MAX_CHUNK
    ensures forall k :: Stored(AllPieces(cs), k) <==> Stored(cs, k)
    decreases |cs|
  {
    hide Pieces;
    if cs != [] {
      AllPiecesInOrder(cs[1..], cs[0].start + cs[0].length, n);
      PiecesInOrder(cs[0], AllPieces(cs[1..]), at, n);
      forall k
        ensures Stored(AllPieces(cs), k) <==> Stored(cs, k)
      {
        StoredSame(cs, AllPieces(cs[1..]), k);
      }
    }
  }

  lemma StoredSame(cs: seq<Chunk>, rest: seq<Chunk>, k: nat)
    requires cs != [] && (Stored(rest, k) <==> Stored(cs[1..], k))
    ensures Stored([cs[0]] + rest, k) <==> Stored(cs, k)
  {
    assert ([cs[0]] + rest)[1..] == rest;
  }

  lemma {:induction false} InOrderFits(cs: seq<Chunk>, at: nat, n: nat)
    requires InOrder(cs, at, n)
    ensures AllFit(cs, n) && at <= n
    ensures forall i :: 0 <= i < |cs| ==> cs[i].length > 0
    decreases |cs|
  {
    if cs != [] {
      InOrderFits(cs[1..], cs[0].start + cs[0].length, n);
      assert forall i :: 0 < i < |cs| ==> cs[i] == cs[1..][i - 1];
    }
  }

  // One for what is stored.
  function Layout(cs: seq<Chunk>, n: nat): (m: seq<byte>)
    ensures |m| == n && forall i :: 0 <= i < n ==> m[i] == if Stored(cs, i) then 1 else 0
  {
    seq(n, i requires 0 <= i < n => if Stored(cs, i) then 1 else 0)
  }

  lemma {:induction false} KeptGap(z: seq<byte>, m: seq<byte>, f: byte, g: byte, k: nat, n: nat)
    requires k + n <= |m| <= |z| && forall i :: k <= i < k + n ==> m[i] == 0
    ensures Kept(z, m, f, g, k + n) == Kept(z, m, f, g, k)
    decreases n
  {
    if n > 0 {
      KeptGap(z, m, f, g, k, n - 1);
    }
  }

  // A record is read back: its bytes go where they belong, and reading goes on behind it.
  lemma ReadOne(z: seq<byte>, c: Chunk, rest: seq<byte>, image: Image, f: byte, g: byte)
    requires |z| < 0x1_0000 && Fits(c, |z|) && c.length <= MAX_CHUNK
    ensures ReadRecords(RecordBytes(z, c) + rest, image, f, g)
         == ReadRecords(rest, Put(image, f, g, c.start, z[c.start..c.start + c.length]), f, g)
  {
    hide Put;
    var s, block := RecordBytes(z, c) + rest, z[c.start..c.start + c.length];
    assert s[0] == c.length / 256 && s[1] == c.length % 256 && s[2] == c.start / 256 && s[3] == c.start % 256;
    assert s[4..4 + c.length] == block;
    assert s[4 + c.length..] == rest;
    assert 256 * (c.length / 256) + c.length % 256 == c.length;
    assert 256 * (c.start / 256) + c.start % 256 == c.start;
  }

  lemma {:induction false} ReadWritten(z: seq<byte>, m: seq<byte>, cs: seq<Chunk>, at: nat, f: byte, g: byte)
    requires |m| == |z| < 0x1_0000 && InOrder(cs, at, |z|) && AllFit(cs, |z|)
    requires forall i :: 0 <= i < |cs| ==> cs[i].length <= MAX_CHUNK
    requires forall k :: at <= k < |m| ==> m[k] == if Stored(cs, k) then 1 else 0
    ensures ReadRecords(RecordsOf(z, cs) + LAST_RECORD, Kept(z, m, f, g, at), f, g) == Some(Kept(z, m, f, g, |m|))
    decreases |cs|
  {
    hide RecordBytes, Kept, Put;
    if cs == [] {
      KeptGap(z, m, f, g, at, |m| - at);
      assert RecordsOf(z, cs) + LAST_RECORD == LAST_RECORD;
    } else {
      var c, rest := cs[0], RecordsOf(z, cs[1..]) + LAST_RECORD;
      var next := c.start + c.length;
      InOrderFits(cs, at, |z|);
      GapAndRun(m, cs, at);
      KeptGap(z, m, f, g, at, c.start - at);
      KeptRun(z, m, f, g, c.start, c.length);
      assert RecordsOf(z, cs) + LAST_RECORD == RecordBytes(z, c) + rest;
      ReadOne(z, c, rest, Kept(z, m, f, g, at), f, g);
      ReadWritten(z, m, cs[1..], next, f, g);
    }
  }

  lemma GapAndRun(m: seq<byte>, cs: seq<Chunk>, at: nat)
    requires cs != [] && InOrder(cs, at, |m|) && Fits(cs[0], |m|)
    requires forall k :: at <= k < |m| ==> m[k] == if Stored(cs, k) then 1 else 0
    ensures forall k :: at <= k < cs[0].start ==> m[k] == 0
    ensures forall k :: cs[0].start <= k < cs[0].start + cs[0].length ==> m[k] != 0
    ensures forall k :: cs[0].start + cs[0].length <= k < |m| ==> m[k] == if Stored(cs[1..], k) then 1 else 0
  {
    forall k | at <= k < cs[0].start
      ensures m[k] == 0
    {
      NotStoredBefore(cs[1..], cs[0].start + cs[0].length, |m|, k);
    }
  }

  // The records of an image.
  function PromRecords(data: seq<byte>, mask: seq<byte>): (s: seq<byte>)
    requires |data| == |mask| < 0x1_0000
  {
    var cs := AllChunks(mask);
    ChunksFit(mask);
    RecordsOf(Zeroed(data, mask), AllPieces(cs))
  }

  lemma ChunksFit(mask: seq<byte>)
    ensures var ps := AllPieces(AllChunks(mask));
            && InOrder(ps, 0, |mask|) && AllFit(ps, |mask|)
            && (forall i :: 0 <= i < |ps| ==> 0 < ps[i].length <= MAX_CHUNK)
            && (forall k :: 0 <= k < |mask| ==> (Stored(ps, k) <==> mask[k] != 0 || Bridged(mask, k)))
  {
    assert |mask| == 0 ==> AllChunks(mask) == [];
    hide AllChunks, Bridged;
    if |mask| > 0 {
      StoredExact(mask, 0);
    }
    AllPiecesInOrder(AllChunks(mask), 0, |mask|);
    InOrderFits(AllPieces(AllChunks(mask)), 0, |mask|);
    forall k | 0 <= k < |mask|
      ensures Stored(AllPieces(AllChunks(mask)), k) <==> mask[k] != 0 || Bridged(mask, k)
    {
      StoredExact(mask, k);
    }
  }

  // Writing, finishing and reading back, into buffers with any fill bytes: every byte that is
  // meant returns to its address, a gap that is bridged reads as zeros and any other byte as
  // the fill; and the mask read covers the one written, and beyond that just the gaps that
  // are bridged.
  lemma RoundTrip(data: seq<byte>, mask: seq<byte>, f: byte, g: byte)
    requires |data| == |mask| < 0x1_0000
    ensures var r := ReadRecords(PromRecords(data, mask) + LAST_RECORD, BLANK, f, g);
            && r.Some? && |r.value.data| == |r.value.mask| <= |mask|
            && (forall i :: 0 <= i < |r.value.data| ==>
                  r.value.data[i] == if mask[i] != 0 then data[i] else if Bridged(mask, i) then 0 else f)
            && (forall i :: 0 <= i < |mask| && mask[i] != 0 ==> i < |r.value.mask|)
            && (forall i :: 0 <= i < |r.value.mask| ==>
                  r.value.mask[i] == if mask[i] != 0 || Bridged(mask, i) then 1 else g)
  {
    var z, ps := Zeroed(data, mask), AllPieces(AllChunks(mask));
    var m := Layout(ps, |mask|);
    assert Kept(z, m, f, g, 0) == BLANK;
    hide Kept, Bridged, AllChunks, AllPieces, Stored;
    ChunksFit(mask);
    ReadWritten(z, m, ps, 0, f, g);
    KeptMeaning(z, m, f, g, |m|);
  }
}
