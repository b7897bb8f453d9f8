// Intel HEX files as a way to store sparse memory: what reading a file does to an image,
// which records are written for one, and that the first undoes the second.
module HexImage {
  import opened Bytes
  import opened Buffers
  import opened Csvf
  import opened HexFormat

  // Bytes, and which of them are meant: a mask byte is zero or not.
  datatype Image = Image(data: seq<byte>, mask: seq<byte>)

  const BLANK := Image([], [])

  // What reading has come to; gaps are filled with the buffers' fill bytes.
  datatype Reader = Reader(image: Image, segment: nat, dataFill: byte, maskFill: byte)

  // ---------- Reading ----------

  function Put(image: Image, dataFill: byte, maskFill: byte, address: nat, block: seq<byte>): Image
  {
    Image(Overwrite(image.data, dataFill, address, block),
          Overwrite(image.mask, maskFill, address, Repeat<byte>(1, |block|)))
  }

  datatype Applied = Applied(reader: Reader, status: HexStatus)

  function Apply(st: Reader, r: Record): Applied
  {
    if r.kind == DATA_RECORD then
      Applied(st.(image := Put(st.image, st.dataFill, st.maskFill, st.segment + r.address, r.data)), HexOk)
    else if r.kind == EOF_RECORD then Applied(st, HexOk)
    else if r.kind == EXT_SEG_RECORD then
      if r.address != 0 || |r.data| != 2 then Applied(st, BadExtSeg)
      else Applied(st.(segment := (256 * (r.data[0] as nat) + r.data[1] as nat) * 16), HexOk)
    else Applied(st, BadRecType)
  }

  const LINE_MAX: nat := 512

  // What fgets() takes: up to a newline, but never more than fits the line buffer.
  function Gets(file: string, n: nat): (line: string)
    requires n <= |file| && n < LINE_MAX
    ensures line <= file && |line| >= n
    ensures n == 0 && file != "" ==> line != ""
    decreases |file| - n
  {
    if n == |file| || n == LINE_MAX - 1 then file[..n]
    else if file[n] == '\n' then file[..n + 1]
    else Gets(file, n + 1)
  }

  // Line by line until the end-of-file record.
  function ReadLines(file: string, st: Reader): (a: Applied)
    requires file != ""
    decreases |file|
  {
    var line := Gets(file, 0);
    match ParseLine(line)
    case Bad(status) => Applied(st, status)
    case Good(r) =>
      var a := Apply(st, r);
      if a.status != HexOk || r.kind == EOF_RECORD then a
      else if |line| == |file| then Applied(a.reader, MissingEof)
      else ReadLines(file[|line|..], a.reader)
  }

  function ReadFile(file: string, dataFill: byte, maskFill: byte): Applied
  {
    var st := Reader(BLANK, 0, dataFill, maskFill);
    if file == "" then Applied(st, EmptyFile) else ReadLines(file, st)
  }

  // ---------- Writing ----------

  // How many bytes from address on are meant, up to max.
  function Run(mask: seq<byte>, address: nat, max: nat): (n: nat)
    requires address + max <= |mask|
    ensures n <= max && forall i :: address <= i < address + n ==> mask[i] != 0
    ensures max > 0 && mask[address] != 0 ==> n > 0
    decreases max
  {
    if max == 0 || mask[address] == 0 then 0 else 1 + Run(mask, address + 1, max - 1)
  }

  const SEGMENT: nat := 0x1_0000

  // The low 16 bits of an address.
  function Offset(address: nat): (o: nat)
    ensures o < SEGMENT
  {
    address % SEGMENT
  }

  // The data records for [address, ceiling).
  function DataRecords(data: seq<byte>, mask: seq<byte>, lineLength: nat, address: nat, ceiling: nat): (rs: seq<Record>)
    requires address <= ceiling <= |mask| <= |data| && 1 <= lineLength
    decreases ceiling - address
  {
    if address == ceiling then []
    else if mask[address] == 0 then DataRecords(data, mask, lineLength, address + 1, ceiling)
    else
      var max := if address + lineLength > ceiling then ceiling - address else lineLength;
      var n := Run(mask, address, max);
      [Record(Offset(address), DATA_RECORD, data[address..address + n])]
      + DataRecords(data, mask, lineLength, address + n, ceiling)
  }

  function Ceiling(mask: seq<byte>, address: nat): (c: nat)
  {
    if address + SEGMENT > |mask| then |mask| else address + SEGMENT
  }

  function SegmentRecord(address: nat): Record
    requires address / 16 < 0x1_0000
  {
    Record(0, EXT_SEG_RECORD, [address / 16 / 256, address / 16 % 256])
  }

  // All records from the segment that starts at address on, but for the last; None when an
  // address needs more than 20 bits.
  function Records(data: seq<byte>, mask: seq<byte>, lineLength: nat, address: nat): Option<seq<Record>>
    requires address <= |mask| <= |data| && 1 <= lineLength
    decreases |mask| - address
  {
    var ceiling := Ceiling(mask, address);
    var here := DataRecords(data, mask, lineLength, address, ceiling);
    if ceiling == |mask| then Some(here)
    else if ceiling / 16 > 0xFFFF then None
    else
      match Records(data, mask, lineLength, ceiling)
      case None => None
      case Some(rest) => Some(here + [SegmentRecord(ceiling)] + rest)
  }

  const END_OF_FILE := ":00000001FF\n"

  ghost predicate AllValid(rs: seq<Record>)
  {
    forall i :: 0 <= i < |rs| ==> Valid(rs[i])
  }

  ghost function Print(rs: seq<Record>): string
    requires AllValid(rs)
  {
    if rs == [] then "" else Line(rs[0]) + "\n" + Print(rs[1..])
  }

  // ---------- What is kept ----------

  // The image as it comes back: only what is meant among the first k bytes.
  function Kept(data: seq<byte>, mask: seq<byte>, dataFill: byte, maskFill: byte, k: nat): (image: Image)
    requires k <= |mask| <= |data|
    ensures |image.data| == |image.mask| <= k
  {
    if k == 0 then BLANK
    else
      var before := Kept(data, mask, dataFill, maskFill, k - 1);
      if mask[k - 1] == 0 then before else Put(before, dataFill, maskFill, k - 1, [data[k - 1]])
  }

  // Byte by byte: what is meant is there, the gaps are filled, and the mask reaches to the
  // last byte that is meant.
  lemma {:induction false} KeptMeaning(data: seq<byte>, mask: seq<byte>, dataFill: byte, maskFill: byte, k: nat)
    requires k <= |mask| <= |data|
    ensures var image := Kept(data, mask, dataFill, maskFill, k);
            && (forall i :: 0 <= i < |image.mask| ==>
                  && image.data[i] == (if mask[i] != 0 then data[i] else dataFill)
                  && image.mask[i] == (if mask[i] != 0 then 1 else maskFill))
            && (forall i :: |image.mask| <= i < k ==> mask[i] == 0)
            && (image.mask != [] ==> mask[|image.mask| - 1] != 0)
  {
    hide Overwrite;
    if k > 0 {
      KeptMeaning(data, mask, dataFill, maskFill, k - 1);
    }
  }

  // A run goes in with one write.
  lemma {:induction false} KeptRun(data: seq<byte>, mask: seq<byte>, dataFill: byte, maskFill: byte, k: nat, n: nat)
    requires k + n <= |mask| <= |data| && n > 0
    requires forall i :: k <= i < k + n ==> mask[i] != 0
    ensures Kept(data, mask, dataFill, maskFill, k + n)
         == Put(Kept(data, mask, dataFill, maskFill, k), dataFill, maskFill, k, data[k..k + n])
    decreases n
  {
    hide Overwrite, Put;
    var before := Kept(data, mask, dataFill, maskFill, k);
    if n == 1 {
      assert data[k..k + 1] == [data[k]];
    } else {
      KeptRun(data, mask, dataFill, maskFill, k, n - 1);
      PutMore(before, dataFill, maskFill, k, data[k..k + n - 1], data[k + n - 1]);
      assert data[k..k + n - 1] + [data[k + n - 1]] == data[k..k + n];
    }
  }

  lemma PutMore(image: Image, dataFill: byte, maskFill: byte, k: nat, block: seq<byte>, b: byte)
    requires |image.data| == |image.mask| <= k
    ensures Put(Put(image, dataFill, maskFill, k, block), dataFill, maskFill, k + |block|, [b])
         == Put(image, dataFill, maskFill, k, block + [b])
  {
    OverwriteMore(image.data, dataFill, k, block, b);
    OverwriteMore(image.mask, maskFill, k, Repeat<byte>(1, |block|), 1);
    assert Repeat<byte>(1, |block|) + [1] == Repeat<byte>(1, |block + [b]|);
    assert Repeat<byte>(1, 1) == [1];
  }

  lemma OverwriteMore(s: seq<byte>, fill: byte, k: nat, block: seq<byte>, b: byte)
    requires |s| <= k
    ensures Overwrite(Overwrite(s, fill, k, block), fill, k + |block|, [b]) == Overwrite(s, fill, k, block + [b])
  {
  }
}
