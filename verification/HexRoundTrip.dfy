// Reading back what was written.
module HexRoundTrip {
  import opened Bytes
  import opened Buffers
  import opened Csvf
  import opened HexFormat
  import opened HexImage

  // ---------- A file that was printed is read record by record ----------

  function ApplyAll(st: Reader, rs: seq<Record>): Applied
    decreases |rs|
  {
    if rs == [] then Applied(st, HexOk)
    else
      var a := Apply(st, rs[0]);
      if a.status != HexOk then a else ApplyAll(a.reader, rs[1..])
  }

  // The longest record whose line the reader's line buffer can hold.
  const MAX_RECORD: nat := 249

  // The records that may come before the end of a file.
  ghost predicate Inner(r: Record)
  {
    Valid(r) && r.kind != EOF_RECORD
  }

  ghost predicate AllInner(rs: seq<Record>)
  {
    forall i :: 0 <= i < |rs| ==> Inner(rs[i])
  }

  ghost predicate AllShort(rs: seq<Record>)
  {
    forall i :: 0 <= i < |rs| ==> |rs[i].data| <= MAX_RECORD
  }

  lemma {:induction false} GetsStops(file: string, n: nat, e: nat)
    requires n <= e < |file| && e + 1 < LINE_MAX
    requires file[e] == '\n' && forall i :: n <= i < e ==> file[i] != '\n'
    ensures Gets(file, n) == file[..e + 1]
    decreases e - n
  {
    if n < e {
      GetsStops(file, n + 1, e);
    }
  }

  // A line of the right size is taken whole, and gives the record back.
  lemma GetsLine(r: Record, rest: string)
    requires Valid(r) && |r.data| <= MAX_RECORD
    ensures Gets(Line(r) + "\n" + rest, 0) == Line(r) + "\n"
    ensures ParseLine(Line(r) + "\n") == Good(r)
  {
    hide Line, ParseLine;
    var line := Line(r);
    var file := line + "\n" + rest;
    LineDoesNotStop(r);
    assert forall i :: 0 <= i < |line| ==> file[i] == line[i];
    GetsStops(file, 0, |line|);
    assert file[..|line| + 1] == line + "\n";
    EndOfSkips(line + "\n", 0, |line|);
    assert (line + "\n")[..|line|] == line;
    ParseExact(line + "\n", r);
  }

  // One byte more on a line.
  lemma ByteMore(s: seq<byte>, h: string, sum: nat, b: byte, d: string, t: seq<byte>, e: string)
    requires Hexes(s) == h && Sum(s) == sum && Hex(b) == d && t == s + [b] && e == h + d
    ensures Hexes(t) == e && Sum(t) == sum + b as nat
  {
    hide Hexes, Sum, Hex;
    HexesMore(s, b);
  }

  lemma SomeDigits()
    ensures Hexes([]) == "" && Sum([]) == 0 && Hex(0) == "00" && Hex(1) == "01" && Hex(255) == "FF"
    ensures Hex(0x02) == "02" && Hex(0x03) == "03" && Hex(0x12) == "12" && Hex(0x1E) == "1E"
    ensures Hex(0x30) == "30" && Hex(0x33) == "33" && Hex(0x7A) == "7A" && Hex(0xEA) == "EA"
  {
  }

  lemma EndOfFileLine()
    ensures END_OF_FILE == Line(Record(0, EOF_RECORD, [])) + "\n"
  {
    hide Hexes, Sum, Hex, Line;
    SomeDigits();
    ByteMore([], "", 0, 0, "00", [0], "00");
    ByteMore([0], "00", 0, 0, "00", [0, 0], "0000");
    ByteMore([0, 0], "0000", 0, 0, "00", [0, 0, 0], "000000");
    ByteMore([0, 0, 0], "000000", 0, 1, "01", [0, 0, 0, 1], "00000001");
    ByteMore([0, 0, 0, 1], "00000001", 1, 0xFF, "FF", [0, 0, 0, 1, 0xFF], "00000001FF");
    assert [0, 0, 0, 1, 255][4..4] == [];
    RecordOfBytes([0, 0, 0, 1, 255], Record(0, EOF_RECORD, []));
  }

  // What the digits are.
  lemma Digits(n: nat)
    requires n < 16
    ensures HexDigit(n) == if n < 10 then '0' + n as char else 'A' + (n - 10) as char
  {
  }

  // The bytes 02, 33 and 7A at address 30, as a line.
  lemma DataLine()
    ensures Line(Record(0x30, DATA_RECORD, [0x02, 0x33, 0x7A])) == ":0300300002337A1E"
  {
    hide Hexes, Hex, Sum, Line;
    SomeDigits();
    ByteMore([], "", 0, 3, "03", [3], "03");
    ByteMore([3], "03", 3, 0, "00", [3, 0], "0300");
    ByteMore([3, 0], "0300", 3, 0x30, "30", [3, 0, 0x30], "030030");
    ByteMore([3, 0, 0x30], "030030", 51, 0, "00", [3, 0, 0x30, 0], "03003000");
    ByteMore([3, 0, 0x30, 0], "03003000", 51, 2, "02", [3, 0, 0x30, 0, 2], "0300300002");
    ByteMore([3, 0, 0x30, 0, 2], "0300300002", 53, 0x33, "33", [3, 0, 0x30, 0, 2, 0x33], "030030000233");
    ByteMore([3, 0, 0x30, 0, 2, 0x33], "030030000233", 104, 0x7A, "7A",
             [3, 0, 0x30, 0, 2, 0x33, 0x7A], "0300300002337A");
    ByteMore([3, 0, 0x30, 0, 2, 0x33, 0x7A], "0300300002337A", 226, 0x1E, "1E",
             [3, 0, 0x30, 0, 2, 0x33, 0x7A, 0x1E], "0300300002337A1E");
    var b: seq<byte> := [3, 0, 0x30, 0, 2, 0x33, 0x7A, 0x1E];
    assert b[4..|b| - 1] == [0x02, 0x33, 0x7A];
    RecordOfBytes(b, Record(0x30, DATA_RECORD, [0x02, 0x33, 0x7A]));
  }

  // The segment that starts at 12000, as a line.
  lemma SegmentLine()
    ensures Line(SegmentRecord(0x12000)) == ":020000021200EA"
  {
    hide Hexes, Hex, Sum, Line;
    SomeDigits();
    ByteMore([], "", 0, 2, "02", [2], "02");
    ByteMore([2], "02", 2, 0, "00", [2, 0], "0200");
    ByteMore([2, 0], "0200", 2, 0, "00", [2, 0, 0], "020000");
    ByteMore([2, 0, 0], "020000", 2, 2, "02", [2, 0, 0, 2], "02000002");
    ByteMore([2, 0, 0, 2], "02000002", 4, 0x12, "12", [2, 0, 0, 2, 0x12], "0200000212");
    ByteMore([2, 0, 0, 2, 0x12], "0200000212", 22, 0, "00", [2, 0, 0, 2, 0x12, 0], "020000021200");
    ByteMore([2, 0, 0, 2, 0x12, 0], "020000021200", 22, 0xEA, "EA", [2, 0, 0, 2, 0x12, 0, 0xEA], "020000021200EA");
    var b: seq<byte> := [2, 0, 0, 2, 0x12, 0, 0xEA];
    assert b[4..|b| - 1] == [0x12, 0];
    RecordOfBytes(b, SegmentRecord(0x12000));
  }

  lemma ReadEnd(st: Reader)
    ensures ReadLines(END_OF_FILE, st) == Applied(st, HexOk)
  {
    hide Line, ParseLine, Gets;
    EndOfFileLine();
    var r := Record(0, EOF_RECORD, []);
    GetsLine(r, "");
    assert Line(r) + "\n" + "" == END_OF_FILE;
  }

  lemma ReadOne(r: Record, rest: string, st: Reader)
    requires Inner(r) && |r.data| <= MAX_RECORD && rest != "" && Apply(st, r).status == HexOk
    ensures ReadLines(Line(r) + "\n" + rest, st) == ReadLines(rest, Apply(st, r).reader)
  {
    hide Line, ParseLine, Gets, Apply;
    var line := Line(r) + "\n";
    GetsLine(r, rest);
    assert (line + rest)[|line|..] == rest;
  }

  // ---------- Lines that are too long ----------

  lemma {:induction false} GetsFull(file: string, n: nat)
    requires n < LINE_MAX <= |file| && forall i :: n <= i < LINE_MAX - 1 ==> file[i] != '\n'
    ensures Gets(file, n) == file[..LINE_MAX - 1]
    decreases LINE_MAX - n
  {
    if n < LINE_MAX - 1 {
      GetsFull(file, n + 1);
    }
  }

  lemma LoneNewline(rest: string, st: Reader)
    ensures ReadLines("\n" + rest, st).status == JunkStartCode
  {
    var file := "\n" + rest;
    assert file[0] == '\n';
    assert Gets(file, 0) == file[..1];
    assert At(file[..1], 0) == '\n';
  }

  // A line cut short is not any record.
  lemma CutLine(r: Record, line: string)
    requires Valid(r) && |r.data| > MAX_RECORD + 1
    requires line == Line(r)[..LINE_MAX - 1]
    ensures ParseLine(line).Bad?
  {
    hide Line, ParseLine, ReadByte, ReadBytes, Checksum, Front;
    LineDoesNotStop(r);
    EndOfSkips(line, 0, |line|);
    FieldsInPlace(Line(r), r);
    SameByte(Line(r), line);
    if ParseLine(line).Good? {
      var q := ParseLine(line).record;
      ParseExact(line, q);
      assert line[..|line|] == line;
      FieldsInPlace(line, q);
    }
  }

  lemma SameByte(s: string, t: string)
    requires |s| >= |t| >= 3 && t == s[..|t|]
    ensures ReadByte(s, 1) == ReadByte(t, 1)
  {
    assert At(s, 1) == At(t, 1) && At(s, 2) == At(t, 2);
  }

  // A record whose line does not fit the reader's buffer is not read back, whatever follows.
  lemma LongLineRefused(r: Record, rest: string, st: Reader)
    requires Valid(r) && |r.data| > MAX_RECORD && r.kind != EOF_RECORD
    ensures ReadLines(Line(r) + "\n" + rest, st).status != HexOk
  {
    hide Line, ParseLine, Apply, Gets;
    var file := Line(r) + "\n" + rest;
    LineDoesNotStop(r);
    assert forall i :: 0 <= i < |Line(r)| ==> file[i] == Line(r)[i];
    GetsFull(file, 0);
    var line := file[..LINE_MAX - 1];
    assert line == Line(r)[..LINE_MAX - 1];
    if |r.data| == MAX_RECORD + 1 {
      assert line == Line(r) && file[|line|..] == "\n" + rest;
      EndOfSkips(line, 0, |line|);
      assert line[..|line|] == line;
      ParseExact(line, r);
      LoneNewline(rest, Apply(st, r).reader);
    } else {
      CutLine(r, line);
    }
  }

  // What is printed is read back, and nothing goes wrong, exactly when every line fits.
  lemma {:induction false} ReadableExact(rs: seq<Record>, st: Reader)
    requires AllInner(rs) && ApplyAll(st, rs).status == HexOk
    ensures AllValid(rs)
    ensures ReadLines(Print(rs) + END_OF_FILE, st).status == HexOk <==> AllShort(rs)
    ensures AllShort(rs) ==> ReadLines(Print(rs) + END_OF_FILE, st) == ApplyAll(st, rs)
    decreases |rs|
  {
    hide Line, ReadLines, Apply;
    if rs == [] {
      assert "" + END_OF_FILE == END_OF_FILE;
      ReadEnd(st);
    } else {
      assert Inner(rs[0]);
      assert AllValid(rs) && AllInner(rs[1..]);
      var rest := Print(rs[1..]) + END_OF_FILE;
      assert Print(rs) + END_OF_FILE == Line(rs[0]) + "\n" + rest;
      assert AllShort(rs) <==> |rs[0].data| <= MAX_RECORD && AllShort(rs[1..]);
      if |rs[0].data| <= MAX_RECORD {
        ReadOne(rs[0], rest, st);
        ReadableExact(rs[1..], Apply(st, rs[0]).reader);
      } else {
        LongLineRefused(rs[0], rest, st);
      }
    }
  }

  // ---------- Records put back what is kept ----------

  lemma {:induction false} ApplyAllConcat(st: Reader, a: seq<Record>, b: seq<Record>)
    requires ApplyAll(st, a).status == HexOk
    ensures ApplyAll(st, a + b) == ApplyAll(ApplyAll(st, a).reader, b)
    decreases |a|
  {
    hide Apply;
    if a == [] {
      assert a + b == b;
    } else {
      assert (a + b)[1..] == a[1..] + b;
      ApplyAllConcat(Apply(st, a[0]).reader, a[1..], b);
    }
  }

  ghost predicate InSegment(r: Record, lineLength: nat)
  {
    r.kind == DATA_RECORD && 1 <= |r.data| <= lineLength && r.address + |r.data| <= SEGMENT
  }

  lemma DataRecordApply(data: seq<byte>, mask: seq<byte>, base: nat, address: nat, n: nat, st: Reader)
    requires n > 0 && address + n <= |mask| <= |data|
    requires Offset(base) == 0 && base <= address && address + n <= base + SEGMENT && st.segment == base
    requires forall i :: address <= i < address + n ==> mask[i] != 0
    requires st.image == Kept(data, mask, st.dataFill, st.maskFill, address)
    ensures var r := Record(Offset(address), DATA_RECORD, data[address..address + n]);
            && r.address + n <= SEGMENT
            && Apply(st, r) == Applied(st.(image := Kept(data, mask, st.dataFill, st.maskFill, address + n)), HexOk)
  {
    hide Put, Kept, Offset;
    InSameSegment(base, address);
    KeptRun(data, mask, st.dataFill, st.maskFill, address, n);
  }

  lemma InSameSegment(base: nat, address: nat)
    requires Offset(base) == 0 && base <= address < base + SEGMENT
    ensures Offset(address) == address - base
  {
  }

  // The records stay within a segment, and reading them brings the image about.
  ghost predicate Restores(rs: seq<Record>, lineLength: nat, st: Reader, image: Image)
  {
    && (forall i :: 0 <= i < |rs| ==> InSegment(rs[i], lineLength))
    && ApplyAll(st, rs) == Applied(st.(image := image), HexOk)
  }

  lemma RestoresMore(r: Record, rest: seq<Record>, lineLength: nat, st: Reader, middle: Image, image: Image)
    requires InSegment(r, lineLength) && Apply(st, r) == Applied(st.(image := middle), HexOk)
    requires Restores(rest, lineLength, st.(image := middle), image)
    ensures Restores([r] + rest, lineLength, st, image)
  {
    hide Apply, InSegment;
    assert ([r] + rest)[1..] == rest;
  }

  lemma NothingToRestore(data: seq<byte>, mask: seq<byte>, lineLength: nat, address: nat, st: Reader)
    requires address <= |mask| <= |data| && lineLength >= 1
    ensures Restores(DataRecords(data, mask, lineLength, address, address), lineLength, st, st.image)
  {
  }

  lemma NoRecordHere(data: seq<byte>, mask: seq<byte>, lineLength: nat, address: nat, ceiling: nat, f: byte, g: byte)
    requires address < ceiling <= |mask| <= |data| && lineLength >= 1 && mask[address] == 0
    ensures DataRecords(data, mask, lineLength, address, ceiling)
         == DataRecords(data, mask, lineLength, address + 1, ceiling)
    ensures Kept(data, mask, f, g, address + 1) == Kept(data, mask, f, g, address)
  {
  }

  lemma FirstRecord(data: seq<byte>, mask: seq<byte>, lineLength: nat, address: nat, ceiling: nat) returns (n: nat)
    requires address < ceiling <= |mask| <= |data| && lineLength >= 1 && mask[address] != 0
    ensures 0 < n <= lineLength && address + n <= ceiling && forall i :: address <= i < address + n ==> mask[i] != 0
    ensures n < lineLength && address + n < ceiling ==> mask[address + n] == 0
    ensures DataRecords(data, mask, lineLength, address, ceiling)
         == [Record(Offset(address), DATA_RECORD, data[address..address + n])]
            + DataRecords(data, mask, lineLength, address + n, ceiling)
  {
    var max := if address + lineLength > ceiling then ceiling - address else lineLength;
    n := Run(mask, address, max);
    RunStops(mask, address, max);
  }

  // The data records of one segment; none crosses its end.
  lemma {:induction false} DataRecordsApply(data: seq<byte>, mask: seq<byte>, lineLength: nat, base: nat,
                                            address: nat, ceiling: nat, st: Reader)
    requires address <= ceiling <= |mask| <= |data| && lineLength >= 1
    requires Offset(base) == 0 && base <= address && ceiling <= base + SEGMENT && st.segment == base
    requires st.image == Kept(data, mask, st.dataFill, st.maskFill, address)
    ensures Restores(DataRecords(data, mask, lineLength, address, ceiling), lineLength, st,
                     Kept(data, mask, st.dataFill, st.maskFill, ceiling))
    decreases ceiling - address
  {
    hide Apply, Restores, Offset, Kept, DataRecords;
    if address == ceiling {
      NothingToRestore(data, mask, lineLength, address, st);
    } else if mask[address] == 0 {
      NoRecordHere(data, mask, lineLength, address, ceiling, st.dataFill, st.maskFill);
      DataRecordsApply(data, mask, lineLength, base, address + 1, ceiling, st);
    } else {
      var n := FirstRecord(data, mask, lineLength, address, ceiling);
      var r := Record(Offset(address), DATA_RECORD, data[address..address + n]);
      DataRecordApply(data, mask, base, address, n, st);
      var middle := Apply(st, r).reader;
      DataRecordsApply(data, mask, lineLength, base, address + n, ceiling, middle);
      RestoresMore(r, DataRecords(data, mask, lineLength, address + n, ceiling), lineLength, st, middle.image,
                   Kept(data, mask, st.dataFill, st.maskFill, ceiling));
    }
  }

  // A record goes on until the line is full, the segment ends or a byte is not meant.
  ghost predicate Full(r: Record, mask: seq<byte>, lineLength: nat, base: nat, ceiling: nat)
  {
    var end := base + r.address + |r.data|;
    |r.data| == lineLength || end == ceiling || (end < |mask| && mask[end] == 0)
  }

  lemma {:induction false} RecordsAreFull(data: seq<byte>, mask: seq<byte>, lineLength: nat, base: nat,
                                          address: nat, ceiling: nat)
    requires address <= ceiling <= |mask| <= |data| && lineLength >= 1
    requires Offset(base) == 0 && base <= address && ceiling <= base + SEGMENT
    ensures forall r :: r in DataRecords(data, mask, lineLength, address, ceiling) ==>
              Full(r, mask, lineLength, base, ceiling)
    decreases ceiling - address
  {
    hide Offset, DataRecords;
    if address == ceiling {
      NoRecords(data, mask, lineLength, address);
    } else if mask[address] == 0 {
      NoRecordHere(data, mask, lineLength, address, ceiling, 0, 0);
      RecordsAreFull(data, mask, lineLength, base, address + 1, ceiling);
    } else {
      var n := FirstRecord(data, mask, lineLength, address, ceiling);
      InSameSegment(base, address);
      RecordsAreFull(data, mask, lineLength, base, address + n, ceiling);
    }
  }

  lemma NoRecords(data: seq<byte>, mask: seq<byte>, lineLength: nat, address: nat)
    requires address <= |mask| <= |data| && lineLength >= 1
    ensures DataRecords(data, mask, lineLength, address, address) == []
  {
  }

  lemma SegmentApply(address: nat, st: Reader)
    requires Offset(address) == 0 && address / 16 < 0x1_0000
    ensures Apply(st, SegmentRecord(address)) == Applied(st.(segment := address), HexOk)
  {
    hide Overwrite, Put;
    var k := address / SEGMENT;
    assert address == SEGMENT * k;
    SixteenFolds(k);
  }

  lemma SixteenFolds(k: nat)
    ensures 0x1_0000 * k / 16 == 4096 * k && 4096 * k / 256 == 16 * k && 4096 * k % 256 == 0
  {
  }

  lemma RestoresConcat(a: seq<Record>, b: seq<Record>, lineLength: nat, st: Reader, middle: Image, next: nat,
                       image: Image)
    requires Restores(a, lineLength, st, middle) && lineLength < 256
    requires next % SEGMENT == 0 && next / 16 < 0x1_0000
    requires AllInner(b)
    requires ApplyAll(st.(image := middle, segment := next), b).status == HexOk
    requires ApplyAll(st.(image := middle, segment := next), b).reader.image == image
    ensures AllInner(a + [SegmentRecord(next)] + b)
    ensures ApplyAll(st, a + [SegmentRecord(next)] + b).status == HexOk
    ensures ApplyAll(st, a + [SegmentRecord(next)] + b).reader.image == image
  {
    hide Apply;
    RestoredInner(a, lineLength);
    var rest := [SegmentRecord(next)] + b;
    assert a + [SegmentRecord(next)] + b == a + rest;
    SegmentApply(next, st.(image := middle));
    assert rest[1..] == b;
    ApplyAllConcat(st, a, rest);
  }

  lemma RestoredInner(rs: seq<Record>, lineLength: nat)
    requires forall i :: 0 <= i < |rs| ==> InSegment(rs[i], lineLength)
    requires lineLength < 256
    ensures AllInner(rs)
  {
    forall i | 0 <= i < |rs|
      ensures Inner(rs[i])
    {
      assert InSegment(rs[i], lineLength);
    }
  }

  // All records from one segment on.
  lemma {:induction false} RecordsApply(data: seq<byte>, mask: seq<byte>, lineLength: nat, address: nat, st: Reader)
    requires address <= |mask| <= |data| && 1 <= lineLength < 256
    requires Offset(address) == 0 && st.segment == address
    requires st.image == Kept(data, mask, st.dataFill, st.maskFill, address)
    ensures match Records(data, mask, lineLength, address)
            case None => true
            case Some(rs) =>
              && AllInner(rs) && ApplyAll(st, rs).status == HexOk
              && ApplyAll(st, rs).reader.image == Kept(data, mask, st.dataFill, st.maskFill, |mask|)
    decreases |mask| - address
  {
    hide Kept, DataRecords, ApplyAll, InSegment, AllInner;
    var ceiling := Ceiling(mask, address);
    var here := DataRecords(data, mask, lineLength, address, ceiling);
    var middle := Kept(data, mask, st.dataFill, st.maskFill, ceiling);
    DataRecordsApply(data, mask, lineLength, address, address, ceiling, st);
    RestoredInner(here, lineLength);
    if ceiling != |mask| && ceiling / 16 <= 0xFFFF {
      var next := st.(image := middle, segment := ceiling);
      RecordsApply(data, mask, lineLength, ceiling, next);
      var rest := Records(data, mask, lineLength, ceiling);
      if rest.Some? {
        RestoresConcat(here, rest.value, lineLength, st, middle, ceiling,
                       Kept(data, mask, st.dataFill, st.maskFill, |mask|));
      }
    }
  }

  // Records cannot be had exactly when the image needs more than 20 bits of address.
  lemma {:induction false} RecordsReach(data: seq<byte>, mask: seq<byte>, lineLength: nat, address: nat)
    requires address <= |mask| <= |data| && 1 <= lineLength && Offset(address) == 0 && address < 0x10_0000
    ensures Records(data, mask, lineLength, address).Some? <==> |mask| <= 0x10_0000
    decreases |mask| - address
  {
    hide DataRecords;
    var ceiling := Ceiling(mask, address);
    if ceiling != |mask| && ceiling / 16 <= 0xFFFF {
      RecordsReach(data, mask, lineLength, ceiling);
    }
  }

  // ---------- Which images make long lines ----------

  // A run of 250 bytes that are meant, within one segment.
  ghost predicate LongStretch(mask: seq<byte>, a: nat)
  {
    && a + MAX_RECORD < |mask| && a / SEGMENT == (a + MAX_RECORD) / SEGMENT
    && forall i :: a <= i <= a + MAX_RECORD ==> mask[i] != 0
  }

  // Whether every line written for an image is one that can be read back.
  ghost predicate ShortLines(mask: seq<byte>, lineLength: nat)
  {
    lineLength <= MAX_RECORD || forall a: nat :: !LongStretch(mask, a)
  }

  // The same between two addresses.
  ghost predicate StretchIn(mask: seq<byte>, address: nat, ceiling: nat, a: nat)
    requires ceiling <= |mask|
  {
    address <= a && a + MAX_RECORD < ceiling && forall i :: a <= i <= a + MAX_RECORD ==> mask[i] != 0
  }

  ghost predicate NoStretch(mask: seq<byte>, address: nat, ceiling: nat)
    requires ceiling <= |mask|
  {
    forall a: nat :: !StretchIn(mask, address, ceiling, a)
  }

  lemma {:induction false} RunStops(mask: seq<byte>, address: nat, max: nat)
    requires address + max <= |mask|
    ensures Run(mask, address, max) < max ==> mask[address + Run(mask, address, max)] == 0
    decreases max
  {
    if max != 0 && mask[address] != 0 {
      RunStops(mask, address + 1, max - 1);
    }
  }

  lemma ShortConcat(a: seq<Record>, b: seq<Record>)
    ensures AllShort(a + b) <==> AllShort(a) && AllShort(b)
  {
    var ab := a + b;
    assert forall i :: 0 <= i < |a| ==> ab[i] == a[i];
    assert forall i :: 0 <= i < |b| ==> ab[|a| + i] == b[i];
  }

  // With long lines allowed, the data records of a segment are short exactly when no long
  // stretch is meant.
  lemma {:induction false} ShortRecords(data: seq<byte>, mask: seq<byte>, lineLength: nat, address: nat, ceiling: nat)
    requires address <= ceiling <= |mask| <= |data| && lineLength > MAX_RECORD
    ensures AllShort(DataRecords(data, mask, lineLength, address, ceiling))
       <==> NoStretch(mask, address, ceiling)
    decreases ceiling - address
  {
    hide DataRecords, AllShort, NoStretch, Offset;
    if address == ceiling {
      NothingShort(data, mask, lineLength, address);
    } else if mask[address] == 0 {
      ShortRecords(data, mask, lineLength, address + 1, ceiling);
      NoRecordHere(data, mask, lineLength, address, ceiling, 0, 0);
      StretchBehind(mask, address, 0, ceiling);
    } else {
      var n := FirstRecord(data, mask, lineLength, address, ceiling);
      var r := Record(Offset(address), DATA_RECORD, data[address..address + n]);
      ShortRecords(data, mask, lineLength, address + n, ceiling);
      ShortConcat([r], DataRecords(data, mask, lineLength, address + n, ceiling));
      FirstStretch(mask, address, n, ceiling);
      ShortOne(r);
    }
  }

  lemma NothingShort(data: seq<byte>, mask: seq<byte>, lineLength: nat, address: nat)
    requires address <= |mask| <= |data| && lineLength > MAX_RECORD
    ensures AllShort(DataRecords(data, mask, lineLength, address, address)) && NoStretch(mask, address, address)
  {
  }

  lemma NoneShort()
    ensures AllShort([])
  {
  }

  lemma ShortOne(r: Record)
    ensures AllShort([r]) <==> |r.data| <= MAX_RECORD
  {
    assert [r][0] == r;
  }

  // A stretch from here on is in the run at hand, or behind it.
  lemma FirstStretch(mask: seq<byte>, address: nat, n: nat, ceiling: nat)
    requires 0 < n && address + n <= ceiling <= |mask| && forall i :: address <= i < address + n ==> mask[i] != 0
    requires n <= MAX_RECORD && address + n < ceiling ==> mask[address + n] == 0
    ensures NoStretch(mask, address, ceiling) <==> n <= MAX_RECORD && NoStretch(mask, address + n, ceiling)
  {
    hide NoStretch;
    if n > MAX_RECORD {
      SomeStretch(mask, address, ceiling);
    } else {
      StretchBehind(mask, address, n, ceiling);
    }
  }

  lemma SomeStretch(mask: seq<byte>, address: nat, ceiling: nat)
    requires ceiling <= |mask| && StretchIn(mask, address, ceiling, address)
    ensures !NoStretch(mask, address, ceiling)
  {
  }

  // No stretch starts in a run of n bytes that stops too soon, nor where it stops.
  lemma StretchBehind(mask: seq<byte>, address: nat, n: nat, ceiling: nat)
    requires address + n <= ceiling <= |mask| && n <= MAX_RECORD
    requires address + n < ceiling ==> mask[address + n] == 0
    ensures NoStretch(mask, address, ceiling) <==> NoStretch(mask, address + n, ceiling)
    ensures address + n < ceiling ==> (NoStretch(mask, address, ceiling) <==> NoStretch(mask, address + n + 1, ceiling))
  {
    var stop := address + n;
    var behind := stop + 1;
    if a: nat :| StretchIn(mask, address, ceiling, a) {
      if a <= stop {
        assert false;
      }
      assert StretchIn(mask, stop, ceiling, a) && StretchIn(mask, behind, ceiling, a);
    }
    if a: nat :| StretchIn(mask, stop, ceiling, a) {
      assert StretchIn(mask, address, ceiling, a);
    }
    if a: nat :| StretchIn(mask, behind, ceiling, a) {
      assert StretchIn(mask, address, ceiling, a);
    }
  }

  lemma StretchOfSegment(mask: seq<byte>, address: nat, a: nat)
    requires Offset(address) == 0 && address <= |mask|
    ensures var ceiling := Ceiling(mask, address);
            && (StretchIn(mask, address, ceiling, a) <==> address <= a < ceiling && LongStretch(mask, a))
            && (ceiling < |mask| ==> ceiling == address + SEGMENT && Offset(ceiling) == 0)
  {
    var k := address / SEGMENT;
    assert address == SEGMENT * k;
    if address <= a < address + SEGMENT {
      assert a / SEGMENT == k;
      assert a + MAX_RECORD < address + SEGMENT <==> (a + MAX_RECORD) / SEGMENT == k;
    }
  }

  // And so are all records.
  lemma {:induction false} ShortExact(data: seq<byte>, mask: seq<byte>, lineLength: nat, address: nat)
    requires address <= |mask| <= |data| && lineLength > MAX_RECORD
    requires Offset(address) == 0 && Records(data, mask, lineLength, address).Some?
    ensures AllShort(Records(data, mask, lineLength, address).value)
       <==> forall a: nat :: a >= address ==> !LongStretch(mask, a)
    decreases |mask| - address
  {
    hide DataRecords, AllShort, LongStretch, StretchIn, Offset;
    var ceiling := Ceiling(mask, address);
    var here := DataRecords(data, mask, lineLength, address, ceiling);
    ShortRecords(data, mask, lineLength, address, ceiling);
    forall a: nat
      ensures StretchIn(mask, address, ceiling, a) <==> address <= a < ceiling && LongStretch(mask, a)
    {
      StretchOfSegment(mask, address, a);
    }
    StretchOfSegment(mask, address, address);
    StretchesEnd(mask);
    if ceiling != |mask| {
      var rest := Records(data, mask, lineLength, ceiling).value;
      ShortConcat(here + [SegmentRecord(ceiling)], rest);
      ShortConcat(here, [SegmentRecord(ceiling)]);
      SegmentIsShort(ceiling);
      ShortExact(data, mask, lineLength, ceiling);
    }
  }

  lemma StretchesEnd(mask: seq<byte>)
    ensures forall a: nat :: LongStretch(mask, a) ==> a < |mask|
  {
  }

  lemma SegmentIsShort(address: nat)
    requires address / 16 < 0x1_0000
    ensures AllShort([SegmentRecord(address)])
  {
  }

  // ---------- The round trip ----------

  // The file for an image.
  ghost function FileOf(data: seq<byte>, mask: seq<byte>, lineLength: nat): (file: string)
    requires |mask| <= |data| && 1 <= lineLength < 256 && |mask| <= 0x10_0000
  {
    RecordsReach(data, mask, lineLength, 0);
    RecordsApply(data, mask, lineLength, 0, Reader(BLANK, 0, 0, 0));
    Print(Records(data, mask, lineLength, 0).value) + END_OF_FILE
  }

  // Reading the file succeeds exactly when no line of it is too long, which can be told from
  // the image and the line length; and then it gives back exactly what is meant.
  lemma RoundTrip(data: seq<byte>, mask: seq<byte>, lineLength: nat, dataFill: byte, maskFill: byte)
    requires |mask| <= |data| && 1 <= lineLength < 256 && |mask| <= 0x10_0000
    ensures var a := ReadFile(FileOf(data, mask, lineLength), dataFill, maskFill);
            && (a.status == HexOk <==> ShortLines(mask, lineLength))
            && (a.status == HexOk ==> a.reader.image == Kept(data, mask, dataFill, maskFill, |mask|))
  {
    var st := Reader(BLANK, 0, dataFill, maskFill);
    assert st.image == Kept(data, mask, dataFill, maskFill, 0);
    hide Kept, Records, ApplyAll, ReadLines, Print, LongStretch, AllShort;
    RecordsReach(data, mask, lineLength, 0);
    RecordsApply(data, mask, lineLength, 0, Reader(BLANK, 0, 0, 0));
    RecordsApply(data, mask, lineLength, 0, st);
    var rs := Records(data, mask, lineLength, 0).value;
    ReadableExact(rs, st);
    if lineLength > MAX_RECORD {
      ShortExact(data, mask, lineLength, 0);
    } else {
      RecordsWithin(data, mask, lineLength, 0);
    }
  }

  // No data record is longer than the line length.
  lemma {:induction false} RecordsWithin(data: seq<byte>, mask: seq<byte>, lineLength: nat, address: nat)
    requires address <= |mask| <= |data| && 1 <= lineLength <= MAX_RECORD
    requires Records(data, mask, lineLength, address).Some?
    ensures AllShort(Records(data, mask, lineLength, address).value)
    decreases |mask| - address
  {
    hide DataRecords, AllShort;
    var ceiling := Ceiling(mask, address);
    var here := DataRecords(data, mask, lineLength, address, ceiling);
    DataRecordsWithin(data, mask, lineLength, address, ceiling);
    if ceiling != |mask| {
      ShortConcat(here + [SegmentRecord(ceiling)], Records(data, mask, lineLength, ceiling).value);
      ShortConcat(here, [SegmentRecord(ceiling)]);
      SegmentIsShort(ceiling);
      RecordsWithin(data, mask, lineLength, ceiling);
    }
  }

  lemma {:induction false} DataRecordsWithin(data: seq<byte>, mask: seq<byte>, lineLength: nat,
                                             address: nat, ceiling: nat)
    requires address <= ceiling <= |mask| <= |data| && 1 <= lineLength <= MAX_RECORD
    ensures AllShort(DataRecords(data, mask, lineLength, address, ceiling))
    decreases ceiling - address
  {
    hide DataRecords, AllShort;
    if address == ceiling {
      NoRecords(data, mask, lineLength, address);
      NoneShort();
    } else if mask[address] == 0 {
      NoRecordHere(data, mask, lineLength, address, ceiling, 0, 0);
      DataRecordsWithin(data, mask, lineLength, address + 1, ceiling);
    } else {
      var n := FirstRecord(data, mask, lineLength, address, ceiling);
      ShortOne(Record(Offset(address), DATA_RECORD, data[address..address + n]));
      DataRecordsWithin(data, mask, lineLength, address + n, ceiling);
      ShortConcat([Record(Offset(address), DATA_RECORD, data[address..address + n])],
                  DataRecords(data, mask, lineLength, address + n, ceiling));
    }
  }

  // With zero fill: the data under the mask, zeros elsewhere, and the mask up to its last
  // set byte.
  lemma RoundTripBytes(data: seq<byte>, mask: seq<byte>, lineLength: nat)
    requires |mask| <= |data| && 1 <= lineLength < 256 && |mask| <= 0x10_0000
    ensures var a := ReadFile(FileOf(data, mask, lineLength), 0, 0);
            var n := |a.reader.image.mask|;
            && (a.status == HexOk <==> ShortLines(mask, lineLength))
            && (a.status == HexOk ==>
                  && |a.reader.image.data| == n <= |mask|
                  && (forall i :: 0 <= i < n ==> a.reader.image.data[i] == if mask[i] != 0 then data[i] else 0)
                  && (forall i :: 0 <= i < n ==> (a.reader.image.mask[i] != 0 <==> mask[i] != 0))
                  && (n > 0 ==> mask[n - 1] != 0) && (forall i :: n <= i < |mask| ==> mask[i] == 0))
  {
    hide Kept, ReadFile, FileOf, ShortLines;
    RoundTrip(data, mask, lineLength, 0, 0);
    KeptMeaning(data, mask, 0, 0, |mask|);
  }

  // 250 bytes, all meant, at a line length of 250.
  lemma LongLine(data: seq<byte>, dataFill: byte, maskFill: byte)
    requires |data| == 250
    ensures ReadFile(FileOf(data, Repeat<byte>(1, 250), 250), dataFill, maskFill).status != HexOk
  {
    hide ReadFile, FileOf;
    RoundTrip(data, Repeat<byte>(1, 250), 250, dataFill, maskFill);
    assert LongStretch(Repeat<byte>(1, 250), 0);
  }
}
