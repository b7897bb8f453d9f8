// Reading and writing Intel HEX files. A file is its characters.
module HexIo {
  import opened Bytes
  import opened Buffers
  import opened Csvf
  import opened HexFormat
  import opened HexImage
  import opened HexRoundTrip

  // ---------- Reading ----------

  lemma {:induction false} NoBytesFrom(line: string, p: nat, m: nat, n: nat)
    requires m <= n && ReadBytes(line, p, m).None?
    ensures ReadBytes(line, p, n).None?
    decreases n
  {
    if m < n {
      NoBytesFrom(line, p, m, n - 1);
    }
  }

  lemma SumOfFour(a: byte, b: byte, c: byte, d: byte)
    ensures Sum([a, b, c, d]) == a as nat + b as nat + c as nat + d as nat
  {
    HexesMore([a, b, c], d);
    HexesMore([a, b], c);
    HexesMore([a], b);
    assert [a, b, c] + [d] == [a, b, c, d] && [a, b] + [c] == [a, b, c] && [a] + [b] == [a, b];
    assert Sum([a]) == a as nat;
  }

  // The first i data bytes have been read, and added up with those in front of them.
  ghost predicate DataRead(line: string, front: seq<byte>, i: nat, data: seq<byte>, checksum: byte)
  {
    ReadBytes(line, 9, i) == Some(data) && checksum as nat == Sum(front + data) % 256
  }

  lemma ReadMore(line: string, front: seq<byte>, i: nat, data: seq<byte>, checksum: byte)
    requires DataRead(line, front, i, data, checksum)
    ensures match ReadByte(line, 9 + 2 * i)
            case None => ReadBytes(line, 9, i + 1).None?
            case Some(b) => DataRead(line, front, i + 1, data + [b], (checksum as nat + b as nat) % 256)
  {
    hide ReadByte, Sum;
    var b := ReadByte(line, 9 + 2 * i);
    if b.Some? {
      assert front + (data + [b.value]) == front + data + [b.value];
      HexesMore(front + data, b.value);
      AddByte(checksum, Sum(front + data), b.value);
    }
  }

  lemma NoneRead(line: string, front: seq<byte>, start: byte)
    requires start as nat == Sum(front) % 256
    ensures DataRead(line, front, 0, [], start)
  {
    assert front + [] == front;
  }

  // The data bytes of a record, added up with those in front of them.
  method ReadData(line: string, byteCount: byte, ghost front: seq<byte>, start: byte)
    returns (data: Option<seq<byte>>, checksum: byte)
    requires start as nat == Sum(front) % 256
    ensures data == ReadBytes(line, 9, byteCount)
    ensures data.Some? ==> checksum as nat == Sum(front + data.value) % 256
  {
    NoneRead(line, front, start);
    hide ReadByte, ReadBytes, Sum;
    var dataBytes: seq<byte>, i: nat := [], 0;
    checksum := start;
    while i < byteCount as nat
      invariant i <= byteCount as nat && DataRead(line, front, i, dataBytes, checksum)
    {
      ReadMore(line, front, i, dataBytes, checksum);
      var thisByte := ReadByte(line, 9 + 2 * i);
      if thisByte.None? {
        NoBytesFrom(line, 9, i + 1, byteCount);
        return None, checksum;
      }
      dataBytes := dataBytes + [thisByte.value];
      checksum := (checksum as nat + thisByte.value as nat) % 256;
      i := i + 1;
    }
    data := Some(dataBytes);
  }

  lemma AddByte(checksum: byte, sum: nat, b: byte)
    requires checksum as nat == sum % 256
    ensures (checksum as nat + b as nat) % 256 == (sum + b as nat) % 256
  {
  }

  method FindEnd(line: string, p: nat) returns (e: nat)
    ensures e == EndOf(line, p)
  {
    e := p;
    while e < |line| && !IsStop(line[e])
      invariant p <= e && (e <= |line| || e == p) && EndOf(line, e) == EndOf(line, p)
    {
      e := e + 1;
    }
  }

  // The record on a line, if it is one.
  method ScanLine(line: string) returns (r: ReadLine)
    ensures r == ParseLine(line)
  {
    hide ReadByte, ReadBytes, Line, Sum;
    if At(line, 0) != ':' {
      return Bad(JunkStartCode);
    }
    var byteCount := ReadByte(line, 1);
    if byteCount.None? {
      return Bad(JunkByteCount);
    }
    var msb := ReadByte(line, 3);
    if msb.None? {
      return Bad(JunkAddrMsb);
    }
    var lsb := ReadByte(line, 5);
    if lsb.None? {
      return Bad(JunkAddrLsb);
    }
    var recordType := ReadByte(line, 7);
    if recordType.None? {
      return Bad(JunkRecType);
    }
    var n, h, l, t := byteCount.value, msb.value, lsb.value, recordType.value;
    SumOfFour(n, h, l, t);
    var start: byte := (n as nat + h as nat + l as nat + t as nat) % 256;
    var data, calculated := ReadData(line, n, [n, h, l, t], start);
    if data.None? {
      return Bad(JunkDataByte);
    }
    var readChecksum := ReadByte(line, 9 + 2 * (n as nat));
    if readChecksum.None? {
      return Bad(JunkChecksum);
    }
    var record := Record(256 * (h as nat) + l as nat, t, data.value);
    assert Front(record) == [n, h, l, t] + data.value;
    if readChecksum.value as nat != (256 - calculated as nat) % 256 {
      return Bad(BadChecksum);
    }
    var e := FindEnd(line, 9 + 2 * (n as nat));
    if line[..e] != Line(record) {
      return Bad(CorruptLine);
    }
    r := Good(record);
  }

  // What the buffers and the segment say. The mask buffer is optional; mask is what it holds
  // or, if there is none, what it would hold.
  ghost function ReaderOf(destData: Buffer, mask: seq<byte>, maskFill: byte, segment: nat): Reader
    requires destData.length <= destData.data.Length
    reads destData, destData.data
  {
    Reader(Image(destData.Contents(), mask), segment, destData.fill, maskFill)
  }

  ghost function MaskFill(destMask: Buffer?): byte
    reads destMask
  {
    if destMask == null then 0 else destMask.fill
  }

  ghost function Memory(b: Buffer?): set<object>
    reads b
  {
    if b == null then {}
    else
      var buffer: Buffer := b;
      {buffer, buffer.data}
  }

  ghost predicate Apart(destData: Buffer, destMask: Buffer?)
    reads destData, destData.data, Memory(destMask)
  {
    && destData.Valid()
    && (destMask != null ==> destMask.Valid() && destData != destMask && destData.data != destMask.data)
  }

  ghost predicate Holds(destMask: Buffer?, mask: seq<byte>)
    reads Memory(destMask)
  {
    destMask != null ==> destMask.Valid() && destMask.Contents() == mask
  }

  // The bytes of a data record, and that they are meant.
  method StoreData(destData: Buffer, destMask: Buffer?, at: nat, data: seq<byte>, ghost mask: seq<byte>)
    returns (ghost newMask: seq<byte>)
    requires Apart(destData, destMask) && Holds(destMask, mask)
    modifies destData, destData.data, Memory(destMask)
    ensures Apart(destData, destMask) && Holds(destMask, newMask)
    ensures MaskFill(destMask) == old(MaskFill(destMask)) && destData.fill == old(destData.fill)
    ensures destData.data == old(destData.data) || fresh(destData.data)
    ensures destMask != null ==> destMask.data == old(destMask.data) || fresh(destMask.data)
    ensures Image(destData.Contents(), newMask)
         == Put(old(Image(destData.Contents(), mask)), destData.fill, MaskFill(destMask), at, data)
  {
    hide Overwrite;
    newMask := Overwrite(mask, MaskFill(destMask), at, Repeat<byte>(1, |data|));
    destData.WriteBlock(at, data);
    if destMask != null {
      destMask.WriteConst(at, 1, |data|);
    }
  }

  method ProcessLine(line: string, destData: Buffer, destMask: Buffer?, segment: nat, ghost mask: seq<byte>)
    returns (status: HexStatus, newSegment: nat, recordType: byte, ghost newMask: seq<byte>)
    requires Apart(destData, destMask) && Holds(destMask, mask)
    modifies destData, destData.data, Memory(destMask)
    ensures Apart(destData, destMask) && Holds(destMask, newMask) && MaskFill(destMask) == old(MaskFill(destMask))
    ensures destData.data == old(destData.data) || fresh(destData.data)
    ensures destMask != null ==> destMask.data == old(destMask.data) || fresh(destMask.data)
    ensures ParseLine(line).Bad? ==> status == ParseLine(line).status
    ensures ParseLine(line).Good? ==>
              && recordType == ParseLine(line).record.kind
              && Applied(ReaderOf(destData, newMask, MaskFill(destMask), newSegment), status)
                 == Apply(old(ReaderOf(destData, mask, MaskFill(destMask), segment)), ParseLine(line).record)
  {
    hide ParseLine, Put;
    newSegment, recordType, newMask := segment, 0, mask;
    var parsed := ScanLine(line);
    if parsed.Bad? {
      return parsed.status, segment, 0, mask;
    }
    var r := parsed.record;
    recordType := r.kind;
    status := HexOk;
    if recordType == DATA_RECORD {
      newMask := StoreData(destData, destMask, segment + r.address, r.data, mask);
    } else if recordType == EOF_RECORD {
    } else if recordType == EXT_SEG_RECORD {
      if r.address != 0 || |r.data| != 2 {
        status := BadExtSeg;
      } else {
        newSegment := (256 * (r.data[0] as nat) + r.data[1] as nat) * 16;
      }
    } else {
      status := BadRecType;
    }
  }

  // Read a whole file into the buffers.
  method ReadFromIntelHexFile(destData: Buffer, destMask: Buffer?, file: string) returns (status: HexStatus)
    requires Apart(destData, destMask)
    modifies destData, destData.data, Memory(destMask)
    ensures Apart(destData, destMask)
    ensures var a := ReadFile(file, old(destData.fill), old(MaskFill(destMask)));
            status == a.status
            && (status == HexOk ==> destData.Contents() == a.reader.image.data && Holds(destMask, a.reader.image.mask))
  {
    hide ReadLines, ParseLine, Apply;
    destData.ZeroLength();
    if destMask != null {
      destMask.ZeroLength();
    }
    if file == "" {
      return EmptyFile;
    }
    var segment, rest := 0, file;
    ghost var mask: seq<byte> := [];
    ghost var all := ReadFile(file, destData.fill, MaskFill(destMask));
    while true
      invariant Apart(destData, destMask) && Holds(destMask, mask) && rest != ""
      invariant destData.data == old(destData.data) || fresh(destData.data)
      invariant destMask != null ==> destMask.data == old(destMask.data) || fresh(destMask.data)
      invariant ReadLines(rest, ReaderOf(destData, mask, MaskFill(destMask), segment)) == all
      decreases |rest|
    {
      NextLine(rest, ReaderOf(destData, mask, MaskFill(destMask), segment));
      var readLine := Gets(rest, 0);
      var recordType;
      status, segment, recordType, mask := ProcessLine(readLine, destData, destMask, segment, mask);
      if status != HexOk {
        return;
      }
      if recordType == EOF_RECORD {
        return;
      }
      if |readLine| == |rest| {
        return MissingEof;
      }
      rest := rest[|readLine|..];
    }
  }

  lemma NextLine(file: string, st: Reader)
    requires file != ""
    ensures Gets(file, 0) <= file && Gets(file, 0) != ""
    ensures ParseLine(Gets(file, 0)).Bad? ==> ReadLines(file, st) == Applied(st, ParseLine(Gets(file, 0)).status)
    ensures ParseLine(Gets(file, 0)).Bad? ==> ParseLine(Gets(file, 0)).status != HexOk
    ensures ParseLine(Gets(file, 0)).Good? ==>
              var line, r := Gets(file, 0), ParseLine(Gets(file, 0)).record;
              var a := Apply(st, r);
              ReadLines(file, st) == (if a.status != HexOk || r.kind == EOF_RECORD then a
                                      else if |line| == |file| then Applied(a.reader, MissingEof)
                                      else ReadLines(file[|line|..], a.reader))
  {
    hide ParseLine, Apply, Gets;
  }

  // ---------- Deriving a mask ----------

  // [a, b) is a run of the fill byte that cannot be made longer.
  predicate FillRun(s: seq<byte>, fill: byte, a: nat, b: nat)
  {
    && a < b <= |s| && (forall i :: a <= i < b ==> s[i] == fill)
    && (a == 0 || s[a - 1] != fill) && (b == |s| || s[b] != fill)
  }

  ghost predicate InLongRun(s: seq<byte>, fill: byte, i: nat)
  {
    exists a: nat, b: nat :: FillRun(s, fill, a, b) && a <= i < b && b - a >= 8
  }

  lemma RunUnique(s: seq<byte>, fill: byte, a: nat, b: nat, c: nat, d: nat, i: nat)
    requires FillRun(s, fill, a, b) && FillRun(s, fill, c, d) && a <= i < b && c <= i < d
    ensures a == c && b == d
  {
  }

  // The bytes of a run are in a long run exactly when it is long.
  lemma RunIsLong(s: seq<byte>, fill: byte, a: nat, b: nat)
    requires FillRun(s, fill, a, b)
    ensures forall i :: a <= i < b ==> (InLongRun(s, fill, i) <==> b - a >= 8)
  {
    forall i | a <= i < b
      ensures InLongRun(s, fill, i) <==> b - a >= 8
    {
      if InLongRun(s, fill, i) {
        var c: nat, d: nat :| FillRun(s, fill, c, d) && c <= i < d && d - c >= 8;
        RunUnique(s, fill, a, b, c, d, i);
      }
    }
  }

  lemma NoRunHere(s: seq<byte>, fill: byte, i: nat)
    requires i < |s| && s[i] != fill
    ensures !InLongRun(s, fill, i)
  {
  }

  // How many fill bytes there are from an address on.
  method CountFill(data: array<byte>, fill: byte, address: nat, n: nat) returns (count: nat)
    requires address < n <= data.Length && data[address] == fill && (address > 0 ==> data[address - 1] != fill)
    ensures 1 <= count && address + count <= n && FillRun(data[..n], fill, address, address + count)
    ensures address + count < n ==> data[address + count] != fill
  {
    count := 1;
    while address + count < n && data[address + count] == fill
      invariant 1 <= count && address + count <= n
      invariant forall i :: address <= i < address + count ==> data[i] == fill
    {
      count := count + 1;
    }
  }

  // The mask that leaves out the runs of eight and more fill bytes, and nothing else.
  method DeriveMask(sourceData: Buffer, destMask: Buffer)
    requires Apart(sourceData, destMask)
    modifies destMask, destMask.data
    ensures destMask.Valid() && (destMask.data == old(destMask.data) || fresh(destMask.data))
    ensures var s := sourceData.Contents();
            && |destMask.Contents()| == |s|
            && forall i :: 0 <= i < |s| ==>
                 destMask.Contents()[i] == if InLongRun(s, sourceData.fill, i) then 0 else 1
  {
    hide InLongRun;
    destMask.ZeroLength();
    destMask.AppendConst(1, sourceData.length);
    ghost var s, fill := sourceData.Contents(), sourceData.fill;
    var mask, n := destMask.data, destMask.length;
    var address: nat := 0;
    assert forall i :: 0 <= i < n ==> destMask.Contents()[i] == 1;
    while address < n
      invariant address <= n == |s| <= mask.Length
      invariant 0 < address < n ==> !(s[address - 1] == fill && s[address] == fill)
      invariant forall i :: 0 <= i < address ==> mask[i] == if InLongRun(s, fill, i) then 0 else 1
      invariant forall i :: address <= i < n ==> mask[i] == 1
      invariant forall i :: n <= i < mask.Length ==> mask[i] == destMask.fill
      decreases n - address
      modifies mask
    {
      if sourceData.data[address] != sourceData.fill {
        assert s[address] != fill;
        NoRunHere(s, fill, address);
        address := address + 1;
      } else {
        assert address > 0 ==> s[address - 1] != fill;
        var count := CountFill(sourceData.data, sourceData.fill, address, n);
        RunIsLong(s, fill, address, address + count);
        if count >= 8 {
          ClearRun(mask, address, count);
        }
        address := address + count;
      }
    }
    assert forall i :: 0 <= i < n ==> destMask.Contents()[i] == mask[i];
  }

  method ClearRun(mask: array<byte>, address: nat, count: nat)
    requires address + count <= mask.Length
    modifies mask
    ensures forall i :: 0 <= i < mask.Length ==>
              mask[i] == if address <= i < address + count then 0 else old(mask[i])
  {
    var i := 0;
    while i < count
      invariant 0 <= i <= count
      invariant forall j :: 0 <= j < mask.Length ==> mask[j] == if address <= j < address + i then 0 else old(mask[j])
    {
      mask[address + i] := 0;
      i := i + 1;
    }
  }

  // ---------- Writing ----------

  lemma {:induction false} PrintConcat(a: seq<Record>, b: seq<Record>)
    requires AllValid(a) && AllValid(b)
    ensures AllValid(a + b) && Print(a + b) == Print(a) + Print(b)
    decreases |a|
  {
    hide Line;
    assert AllValid(a + b);
    if a == [] {
      assert a + b == b;
    } else {
      assert (a + b)[1..] == a[1..] + b;
      PrintConcat(a[1..], b);
    }
  }

  lemma PrintMore(a: seq<Record>, r: Record)
    requires AllValid(a) && Valid(r)
    ensures AllValid(a + [r]) && Print(a + [r]) == Print(a) + Line(r) + "\n"
  {
    hide Line;
    PrintConcat(a, [r]);
    assert [r][1..] == [];
    assert Print([r]) == Line(r) + "\n" + "";
    assert Print(a) + (Line(r) + "\n") == Print(a) + Line(r) + "\n";
  }

  // The line of a record, digit by digit, with its checksum.
  method WriteRecord(r: Record) returns (line: string)
    requires Valid(r)
    ensures line == Line(r) + "\n"
  {
    hide Hex, Hexes, Sum;
    var n, h, l: byte := |r.data|, r.address / 256, r.address % 256;
    ghost var front := [n, h, l, r.kind];
    line := ":" + Hex(n) + Hex(h) + Hex(l) + Hex(r.kind);
    SumOfFour(n, h, l, r.kind);
    HexesOfFour(n, h, l, r.kind);
    var calculatedChecksum: byte := (n as nat + h as nat + l as nat + r.kind as nat) % 256;
    var i: nat := 0;
    assert front + [] == front && r.data[..0] == [];
    while i < |r.data|
      invariant i <= |r.data| && line == ":" + Hexes(front + r.data[..i])
      invariant calculatedChecksum as nat == Sum(front + r.data[..i]) % 256
    {
      OneMore(front, r.data, i);
      AddByte(calculatedChecksum, Sum(front + r.data[..i]), r.data[i]);
      line := line + Hex(r.data[i]);
      calculatedChecksum := (calculatedChecksum as nat + r.data[i] as nat) % 256;
      i := i + 1;
    }
    assert r.data[..i] == r.data && front + r.data == Front(r);
    HexesMore(Front(r), Checksum(Front(r)));
    line := line + Hex((256 - calculatedChecksum as nat) % 256);
    line := line + "\n";
  }

  lemma HexesOfFour(a: byte, b: byte, c: byte, d: byte)
    ensures ":" + Hex(a) + Hex(b) + Hex(c) + Hex(d) == ":" + Hexes([a, b, c, d])
  {
    hide Hex;
    HexesMore([a, b, c], d);
    HexesMore([a, b], c);
    HexesMore([a], b);
    HexesMore([], a);
    assert [a, b, c] + [d] == [a, b, c, d] && [a, b] + [c] == [a, b, c] && [a] + [b] == [a, b] && [] + [a] == [a];
  }

  lemma OneMore(front: seq<byte>, data: seq<byte>, i: nat)
    requires i < |data|
    ensures ":" + Hexes(front + data[..i + 1]) == ":" + Hexes(front + data[..i]) + Hex(data[i])
    ensures Sum(front + data[..i + 1]) == Sum(front + data[..i]) + data[i] as nat
  {
    hide Hex, Hexes, Sum;
    assert front + data[..i + 1] == front + data[..i] + [data[i]];
    HexesMore(front + data[..i], data[i]);
  }

  // How many bytes the next record takes.
  method CountRun(mask: seq<byte>, address: nat, max: nat) returns (n: nat)
    requires address + max <= |mask|
    ensures n == Run(mask, address, max)
  {
    n := 0;
    while n < max && mask[address + n] != 0
      invariant n <= max && Run(mask, address, max) == n + Run(mask, address + n, max - n)
    {
      n := n + 1;
    }
  }

  // What is left of a segment to write.
  ghost predicate Writing(data: seq<byte>, mask: seq<byte>, lineLength: nat, start: nat, address: nat, ceiling: nat,
                          done: seq<Record>)
  {
    && address <= ceiling <= |mask| <= |data| && 1 <= lineLength < 256 && start <= ceiling && AllValid(done)
    && DataRecords(data, mask, lineLength, start, ceiling)
       == done + DataRecords(data, mask, lineLength, address, ceiling)
  }

  lemma WritingSkips(data: seq<byte>, mask: seq<byte>, lineLength: nat, start: nat, address: nat, ceiling: nat,
                     done: seq<Record>)
    requires Writing(data, mask, lineLength, start, address, ceiling, done)
    requires address < ceiling && mask[address] == 0
    ensures Writing(data, mask, lineLength, start, address + 1, ceiling, done)
  {
    NoRecordHere(data, mask, lineLength, address, ceiling, 0, 0);
  }

  lemma WritingStep(data: seq<byte>, mask: seq<byte>, lineLength: nat, start: nat, address: nat, ceiling: nat,
                    done: seq<Record>, n: nat)
    requires Writing(data, mask, lineLength, start, address, ceiling, done)
    requires address < ceiling && mask[address] != 0
    requires n == Run(mask, address, if address + lineLength > ceiling then ceiling - address else lineLength)
    ensures n > 0 && address + n <= ceiling
    ensures var r := Record(Offset(address), DATA_RECORD, data[address..address + n]);
            Valid(r) && Writing(data, mask, lineLength, start, address + n, ceiling, done + [r])
  {
    hide Offset, Run;
    var r := Record(Offset(address), DATA_RECORD, data[address..address + n]);
    var rest := DataRecords(data, mask, lineLength, address + n, ceiling);
    assert DataRecords(data, mask, lineLength, address, ceiling) == [r] + rest;
    hide DataRecords;
    assert done + ([r] + rest) == done + [r] + rest;
  }

  // The data records of one segment, as text.
  method WriteSegment(data: seq<byte>, mask: seq<byte>, lineLength: nat, start: nat, ceiling: nat)
    returns (text: string)
    requires start <= ceiling <= |mask| <= |data| && 1 <= lineLength < 256
    ensures AllValid(DataRecords(data, mask, lineLength, start, ceiling))
    ensures text == Print(DataRecords(data, mask, lineLength, start, ceiling))
  {
    hide Line, Print, Run, Offset, Writing;
    text := "";
    var address: nat := start;
    ghost var done: seq<Record> := [];
    WritingStarts(data, mask, lineLength, start, ceiling);
    while address < ceiling
      invariant start <= address <= ceiling && AllValid(done) && text == Print(done)
      invariant Writing(data, mask, lineLength, start, address, ceiling, done)
      decreases ceiling - address
    {
      while address < ceiling && mask[address] == 0
        invariant start <= address <= ceiling
        invariant Writing(data, mask, lineLength, start, address, ceiling, done)
      {
        WritingSkips(data, mask, lineLength, start, address, ceiling, done);
        address := address + 1;
      }
      if address == ceiling {
        break;
      }
      var maxBytesToWrite := if address + lineLength > ceiling then ceiling - address else lineLength;
      var bytesToWrite := CountRun(mask, address, maxBytesToWrite);
      WritingStep(data, mask, lineLength, start, address, ceiling, done, bytesToWrite);
      var r := Record(Offset(address), DATA_RECORD, data[address..address + bytesToWrite]);
      var line := WriteRecord(r);
      PrintMore(done, r);
      assert text + line == text + Line(r) + "\n";
      text := text + line;
      done := done + [r];
      address := address + bytesToWrite;
    }
    WritingEnds(data, mask, lineLength, start, ceiling, done);
  }

  lemma WritingStarts(data: seq<byte>, mask: seq<byte>, lineLength: nat, start: nat, ceiling: nat)
    requires start <= ceiling <= |mask| <= |data| && 1 <= lineLength < 256
    ensures Writing(data, mask, lineLength, start, start, ceiling, []) && Print([]) == ""
  {
    hide DataRecords;
    var all := DataRecords(data, mask, lineLength, start, ceiling);
    assert [] + all == all;
  }

  lemma WritingEnds(data: seq<byte>, mask: seq<byte>, lineLength: nat, start: nat, ceiling: nat, done: seq<Record>)
    requires Writing(data, mask, lineLength, start, ceiling, ceiling, done)
    ensures DataRecords(data, mask, lineLength, start, ceiling) == done && AllValid(done)
  {
    assert DataRecords(data, mask, lineLength, ceiling, ceiling) == [];
    assert done + [] == done;
  }

  // The records from start on are what is left to write.
  ghost predicate Left(all: Option<seq<Record>>, done: seq<Record>, left: Option<seq<Record>>)
  {
    && AllValid(done) && (all.None? <==> left.None?)
    && (left.Some? ==> all.value == done + left.value)
  }

  lemma LeftStep(data: seq<byte>, mask: seq<byte>, lineLength: nat, start: nat, all: Option<seq<Record>>,
       done: seq<Record>)
    requires start <= |mask| <= |data| && 1 <= lineLength
    requires Left(all, done, Records(data, mask, lineLength, start))
    requires AllValid(DataRecords(data, mask, lineLength, start, Ceiling(mask, start)))
    ensures var ceiling := Ceiling(mask, start);
            var here := DataRecords(data, mask, lineLength, start, ceiling);
            && AllValid(done + here)
            && (ceiling == |mask| ==> all == Some(done + here))
            && (ceiling < |mask| && ceiling / 16 > 0xFFFF ==> all.None?)
            && (ceiling < |mask| && ceiling / 16 <= 0xFFFF ==>
                  Left(all, done + here + [SegmentRecord(ceiling)], Records(data, mask, lineLength, ceiling)))
  {
    hide DataRecords;
    var ceiling := Ceiling(mask, start);
    var here := DataRecords(data, mask, lineLength, start, ceiling);
    if ceiling < |mask| && ceiling / 16 <= 0xFFFF {
      var rest := Records(data, mask, lineLength, ceiling);
      if rest.Some? {
        assert done + (here + [SegmentRecord(ceiling)] + rest.value)
            == done + here + [SegmentRecord(ceiling)] + rest.value;
      }
    }
  }

  // Write what is meant, segment by segment, then the end of the file.
  method WriteMasked(data: seq<byte>, mask: seq<byte>, lineLength: nat) returns (status: HexStatus, file: string)
    requires |mask| <= |data| && 1 <= lineLength < 256
    ensures var rs := Records(data, mask, lineLength, 0);
            && (rs.None? ==> status == BadExtSeg)
            && (rs.Some? ==> status == HexOk && AllValid(rs.value) && file == Print(rs.value) + END_OF_FILE)
  {
    ghost var done: seq<Record> := [];
    assert Print(done) == "";
    hide Print, Line, DataRecords, Records;
    ghost var all := Records(data, mask, lineLength, 0);
    file := "";
    assert all.Some? ==> [] + all.value == all.value;
    var address: nat := 0;
    while true
      invariant address <= |mask| && AllValid(done) && file == Print(done)
      invariant Left(all, done, Records(data, mask, lineLength, address))
      decreases |mask| - address
    {
      var ceiling := Ceiling(mask, address);
      ghost var here := DataRecords(data, mask, lineLength, address, ceiling);
      var text := WriteSegment(data, mask, lineLength, address, ceiling);
      LeftStep(data, mask, lineLength, address, all, done);
      PrintConcat(done, here);
      file := file + text;
      done := done + here;
      if ceiling == |mask| {
        break;
      }
      if ceiling / 16 > 0xFFFF {
        return BadExtSeg, file;
      }
      var r := SegmentRecord(ceiling);
      var line := WriteRecord(r);
      PrintMore(done, r);
      assert file + line == file + Line(r) + "\n";
      file := file + line;
      done := done + [r];
      address := ceiling;
    }
    file := file + END_OF_FILE;
    status := HexOk;
  }

  ghost function DerivedMask(s: seq<byte>, fill: byte): (mask: seq<byte>)
    ensures |mask| == |s| && forall i :: 0 <= i < |s| ==> mask[i] == if InLongRun(s, fill, i) then 0 else 1
  {
    seq(|s|, i requires 0 <= i < |s| => if InLongRun(s, fill, i) then 0 else 1)
  }

  // The mask to write under: the one supplied, or else everything, or, to compress, all but
  // the long runs of the fill byte.
  ghost function MaskFor(sourceMask: Buffer?, s: seq<byte>, fill: byte, compress: bool): (mask: seq<byte>)
    requires sourceMask != null ==> sourceMask.Valid() && sourceMask.length <= |s|
    reads sourceMask, if sourceMask != null then {sourceMask.data} else {}
    ensures |mask| <= |s|
  {
    if sourceMask != null then sourceMask.Contents()
    else if compress then DerivedMask(s, fill)
    else Repeat<byte>(1, |s|)
  }

  method WriteToIntelHexFile(sourceData: Buffer, sourceMask: Buffer?, lineLength: nat, compress: bool)
    returns (status: HexStatus, file: string)
    requires sourceData.Valid() && 1 <= lineLength < 256
    requires sourceMask != null ==> sourceMask.Valid() && sourceMask.length <= sourceData.length
    ensures var s := sourceData.Contents();
            var rs := Records(s, MaskFor(sourceMask, s, sourceData.fill, compress), lineLength, 0);
            && (rs.None? ==> status == BadExtSeg)
            && (rs.Some? ==> status == HexOk && AllValid(rs.value) && file == Print(rs.value) + END_OF_FILE)
  {
    hide Print, Records, InLongRun;
    var data := sourceData.data[..sourceData.length];
    var mask;
    if sourceMask != null {
      mask := sourceMask.data[..sourceMask.length];
    } else {
      var tmp := new Buffer(1024, 0);
      if compress {
        DeriveMask(sourceData, tmp);
      } else {
        tmp.AppendConst(1, sourceData.length);
      }
      mask := tmp.data[..tmp.length];
    }
    assert mask == MaskFor(sourceMask, data, sourceData.fill, compress);
    status, file := WriteMasked(data, mask, lineLength);
  }

  // Exactly the images of up to a megabyte can be written. For every line length that the
  // writer accepts, the file comes back exactly when lines of 250 bytes and more are not
  // allowed or not called for; and then reading gives back what is meant.
  lemma WrittenComesBack(data: seq<byte>, mask: seq<byte>, lineLength: nat, dataFill: byte, maskFill: byte)
    requires |mask| <= |data| && 1 <= lineLength < 256
    ensures var rs := Records(data, mask, lineLength, 0);
            && (rs.Some? <==> |mask| <= 0x10_0000)
            && (rs.Some? ==>
                  AllValid(rs.value)
                  && var a := ReadFile(Print(rs.value) + END_OF_FILE, dataFill, maskFill);
                     && (a.status == HexOk <==> ShortLines(mask, lineLength))
                     && (a.status == HexOk ==> a.reader.image == Kept(data, mask, dataFill, maskFill, |mask|)))
  {
    hide Records, Kept, ReadFile, Print, ShortLines;
    RecordsReach(data, mask, lineLength, 0);
    if |mask| <= 0x10_0000 {
      RecordsApply(data, mask, lineLength, 0, Reader(BLANK, 0, 0, 0));
      RoundTrip(data, mask, lineLength, dataFill, maskFill);
    }
  }

  // A compressed image, read back into a buffer with the same fill, is the data up to a
  // trailing run of fill bytes.
  lemma CompressedComesBack(data: seq<byte>, fill: byte, maskFill: byte)
    ensures var image := Kept(data, DerivedMask(data, fill), fill, maskFill, |data|);
            image.data <= data && forall i :: |image.data| <= i < |data| ==> data[i] == fill
  {
    hide Kept;
    var mask := DerivedMask(data, fill);
    KeptMeaning(data, mask, fill, maskFill, |mask|);
    forall i | 0 <= i < |data| && mask[i] == 0
      ensures data[i] == fill
    {
      var a: nat, b: nat :| FillRun(data, fill, a, b) && a <= i < b && b - a >= 8;
    }
  }
}
