// One line of an Intel HEX file: how a record is printed, and how a line is read back
// (sections 2 and 4 of the Intel Hexadecimal Object File Format Specification, Revision A).
module HexFormat {
  import opened Bytes
  import opened Csvf

  const DATA_RECORD: byte := 0x00
  const EOF_RECORD: byte := 0x01
  const EXT_SEG_RECORD: byte := 0x02

  // ---------- Printing ----------

  function HexDigit(n: nat): char
    requires n < 16
  {
    "0123456789ABCDEF"[n]
  }

  function Hex(b: byte): (s: string)
    ensures |s| == 2
  {
    [HexDigit(b / 16), HexDigit(b % 16)]
  }

  function Hexes(s: seq<byte>): (h: string)
    ensures |h| == 2 * |s|
  {
    if s == [] then "" else Hexes(s[..|s| - 1]) + Hex(s[|s| - 1])
  }

  function Sum(s: seq<byte>): nat
  {
    if s == [] then 0 else Sum(s[..|s| - 1]) + s[|s| - 1]
  }

  // The byte that makes the sum a multiple of 256.
  function Checksum(s: seq<byte>): byte
  {
    (256 - Sum(s) % 256) % 256
  }

  datatype Record = Record(address: nat, kind: byte, data: seq<byte>)

  predicate Valid(r: Record)
  {
    r.address < 0x1_0000 && |r.data| < 256
  }

  // Everything between the colon and the checksum.
  function Front(r: Record): seq<byte>
    requires Valid(r)
  {
    [|r.data|, r.address / 256, r.address % 256, r.kind] + r.data
  }

  function Line(r: Record): (s: string)
    requires Valid(r)
    ensures |s| == 11 + 2 * |r.data|
  {
    ":" + Hexes(Front(r) + [Checksum(Front(r))])
  }

  // ---------- Reading ----------

  // The character at p of a C string.
  function At(line: string, p: nat): char
  {
    if p < |line| then line[p] else '\0'
  }

  function Nibble(c: char): Option<nat>
  {
    if '0' <= c <= '9' then Some((c - '0') as nat)
    else if 'a' <= c <= 'f' then Some((c - 'a') as nat + 10)
    else if 'A' <= c <= 'F' then Some((c - 'A') as nat + 10)
    else None
  }

  function ReadByte(line: string, p: nat): (b: Option<byte>)
    ensures b.Some? ==> p + 1 < |line|
  {
    match Nibble(At(line, p))
    case None => None
    case Some(upper) =>
      match Nibble(At(line, p + 1))
      case None => None
      case Some(lower) => if upper < 16 && lower < 16 then Some(16 * upper + lower) else None
  }

  // n bytes from p on, if they are all there.
  function ReadBytes(line: string, p: nat, n: nat): (r: Option<seq<byte>>)
    ensures r.Some? ==> |r.value| == n
    decreases n
  {
    if n == 0 then Some([])
    else
      match ReadBytes(line, p, n - 1)
      case None => None
      case Some(front) =>
        match ReadByte(line, p + 2 * n - 2)
        case None => None
        case Some(b) => Some(front + [b])
  }

  predicate IsStop(c: char)
  {
    c == '\0' || c == '\r' || c == '\n'
  }

  // The first place from p on where the line stops.
  function EndOf(line: string, p: nat): (e: nat)
    ensures p <= |line| ==> p <= e <= |line|
    ensures forall i :: p <= i < e && i < |line| ==> !IsStop(line[i])
    decreases |line| - p
  {
    if p >= |line| || IsStop(line[p]) then p else EndOf(line, p + 1)
  }

  datatype HexStatus =
    | HexOk | JunkStartCode | JunkByteCount | JunkAddrMsb | JunkAddrLsb | JunkRecType | JunkDataByte
    | JunkChecksum | BadChecksum | CorruptLine | BadRecType | BadExtSeg | EmptyFile | MissingEof

  datatype ReadLine = Good(record: Record) | Bad(status: HexStatus)

  function ParseLine(line: string): (r: ReadLine)
    ensures r.Good? ==> Valid(r.record)
    ensures r.Bad? ==> r.status != HexOk
  {
    if At(line, 0) != ':' then Bad(JunkStartCode)
    else
      match ReadByte(line, 1)
      case None => Bad(JunkByteCount)
      case Some(byteCount) =>
        match ReadByte(line, 3)
        case None => Bad(JunkAddrMsb)
        case Some(msb) =>
          match ReadByte(line, 5)
          case None => Bad(JunkAddrLsb)
          case Some(lsb) =>
            match ReadByte(line, 7)
            case None => Bad(JunkRecType)
            case Some(recordType) =>
              match ReadBytes(line, 9, byteCount)
              case None => Bad(JunkDataByte)
              case Some(data) =>
                match ReadByte(line, 9 + 2 * byteCount)
                case None => Bad(JunkChecksum)
                case Some(readChecksum) =>
                  var r := Record(256 * msb + lsb, recordType, data);
                  if readChecksum != Checksum(Front(r)) then Bad(BadChecksum)
                  else if line[..EndOf(line, 9 + 2 * byteCount)] != Line(r) then Bad(CorruptLine)
                  else Good(r)
  }

  // ---------- Reading undoes printing ----------

  lemma NibbleOfDigit(n: nat)
    requires n < 16
    ensures Nibble(HexDigit(n)) == Some(n) && !IsStop(HexDigit(n))
  {
  }

  lemma ReadHex(line: string, p: nat, b: byte)
    requires p + 2 <= |line| && line[p..p + 2] == Hex(b)
    ensures ReadByte(line, p) == Some(b)
  {
    NibbleOfDigit(b / 16);
    NibbleOfDigit(b % 16);
    assert line[p..p + 2][0] == line[p] && line[p..p + 2][1] == line[p + 1];
  }

  lemma HexesMore(s: seq<byte>, b: byte)
    ensures Hexes(s + [b]) == Hexes(s) + Hex(b)
    ensures Sum(s + [b]) == Sum(s) + b
  {
    assert (s + [b])[..|s|] == s;
  }

  lemma {:induction false} HexesConcat(s: seq<byte>, t: seq<byte>)
    ensures Hexes(s + t) == Hexes(s) + Hexes(t)
    decreases |t|
  {
    hide Hex;
    if t == [] {
      assert s + t == s;
    } else {
      var t', b := t[..|t| - 1], t[|t| - 1];
      HexesConcat(s, t');
      assert s + t == s + t' + [b];
      HexesMore(s + t', b);
    }
  }

  lemma SplitInTwo(line: string, p: nat, q: nat, e: nat, a: string, b: string)
    requires p <= q <= e <= |line| && line[p..e] == a + b && |a| == q - p
    ensures line[p..q] == a && line[q..e] == b
  {
    assert line[p..q] == line[p..e][..q - p];
    assert line[q..e] == line[p..e][q - p..];
  }

  lemma ReadOneMore(line: string, p: nat, n: nat, front: seq<byte>, b: byte)
    requires ReadBytes(line, p, n) == Some(front) && ReadByte(line, p + 2 * n) == Some(b)
    ensures ReadBytes(line, p, n + 1) == Some(front + [b])
  {
    hide ReadByte;
  }

  lemma {:induction false} ReadHexes(line: string, p: nat, s: seq<byte>)
    requires p + 2 * |s| <= |line| && line[p..p + 2 * |s|] == Hexes(s)
    ensures ReadBytes(line, p, |s|) == Some(s)
    decreases |s|
  {
    hide Hex, Hexes, ReadByte;
    if s != [] {
      var n := |s|;
      var t, b, q := s[..n - 1], s[n - 1], p + 2 * n - 2;
      assert t + [b] == s;
      HexesMore(t, b);
      SplitInTwo(line, p, q, p + 2 * n, Hexes(t), Hex(b));
      ReadHexes(line, p, t);
      ReadHex(line, q, b);
      ReadOneMore(line, p, n - 1, t, b);
    }
  }

  lemma {:induction false} HexesDoNotStop(s: seq<byte>)
    ensures forall i :: 0 <= i < 2 * |s| ==> !IsStop(Hexes(s)[i])
  {
    if s != [] {
      var b := s[|s| - 1];
      HexesDoNotStop(s[..|s| - 1]);
      NibbleOfDigit(b / 16);
      NibbleOfDigit(b % 16);
    }
  }

  lemma {:induction false} EndOfSkips(line: string, p: nat, q: nat)
    requires p <= q <= |line| && forall i :: p <= i < q ==> !IsStop(line[i])
    ensures EndOf(line, p) == EndOf(line, q)
    decreases q - p
  {
    if p < q {
      EndOfSkips(line, p + 1, q);
    }
  }

  // The fields of a printed record are where they are read.
  lemma FieldsInPlace(line: string, r: Record)
    requires Valid(r) && Line(r) <= line
    ensures At(line, 0) == ':' && ReadByte(line, 1) == Some(|r.data|)
    ensures ReadByte(line, 3) == Some(r.address / 256) && ReadByte(line, 5) == Some(r.address % 256)
    ensures ReadByte(line, 7) == Some(r.kind) && ReadBytes(line, 9, |r.data|) == Some(r.data)
    ensures ReadByte(line, 9 + 2 * |r.data|) == Some(Checksum(Front(r)))
  {
    hide Hex, Hexes, Checksum, ReadByte, ReadBytes;
    var h, n := Line(r), |r.data|;
    var s := Front(r) + [Checksum(Front(r))];
    FieldOf(h, line, s, 0);
    FieldOf(h, line, s, 1);
    FieldOf(h, line, s, 2);
    FieldOf(h, line, s, 3);
    FieldOf(h, line, s, 4 + n);
    DataOf(h, line, r);
  }

  lemma FieldOf(h: string, line: string, s: seq<byte>, k: nat)
    requires k < |s| && h == ":" + Hexes(s) && h <= line
    ensures ReadByte(line, 1 + 2 * k) == Some(s[k])
  {
    hide Hex, Hexes, ReadByte;
    var a, b := s[..k], s[k + 1..];
    assert s == a + [s[k]] + b;
    HexesConcat(a + [s[k]], b);
    HexesMore(a, s[k]);
    assert Hexes(s) == Hexes(a) + Hex(s[k]) + Hexes(b);
    assert h[1 + 2 * k..3 + 2 * k] == Hex(s[k]);
    assert line[1 + 2 * k..3 + 2 * k] == h[1 + 2 * k..3 + 2 * k];
    ReadHex(line, 1 + 2 * k, s[k]);
  }

  lemma DataOf(h: string, line: string, r: Record)
    requires Valid(r) && h == Line(r) && h <= line
    ensures ReadBytes(line, 9, |r.data|) == Some(r.data)
  {
    hide Hex, Hexes, ReadBytes, Checksum;
    var n, f, c := |r.data|, [|r.data|, r.address / 256, r.address % 256, r.kind], [Checksum(Front(r))];
    HexesConcat(f + r.data, c);
    HexesConcat(f, r.data);
    assert h == ":" + (Hexes(f) + Hexes(r.data) + Hexes(c));
    assert h[9..9 + 2 * n] == Hexes(r.data);
    assert line[9..9 + 2 * n] == h[9..9 + 2 * n];
    ReadHexes(line, 9, r.data);
  }

  // A line is read as a record exactly when, up to where it stops, it is that record as
  // printed: digits in the wrong case and junk at the end are refused.
  lemma ParseExact(line: string, r: Record)
    requires Valid(r)
    ensures ParseLine(line) == Good(r) <==> line[..EndOf(line, 0)] == Line(r)
  {
    hide Line, Front, ReadByte, ReadBytes, Checksum;
    var e := EndOf(line, 0);
    if line[..e] == Line(r) {
      FieldsInPlace(line, r);
      EndOfSkips(line, 0, 9 + 2 * |r.data|);
    }
    if ParseLine(line) == Good(r) {
      LineDoesNotStop(r);
      var f := EndOf(line, 9 + 2 * |r.data|);
      assert forall i :: 0 <= i < f ==> line[i] == Line(r)[i];
      EndOfSkips(line, 0, 9 + 2 * |r.data|);
    }
  }

  // ---------- The bytes of a line ----------

  // Up to where it stops, the line is a colon and the digits of these bytes; and these are a
  // count, a big-endian address, a kind, as many bytes as the count says, and a last one that
  // makes their sum a multiple of 256.
  predicate IsRecordLine(line: string, b: seq<byte>)
  {
    && line[..EndOf(line, 0)] == ":" + Hexes(b)
    && |b| >= 5 && |b| == 5 + b[0] as nat && Sum(b) % 256 == 0
  }

  lemma SumIsZero(s: seq<byte>, c: byte)
    ensures Sum(s + [c]) % 256 == 0 <==> c == Checksum(s)
  {
    HexesMore(s, c);
    hide Sum;
    Complement(Sum(s), c as nat);
  }

  lemma Complement(sum: nat, c: nat)
    requires c < 256
    ensures (sum + c) % 256 == 0 <==> c == (256 - sum % 256) % 256
  {
    var q, m := sum / 256, sum % 256;
    assert sum + c == 256 * q + (m + c);
    if m + c == 0 {
    } else if m + c < 256 {
      assert (sum + c) % 256 == m + c;
    } else {
      assert sum + c == 256 * (q + 1) + (m + c - 256);
      assert (sum + c) % 256 == m + c - 256;
    }
  }

  lemma LineIs(r: Record)
    requires Valid(r)
    ensures var b := Front(r) + [Checksum(Front(r))];
            Line(r) == ":" + Hexes(b) && |b| == 5 + |r.data| && b[0] as nat == |r.data| && Sum(b) % 256 == 0
  {
    hide Hexes, Sum, Checksum;
    SumIsZero(Front(r), Checksum(Front(r)));
  }

  // Nothing else is read as a record, and every such line is, with these fields.
  lemma GoodExact(line: string)
    ensures forall b :: IsRecordLine(line, b) ==>
              ParseLine(line) == Good(Record(256 * b[1] as nat + b[2] as nat, b[3], b[4..|b| - 1]))
    ensures ParseLine(line).Good? ==> exists b :: IsRecordLine(line, b)
  {
    hide Line, Front, Hexes, Sum, Checksum, ParseLine;
    forall b | IsRecordLine(line, b)
      ensures ParseLine(line) == Good(Record(256 * b[1] as nat + b[2] as nat, b[3], b[4..|b| - 1]))
    {
      var r := Record(256 * b[1] as nat + b[2] as nat, b[3], b[4..|b| - 1]);
      RecordOfBytes(b, r);
      ParseExact(line, r);
    }
    if ParseLine(line).Good? {
      ParsedIsValid(line);
      var r := ParseLine(line).record;
      ParseExact(line, r);
      LineIs(r);
      assert IsRecordLine(line, Front(r) + [Checksum(Front(r))]);
    }
  }

  lemma ParsedIsValid(line: string)
    ensures ParseLine(line).Good? ==> Valid(ParseLine(line).record)
  {
  }

  lemma RecordOfBytes(b: seq<byte>, r: Record)
    requires |b| >= 5 && |b| == 5 + b[0] as nat && Sum(b) % 256 == 0
    requires r == Record(256 * b[1] as nat + b[2] as nat, b[3], b[4..|b| - 1])
    ensures Valid(r) && Line(r) == ":" + Hexes(b)
  {
    hide Hexes, Sum, Checksum;
    var c := b[|b| - 1];
    assert Front(r) == b[..|b| - 1];
    assert b == Front(r) + [c];
    SumIsZero(Front(r), c);
  }

  lemma SameHex(b: byte, c: byte)
    requires Hex(b) == Hex(c)
    ensures b == c
  {
    NibbleOfDigit(b / 16);
    NibbleOfDigit(b % 16);
    NibbleOfDigit(c / 16);
    NibbleOfDigit(c % 16);
    hide HexDigit;
    assert Hex(b)[0] == HexDigit(b / 16) && Hex(b)[1] == HexDigit(b % 16);
    assert Hex(c)[0] == HexDigit(c / 16) && Hex(c)[1] == HexDigit(c % 16);
  }

  // Digits stand for one list of bytes.
  lemma {:induction false} SameHexes(a: seq<byte>, b: seq<byte>)
    requires Hexes(a) == Hexes(b)
    ensures a == b
    decreases |a|
  {
    hide Hex;
    assert |Hexes(a)| == 2 * |a| && |Hexes(b)| == 2 * |b|;
    if a != [] {
      var n, p, q := |a| - 1, a[..|a| - 1], b[..|b| - 1];
      assert Hexes(p) == Hexes(a)[..2 * n] && Hexes(q) == Hexes(b)[..2 * n];
      SameHexes(p, q);
      assert Hex(a[n]) == Hexes(a)[2 * n..] && Hex(b[n]) == Hexes(b)[2 * n..];
      SameHex(a[n], b[n]);
      assert a == p + [a[n]] && b == q + [b[n]];
    }
  }

  lemma {:induction false} SumChanged(b: seq<byte>, k: nat, v: byte)
    requires k < |b|
    ensures Sum(b[k := v]) == Sum(b) - b[k] as nat + v as nat
    decreases |b|
  {
    var n := |b| - 1;
    if k < n {
      SumChanged(b[..n], k, v);
      assert b[k := v][..n] == b[..n][k := v];
    } else {
      assert b[k := v][..n] == b[..n];
    }
  }

  lemma HexesEndLine(b: seq<byte>, rest: string)
    requires rest == "" || IsStop(rest[0])
    ensures var line := ":" + Hexes(b) + rest; line[..EndOf(line, 0)] == ":" + Hexes(b)
  {
    hide Hexes;
    var front := ":" + Hexes(b);
    var line := front + rest;
    HexesDoNotStop(b);
    assert forall i :: 0 <= i < |front| ==> !IsStop(line[i]);
    EndOfSkips(line, 0, |front|);
    assert line[..|front|] == front;
  }

  // A line with one byte changed, whichever it is, is not taken for a record.
  lemma OneByteOff(b: seq<byte>, k: nat, v: byte, rest: string)
    requires Sum(b) % 256 == 0 && k < |b| && v != b[k] && (rest == "" || IsStop(rest[0]))
    ensures !ParseLine(":" + Hexes(b[k := v]) + rest).Good?
  {
    hide Hexes, Sum, ParseLine, EndOf;
    var changed := b[k := v];
    var line := ":" + Hexes(changed) + rest;
    GoodExact(line);
    SumChanged(b, k, v);
    HexesEndLine(changed, rest);
    forall c | IsRecordLine(line, c)
      ensures Sum(changed) % 256 == 0
    {
      assert Hexes(c) == (":" + Hexes(c))[1..] && Hexes(changed) == (":" + Hexes(changed))[1..];
      SameHexes(c, changed);
    }
  }

  lemma LineDoesNotStop(r: Record)
    requires Valid(r)
    ensures forall i :: 0 <= i < |Line(r)| ==> !IsStop(Line(r)[i])
  {
    HexesDoNotStop(Front(r) + [Checksum(Front(r))]);
  }
}
