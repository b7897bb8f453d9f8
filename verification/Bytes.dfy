// Byte strings and the numbers they stand for.
module Bytes {
  import opened Bits

  type byte = b: int | 0 <= b < 256

  // Number of bytes that hold n bits.
  function BitsToBytes(n: nat): (b: nat)
    ensures n <= 8 * b < n + 8
  {
    n / 8 + if n % 8 != 0 then 1 else 0
  }

  // The number a byte string stands for, most significant byte first.
  function Value(s: seq<byte>): nat
  {
    if s == [] then 0 else Value(s[..|s| - 1]) * 256 + s[|s| - 1]
  }

  // The low n bytes of v, most significant byte first.
  function ToBytes(v: nat, n: nat): (s: seq<byte>)
    ensures |s| == n
  {
    if n == 0 then [] else ToBytes(v / 256, n - 1) + [v % 256]
  }

  function Reversed<T>(s: seq<T>): (r: seq<T>)
    ensures |r| == |s|
    ensures forall i :: 0 <= i < |s| ==> r[i] == s[|s| - 1 - i]
  {
    if s == [] then [] else [s[|s| - 1]] + Reversed(s[..|s| - 1])
  }

  function Repeat<T>(x: T, n: nat): (s: seq<T>)
    ensures |s| == n && forall i :: 0 <= i < n ==> s[i] == x
  {
    if n == 0 then [] else Repeat(x, n - 1) + [x]
  }

  function LongBE(v: nat): (s: seq<byte>)
    requires v < 0x1_0000_0000
    ensures |s| == 4
  {
    [v / 0x100_0000, v / 0x1_0000 % 256, v / 256 % 256, v % 256]
  }

  function ReadLongBE(s: seq<byte>): (v: nat)
    requires |s| >= 4
    ensures v < 0x1_0000_0000
  {
    (((s[0] as int) * 256 + s[1]) * 256 + s[2]) * 256 + s[3]
  }

  lemma ReadWrittenLong(v: nat, rest: seq<byte>)
    requires v < 0x1_0000_0000
    ensures ReadLongBE(LongBE(v) + rest) == v
  {
    var a, b, c := v / 256, v / 256 / 256, v / 256 / 256 / 256;
    assert b == v / 0x1_0000 && c == v / 0x100_0000;
    assert v == a * 256 + v % 256 && a == b * 256 + a % 256 && b == c * 256 + b % 256;
  }

  lemma WriteReadLong(s: seq<byte>)
    requires |s| == 4
    ensures LongBE(ReadLongBE(s)) == s
  {
    var c: int := s[0];
    var b: int := c * 256 + s[1];
    var a: int := b * 256 + s[2];
    var v: int := a * 256 + s[3];
    assert v / 256 == a && v % 256 == s[3];
    assert a / 256 == b && a % 256 == s[2];
    assert b / 256 == c && b % 256 == s[1];
    assert v / 0x1_0000 == b && v / 0x100_0000 == c;
  }

  lemma {:induction false} ReversedTwice<T>(s: seq<T>)
    ensures Reversed(Reversed(s)) == s
  {
  }

  lemma ValueOfByte(b: byte)
    ensures Value([b]) == b
  {
    assert [b][..0] == [];
    assert Value([]) == 0;
  }

  lemma ValueSnoc(s: seq<byte>, b: byte)
    ensures Value(s + [b]) == Value(s) * 256 + b
  {
    assert (s + [b])[..|s|] == s;
  }

  lemma {:induction false} ValueConcat(a: seq<byte>, b: seq<byte>)
    ensures Value(a + b) == Shl(Value(a), 8 * |b|) + Value(b)
  {
    if b == [] {
      assert a + b == a;
    } else {
      var b', x := b[..|b| - 1], b[|b| - 1];
      assert a + b == (a + b') + [x] && b == b' + [x];
      ValueConcat(a, b');
      ValueSnoc(a + b', x);
      ShlShl(Value(a), 8 * |b'|, 8);
      ShlByte(Shl(Value(a), 8 * |b'|));
    }
  }

  lemma ByteWeight(n: nat)
    ensures Pow2(8 * (n + 1)) == 256 * Pow2(8 * n)
  {
    var p := 8 * n;
    assert Pow2(p + 2) == 4 * Pow2(p);
    assert Pow2(p + 4) == 4 * Pow2(p + 2);
    assert Pow2(p + 6) == 4 * Pow2(p + 4);
    assert Pow2(p + 8) == 4 * Pow2(p + 6);
  }

  lemma {:induction false} ValueBound(s: seq<byte>)
    ensures Value(s) < Pow2(8 * |s|)
  {
    if s != [] {
      ValueBound(s[..|s| - 1]);
      ByteWeight(|s| - 1);
    }
  }

  lemma {:induction false} ValueZero(n: nat)
    ensures Value(Repeat<byte>(0, n)) == 0
  {
    if n != 0 {
      ValueZero(n - 1);
      ValueSnoc(Repeat<byte>(0, n - 1), 0);
    }
  }

  // Only zero bytes stand for zero.
  lemma {:induction false} ZeroValue(s: seq<byte>)
    ensures Value(s) == 0 <==> forall i :: 0 <= i < |s| ==> s[i] == 0
  {
    if s != [] {
      ZeroValue(s[..|s| - 1]);
    }
  }

  lemma {:induction false} ToBytesOfValue(s: seq<byte>)
    ensures ToBytes(Value(s), |s|) == s
  {
    if s != [] {
      ToBytesOfValue(s[..|s| - 1]);
    }
  }

  lemma {:induction false} ValueOfToBytes(v: nat, n: nat)
    ensures Value(ToBytes(v, n)) == Low(v, 8 * n)
  {
    if n != 0 {
      ValueOfToBytes(v / 256, n - 1);
      ValueSnoc(ToBytes(v / 256, n - 1), v % 256);
      LowOfByte(v / 256, v % 256, n - 1);
      assert v == 256 * (v / 256) + v % 256;
    }
  }

  lemma LowOfByte(v: nat, x: byte, n: nat)
    ensures Low(256 * v + x, 8 * n + 8) == 256 * Low(v, 8 * n) + x
  {
    Pow2Small();
    LowOfJoin(v, 8 * n, x, 8);
    ShlByte(v);
    ShlByte(Low(v, 8 * n));
  }

  // Equal values of equally many bytes are equal byte strings.
  lemma ValueInjective(a: seq<byte>, b: seq<byte>)
    requires |a| == |b| && Value(a) == Value(b)
    ensures a == b
  {
    ToBytesOfValue(a);
    ToBytesOfValue(b);
  }

  // Byte-wise "|" and "&" of equally long strings.
  function OrBytes(a: seq<byte>, b: seq<byte>): (r: seq<byte>)
    requires |a| == |b|
    ensures |r| == |a|
    ensures forall i :: 0 <= i < |a| ==> r[i] == Or(a[i], b[i])
  {
    if a == [] then []
    else
      OrOfBytes(a[|a| - 1], b[|b| - 1]);
      OrBytes(a[..|a| - 1], b[..|b| - 1]) + [Or(a[|a| - 1], b[|b| - 1])]
  }

  function AndBytes(a: seq<byte>, b: seq<byte>): (r: seq<byte>)
    requires |a| == |b|
    ensures |r| == |a|
    ensures forall i :: 0 <= i < |a| ==> r[i] == And(a[i], b[i])
  {
    if a == [] then []
    else
      AndBound(a[|a| - 1], b[|b| - 1]);
      AndBytes(a[..|a| - 1], b[..|b| - 1]) + [And(a[|a| - 1], b[|b| - 1])]
  }

  lemma OrOfBytes(x: byte, y: byte)
    ensures Or(x, y) < 256
  {
    Pow2Small();
    OrBound(x, y, 8);
  }

  lemma OrOfSnoc(a: nat, x: byte, b: nat, y: byte)
    ensures Or(a * 256 + x, b * 256 + y) == Or(a, b) * 256 + Or(x, y)
  {
    Pow2Small();
    OrOfJoins(a, x, b, y, 8);
    ShlByte(a);
    ShlByte(b);
    ShlByte(Or(a, b));
  }

  lemma {:induction false} ValueOrBytes(a: seq<byte>, b: seq<byte>)
    requires |a| == |b|
    ensures Value(OrBytes(a, b)) == Or(Value(a), Value(b))
  {
    if a != [] {
      hide Or;
      var a', x, b', y := a[..|a| - 1], a[|a| - 1], b[..|b| - 1], b[|b| - 1];
      ValueOrBytes(a', b');
      OrOfBytes(x, y);
      var z: byte := Or(x, y);
      assert OrBytes(a, b) == OrBytes(a', b') + [z];
      assert Value(OrBytes(a, b)) == Value(OrBytes(a', b')) * 256 + z by { ValueSnoc(OrBytes(a', b'), z); }
      OrOfSnoc(Value(a'), x, Value(b'), y);
    }
  }

  lemma AndOfSnoc(a: nat, x: byte, b: nat, y: byte)
    ensures And(a * 256 + x, b * 256 + y) == And(a, b) * 256 + And(x, y)
  {
    Pow2Small();
    hide And, Shl, Pow2;
    AndOfJoins(a, x, b, y, 8);
    ShlByte(a);
    ShlByte(b);
    ShlByte(And(a, b));
  }

  lemma {:induction false} ValueAndBytes(a: seq<byte>, b: seq<byte>)
    requires |a| == |b|
    ensures Value(AndBytes(a, b)) == And(Value(a), Value(b))
  {
    if a != [] {
      hide And;
      var a', x, b', y := a[..|a| - 1], a[|a| - 1], b[..|b| - 1], b[|b| - 1];
      ValueAndBytes(a', b');
      AndBound(x, y);
      var z: byte := And(x, y);
      assert AndBytes(a, b) == AndBytes(a', b') + [z];
      assert Value(AndBytes(a, b)) == Value(AndBytes(a', b')) * 256 + z by { ValueSnoc(AndBytes(a', b'), z); }
      AndOfSnoc(Value(a'), x, Value(b'), y);
    }
  }

  lemma Regroup<T>(a: seq<T>, b: seq<T>, c: seq<T>)
    ensures a + b + c == a + (b + c)
  {
  }

  predicate IsAllZero(s: seq<byte>)
  {
    forall i :: 0 <= i < |s| ==> s[i] == 0
  }

  // Bytes of a and b in turn.
  function Interleaved(a: seq<byte>, b: seq<byte>): (s: seq<byte>)
    requires |a| == |b|
    ensures |s| == 2 * |a|
  {
    if a == [] then [] else [a[0], b[0]] + Interleaved(a[1..], b[1..])
  }

  lemma {:induction false} InterleavedAt(a: seq<byte>, b: seq<byte>, i: nat)
    requires |a| == |b| && i < |a|
    ensures Interleaved(a, b)[..2 * i + 2] == Interleaved(a, b)[..2 * i] + [a[i], b[i]]
    decreases i
  {
    if i != 0 {
      InterleavedAt(a[1..], b[1..], i - 1);
      var rest := Interleaved(a[1..], b[1..]);
      assert Interleaved(a, b)[..2 * i + 2] == [a[0], b[0]] + rest[..2 * i];
      assert Interleaved(a, b)[..2 * i] == [a[0], b[0]] + rest[..2 * i - 2];
    }
  }
}
