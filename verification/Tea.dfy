// The tiny encryption algorithm that protects the ATM's messages, on 32-bit words.
module Tea {
  // C's uint32_t: sums, differences and shifts are cut to 32 bits.
  type Word = bv32

  function Add(a: Word, b: Word): Word
  {
    a + b
  }

  function Sub(a: Word, b: Word): Word
  {
    a - b
  }

  datatype Block = Block(v0: Word, v1: Word)

  datatype Key = Key(k0: Word, k1: Word, k2: Word, k3: Word)

  const DELTA: Word := 0x9E3779B9

  const ROUNDS: nat := 32

  // What a round adds to one half, given the other.
  function Mix(v: Word, a: Word, b: Word, sum: Word): Word
  {
    ((v << 4) + a) ^ (v + sum) ^ ((v >> 5) + b)
  }

  // Bit i of a word, the lowest being bit 0.
  predicate Bit(w: Word, i: Word)
    requires i < 32
  {
    (w >> i) & 1 == 1
  }

  // Bit by bit, a round adds a one where an odd number of three sums have one: sixteen times
  // the other half plus a, the other half plus the sum, a thirty-second of it plus b.
  lemma MixBits(v: Word, a: Word, b: Word, sum: Word, i: Word)
    requires i < 32
    ensures Bit(Mix(v, a, b, sum), i) <==> ((Bit(16 * v + a, i) != Bit(v + sum, i)) != Bit(v / 32 + b, i))
  {
    assert v << 4 == 16 * v && v >> 5 == v / 32;
    XorBits(16 * v + a, v + sum, v / 32 + b, i);
  }

  // An exclusive-or has a one where an odd number of the words have one.
  lemma OddOnes(x: Word, y: Word, z: Word, i: Word)
    requires i < 32
    ensures ((x ^ y ^ z) >> i) & 1 == 1
            <==> ((((x >> i) & 1 == 1) != ((y >> i) & 1 == 1)) != ((z >> i) & 1 == 1))
  {
  }

  lemma XorBits(x: Word, y: Word, z: Word, i: Word)
    requires i < 32
    ensures Bit(x ^ y ^ z, i) <==> ((Bit(x, i) != Bit(y, i)) != Bit(z, i))
  {
    OddOnes(x, y, z, i);
  }

  function Forward(b: Block, k: Key, sum: Word): Block
  {
    var v0 := Add(b.v0, Mix(b.v1, k.k0, k.k1, sum));
    Block(v0, Add(b.v1, Mix(v0, k.k2, k.k3, sum)))
  }

  function Backward(b: Block, k: Key, sum: Word): Block
  {
    var v1 := Sub(b.v1, Mix(b.v0, k.k2, k.k3, sum));
    Block(Sub(b.v0, Mix(v1, k.k0, k.k1, sum)), v1)
  }

  // The sum in round n.
  function SumAfter(n: nat): Word
  {
    if n == 0 then 0 else Add(SumAfter(n - 1), DELTA)
  }

  function Encrypted(b: Block, k: Key, n: nat): Block
  {
    if n == 0 then b else Forward(Encrypted(b, k, n - 1), k, SumAfter(n))
  }

  function Decrypted(b: Block, k: Key, n: nat): Block
    decreases n
  {
    if n == 0 then b else Decrypted(Backward(b, k, SumAfter(n)), k, n - 1)
  }

  lemma AddSub(a: Word, b: Word)
    ensures Sub(Add(a, b), b) == a && Add(Sub(a, b), b) == a
  {
    assert Sub(a + b, b) == a;
    assert Add(a - b, b) == a;
  }

  lemma RoundInverse(b: Block, k: Key, sum: Word)
    ensures Backward(Forward(b, k, sum), k, sum) == b
    ensures Forward(Backward(b, k, sum), k, sum) == b
  {
    hide Mix, Add, Sub;
    var f, g := Forward(b, k, sum), Backward(b, k, sum);
    AddSub(b.v0, Mix(b.v1, k.k0, k.k1, sum));
    AddSub(b.v1, Mix(f.v0, k.k2, k.k3, sum));
    AddSub(b.v1, Mix(b.v0, k.k2, k.k3, sum));
    AddSub(b.v0, Mix(g.v1, k.k0, k.k1, sum));
  }

  // For every block, every key and any number of rounds, each undoes the other.
  lemma {:induction false} Inverse(b: Block, k: Key, n: nat)
    ensures Decrypted(Encrypted(b, k, n), k, n) == b
    ensures Encrypted(Decrypted(b, k, n), k, n) == b
    decreases n
  {
    hide Forward, Backward, SumAfter;
    if n > 0 {
      var sum := SumAfter(n);
      RoundInverse(Encrypted(b, k, n - 1), k, sum);
      Inverse(b, k, n - 1);
      Inverse(Backward(b, k, sum), k, n - 1);
      RoundInverse(b, k, sum);
    }
  }

  // ---------- Thirty-two rounds ----------

  lemma OneMore(b: Block, k: Key, n: nat, before: Block, sum: Word)
    requires Encrypted(b, k, n) == before && SumAfter(n) == sum
    ensures Encrypted(b, k, n + 1) == Forward(before, k, Add(sum, DELTA)) && SumAfter(n + 1) == Add(sum, DELTA)
  {
    hide Forward, Add;
  }

  function SumMore(sum: Word, n: nat): Word
  {
    if n == 0 then sum else Add(SumMore(sum, n - 1), DELTA)
  }

  // Four rounds, after a round that ended with the given block and sum.
  function FourMore(b: Block, k: Key, sum: Word): Block
  {
    Forward(Forward(Forward(Forward(b, k, SumMore(sum, 1)), k, SumMore(sum, 2)), k, SumMore(sum, 3)), k,
            SumMore(sum, 4))
  }

  lemma AfterFour(b: Block, k: Key, n: nat, before: Block, sum: Word)
    requires Encrypted(b, k, n) == before && SumAfter(n) == sum
    ensures Encrypted(b, k, n + 4) == FourMore(before, k, sum) && SumAfter(n + 4) == SumMore(sum, 4)
  {
    hide Forward, Encrypted, SumAfter, Add;
    assert SumMore(sum, 1) == Add(SumMore(sum, 0), DELTA) == Add(sum, DELTA);
    assert SumMore(sum, 4) == Add(SumMore(sum, 3), DELTA) && SumMore(sum, 3) == Add(SumMore(sum, 2), DELTA);
    assert SumMore(sum, 2) == Add(SumMore(sum, 1), DELTA);
    var b1 := Forward(before, k, SumMore(sum, 1));
    var b2 := Forward(b1, k, SumMore(sum, 2));
    var b3 := Forward(b2, k, SumMore(sum, 3));
    OneMore(b, k, n, before, sum);
    OneMore(b, k, n + 1, b1, SumMore(sum, 1));
    OneMore(b, k, n + 2, b2, SumMore(sum, 2));
    OneMore(b, k, n + 3, b3, SumMore(sum, 3));
  }

  // Where decryption starts is where encryption ends.
  lemma LastSum()
    ensures SumAfter(ROUNDS) == 0xC6EF3720
  {
    hide Encrypted, SumAfter;
    KnownRounds();
  }

  // The answer for one block and one key, and the way back.
  lemma KnownAnswer()
    ensures Encrypted(Block(1, 2), Key(3, 4, 5, 6), ROUNDS) == Block(0x76C06008, 0xA90C2909)
    ensures Decrypted(Block(0x76C06008, 0xA90C2909), Key(3, 4, 5, 6), ROUNDS) == Block(1, 2)
  {
    hide Encrypted, Decrypted, SumAfter;
    KnownRounds();
    Inverse(Block(1, 2), Key(3, 4, 5, 6), ROUNDS);
  }

  lemma KnownRounds()
    ensures Encrypted(Block(1, 2), Key(3, 4, 5, 6), 32) == Block(0x76C06008, 0xA90C2909) && SumAfter(32) == 0xC6EF3720
  {
    NoRounds(Block(1, 2), Key(3, 4, 5, 6));
    hide Encrypted, SumAfter;
    var b, k := Block(1, 2), Key(3, 4, 5, 6);
    AfterFour(b, k, 0, Block(0x00000001, 0x00000002), 0x00000000);
    AfterFour(b, k, 4, Block(0x31975D84, 0xABA0F4DA), 0x78DDE6E4);
    AfterFour(b, k, 8, Block(0xE472374B, 0x8E321F2A), 0xF1BBCDC8);
    AfterFour(b, k, 12, Block(0x93B3AE3F, 0x03E87D69), 0x6A99B4AC);
    AfterFour(b, k, 16, Block(0xB6064385, 0x181F4696), 0xE3779B90);
    AfterFour(b, k, 20, Block(0x55DB4CB9, 0x6BA4A23C), 0x5C558274);
    AfterFour(b, k, 24, Block(0x12C5D794, 0x14BC8554), 0xD5336958);
    AfterFour(b, k, 28, Block(0x8B93DC91, 0x4D653981), 0x4E11503C);
  }

  lemma NoRounds(b: Block, k: Key)
    ensures Encrypted(b, k, 0) == b && SumAfter(0) == 0
  {
  }

  method Encrypt(v: array<Word>, k: array<Word>)
    requires v.Length == 2 && k.Length == 4 && v != k
    modifies v
    ensures Block(v[0], v[1])
         == Encrypted(Block(old(v[0]), old(v[1])), Key(k[0], k[1], k[2], k[3]), ROUNDS)
  {
    hide Mix, Add, Sub;
    var v0, v1, sum: Word, i := v[0], v[1], 0, 0;
    var k0, k1, k2, k3 := k[0], k[1], k[2], k[3];
    while i < 32
      invariant 0 <= i <= 32 && sum == SumAfter(i)
      invariant Block(v0, v1) == Encrypted(Block(v[0], v[1]), Key(k0, k1, k2, k3), i)
    {
      sum := Add(sum, DELTA);
      v0 := Add(v0, Mix(v1, k0, k1, sum));
      v1 := Add(v1, Mix(v0, k2, k3, sum));
      i := i + 1;
    }
    v[0] := v0;
    v[1] := v1;
  }

  method Decrypt(v: array<Word>, k: array<Word>)
    requires v.Length == 2 && k.Length == 4 && v != k
    modifies v
    ensures Block(v[0], v[1])
         == Decrypted(Block(old(v[0]), old(v[1])), Key(k[0], k[1], k[2], k[3]), ROUNDS)
  {
    LastSum();
    hide Mix, Add, Sub;
    ghost var n, b := ROUNDS, Block(v[0], v[1]);
    var v0, v1, sum: Word, i: nat := v[0], v[1], 0xC6EF3720, 0;
    var k0, k1, k2, k3 := k[0], k[1], k[2], k[3];
    while i < 32
      invariant i <= 32 == n && sum == SumAfter(n - i)
      invariant Decrypted(Block(v0, v1), Key(k0, k1, k2, k3), n - i)
             == Decrypted(b, Key(k0, k1, k2, k3), n)
    {
      AddSub(SumAfter(n - i - 1), DELTA);
      v1 := Sub(v1, Mix(v0, k2, k3, sum));
      v0 := Sub(v0, Mix(v1, k0, k1, sum));
      sum := Sub(sum, DELTA);
      i := i + 1;
    }
    assert i == n && Block(v0, v1) == Decrypted(b, Key(k0, k1, k2, k3), n);
    v[0] := v0;
    v[1] := v1;
  }
}
