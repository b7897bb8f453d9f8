// Natural numbers as strings of bits: shifting, cutting, and the bitwise operators of C
// on unsigned values. Bit 0 is the least significant.
module Bits {

  function Pow2(n: nat): (p: nat)
    ensures p > 0
  {
    if n == 0 then 1 else 2 * Pow2(n - 1)
  }

  // Whether bit i of v is set.
  predicate Bit(v: nat, i: nat)
    decreases i
  {
    if i == 0 then v % 2 == 1 else Bit(v / 2, i - 1)
  }

  // v << k.
  function Shl(v: nat, k: nat): nat
  {
    if k == 0 then v else 2 * Shl(v, k - 1)
  }

  // The low n bits of v.
  function Low(v: nat, n: nat): nat
    decreases n
  {
    if n == 0 then 0 else v % 2 + 2 * Low(v / 2, n - 1)
  }

  // C's "a | b".
  function Or(a: nat, b: nat): nat
    decreases a + b
  {
    if a == 0 && b == 0 then 0
    else (if a % 2 == 1 || b % 2 == 1 then 1 else 0) + 2 * Or(a / 2, b / 2)
  }

  // C's "a & b".
  function And(a: nat, b: nat): nat
    decreases a
  {
    if a == 0 then 0
    else (if a % 2 == 1 && b % 2 == 1 then 1 else 0) + 2 * And(a / 2, b / 2)
  }

  // ---------- Powers and shifts ----------

  lemma {:induction false} Pow2Monotone(m: nat, n: nat)
    requires m <= n
    ensures Pow2(m) <= Pow2(n)
  {
    if m < n {
      Pow2Monotone(m, n - 1);
    }
  }

  lemma Pow2Small()
    ensures Pow2(0) == 1 && Pow2(1) == 2 && Pow2(2) == 4 && Pow2(3) == 8 && Pow2(4) == 16
    ensures Pow2(5) == 32 && Pow2(6) == 64 && Pow2(7) == 128 && Pow2(8) == 256
  {
    assert Pow2(1) == 2 && Pow2(2) == 4 && Pow2(3) == 8 && Pow2(4) == 16;
    assert Pow2(5) == 32 && Pow2(6) == 64;
  }

  lemma ShlByte(v: nat)
    ensures Shl(v, 8) == 256 * v
  {
    assert Shl(v, 1) == 2 * v;
    assert Shl(v, 2) == 4 * v;
    assert Shl(v, 3) == 8 * v;
    assert Shl(v, 4) == 16 * v;
    assert Shl(v, 5) == 32 * v;
    assert Shl(v, 6) == 64 * v;
    assert Shl(v, 7) == 128 * v;
  }

  lemma {:induction false} ShlAdd(a: nat, b: nat, k: nat)
    ensures Shl(a + b, k) == Shl(a, k) + Shl(b, k)
  {
    if k != 0 {
      ShlAdd(a, b, k - 1);
    }
  }

  lemma {:induction false} ShlShl(v: nat, j: nat, k: nat)
    ensures Shl(Shl(v, j), k) == Shl(v, j + k)
  {
    if k != 0 {
      ShlShl(v, j, k - 1);
    }
  }

  lemma {:induction false} ShlZero(k: nat)
    ensures Shl(0, k) == 0
  {
    if k != 0 {
      ShlZero(k - 1);
    }
  }

  lemma {:induction false} ShlGrows(a: nat, b: nat, k: nat)
    requires a <= b
    ensures a <= Shl(a, k) <= Shl(b, k)
  {
    if k != 0 {
      ShlGrows(a, b, k - 1);
    }
  }

  lemma {:induction false} LowBound(v: nat, n: nat)
    ensures Low(v, n) < Pow2(n) && Low(v, n) <= v
    decreases n
  {
    if n != 0 {
      LowBound(v / 2, n - 1);
    }
  }

  lemma {:induction false} LowSmall(v: nat, n: nat)
    requires v < Pow2(n)
    ensures Low(v, n) == v
    decreases n
  {
    if n != 0 {
      LowSmall(v / 2, n - 1);
    }
  }

  // Two bit strings laid end to end.
  lemma {:induction false} JoinBound(a: nat, m: nat, x: nat, k: nat)
    requires a < Pow2(m) && x < Pow2(k)
    ensures Shl(a, k) + x < Pow2(m + k)
    decreases k
  {
    if k != 0 {
      JoinBound(a, m, x / 2, k - 1);
    }
  }

  // Cutting a string that ends in x leaves x and the cut rest.
  lemma {:induction false} LowOfJoin(a: nat, n: nat, x: nat, k: nat)
    requires x < Pow2(k)
    ensures Low(Shl(a, k) + x, n + k) == Shl(Low(a, n), k) + x
    decreases k
  {
    if k != 0 {
      var w := Shl(a, k - 1);
      assert (2 * w + x) / 2 == w + x / 2 && (2 * w + x) % 2 == x % 2;
      LowOfJoin(a, n, x / 2, k - 1);
    }
  }

  // ---------- Bit by bit ----------

  // Two numbers with the same bits are the same number.
  lemma {:induction false} SameBits(a: nat, b: nat)
    requires forall i: nat :: Bit(a, i) == Bit(b, i)
    ensures a == b
    decreases a + b
  {
    assert Bit(a, 0) == Bit(b, 0);
    if a != 0 || b != 0 {
      forall i: nat
        ensures Bit(a / 2, i) == Bit(b / 2, i)
      {
        assert Bit(a, i + 1) == Bit(b, i + 1);
      }
      SameBits(a / 2, b / 2);
    }
  }

  lemma {:induction false} BitZero(i: nat)
    ensures !Bit(0, i)
  {
    if i != 0 {
      BitZero(i - 1);
    }
  }

  lemma {:induction false} BitOr(a: nat, b: nat, i: nat)
    ensures Bit(Or(a, b), i) == (Bit(a, i) || Bit(b, i))
    decreases i
  {
    if a == 0 && b == 0 {
      BitZero(i);
    } else if i != 0 {
      BitOr(a / 2, b / 2, i - 1);
    }
  }

  lemma {:induction false} BitAnd(a: nat, b: nat, i: nat)
    ensures Bit(And(a, b), i) == (Bit(a, i) && Bit(b, i))
    decreases i
  {
    if a == 0 {
      BitZero(i);
    } else if i != 0 {
      BitAnd(a / 2, b / 2, i - 1);
    }
  }

  lemma {:induction false} BitShl(v: nat, k: nat, i: nat)
    ensures Bit(Shl(v, k), i) == (i >= k && Bit(v, i - k))
    decreases k
  {
    if k != 0 && i != 0 {
      BitShl(v, k - 1, i - 1);
    }
  }

  lemma {:induction false} BitLow(v: nat, n: nat, i: nat)
    ensures Bit(Low(v, n), i) == (i < n && Bit(v, i))
    decreases i
  {
    if n == 0 {
      BitZero(i);
    } else if i != 0 {
      assert Low(v, n) / 2 == Low(v / 2, n - 1);
      BitLow(v / 2, n - 1, i - 1);
    }
  }

  // A number that fits in n bits has no bit from n up.
  lemma BitsOfFit(v: nat, n: nat, i: nat)
    requires v < Pow2(n) && Bit(v, i)
    ensures i < n
  {
    LowSmall(v, n);
    BitLow(v, n, i);
  }

  // ---------- "|" and "&" ----------

  lemma {:induction false} OrBound(a: nat, b: nat, n: nat)
    requires a < Pow2(n) && b < Pow2(n)
    ensures Or(a, b) < Pow2(n)
    decreases n
  {
    if n != 0 && (a != 0 || b != 0) {
      OrBound(a / 2, b / 2, n - 1);
    }
  }

  lemma {:induction false} AndBound(a: nat, b: nat)
    ensures And(a, b) <= a && And(a, b) <= b
    decreases a
  {
    if a != 0 {
      AndBound(a / 2, b / 2);
    }
  }

  lemma {:induction false} OrZero(a: nat)
    ensures Or(a, 0) == a && Or(0, a) == a
    decreases a
  {
    if a != 0 {
      OrZero(a / 2);
    }
  }

  lemma {:induction false} OrCommutes(a: nat, b: nat)
    ensures Or(a, b) == Or(b, a)
    decreases a + b
  {
    if a != 0 || b != 0 {
      OrCommutes(a / 2, b / 2);
    }
  }

  lemma {:induction false} AndCommutes(a: nat, b: nat)
    ensures And(a, b) == And(b, a)
    decreases a + b
  {
    if a != 0 || b != 0 {
      AndCommutes(a / 2, b / 2);
      AndUnfold(a, b);
      AndUnfold(b, a);
    }
  }

  lemma OrUnfold(a: nat, b: nat)
    ensures Or(a, b) == (if a % 2 == 1 || b % 2 == 1 then 1 else 0) + 2 * Or(a / 2, b / 2)
  {
  }

  lemma AndUnfold(a: nat, b: nat)
    ensures And(a, b) == (if a % 2 == 1 && b % 2 == 1 then 1 else 0) + 2 * And(a / 2, b / 2)
  {
  }

  lemma HalfOfSum(a: nat, x: nat)
    ensures (2 * a + x) / 2 == a + x / 2 && (2 * a + x) % 2 == x % 2
  {
  }

  lemma OrDouble(a: nat, x: nat, b: nat, y: nat)
    ensures Or(2 * a + x, 2 * b + y) == 2 * Or(a + x / 2, b + y / 2) + Or(x, y) - 2 * Or(x / 2, y / 2)
  {
    var u, w := 2 * a + x, 2 * b + y;
    assert u / 2 == a + x / 2 && u % 2 == x % 2 by { HalfOfSum(a, x); }
    assert w / 2 == b + y / 2 && w % 2 == y % 2 by { HalfOfSum(b, y); }
    assert Or(u, w) == (if u % 2 == 1 || w % 2 == 1 then 1 else 0) + 2 * Or(u / 2, w / 2) by { OrUnfold(u, w); }
    assert Or(x, y) == (if x % 2 == 1 || y % 2 == 1 then 1 else 0) + 2 * Or(x / 2, y / 2) by { OrUnfold(x, y); }
  }

  lemma AndDouble(a: nat, x: nat, b: nat, y: nat)
    ensures And(2 * a + x, 2 * b + y) == 2 * And(a + x / 2, b + y / 2) + And(x, y) - 2 * And(x / 2, y / 2)
  {
    var u, w := 2 * a + x, 2 * b + y;
    assert u / 2 == a + x / 2 && u % 2 == x % 2 by { HalfOfSum(a, x); }
    assert w / 2 == b + y / 2 && w % 2 == y % 2 by { HalfOfSum(b, y); }
    assert And(u, w) == (if u % 2 == 1 && w % 2 == 1 then 1 else 0) + 2 * And(u / 2, w / 2) by { AndUnfold(u, w); }
    assert And(x, y) == (if x % 2 == 1 && y % 2 == 1 then 1 else 0) + 2 * And(x / 2, y / 2) by { AndUnfold(x, y); }
  }

  // "|" and "&" act separately on the low k bits and on the rest.
  lemma {:induction false} OrOfJoins(a: nat, x: nat, b: nat, y: nat, k: nat)
    requires x < Pow2(k) && y < Pow2(k)
    ensures Or(Shl(a, k) + x, Shl(b, k) + y) == Shl(Or(a, b), k) + Or(x, y)
    decreases k
  {
    if k != 0 {
      OrOfJoins(a, x / 2, b, y / 2, k - 1);
      hide Or;
      var u, w, z := Shl(a, k - 1), Shl(b, k - 1), Shl(Or(a, b), k - 1);
      assert Or(u + x / 2, w + y / 2) == z + Or(x / 2, y / 2);
      assert Or(2 * u + x, 2 * w + y) == 2 * z + Or(x, y) by { OrDouble(u, x, w, y); }
    }
  }

  lemma {:induction false} AndOfJoins(a: nat, x: nat, b: nat, y: nat, k: nat)
    requires x < Pow2(k) && y < Pow2(k)
    ensures And(Shl(a, k) + x, Shl(b, k) + y) == Shl(And(a, b), k) + And(x, y)
    decreases k
  {
    if k != 0 {
      AndOfJoins(a, x / 2, b, y / 2, k - 1);
      hide And;
      var u, w, z := Shl(a, k - 1), Shl(b, k - 1), Shl(And(a, b), k - 1);
      assert And(u + x / 2, w + y / 2) == z + And(x / 2, y / 2);
      assert And(2 * u + x, 2 * w + y) == 2 * z + And(x, y) by { AndDouble(u, x, w, y); }
    }
  }

  // Bit strings that do not overlap are joined by "|" as by "+".
  lemma OrIsAdd(a: nat, x: nat, k: nat)
    requires x < Pow2(k)
    ensures Or(Shl(a, k), x) == Shl(a, k) + x
    ensures Or(x, Shl(a, k)) == Shl(a, k) + x
  {
    hide Or, Shl;
    assert Or(a, 0) == a && Or(0, x) == x by { OrZero(a); OrZero(x); }
    assert Shl(0, k) == 0 by { ShlZero(k); }
    assert Or(Shl(a, k) + 0, Shl(0, k) + x) == Shl(Or(a, 0), k) + Or(0, x) by { OrOfJoins(a, 0, 0, x, k); }
    assert Or(x, Shl(a, k)) == Or(Shl(a, k), x) by { OrCommutes(Shl(a, k), x); }
  }

  // "&" with a mask only looks at the bits that the other operand can have.
  lemma AndLow(v: nat, mask: nat, n: nat)
    requires v < Pow2(n)
    ensures And(v, mask) == And(v, Low(mask, n))
  {
    hide And, Low, Pow2, Bit;
    forall i: nat
      ensures Bit(And(v, mask), i) == Bit(And(v, Low(mask, n)), i)
    {
      BitAnd(v, mask, i);
      BitAnd(v, Low(mask, n), i);
      BitLow(mask, n, i);
      if Bit(v, i) {
        BitsOfFit(v, n, i);
      }
    }
    SameBits(And(v, mask), And(v, Low(mask, n)));
  }
}
