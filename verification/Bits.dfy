/** Bitwise operators on natural numbers, for the word arithmetic of the symbol hash tables. */
module Bits {
  function Pow2(n: nat): (p: nat)
    ensures p > 0
  {
    if n == 0 then 1 else 2 * Pow2(n - 1)
  }

  function Shr(x: nat, n: nat): nat {
    if n == 0 then x else Shr(x / 2, n - 1)
  }

  function And(x: nat, y: nat): nat {
    if x == 0 || y == 0 then 0
    else 2 * And(x / 2, y / 2) + (if x % 2 == 1 && y % 2 == 1 then 1 else 0)
  }

  function Xor(x: nat, y: nat): nat
    decreases x + y
  {
    if x == 0 && y == 0 then 0
    else 2 * Xor(x / 2, y / 2) + (if x % 2 == y % 2 then 0 else 1)
  }

  /** Masking keeps a value within the mask. */
  lemma {:induction false} AndAtMost(x: nat, m: nat)
    ensures And(x, m) <= m
  {
    if x != 0 && m != 0 {
      AndAtMost(x / 2, m / 2);
    }
  }

  lemma {:induction false} XorZero(x: nat, y: nat)
    ensures Xor(x, y) == 0 <==> x == y
    decreases x + y
  {
    if x != 0 || y != 0 {
      XorZero(x / 2, y / 2);
    }
  }

  lemma {:induction false} XorWithZero(x: nat)
    ensures Xor(x, 0) == x
  {
    if x != 0 {
      XorWithZero(x / 2);
    }
  }

  /** Two words differ at most in their lowest bit. */
  lemma XorHalfZero(x: nat, y: nat)
    ensures Shr(Xor(x, y), 1) == 0 <==> x / 2 == y / 2
  {
    assert Shr(Xor(x, y), 1) == Shr(Xor(x, y) / 2, 0);
    XorZero(x / 2, y / 2);
  }

  lemma AndOne(x: nat)
    ensures And(x, 1) == x % 2
  {
    assert And(x / 2, 0) == 0;
  }

  lemma AndParity(x: nat, y: nat)
    ensures And(x, y) % 2 == 1 <==> x % 2 == 1 && y % 2 == 1
  {
  }

  /** Both shifted words have their lowest bit set. */
  lemma BothBits(x: nat, y: nat)
    ensures And(And(x, y), 1) != 0 <==> x % 2 == 1 && y % 2 == 1
  {
    var z := And(x, y);
    assert z % 2 == 1 <==> x % 2 == 1 && y % 2 == 1 by {
      AndParity(x, y);
    }
    AndOne(z);
  }

  // ---- splitting words at a bit position ----

  /** The k lowest bits. */
  function Low(x: nat, k: nat): nat {
    if k == 0 then 0 else 2 * Low(x / 2, k - 1) + x % 2
  }

  lemma LowJoined(p: nat, i: nat, k: nat)
    requires i < 2
    ensures Low(2 * p + i, k + 1) == 2 * Low(p, k) + i
  {
    assert (2 * p + i) / 2 == p && (2 * p + i) % 2 == i;
  }

  type Op = (nat, nat) -> nat

  /** The lowest bit of the result depends on the lowest bits of the operands only, the others on the others. */
  predicate Bitwise(op: Op, bit: Op, p: nat, q: nat, i: nat, j: nat) {
    i < 2 && j < 2 ==> bit(i, j) < 2 && op(2 * p + i, 2 * q + j) == 2 * op(p, q) + bit(i, j)
  }

  /** Shifting commutes with every bitwise operator. */
  lemma {:induction false} ShrOfOp(op: Op, bit: Op, x: nat, y: nat, k: nat)
    requires forall p, q, i, j :: Bitwise(op, bit, p, q, i, j)
    ensures Shr(op(x, y), k) == op(Shr(x, k), Shr(y, k))
    decreases k
  {
    if k > 0 {
      assert Bitwise(op, bit, x / 2, y / 2, x % 2, y % 2);
      assert op(x, y) / 2 == op(x / 2, y / 2);
      ShrOfOp(op, bit, x / 2, y / 2, k - 1);
    }
  }

  lemma LowOfOpStep(op: Op, bit: Op, p: nat, q: nat, i: nat, j: nat, k: nat)
    requires forall p, q, i, j :: Bitwise(op, bit, p, q, i, j)
    requires i < 2 && j < 2 && Low(op(p, q), k) == op(Low(p, k), Low(q, k))
    ensures Low(op(2 * p + i, 2 * q + j), k + 1) == op(Low(2 * p + i, k + 1), Low(2 * q + j, k + 1))
  {
    assert Bitwise(op, bit, p, q, i, j) && Bitwise(op, bit, Low(p, k), Low(q, k), i, j);
    LowJoined(op(p, q), bit(i, j), k);
    LowJoined(p, i, k);
    LowJoined(q, j, k);
  }

  /** So does cutting off the high bits. */
  lemma {:induction false} LowOfOp(op: Op, bit: Op, x: nat, y: nat, k: nat)
    requires op(0, 0) == 0 && forall p, q, i, j :: Bitwise(op, bit, p, q, i, j)
    ensures Low(op(x, y), k) == op(Low(x, k), Low(y, k))
    decreases k
  {
    if k > 0 {
      LowOfOp(op, bit, x / 2, y / 2, k - 1);
      LowOfOpStep(op, bit, x / 2, y / 2, x % 2, y % 2, k - 1);
    }
  }

  lemma AndJoined(p: nat, q: nat, i: nat, j: nat)
    requires i < 2 && j < 2
    ensures And(2 * p + i, 2 * q + j) == 2 * And(p, q) + (if i == 1 && j == 1 then 1 else 0)
  {
    assert (2 * p + i) / 2 == p && (2 * q + j) / 2 == q;
  }

  lemma XorJoined(p: nat, q: nat, i: nat, j: nat)
    requires i < 2 && j < 2
    ensures Xor(2 * p + i, 2 * q + j) == 2 * Xor(p, q) + (if i == j then 0 else 1)
  {
    assert (2 * p + i) / 2 == p && (2 * q + j) / 2 == q;
  }

  /** `(1 << a) & (1 << b)` tests for equality. */
  lemma {:induction false} SingleBits(a: nat, b: nat)
    ensures And(Pow2(a), Pow2(b)) == 0 <==> a != b
  {
    if a > 0 && b > 0 {
      SingleBits(a - 1, b - 1);
      AndJoined(Pow2(a - 1), Pow2(b - 1), 0, 0);
    } else {
      AndParity(Pow2(a), Pow2(b));
      OneBit(if a == 0 then b else a);
    }
  }

  lemma OneBit(n: nat)
    ensures n > 0 ==> And(1, Pow2(n)) == 0 && And(Pow2(n), 1) == 0
    ensures And(1, Pow2(0)) == 1
  {
    if n > 0 {
      AndJoined(0, Pow2(n - 1), 1, 0);
      AndJoined(Pow2(n - 1), 0, 0, 1);
    } else {
      AndJoined(0, 0, 1, 1);
    }
  }

  lemma AndParts(x: nat, y: nat, k: nat)
    ensures Shr(And(x, y), k) == And(Shr(x, k), Shr(y, k))
    ensures Low(And(x, y), k) == And(Low(x, k), Low(y, k))
  {
    var op: Op := (p: nat, q: nat) => And(p, q);
    var bit: Op := (i: nat, j: nat) => if i == 1 && j == 1 then 1 else 0;
    forall p, q, i, j ensures Bitwise(op, bit, p, q, i, j) {
      if i < 2 && j < 2 {
        AndJoined(p, q, i, j);
      }
    }
    ShrOfOp(op, bit, x, y, k);
    LowOfOp(op, bit, x, y, k);
  }

  lemma XorParts(x: nat, y: nat, k: nat)
    ensures Shr(Xor(x, y), k) == Xor(Shr(x, k), Shr(y, k))
    ensures Low(Xor(x, y), k) == Xor(Low(x, k), Low(y, k))
  {
    var op: Op := (p: nat, q: nat) => Xor(p, q);
    var bit: Op := (i: nat, j: nat) => if i == j then 0 else 1;
    forall p, q, i, j ensures Bitwise(op, bit, p, q, i, j) {
      if i < 2 && j < 2 {
        XorJoined(p, q, i, j);
      }
    }
    ShrOfOp(op, bit, x, y, k);
    LowOfOp(op, bit, x, y, k);
  }

  /** A word of n ones has each of them set. */
  lemma {:induction false} AllOnes(n: nat, k: nat)
    requires k < n
    ensures Shr(Pow2(n) - 1, k) % 2 == 1
    decreases k
  {
    var p := Pow2(n - 1);
    assert Pow2(n) == 2 * p;
    assert (2 * p - 1) / 2 == p - 1 && (2 * p - 1) % 2 == 1;
    if k > 0 {
      AllOnes(n - 1, k - 1);
    }
  }

  /** Masking with k ones keeps the k lowest bits. */
  lemma {:induction false} AndOnes(x: nat, k: nat)
    ensures And(x, Pow2(k) - 1) == Low(x, k)
    decreases k
  {
    if k > 0 {
      AndOnes(x / 2, k - 1);
      AndJoined(x / 2, Pow2(k - 1) - 1, x % 2, 1);
    }
  }

  lemma {:induction false} AndComplement(x: nat, k: nat)
    requires x < Pow2(k)
    ensures And(x, Pow2(k) - 1 - x) == 0
    decreases k
  {
    if k > 0 {
      AndComplement(x / 2, k - 1);
      AndJoined(x / 2, Pow2(k - 1) - 1 - x / 2, x % 2, 1 - x % 2);
    }
  }

  // ---- bit 28, where the ELF hash cuts ----

  lemma Nibbles(x: nat, k: nat)
    ensures Shr(x, k + 4) == Shr(x / 16, k)
    ensures Low(x, k + 4) == 16 * Low(x / 16, k) + x % 16
  {
    var a := x / 2;
    var b := a / 2;
    var c := b / 2;
    assert c / 2 == x / 16;
    assert Shr(x, k + 4) == Shr(a, k + 3) == Shr(b, k + 2) == Shr(c, k + 1) == Shr(c / 2, k);
    assert Low(b, k + 2) == 2 * Low(c, k + 1) + b % 2;
    assert Low(a, k + 3) == 2 * Low(b, k + 2) + a % 2;
  }

  lemma PartsAt4(x: nat)
    ensures Shr(x, 4) == x / 16 && Low(x, 4) == x % 16
  {
    Nibbles(x, 0);
  }

  lemma PartsAt12(x: nat)
    ensures Shr(x, 12) == x / 0x1000 && Low(x, 12) == x % 0x1000
  {
    var y := x / 16;
    var z := y / 16;
    Nibbles(x, 8);
    Nibbles(y, 4);
    PartsAt4(z);
    assert z / 16 == x / 0x1000;
  }

  lemma PartsAt24(x: nat)
    ensures Shr(x, 24) == x / 0x100_0000 && Low(x, 24) == x % 0x100_0000
  {
    var y := x / 16;
    var z := y / 16;
    var w := z / 16;
    Nibbles(x, 20);
    Nibbles(y, 16);
    Nibbles(z, 12);
    PartsAt12(w);
    assert w == x / 0x1000;
  }

  lemma PartsAt28(x: nat)
    ensures Shr(x, 28) == x / 0x1000_0000 && Low(x, 28) == x % 0x1000_0000
  {
    Nibbles(x, 24);
    PartsAt24(x / 16);
  }

  const TWO28: nat := 0x1000_0000

  lemma JoinedParts(a: nat, b: nat)
    requires b < TWO28
    ensures (a * TWO28 + b) / TWO28 == a && (a * TWO28 + b) % TWO28 == b
  {
  }

  lemma AndAt28(x: nat, y: nat)
    ensures And(x, y) / TWO28 == And(x / TWO28, y / TWO28)
    ensures And(x, y) % TWO28 == And(x % TWO28, y % TWO28)
  {
    AndParts(x, y, 28);
    PartsAt28(x);
    PartsAt28(y);
    PartsAt28(And(x, y));
  }

  lemma AndJoined28(a: nat, b: nat, c: nat, d: nat)
    requires b < TWO28 && d < TWO28
    ensures And(a * TWO28 + b, c * TWO28 + d) == And(a, c) * TWO28 + And(b, d)
    ensures And(b, d) < TWO28
  {
    JoinedParts(a, b);
    JoinedParts(c, d);
    AndAt28(a * TWO28 + b, c * TWO28 + d);
  }

  lemma XorAt28(x: nat, y: nat)
    ensures Xor(x, y) / TWO28 == Xor(x / TWO28, y / TWO28)
    ensures Xor(x, y) % TWO28 == Xor(x % TWO28, y % TWO28)
  {
    XorParts(x, y, 28);
    PartsAt28(x);
    PartsAt28(y);
    PartsAt28(Xor(x, y));
  }

  lemma XorJoined28(a: nat, b: nat, c: nat, d: nat)
    requires b < TWO28 && d < TWO28
    ensures Xor(a * TWO28 + b, c * TWO28 + d) == Xor(a, c) * TWO28 + Xor(b, d)
    ensures Xor(b, d) < TWO28
  {
    JoinedParts(a, b);
    JoinedParts(c, d);
    XorAt28(a * TWO28 + b, c * TWO28 + d);
  }

  lemma Ones28(x: nat)
    ensures And(x, 0xfff_ffff) == x % 0x1000_0000
  {
    assert Pow2(8) == 256;
    assert Pow2(16) == 0x1_0000;
    assert Pow2(24) == 0x100_0000;
    AndOnes(x, 28);
    PartsAt28(x);
  }

  lemma Complement4(n: nat)
    requires n < 16
    ensures And(n, 15 - n) == 0
  {
    assert Pow2(4) == 16;
    AndComplement(n, 4);
  }

  lemma Ones4(x: nat)
    ensures And(x, 15) == x % 16
  {
    AndOnes(x, 4);
    PartsAt4(x);
  }
}
