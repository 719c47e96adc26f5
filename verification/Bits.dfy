/**
  Bits of integers in infinite two's complement, the three bitwise operators on
  them, and the word-level shifts in terms of powers of two.  Shifts and disjoint
  unions of bits are thereby ordinary multiplication, division and addition.
*/
module Bits {
  import opened Radix
  import opened Words

  /** Bit i of the infinite two's-complement form of x. */
  predicate BitAt(x: int, i: nat) {
    x / Pow(2, i) % 2 == 1
  }

  datatype BitOp = And | Or | Xor {
    predicate Apply(p: bool, q: bool) {
      match this
      case And => p && q
      case Or => p || q
      case Xor => p != q
    }
  }

  /** The operator applied bit by bit to two unsigned values. */
  function Bitwise(op: BitOp, x: nat, y: nat): nat
    decreases x + y
  {
    if x == 0 && y == 0 then 0
    else (if op.Apply(x % 2 == 1, y % 2 == 1) then 1 else 0) + 2 * Bitwise(op, x / 2, y / 2)
  }

  lemma {:induction false} HalveTwice(x: int, n: nat)
    ensures x / Pow(2, n + 1) == x / 2 / Pow(2, n)
  {
    var p := Pow(2, n);
    var q, r := x / 2 / p, x / 2 % p;
    assert x / 2 == p * q + r;
    assert x == 2 * (p * q + r) + x % 2;
    MulAssoc(2, p, q);
    DivModUnique(x, 2 * p, q, 2 * r + x % 2);
  }

  lemma {:induction false} BitStep(x: int, i: nat)
    ensures BitAt(x, 0) == (x % 2 == 1)
    ensures BitAt(x, i + 1) == BitAt(x / 2, i)
  {
    HalveTwice(x, i);
  }

  lemma {:induction false} BitwiseAt(op: BitOp, x: nat, y: nat, i: nat)
    ensures BitAt(Bitwise(op, x, y), i) == op.Apply(BitAt(x, i), BitAt(y, i))
    decreases i
  {
    var z := Bitwise(op, x, y);
    var e := if op.Apply(x % 2 == 1, y % 2 == 1) then 1 else 0;
    assert z == e + 2 * Bitwise(op, x / 2, y / 2);
    assert z / 2 == Bitwise(op, x / 2, y / 2) && z % 2 == e;
    BitStep(x, 0);
    BitStep(y, 0);
    BitStep(z, 0);
    if i > 0 {
      BitwiseAt(op, x / 2, y / 2, i - 1);
      BitStep(x, i - 1);
      BitStep(y, i - 1);
      BitStep(z, i - 1);
    }
  }

  lemma {:induction false} BitwiseBound(op: BitOp, x: nat, y: nat, n: nat)
    requires x < Pow(2, n) && y < Pow(2, n)
    ensures Bitwise(op, x, y) < Pow(2, n)
    decreases n
  {
    if n > 0 {
      BitwiseBound(op, x / 2, y / 2, n - 1);
    }
  }

  /** Or-ing a value shifted past another one places them side by side. */
  lemma {:induction false} OrDisjoint(x: nat, y: nat, n: nat)
    requires y < Pow(2, n)
    ensures Bitwise(Or, x * Pow(2, n), y) == x * Pow(2, n) + y
    decreases n
  {
    if n == 0 {
      assert x * Pow(2, n) == x;
      OrZero(x);
    } else {
      var t := x * Pow(2, n - 1);
      assert x * Pow(2, n) == 2 * t;
      OrDisjoint(x, y / 2, n - 1);
    }
  }

  lemma {:induction false} OrZero(x: nat)
    ensures Bitwise(Or, x, 0) == x
  {
    if x > 0 {
      OrZero(x / 2);
    }
  }

  lemma {:induction false} Pow2Small()
    ensures Pow(2, 16) == 0x1_0000
  {
    assert Pow(2, 2) == 4;
    PowAdd(2, 2, 2);
    PowAdd(2, 4, 4);
    PowAdd(2, 8, 8);
  }

  lemma {:induction false} Pow2Words()
    ensures Pow(2, 32) == R && Pow(2, 63) == HALF && Pow(2, 64) == W
  {
    Pow2Small();
    PowAdd(2, 16, 16);
    PowAdd(2, 32, 32);
    PowAdd(2, 1, 63);
  }

  /** Two half words side by side make a word. */
  lemma {:induction false} OrHalves(h: nat, l: nat)
    requires h < R && l < R
    ensures Bitwise(Or, Wrap(h * R), l) == h * R + l < W
  {
    Pow2Words();
    OrDisjoint(h, l, 32);
  }

  lemma {:induction false} WordBitwise(op: BitOp, x: word, y: word)
    ensures Bitwise(op, x, y) < W
  {
    Pow2Words();
    BitwiseBound(op, x, y, 64);
  }

  /** Left and right shift of one word. */
  function Shl(x: nat, n: nat): word { Wrap(x * Pow(2, n)) }

  function Shr(x: nat, n: nat): nat { x / Pow(2, n) }
}
