/**
  And, or and xor of word arrays: the bit of the result at every position of the
  infinite two's-complement form.
*/
module BitwiseOps {
  import opened Radix
  import opened Words
  import opened Bits
  import opened Additive
  import opened Shifts
  import opened Magnitude

  /** Bits below 64 do not see multiples of the word base. */
  lemma {:induction false} SameParity(q: int, k: int)
    ensures (q + 2 * k) % 2 == q % 2
  {
  }

  /** The powers on either side of bit j make up a word. */
  lemma {:induction false} WordSplit(j: nat)
    requires j < 64
    ensures Pow(2, j) * (2 * Pow(2, 63 - j)) == W
  {
    Pow2Words();
    PowAdd(2, j, 64 - j);
    assert Pow(2, 64 - j) == 2 * Pow(2, 63 - j);
  }

  lemma {:induction false} BitOfLowWord(x: nat, c: int, j: nat)
    requires j < 64
    ensures BitAt(x + W * c, j) == BitAt(x, j)
  {
    var p, g := Pow(2, j), Pow(2, 63 - j);
    var q, r := x / p, x % p;
    WordSplit(j);
    DivModBasics(x, p);
    LowWordArith(x, c, p, g, q, r);
    DivModUnique(x + W * c, p, q + 2 * (c * g), r);
    SameParity(q, c * g);
  }

  lemma {:induction false} LowWordArith(x: int, c: int, p: int, g: int, q: int, r: int)
    requires x == r + p * q && p * (2 * g) == W
    ensures x + W * c == p * (q + 2 * (c * g)) + r
  {
    MulDist(p, q, 2 * (c * g));
    assert p * (2 * (c * g)) == (p * (2 * g)) * c;
  }

  /** The low word of an integer, and a whole number of word bases above it. */
  lemma {:induction false} LowWord(t: seq<word>) returns (c: int)
    requires t != []
    ensures Signed(t) == t[0] + W * c
  {
    var neg := if IsNegative(t) then 1 else 0;
    c := Val(W, t[1..]) - neg * Pow(W, |t| - 1);
    assert W * c == W * Val(W, t[1..]) - neg * (W * Pow(W, |t| - 1));
  }

  lemma {:induction false} SignFill(j: nat)
    requires j < 64
    ensures BitAt(W - 1, j) && BitAt(-1, j) && !BitAt(0, j)
  {
    var p, g := Pow(2, j), Pow(2, 63 - j);
    WordSplit(j);
    DivModUnique(-1, p, -1, p - 1);
    DivModUnique(0, p, 0, 0);
    MulDist(p, 2 * g, 1);
    DivModUnique(W - 1, p, 2 * g - 1, p - 1);
  }

  /** Every bit of an integer is a bit of the word that holds its position in the sign extension. */
  lemma {:induction false} SignedBit(s: seq<word>, k: nat)
    requires s != []
    ensures BitAt(Signed(s), k) == BitAt(WordAt(s, k / 64), k % 64)
  {
    var w, j := k / 64, k % 64;
    assert k == 64 * w + j;
    if w < |s| {
      BitAbove(Signed(s), w, j);
      DropWords(s, w);
      var c := LowWord(s[w..]);
      BitOfLowWord(s[w], c, j);
    } else {
      HugeShift(s, k);
      SignFill(j);
      assert -1 % 2 == 1;
    }
  }

  lemma {:induction false} BitAbove(x: int, w: nat, j: nat)
    ensures BitAt(x, 64 * w + j) == BitAt(x / Pow(W, w), j)
  {
    PowSplit(w, j);
    DivDiv(x, Pow(W, w), Pow(2, j));
  }

  method BitwiseFallback(op: BitOp, a: seq<word>, b: seq<word>) returns (r: BigInt)
    requires a != [] && b != []
    ensures Canonical(r)
    ensures op == And ==> forall k: nat :: BitAt(Value(r), k) <==> BitAt(Signed(a), k) && BitAt(Signed(b), k)
    ensures op == Or ==> forall k: nat :: BitAt(Value(r), k) <==> BitAt(Signed(a), k) || BitAt(Signed(b), k)
    ensures op == Xor ==> forall k: nat :: BitAt(Value(r), k) <==> BitAt(Signed(a), k) != BitAt(Signed(b), k)
  {
    var size := Max(|a|, |b|);
    var data := new word[size](_ => 0);
    var signA, signB := SignWord(a), SignWord(b);
    for i := 0 to size
      invariant forall k :: 0 <= k < i ==> data[k] == Bitwise(op, WordAt(a, k), WordAt(b, k))
    {
      var x := if i < |a| then a[i] else signA;
      var y := if i < |b| then b[i] else signB;
      WordBitwise(op, x, y);
      data[i] := Bitwise(op, x, y);
    }
    forall k: nat
      ensures BitAt(Signed(data[..]), k) == op.Apply(BitAt(Signed(a), k), BitAt(Signed(b), k))
    {
      BitwiseBit(op, a, b, data[..], k);
    }
    r := Normalize(data);
  }

  /** The sign word of the result is the operator applied to the operands' sign words. */
  lemma {:induction false} SignOfBitwise(op: BitOp, x: word, y: word)
    ensures Bitwise(op, x, y) >= HALF <==> op.Apply(x >= HALF, y >= HALF)
    ensures Bitwise(op, x, y) < W
  {
    WordBitwise(op, x, y);
    BitwiseAt(op, x, y, 63);
    TopBit(x);
    TopBit(y);
    TopBit(Bitwise(op, x, y));
  }

  lemma {:induction false} TopBit(x: word)
    ensures BitAt(x, 63) <==> x >= HALF
  {
    Pow2Words();
  }

  lemma {:induction false} BitwiseBit(op: BitOp, a: seq<word>, b: seq<word>, d: seq<word>, k: nat)
    requires a != [] && b != [] && |d| == Max(|a|, |b|)
    requires forall i :: 0 <= i < |d| ==> d[i] == Bitwise(op, WordAt(a, i), WordAt(b, i))
    ensures BitAt(Signed(d), k) == op.Apply(BitAt(Signed(a), k), BitAt(Signed(b), k))
  {
    var w, j := k / 64, k % 64;
    SignedBit(a, k);
    SignedBit(b, k);
    SignedBit(d, k);
    if w < |d| {
      BitwiseAt(op, WordAt(a, w), WordAt(b, w), j);
    } else {
      var n := |d| - 1;
      SignOfBitwise(op, WordAt(a, n), WordAt(b, n));
      SignFill(j);
    }
  }

  /** An integer is determined by its bits. */
  lemma {:induction false} BitsDetermine(x: int, y: int)
    requires forall k: nat :: BitAt(x, k) == BitAt(y, k)
    ensures x == y
    decreases Abs(x) + Abs(y)
  {
    assert BitAt(x, 0) == BitAt(y, 0);
    BitStep(x, 0);
    BitStep(y, 0);
    if !(-1 <= x <= 0 && -1 <= y <= 0) {
      forall k: nat
        ensures BitAt(x / 2, k) == BitAt(y / 2, k)
      {
        BitStep(x, k);
        BitStep(y, k);
        assert BitAt(x, k + 1) == BitAt(y, k + 1);
      }
      BitsDetermine(x / 2, y / 2);
    }
  }
}
