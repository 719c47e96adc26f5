/**
  The public operators: an inline int64 fast path guarded by portable overflow tests,
  and the word-array fallback behind it.
*/
module Operators {
  import opened Options
  import opened Radix
  import opened Words
  import opened Bits
  import opened Additive
  import opened Magnitude
  import opened Multiply
  import opened Quotients
  import opened RoundedDivision
  import opened Shifts
  import opened BitwiseOps
  import opened Compare

  /** What an overflow test hands back: the exact result, or the need to promote. */
  datatype Fast = Exact(v: int64) | Overflow | ZeroDivisor | NegativeShift

  // ---------- overflow tests ----------

  function AddOverflow(a: int64, b: int64): (r: Fast)
    ensures r == if InInt64(a + b) then Exact(a + b) else Overflow
  {
    if (b > 0 && a > INT64_MAX - b) || (b < 0 && a < INT64_MIN - b) then Overflow else Exact(a + b)
  }

  function SubOverflow(a: int64, b: int64): (r: Fast)
    ensures r == if InInt64(a - b) then Exact(a - b) else Overflow
  {
    if (b < 0 && a > INT64_MAX + b) || (b > 0 && a < INT64_MIN + b) then Overflow else Exact(a - b)
  }

  /** x <= n / d exactly when x * d <= n. */
  lemma {:induction false} AtMostQuotient(x: int, d: int, n: int)
    requires d > 0 && n >= 0
    ensures x <= n / d <==> x * d <= n
  {
    var q, r := n / d, n % d;
    FloorBasics(n, d);
    if x <= q {
      MulMono(d, x, q);
    } else {
      MulMono(d, q + 1, x);
      MulDist(d, q, 1);
    }
  }

  predicate ProductLeaves(a: int64, b: int64) {
    if a > 0 then (if b > 0 then a > Quot(INT64_MAX, b) else b < Quot(INT64_MIN, a))
    else a < 0 && (if b > 0 then a < Quot(INT64_MIN, b) else b < 0 && a < Quot(INT64_MAX, b))
  }

  /** The division-based bounds are true exactly when the product does not fit. */
  lemma {:induction false} ProductLeavesExact(a: int64, b: int64)
    ensures ProductLeaves(a, b) <==> !InInt64(a * b)
  {
    var x: int, y: int := a, b;
    if a > 0 && b > 0 {
      AtMostQuotient(a, b, INT64_MAX);
      assert a * b >= 0;
    } else if a > 0 && b < 0 {
      AtMostQuotient(-y, x, HALF);
      assert (-y) * x == -(x * y);
    } else if a < 0 && b > 0 {
      AtMostQuotient(-x, y, HALF);
      assert (-x) * y == -(x * y);
    } else if a < 0 && b < 0 {
      AtMostQuotient(-x, -y, INT64_MAX);
      assert (-x) * (-y) == x * y > 0;
    } else {
      assert a * b == 0;
      if a > 0 {
        DivModBasics(HALF, a);
      }
    }
  }

  function MulOverflow(a: int64, b: int64): (r: Fast)
    ensures r == if InInt64(a * b) then Exact(a * b) else Overflow
  {
    ProductLeavesExact(a, b);
    if ProductLeaves(a, b) then Overflow else Exact(a * b)
  }

  /** Only INT64_MIN / -1 leaves int64. */
  lemma {:induction false} QuotientFits(a: int64, b: int64)
    requires b != 0
    ensures InInt64(Quot(a, b)) <==> !(a == INT64_MIN && b == -1)
  {
    NativeTruncates(a, b);
    var x: int, y: int := a, b;
    if a == INT64_MIN && b < 0 {
      AtMostQuotient(HALF, -y, HALF);
    }
  }

  function TruncDivOverflow(a: int64, b: int64): (r: Fast)
    ensures r == if b == 0 then ZeroDivisor else if InInt64(Quot(a, b)) then Exact(Quot(a, b)) else Overflow
  {
    if a >= 0 && b > 0 then QuotientFits(a, b); Exact(Quot(a, b))
    else if b == 0 then ZeroDivisor
    else QuotientFits(a, b); if a == INT64_MIN && b == -1 then Overflow else Exact(Quot(a, b))
  }

  function TruncModOverflow(a: int64, b: int64): (r: Fast)
    ensures r == if b == 0 then ZeroDivisor else Exact(Rem(a, b))
  {
    if a >= 0 && b > 0 then NativeTruncates(a, b); Exact(Rem(a, b))
    else if b == 0 then ZeroDivisor
    else if a == INT64_MIN && b == -1 then TruncIs(a, b, HALF, 0); Exact(0)
    else NativeTruncates(a, b); Exact(Rem(a, b))
  }

  function FloorDivOverflow(a: int64, b: int64): (r: Fast)
    ensures r == if b == 0 then ZeroDivisor else if InInt64(FloorQuot(a, b)) then Exact(FloorQuot(a, b)) else Overflow
  {
    if a >= 0 && b > 0 then QuotientFits(a, b); Exact(Quot(a, b))
    else if b == 0 then ZeroDivisor
    else
      QuotientFits(a, b); LowerFits(a, b);
      if a == INT64_MIN && b == -1 then Overflow
      else
        var q, r := Quot(a, b), Rem(a, b);
        Exact(if r != 0 && (a < 0) != (b < 0) then q - 1 else q)
  }

  /** An inexact quotient is never INT64_MIN, so rounding it down stays in range. */
  lemma {:induction false} LowerFits(a: int64, b: int64)
    requires b != 0
    ensures Rem(a, b) != 0 ==> InInt64(Quot(a, b) - 1)
    ensures a == INT64_MIN && b == -1 ==> Rem(a, b) == 0
  {
    NativeTruncates(a, b);
    var q, d := Abs(a) / Abs(b), Abs(b);
    DivModBasics(Abs(a), d);
    MulMono(q, 1, d);
    if d >= 2 {
      MulMono(q, 2, d);
    }
  }

  function FloorModOverflow(a: int64, b: int64): (r: Fast)
    ensures r == if b == 0 then ZeroDivisor else Exact(FloorRem(a, b))
  {
    if a >= 0 && b > 0 then NativeTruncates(a, b); Exact(Rem(a, b))
    else if b == 0 then ZeroDivisor
    else if a == INT64_MIN && b == -1 then TruncIs(a, b, HALF, 0); Exact(0)
    else
      NativeTruncates(a, b);
      var r := Rem(a, b);
      Exact(if r != 0 && (a < 0) != (b < 0) then r + b else r)
  }

  // ---------- inline shifts ----------

  /** The two bounds, made by shifting the limits the other way, are exact. */
  lemma {:induction false} ShiftFits(a: int64, b: nat)
    requires 0 < b < 64
    ensures a > INT64_MAX / Pow(2, b) || a < -(Pow(2, 63 - b) as int) <==> !InInt64(a * Pow(2, b))
  {
    var s, g: int := Pow(2, b), Pow(2, 63 - b);
    ShiftBounds(b);
    ScaleOrder(a, g, s);
    ScaleOrder(a, -g, s);
    assert (-g) * s == -(g * s);
  }

  lemma {:induction false} ShiftBounds(b: nat)
    requires 0 < b < 64
    ensures INT64_MAX / Pow(2, b) == Pow(2, 63 - b) - 1 && Pow(2, 63 - b) * Pow(2, b) == HALF
  {
    var s, g := Pow(2, b), Pow(2, 63 - b);
    Pow2Words();
    PowAdd(2, b, 63 - b);
    MulDist(s, g, 1);
    DivModUnique(INT64_MAX, s, g - 1, s - 1);
  }

  lemma {:induction false} ScaleOrder(a: int, g: int, s: int)
    requires s > 0
    ensures a >= g <==> a * s >= g * s
  {
    if a >= g {
      MulMono(s, g, a);
    } else {
      MulMono(s, a + 1, g);
      MulDist(s, a, 1);
    }
  }

  /** A nonzero value moved by 64 bits or more leaves int64. */
  lemma {:induction false} LongShiftLeaves(a: int64, b: nat)
    requires b >= 64 && a != 0
    ensures !InInt64(a * Pow(2, b))
  {
    Pow2Words();
    PowMono(2, 64, b);
    if a > 0 {
      MulMono(Pow(2, b), 1, a);
    } else {
      MulMono(Pow(2, b), a, -1);
    }
  }

  /** Shifting the bit pattern gives the pattern of the shifted value when it fits. */
  lemma {:induction false} PatternProduct(a: int64, s: nat)
    ensures ToWord(a) * s == a * s + W * (if a < 0 then s else 0)
  {
    MulDist(s, a, W);
  }

  lemma {:induction false} WordOf(v: int64)
    ensures ToInt64(Wrap(v)) == v
  {
  }

  lemma {:induction false} PatternShift(a: int64, b: nat)
    requires InInt64(a * Pow(2, b))
    ensures ToInt64(Shl(ToWord(a), b)) == a * Pow(2, b)
  {
    var s := Pow(2, b);
    PatternProduct(a, s);
    WrapMultiple(a * s, if a < 0 then s else 0);
    WordOf(a * s);
  }

  function LeftShiftOverflow(a: int64, b: int64): (r: Fast)
    ensures r.NegativeShift? <==> b < 0
    ensures b >= 0 ==> r == if InInt64(a * Pow(2, b)) then Exact(a * Pow(2, b)) else Overflow
  {
    if b < 0 then NegativeShift
    else if b == 0 || a == 0 then Exact(a)
    else if b >= 64 then LongShiftLeaves(a, b); Overflow
    else
      ShiftFits(a, b);
      if a > INT64_MAX / Pow(2, b) || a < -(Pow(2, 63 - b) as int) then Overflow
      else PatternShift(a, b); Exact(ToInt64(Shl(ToWord(a), b)))
  }

  function RightShift(a: int64, b: int64): (r: Fast)
    ensures r.NegativeShift? <==> b < 0
    ensures b >= 0 ==> r == Exact(a / Pow(2, b))
  {
    if b < 0 then NegativeShift
    else if b >= 64 then
      OneWord(ToWord(a)); HugeShift([ToWord(a)], b);
      Exact(if a < 0 then -1 else 0)
    else
      FloorOfInt64(a, Pow(2, b)); Exact(a / Pow(2, b))
  }

  lemma {:induction false} FloorOfInt64(a: int64, s: nat)
    requires s > 0
    ensures InInt64(a / s)
  {
    FloorBasics(a, s);
    FloorRange(a, s, a / s, a % s, HALF);
  }

  // ---------- the operators ----------

  /** Both operands inline: the fast path decides; anything else goes to the fallback. */
  method Plus(a: BigInt, b: BigInt) returns (r: BigInt)
    requires Canonical(a) && Canonical(b)
    ensures Canonical(r) && Value(r) == Value(a) + Value(b)
  {
    ViewValue(a);
    ViewValue(b);
    if a.Inline? && b.Inline? {
      var fast := AddOverflow(a.v, b.v);
      if !fast.Overflow? {
        return Inline(fast.v);
      }
    }
    r := AddFallback(View(a), View(b));
  }

  method Minus(a: BigInt, b: BigInt) returns (r: BigInt)
    requires Canonical(a) && Canonical(b)
    ensures Canonical(r) && Value(r) == Value(a) - Value(b)
  {
    ViewValue(a);
    ViewValue(b);
    if a.Inline? && b.Inline? {
      var fast := SubOverflow(a.v, b.v);
      if !fast.Overflow? {
        return Inline(fast.v);
      }
    }
    r := SubFallback(View(a), View(b));
  }

  method Times(a: BigInt, b: BigInt) returns (r: BigInt)
    requires Canonical(a) && Canonical(b)
    ensures Canonical(r) && Value(r) == Value(a) * Value(b)
  {
    ViewValue(a);
    ViewValue(b);
    if a.Inline? && b.Inline? {
      var fast := MulOverflow(a.v, b.v);
      if !fast.Overflow? {
        return Inline(fast.v);
      }
    }
    r := MulFallback(View(a), View(b));
  }

  method TruncDiv(a: BigInt, b: BigInt) returns (r: Checked)
    requires Canonical(a) && Canonical(b)
    ensures r.DivisionByZero? <==> Value(b) == 0
    ensures r.Num? ==> Canonical(r.x) && Value(r.x) == Quot(Value(a), Value(b))
  {
    ViewValue(a);
    ViewValue(b);
    if a.Inline? && b.Inline? {
      var fast := TruncDivOverflow(a.v, b.v);
      if !fast.Overflow? {
        return if fast.ZeroDivisor? then DivisionByZero else Num(Inline(fast.v));
      }
    }
    r := TruncDivFallback(View(a), View(b));
  }

  method TruncMod(a: BigInt, b: BigInt) returns (r: Checked)
    requires Canonical(a) && Canonical(b)
    ensures r.DivisionByZero? <==> Value(b) == 0
    ensures r.Num? ==> Canonical(r.x) && Value(r.x) == Rem(Value(a), Value(b))
  {
    ViewValue(a);
    ViewValue(b);
    if a.Inline? && b.Inline? {
      var fast := TruncModOverflow(a.v, b.v);
      return if fast.ZeroDivisor? then DivisionByZero else Num(Inline(fast.v));
    }
    r := TruncModFallback(View(a), View(b));
  }

  method FloorDiv(a: BigInt, b: BigInt) returns (r: Checked)
    requires Canonical(a) && Canonical(b)
    ensures r.DivisionByZero? <==> Value(b) == 0
    ensures r.Num? ==> Canonical(r.x) && Value(r.x) == FloorQuot(Value(a), Value(b))
  {
    ViewValue(a);
    ViewValue(b);
    if a.Inline? && b.Inline? {
      var fast := FloorDivOverflow(a.v, b.v);
      if !fast.Overflow? {
        return if fast.ZeroDivisor? then DivisionByZero else Num(Inline(fast.v));
      }
    }
    r := FloorDivFallback(View(a), View(b));
  }

  method FloorMod(a: BigInt, b: BigInt) returns (r: Checked)
    requires Canonical(a) && Canonical(b)
    ensures r.DivisionByZero? <==> Value(b) == 0
    ensures r.Num? ==> Canonical(r.x) && Value(r.x) == FloorRem(Value(a), Value(b))
  {
    ViewValue(a);
    ViewValue(b);
    if a.Inline? && b.Inline? {
      var fast := FloorModOverflow(a.v, b.v);
      return if fast.ZeroDivisor? then DivisionByZero else Num(Inline(fast.v));
    }
    r := FloorModFallback(View(a), View(b));
  }

  method ShiftLeft(a: BigInt, b: BigInt) returns (r: ShiftResult)
    requires Canonical(a) && Canonical(b)
    ensures r.NegativeCount? <==> Value(b) < 0
    ensures r.CountOverflow? <==> Value(b) >= W && Value(a) != 0
    ensures r.Shifted? ==> Canonical(r.x) && Value(r.x) == Value(a) * Pow(2, Value(b))
  {
    ViewValue(a);
    ViewValue(b);
    if a.Inline? && b.Inline? {
      var fast := LeftShiftOverflow(a.v, b.v);
      if !fast.Overflow? {
        return if fast.NegativeShift? then NegativeCount else Shifted(Inline(fast.v));
      }
    }
    r := LeftShiftFallback(View(a), View(b));
  }

  method ShiftRight(a: BigInt, b: BigInt) returns (r: ShiftResult)
    requires Canonical(a) && Canonical(b)
    ensures r.NegativeCount? <==> Value(b) < 0
    ensures !r.CountOverflow? && (r.Shifted? ==> Canonical(r.x))
    ensures r.Shifted? ==> (Value(r.x) == Value(a) / Pow(2, Value(b))
                            <==> Value(b) < W || OnlySign(Value(a), Value(b)))
    ensures r.Shifted? && Value(b) >= W ==> Value(r.x) == if Value(a) < 0 then -1 else 0
    ensures 64 * |View(a)| <= W <= Value(b) ==> OnlySign(Value(a), Value(b))
  {
    ViewValue(a);
    ViewValue(b);
    if a.Inline? && b.Inline? {
      var fast := RightShift(a.v, b.v);
      return if fast.NegativeShift? then NegativeCount else Shifted(Inline(fast.v));
    }
    r := RightShiftFallback(View(a), View(b));
  }

  method BitOperator(op: BitOp, a: BigInt, b: BigInt) returns (r: BigInt)
    requires Canonical(a) && Canonical(b)
    ensures Canonical(r)
    ensures op == And ==> forall k: nat :: BitAt(Value(r), k) <==> BitAt(Value(a), k) && BitAt(Value(b), k)
    ensures op == Or ==> forall k: nat :: BitAt(Value(r), k) <==> BitAt(Value(a), k) || BitAt(Value(b), k)
    ensures op == Xor ==> forall k: nat :: BitAt(Value(r), k) <==> BitAt(Value(a), k) != BitAt(Value(b), k)
  {
    ViewValue(a);
    ViewValue(b);
    if a.Inline? && b.Inline? {
      var x, y := ToWord(a.v), ToWord(b.v);
      WordBitwise(op, x, y);
      r := Inline(ToInt64(Bitwise(op, x, y)));
      OneWord(Bitwise(op, x, y));
      forall k: nat
        ensures BitAt(Value(r), k) == op.Apply(BitAt(Value(a), k), BitAt(Value(b), k))
      {
        BitwiseBit(op, [x], [y], [Bitwise(op, x, y)], k);
      }
      return;
    }
    r := BitwiseFallback(op, View(a), View(b));
  }

  method Negate(x: BigInt) returns (r: BigInt)
    requires Canonical(x)
    ensures Canonical(r) && Value(r) == -Value(x)
  {
    ViewValue(x);
    if x.Inline? && x.v != INT64_MIN {
      return Inline(-x.v);
    }
    r := NegateFallback(View(x));
  }

  method Complement(x: BigInt) returns (r: BigInt)
    requires Canonical(x)
    ensures Canonical(r) && Value(r) == -Value(x) - 1
  {
    ViewValue(x);
    if x.Inline? {
      OneWord(Not(ToWord(x.v)));
      return Inline(ToInt64(Not(ToWord(x.v))));
    }
    r := ComplementFallback(View(x));
  }

  method Min(a: BigInt, b: BigInt) returns (r: BigInt)
    requires Canonical(a) && Canonical(b)
    ensures Canonical(r) && Value(r) == if Value(a) <= Value(b) then Value(a) else Value(b)
  {
    ViewValue(a);
    ViewValue(b);
    if a.Inline? && b.Inline? {
      return Inline(if a.v <= b.v then a.v else b.v);
    }
    r := MinFallback(View(a), View(b));
  }

  method Max(a: BigInt, b: BigInt) returns (r: BigInt)
    requires Canonical(a) && Canonical(b)
    ensures Canonical(r) && Value(r) == if Value(a) >= Value(b) then Value(a) else Value(b)
  {
    ViewValue(a);
    ViewValue(b);
    if a.Inline? && b.Inline? {
      return Inline(if a.v >= b.v then a.v else b.v);
    }
    r := MaxFallback(View(a), View(b));
  }

  method Equal(a: BigInt, b: BigInt) returns (equal: bool)
    requires Canonical(a) && Canonical(b)
    ensures equal <==> Value(a) == Value(b)
  {
    ViewValue(a);
    ViewValue(b);
    if a.Inline? && b.Inline? {
      return a.v == b.v;
    }
    equal := EqualFallback(View(a), View(b));
  }

  /** The sign that every ordering operator compares with zero. */
  method OrderOf(a: BigInt, b: BigInt) returns (order: int)
    requires Canonical(a) && Canonical(b)
    ensures order == if Value(a) < Value(b) then -1 else if Value(a) > Value(b) then 1 else 0
  {
    ViewValue(a);
    ViewValue(b);
    if a.Inline? && b.Inline? {
      return if a.v < b.v then -1 else if a.v > b.v then 1 else 0;
    }
    order := CompareFallback(View(a), View(b));
  }

  // ---------- unsigned 64-bit integers ----------

  function FromUint64(bits: word): (r: BigInt)
    ensures Canonical(r) && Value(r) == bits
  {
    if bits > INT64_MAX then
      assert [bits, 0][..1] == [bits]; TopWord([bits, 0]); OneWord(bits); assert Pow(W, 1) == W;
      Heap([bits, 0])
    else Inline(bits)
  }

  /** The value as uint64 when it is one. */
  function AsUint64(x: BigInt): (r: Option<word>)
    requires Canonical(x)
    ensures r == if 0 <= Value(x) < W then Some(Value(x)) else None
  {
    ViewValue(x);
    match x
    case Inline(v) => if v < 0 then None else Option<word>.Some(v)
    case Heap(words) =>
      TwoWords(words);
      if |words| == 2 && words[1] == 0 then Option<word>.Some(words[0]) else None
  }

  /** A canonical heap integer is an unsigned word exactly when its second word is the only one above and zero. */
  lemma {:induction false} TwoWords(s: seq<word>)
    requires |s| > 1 && CanonicalWords(s)
    ensures |s| == 2 && s[1] == 0 <==> 0 <= Signed(s) < W
    ensures |s| == 2 && s[1] == 0 ==> Signed(s) == s[0]
  {
    SignedRange(s);
    TopWord(s);
    OneWord(s[0]);
    if |s| == 2 {
      assert s[..1] == [s[0]];
      assert Pow(W, 1) == W * Pow(W, 0) == W;
      assert Val(W, s) == s[0] + s[1] * W;
    } else {
      CanonicalOutside(s);
      HalfMono(2, |s| - 1);
    }
  }
}
