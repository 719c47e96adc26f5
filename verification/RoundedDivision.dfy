/** The four division fallbacks, and the remainder by a divisor below 2^32. */
module RoundedDivision {
  import opened Radix
  import opened Words
  import opened Additive
  import opened Magnitude
  import opened Multiply
  import opened Quotients
  import opened ScalarDivision
  import Knuth = KnuthDivision

  datatype Checked = Num(x: BigInt) | DivisionByZero

  method TruncDivFallback(a: seq<word>, b: seq<word>) returns (result: Checked)
    requires a != [] && CanonicalWords(b)
    ensures result.DivisionByZero? <==> Signed(b) == 0
    ensures result.Num? ==> Canonical(result.x) && Value(result.x) == Quot(Signed(a), Signed(b))
  {
    var qr := Knuth.DivRemFallback(a, b);
    if qr.ZeroDivision? {
      return DivisionByZero;
    }
    TruncIs(Signed(a), Signed(b), Value(qr.q), Value(qr.r));
    return Num(qr.q);
  }

  /** The remainder by a divisor below 2^32, half word by half word and without a quotient. */
  method SmallModulus(a: seq<word>, divisor: word) returns (rem: nat, ghost q: nat)
    requires a != [] && 0 < divisor < R
    ensures Abs(Signed(a)) == q * divisor + rem && rem < divisor
  {
    var first := FirstNonzero(a);
    ghost var m := AbsWords(a, first, |a|);
    rem, q := 0, 0;
    assert m[|a|..] == [];
    for i := |a| downto 0
      invariant rem < divisor && Val(W, m[i..]) == q * divisor + rem
    {
      var x := AbsWord(a, first, i);
      HiLo(x);
      ghost var before := rem;
      var qHigh, middle := SmallHalf(rem, Hi(x), divisor);
      var qLow, last := SmallHalf(middle, Lo(x), divisor);
      rem := last;
      TwoHalves(before, Hi(x), Lo(x), divisor, qHigh, middle, qLow, last);
      assert m[i..][0] == x && m[i..][1..] == m[i + 1..];
      LongDivisionStep(Val(W, m[i + 1..]), divisor, q, qHigh * R + qLow, before, x, last);
      q := qHigh * R + qLow + W * q;
    }
    assert m[0..] == m;
    AbsValue(a, first, |a|);
  }

  method TruncModFallback(a: seq<word>, b: seq<word>) returns (result: Checked)
    requires a != [] && CanonicalWords(b)
    ensures result.DivisionByZero? <==> Signed(b) == 0
    ensures result.Num? ==> Canonical(result.x) && Value(result.x) == Rem(Signed(a), Signed(b))
  {
    if |b| == 1 {
      OneWord(b[0]);
      assert b == [b[0]];
      if b[0] == 0 {
        return DivisionByZero;
      }
      var divisor := Magnitude64(ToInt64(b[0]));
      if divisor <= R - 1 {
        var rem, q := SmallModulus(a, divisor);
        SignedRange(a);
        SignsOfTruncation(Signed(a), Signed(b), q, rem);
        var remainder: int := rem;
        if IsNegative(a) {
          remainder := -remainder;
        }
        ghost var quotient: int := if (Signed(a) < 0) != (Signed(b) < 0) then 0 - q as int else q;
        TruncIs(Signed(a), Signed(b), quotient, remainder);
        return Num(Inline(remainder));
      }
    }
    var qr := Knuth.DivRemFallback(a, b);
    if qr.ZeroDivision? {
      return DivisionByZero;
    }
    TruncIs(Signed(a), Signed(b), Value(qr.q), Value(qr.r));
    return Num(qr.r);
  }

  lemma {:induction false} InlineNonzero(x: BigInt)
    requires Canonical(x)
    ensures x == Inline(0) <==> Value(x) == 0
  {
    CanonicalUnique(x, Inline(0));
  }

  method FloorDivFallback(a: seq<word>, b: seq<word>) returns (result: Checked)
    requires a != [] && CanonicalWords(b)
    ensures result.DivisionByZero? <==> Signed(b) == 0
    ensures result.Num? ==> Canonical(result.x) && Value(result.x) == FloorQuot(Signed(a), Signed(b))
  {
    var qr := Knuth.DivRemFallback(a, b);
    if qr.ZeroDivision? {
      return DivisionByZero;
    }
    InlineNonzero(qr.r);
    SignedRange(a);
    SignedRange(b);
    TruncIs(Signed(a), Signed(b), Value(qr.q), Value(qr.r));
    if qr.r != Inline(0) && IsNegative(a) != IsNegative(b) {
      ViewValue(qr.q);
      OneWord(1);
      var lower := SubFallback(View(qr.q), [1]);
      return Num(lower);
    }
    return Num(qr.q);
  }

  method FloorModFallback(a: seq<word>, b: seq<word>) returns (result: Checked)
    requires a != [] && CanonicalWords(b)
    ensures result.DivisionByZero? <==> Signed(b) == 0
    ensures result.Num? ==> Canonical(result.x) && Value(result.x) == FloorRem(Signed(a), Signed(b))
  {
    var rem := TruncModFallback(a, b);
    if rem.DivisionByZero? {
      return DivisionByZero;
    }
    var r := rem.x;
    InlineNonzero(r);
    SignedRange(a);
    SignedRange(b);
    NativeTruncates(Signed(a), Signed(b));
    if r != Inline(0) && IsNegative(a) != IsNegative(b) {
      if |b| == 1 {
        OneWord(b[0]);
        assert b == [b[0]];
        ScalarRemainder(r, Signed(b));
        return Num(Inline(r.v + ToInt64(b[0])));
      }
      ViewValue(r);
      var sum := AddFallback(View(r), b);
      return Num(sum);
    }
    return Num(r);
  }

  /** A remainder by an int64 is inline, and stays in range when the divisor is added to it. */
  lemma {:induction false} ScalarRemainder(r: BigInt, b: int)
    requires Canonical(r) && InInt64(b) && Abs(Value(r)) < Abs(b) && (Value(r) < 0) != (b < 0)
    ensures r.Inline? && InInt64(r.v + b)
  {
    ViewValue(r);
  }
}
