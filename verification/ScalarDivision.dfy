/**
  Division of a word array by one int64: schoolbook halves for divisors below 2^32, and
  otherwise a normalized division of 128 by 64 bits in two digits of radix 2^32.
*/
module ScalarDivision {
  import opened Radix
  import opened Words
  import opened Bits
  import opened Additive
  import opened Magnitude
  import opened Multiply
  import opened Shifts
  import opened Quotients

  // ---------- divisor below 2^32 ----------

  lemma {:induction false} QuotientHalf(n: nat, d: nat)
    requires 0 < d && n < d * R
    ensures n / d < R && n % d < d && n == d * (n / d) + n % d
  {
    DivModBasics(n, d);
    DivBelow(n, d, R);
  }

  lemma {:induction false} TwoHalves(rem: int, hi: int, lo: int, d: int, qh: int, r1: int, ql: int, r2: int)
    requires rem * R + hi == d * qh + r1 && r1 * R + lo == d * ql + r2
    ensures rem * W + (R * hi + lo) == (qh * R + ql) * d + r2
  {
    MulDist(d, qh * R, ql);
    assert (qh * R) * d == R * (d * qh);
  }

  /** (h << 32) | l for two half words. */
  method JoinHalves(h: nat, l: nat) returns (w: word)
    requires h < R && l < R
    ensures w == h * R + l
  {
    OrHalves(h, l);
    w := Bitwise(Or, Wrap(h * R), l);
  }

  /** Half a step: (rem, half) divided, with the digit and remainder back in range. */
  method SmallHalf(rem: nat, half: nat, divisor: word) returns (q: nat, r: nat)
    requires 0 < divisor < R && rem < divisor && half < R
    ensures rem * R + half == divisor * q + r && q < R && r < divisor
  {
    var n := JoinHalves(rem, half);
    q, r := NatDivMod(n, divisor);
    QuotientHalf(n, divisor);
  }

  method NatDivMod(n: nat, d: nat) returns (q: nat, r: nat)
    requires d > 0
    ensures q == n / d && r == n % d && n == d * q + r && r < d
  {
    DivModBasics(n, d);
    q, r := n / d, n % d;
  }

  /** Brings down one word in two halves. */
  method SmallStep(rem: word, x: word, divisor: word) returns (q: word, r: word)
    requires 0 < divisor < R && rem < divisor
    ensures rem * W + x == q * divisor + r && r < divisor
  {
    HiLo(x);
    var qHigh, middle := SmallHalf(rem, Hi(x), divisor);
    var qLow, last := SmallHalf(middle, Lo(x), divisor);
    q := JoinHalves(qHigh, qLow);
    r := last;
    TwoHalves(rem, Hi(x), Lo(x), divisor, qHigh, middle, qLow, last);
  }

  // ---------- normalized 128-by-64 division ----------

  /** The loop's test, in wrapping arithmetic. */
  predicate TooHigh(estimate: nat, residual: nat, dl: nat, next: nat) {
    estimate >= R || Wrap(estimate * dl) > Wrap(Wrap(residual * R) + next)
  }

  lemma {:induction false} TooHighExact(estimate: nat, residual: nat, dl: nat, next: nat)
    requires residual < R && dl < R && next < R
    ensures TooHigh(estimate, residual, dl, next) <==> estimate >= R || estimate * dl > residual * R + next
  {
    SmallWrap(residual * R);
    SmallWrap(residual * R + next);
    if estimate < R {
      HalfProduct(estimate, dl);
      SmallWrap(estimate * dl);
    }
  }

  /** How far the estimate's product is from the numerator. */
  lemma {:induction false} EstimateGap(upper: int, next: int, nd: int, dh: int, dl: int, estimate: int, residual: int)
    requires nd == dh * R + dl && estimate * dh + residual == upper
    ensures upper * R + next - estimate * nd == residual * R + next - estimate * dl
  {
    MulDist(estimate, dh * R, dl);
    assert estimate * (dh * R) == (estimate * dh) * R;
  }

  ghost predicate EstimateInvariant(upper: nat, next: nat, nd: nat, dh: nat, estimate: nat, residual: nat) {
    estimate * dh + residual == upper &&
    // Anything above the estimate is too high for the digit.
    (estimate + 1) * nd > upper * R + next
  }

  /** A divisor with its top bit set, split into halves. */
  ghost predicate Normalized(nd: nat, dh: nat, dl: nat) {
    nd == dh * R + dl && R / 2 <= dh < R && dl < R
  }

  lemma {:induction false} EstimateStart(upper: nat, next: nat, nd: nat, dh: nat, dl: nat, q: nat, r: nat)
    requires Normalized(nd, dh, dl) && upper < nd && next < R
    requires upper == dh * q + r && r < dh
    ensures EstimateInvariant(upper, next, nd, dh, q, r)
  {
    MulDist(dh, q, 1);
    EstimateGap(upper, next, nd, dh, dl, q + 1, r - dh);
    assert (q + 1) * dl >= 0;
  }

  lemma {:induction false} EstimateStep(upper: nat, next: nat, nd: nat, dh: nat, dl: nat, estimate: nat, residual: nat)
    requires Normalized(nd, dh, dl) && upper < nd && next < R && residual < R
    requires EstimateInvariant(upper, next, nd, dh, estimate, residual)
    requires TooHigh(estimate, residual, dl, next)
    ensures estimate > 0 && EstimateInvariant(upper, next, nd, dh, estimate - 1, residual + dh)
  {
    TooHighExact(estimate, residual, dl, next);
    EstimateGap(upper, next, nd, dh, dl, estimate, residual);
    if estimate >= R {
      MulMono(nd, R, estimate);
    }
    assert estimate * nd > upper * R + next;
    MulDist(dh, estimate, 1);
  }

  lemma {:induction false} EstimateFinal(upper: nat, next: nat, nd: nat, dh: nat, dl: nat, estimate: nat, residual: nat)
    requires Normalized(nd, dh, dl) && upper < nd && next < R
    requires EstimateInvariant(upper, next, nd, dh, estimate, residual)
    requires residual < R ==> !TooHigh(estimate, residual, dl, next)
    ensures estimate < R && 0 <= upper * R + next - estimate * nd < nd
  {
    EstimateGap(upper, next, nd, dh, dl, estimate, residual);
    MulDist(nd, estimate, 1);
    if residual < R {
      TooHighExact(estimate, residual, dl, next);
    } else {
      EstimateInRange(upper, nd, dh, dl, estimate, residual);
      HalfProduct(estimate, dl);
    }
  }

  lemma {:induction false} EstimateInRange(upper: nat, nd: nat, dh: nat, dl: nat, estimate: nat, residual: nat)
    requires Normalized(nd, dh, dl) && estimate * dh + residual == upper < nd && residual >= R
    ensures estimate < R
  {
    if estimate >= R {
      MulMono(dh, R, estimate);
    }
  }

  lemma {:induction false} WrapDifference(a: nat, next: nat, e: nat)
    requires 0 <= a + next - e < W
    ensures Wrap(Wrap(Wrap(a) + next) - Wrap(e) as int) == a + next - e
  {
    var x: int, y: int := Wrap(a), Wrap(e);
    var z: int := Wrap(x + next);
    DivModUnique(z - y, W, e / W - a / W - (x + next) / W, a + next - e);
  }

  /**
    One radix-2^32 quotient digit of (upper, next) by a divisor with its top bit set.
    The estimate from the high half is only ever too high, and the loop stops exactly at the digit.
  */
  method Digit(upper: word, next: nat, nd: word, dh: nat, dl: nat) returns (digit: nat, rem: word)
    requires Normalized(nd, dh, dl) && upper < nd && next < R
    ensures digit < R && rem < nd && upper * R + next == digit * nd + rem
  {
    var estimate: nat, residual: nat := NatDivMod(upper, dh);
    EstimateStart(upper, next, nd, dh, dl, estimate, residual);
    while TooHigh(estimate, residual, dl, next)
      invariant residual < R && EstimateInvariant(upper, next, nd, dh, estimate, residual)
      decreases estimate
    {
      EstimateStep(upper, next, nd, dh, dl, estimate, residual);
      estimate := estimate - 1;
      residual := residual + dh;
      if residual >= R {
        break;
      }
    }
    EstimateFinal(upper, next, nd, dh, dl, estimate, residual);
    digit := estimate;
    rem := WrappedRemainder(upper, next, estimate, nd);
  }

  /** The wrapped subtraction is exact because the true remainder is below the divisor. */
  method WrappedRemainder(upper: nat, next: nat, estimate: nat, nd: nat) returns (rem: word)
    requires 0 <= upper * R + next - estimate * nd < W
    ensures rem == upper * R + next - estimate * nd
  {
    WrapDifference(upper * R, next, estimate * nd);
    rem := Wrap(Wrap(Wrap(upper * R) + next) - Wrap(estimate * nd) as int);
  }

  // ---------- shifting the 128-bit numerator ----------

  /** (rem, x) << shift split back into two words, for shift zero too. */
  method NormalizeNumerator(rem: word, x: word, divisor: word, shift: nat) returns (high: word, low: word)
    requires shift < 64 && rem < divisor && divisor * Pow(2, shift) < W
    ensures high * W + low == (rem * W + x) * Pow(2, shift)
    ensures high < divisor * Pow(2, shift)
  {
    if shift == 0 {
      SmallWrap(x);
      return rem, Shl(x, 0);
    }
    ghost var s, t := Pow(2, shift), Pow(2, 64 - shift);
    PowInverse(shift);
    NumeratorHigh(rem, x, divisor, shift);
    ShiftedWord(x, s, t);
    high := Bitwise(Or, Shl(rem, shift), Shr(x, 64 - shift));
    low := Shl(x, shift);
    NumeratorArith(rem, x, s, high, x / t, low);
  }

  lemma {:induction false} NumeratorArith(rem: int, x: int, s: int, high: int, carried: int, low: int)
    requires high == rem * s + carried && x * s == W * carried + low
    ensures high * W + low == (rem * W + x) * s
  {
    MulDist(s, rem * W, x);
    assert (rem * W) * s == (rem * s) * W;
  }

  lemma {:induction false} NumeratorHigh(rem: word, x: word, divisor: word, shift: nat)
    requires 0 < shift < 64 && rem < divisor && divisor * Pow(2, shift) < W
    ensures Bitwise(Or, Shl(rem, shift), Shr(x, 64 - shift)) == rem * Pow(2, shift) + x / Pow(2, 64 - shift)
    ensures rem * Pow(2, shift) + x / Pow(2, 64 - shift) < divisor * Pow(2, shift)
  {
    var s, t := Pow(2, shift), Pow(2, 64 - shift);
    PowInverse(shift);
    var carried := x / t;
    DivModBasics(x, t);
    DivBelow(x, t, s);
    BelowDivisor(rem, divisor, s, carried);
    SmallWrap(rem * s);
    OrDisjoint(rem, carried, shift);
  }

  lemma {:induction false} BelowDivisor(rem: nat, divisor: nat, s: nat, carried: nat)
    requires rem < divisor && carried < s && divisor * s < W
    ensures rem * s + carried < divisor * s && rem * s < W
  {
    MulMono(s, rem + 1, divisor);
    MulDist(s, rem, 1);
  }

  lemma {:induction false} TwoDigits(high: int, lh: int, ll: int, nd: int, q1: int, r1: int, q0: int, r0: int)
    requires high * R + lh == q1 * nd + r1 && r1 * R + ll == q0 * nd + r0
    ensures high * W + (lh * R + ll) == (q1 * R + q0) * nd + r0
  {
    MulDist(nd, q1 * R, q0);
    assert (q1 * R) * nd == R * (q1 * nd);
  }

  /** The shifted remainder is a multiple of the shift, so shifting back is exact. */
  lemma {:induction false} UnshiftRemainder(n: nat, d: nat, s: nat, q: nat, r: nat)
    requires s > 0 && n * s == q * (d * s) + r && r < d * s
    ensures n == q * d + r / s && r / s < d
  {
    assert q * (d * s) == (q * d) * s;
    MulDist(s, n, q * d);
    var k := n - q * d;
    assert r == k * s;
    if k < 0 {
      MulMono(s, k, -1);
    }
    if k >= d {
      MulMono(s, d, k);
    }
    assert r == s * k + 0;
    DivModUnique(r, s, k, 0);
  }

  method LargeStep(rem: word, x: word, divisor: word, shift: nat, nd: word, dh: nat, dl: nat) returns (q: word, r: word)
    requires shift < 64 && nd == divisor * Pow(2, shift) && Normalized(nd, dh, dl) && rem < divisor
    ensures rem * W + x == q * divisor + r && r < divisor
  {
    var high, low := NormalizeNumerator(rem, x, divisor, shift);
    HiLo(low);
    var q1, r1 := Digit(high, Hi(low), nd, dh, dl);
    var q0, r0 := Digit(r1, Lo(low), nd, dh, dl);
    q := JoinHalves(q1, q0);
    TwoDigits(high, Hi(low), Lo(low), nd, q1, r1, q0, r0);
    UnshiftRemainder(rem * W + x, divisor, Pow(2, shift), q, r0);
    r := Shr(r0, shift);
  }

  /** Moves the divisor's top bit to bit 63. */
  method NormalizeDivisor(divisor: word) returns (shift: nat, nd: word)
    requires 0 < divisor
    ensures shift < 64 && nd == divisor * Pow(2, shift) && HALF <= nd
  {
    shift, nd := 0, divisor;
    Pow2Words();
    while nd / HALF == 0
      invariant shift < 64 && nd == divisor * Pow(2, shift)
      decreases W - nd
    {
      assert nd < HALF;
      if shift >= 63 {
        PowMono(2, 63, shift);
        MulMono(Pow(2, shift), 1, divisor);
      }
      assert Pow(2, shift + 1) == 2 * Pow(2, shift);
      assert divisor * (2 * Pow(2, shift)) == 2 * (divisor * Pow(2, shift));
      nd := Wrap(nd * 2);
      shift := shift + 1;
    }
  }

  // ---------- the whole dividend ----------

  /** The unsigned magnitude of an int64, including its minimum. */
  function Magnitude64(b: int64): (d: word)
    ensures d == Abs(b) <= HALF
  {
    if b < 0 then
      WrapMultiple(0 - b, -1);
      Wrap(0 - ToWord(b) as int)
    else ToWord(b)
  }

  lemma {:induction false} LongDivisionStep(top: int, d: int, q: int, qw: int, rem: int, x: int, r: int)
    requires top == q * d + rem && rem * W + x == qw * d + r
    ensures x + W * top == (qw + W * q) * d + r
  {
    MulDist(d, qw, W * q);
    assert (W * q) * d == W * (q * d);
  }

  /** The words of the dividend from i on are divided. */
  ghost predicate DividedFrom(m: seq<word>, q: seq<word>, i: nat, divisor: nat, rem: nat)
    requires i <= |m| && i <= |q|
  {
    rem < divisor && Val(W, m[i..]) == Val(W, q[i..]) * divisor + rem
  }

  lemma {:induction false} DividedStep(m: seq<word>, q: seq<word>, i: nat, divisor: nat, rem: nat, w: word, r: nat)
    requires i < |m| && i < |q| && DividedFrom(m, q, i + 1, divisor, rem)
    requires rem * W + m[i] == w * divisor + r && r < divisor
    ensures DividedFrom(m, q[i := w], i, divisor, r)
  {
    var q' := q[i := w];
    assert m[i..][1..] == m[i + 1..] && q'[i..][1..] == q[i + 1..];
    LongDivisionStep(Val(W, m[i + 1..]), divisor, Val(W, q[i + 1..]), w, rem, m[i], r);
  }

  method DivideWord(rem: word, x: word, divisor: word, shift: nat, nd: word) returns (w: word, r: word)
    requires 0 < divisor && rem < divisor
    requires divisor >= R ==> shift < 64 && nd == divisor * Pow(2, shift) && HALF <= nd
    ensures rem * W + x == w * divisor + r && r < divisor
  {
    if divisor <= R - 1 {
      w, r := SmallStep(rem, x, divisor);
    } else {
      HiLo(nd);
      w, r := LargeStep(rem, x, divisor, shift, nd, Hi(nd), Lo(nd));
    }
  }

  /** One word of the dividend: its quotient word is stored and the remainder carried down. */
  method DivideOne(q: array<word>, i: nat, x: word, rem: word, divisor: word, shift: nat, nd: word, ghost m: seq<word>)
    returns (r: word)
    requires i < |m| && i < q.Length && m[i] == x && 0 < divisor && DividedFrom(m, q[..], i + 1, divisor, rem)
    requires divisor >= R ==> shift < 64 && nd == divisor * Pow(2, shift) && HALF <= nd
    modifies q
    ensures DividedFrom(m, q[..], i, divisor, r)
    ensures forall k :: i < k < q.Length ==> q[k] == old(q[k])
  {
    ghost var before := q[..];
    var w;
    w, r := DivideWord(rem, x, divisor, shift, nd);
    q[i] := w;
    DividedStep(m, before, i, divisor, rem, w, r);
  }

  /** Divides the magnitude of `a` word by word from the top; `q` gets one more word, the sign guard. */
  method DivideMagnitude(a: seq<word>, first: nat, divisor: word) returns (q: array<word>, rem: word)
    requires a != [] && IsFirstNonzero(a, first) && 0 < divisor <= HALF
    ensures fresh(q) && q.Length == |a| + 1 && q[|a|] == 0
    ensures Abs(Signed(a)) == Val(W, q[..]) * divisor + rem && rem < divisor
  {
    ghost var m := AbsWords(a, first, |a|);
    q := new word[|a| + 1](_ => 0);
    var shift: nat, nd := 0, divisor;
    if divisor > R - 1 {
      shift, nd := NormalizeDivisor(divisor);
    }
    rem := 0;
    ValZeros(W, q[..][|a|..]);
    assert m[|a|..] == [];
    for i := |a| downto 0
      invariant q[|a|] == 0 && DividedFrom(m, q[..], i, divisor, rem)
    {
      rem := DivideOne(q, i, AbsWord(a, first, i), rem, divisor, shift, nd, m);
    }
    assert m[0..] == m && q[..][0..] == q[..];
    AbsValue(a, first, |a|);
  }

  /** Quotient and remainder of truncating division by an int64. */
  method DivRemFallback(a: seq<word>, b: int64) returns (result: DivResult)
    requires a != []
    ensures result.ZeroDivision? <==> b == 0
    ensures result.Ok? ==> Canonical(result.q) && Canonical(result.r) &&
                           TruncDivRem(Signed(a), b, Value(result.q), Value(result.r))
  {
    if b == 0 {
      return ZeroDivision;
    }
    var first := FirstNonzero(a);
    var divisor := Magnitude64(b);
    var data, rem := DivideMagnitude(a, first, divisor);
    SignedRange(a);
    ghost var q := Val(W, data[..]);
    GuardedQuotient(a, data[..], divisor, rem);
    ApplySign(data, IsNegative(a) != (b < 0));
    var quotient := Normalize(data);
    SignsOfTruncation(Signed(a), b, q, rem);
    var remainder: int := rem;
    if IsNegative(a) {
      remainder := -remainder;
    }
    return Ok(quotient, Inline(remainder));
  }

  /** The guard word keeps the quotient's magnitude inside the signed range. */
  lemma {:induction false} GuardedQuotient(a: seq<word>, d: seq<word>, divisor: nat, rem: nat)
    requires a != [] && |d| == |a| + 1 && d[|a|] == 0 && divisor > 0
    requires Abs(Signed(a)) == Val(W, d) * divisor + rem
    ensures Val(W, d) < Half(|d|)
  {
    AbsBound(a);
    MulMono(Val(W, d), 1, divisor);
  }
}
