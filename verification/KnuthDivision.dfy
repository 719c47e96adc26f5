/**
  Multiword division: both magnitudes are normalized, divided by Algorithm D and given
  back their signs.
*/
module KnuthDivision {
  import opened Radix
  import opened Words
  import opened Bits
  import opened Additive
  import opened Magnitude
  import opened Quotients
  import opened ScalarDivision
  import opened DigitSteps
  import opened LongDivision
  import opened Normalization

  // ---------- the whole division ----------

  lemma {:induction false} ZeroGuard(d: seq<word>)
    requires d != [] && d[|d| - 1] == 0
    ensures Val(W, d) < Half(|d|)
  {
    TopWord(d);
    var p := Pow(W, |d| - 1);
    assert HALF * p >= p;
  }

  /** A canonical multiword divisor has at least two digits. */
  lemma {:induction false} TwoDigitsAtLeast(b: seq<word>, first: nat, n: nat)
    requires |b| > 1 && CanonicalWords(b) && CountsDigits(b, first, n)
    ensures n >= 2
  {
    CanonicalOutside(b);
    HalfMono(1, |b| - 1);
    CountBounds(b, first, n);
    assert Pow(R, 0) == 1 && Pow(R, 1) == R * Pow(R, 0);
  }

  /** A digit sequence split at its top digit. */
  lemma {:induction false} TopDigit(s: seq<digit>)
    requires s != []
    ensures var n := |s| - 1;
            Val(R, s) == Val(R, s[..n]) + s[n] * Pow(R, n) && Val(R, s[..n]) < Pow(R, n)
  {
    var n := |s| - 1;
    assert s[..n + 1] == s;
    ValStep(R, s, n);
    DigitDigits(s[..n]);
    ValBound(R, s[..n]);
  }

  /** After normalization the divisor has no carry and a large top digit. */
  lemma {:induction false} NormalizedDivisor(out: seq<digit>, t: seq<digit>, shift: nat, carry: nat)
    requires |out| == |t| > 0 && shift < 32 && Shifting(out, t, shift, carry, |t|)
    requires R / 2 <= t[|t| - 1] * Pow(2, shift) < R
    ensures carry == 0 && Val(R, out) == Val(R, t) * Pow(2, shift) && out[|t| - 1] >= R / 2
  {
    var n := |t| - 1;
    assert out[..n + 1] == out && t[..n + 1] == t;
    TopDigit(t);
    TopDigit(out);
    TopFits(t[n], Pow(2, shift), shift);
    NormalizedArith(Val(R, out[..n]), out[n], Val(R, t[..n]), t[n], Pow(2, shift), Pow(R, n), carry);
  }

  lemma {:induction false} TopFits(x: nat, s: nat, shift: nat)
    requires shift < 32 && s == Pow(2, shift) && x * s < R
    ensures (x + 1) * s <= R
  {
    Pow2Words();
    PowAdd(2, shift, 32 - shift);
    var g := Pow(2, 32 - shift);
    assert s * g == R;
    MulDist(s, x, 1);
    if x >= g {
      MulMono(s, g, x);
    } else {
      MulMono(s, x + 1, g);
    }
  }

  /** The shifted magnitude lies in the top half of the range of its digits. */
  lemma {:induction false} ShiftedRange(low: int, x: int, s: int, p: int)
    requires 0 <= low < p && s > 0 && x >= 0
    requires R / 2 <= x * s && (x + 1) * s <= R
    ensures (R / 2) * p <= (low + x * p) * s < R * p
  {
    var t := low + x * p;
    assert t * s == low * s + (x * s) * p;
    MulMono(p, R / 2, x * s);
    MulMono(s, t + 1, (x + 1) * p);
    assert ((x + 1) * p) * s == ((x + 1) * s) * p;
    MulMono(p, (x + 1) * s, R);
    MulDist(s, t, 1);
  }

  lemma {:induction false} TopDigitRange(olow: int, y: int, p: int, carry: int, v: int)
    requires (olow + y * p) + carry * (R * p) == v && (R / 2) * p <= v < R * p
    requires 0 <= olow < p && y >= 0 && carry >= 0
    ensures carry == 0 && y >= R / 2
  {
    assert y * p >= 0;
    if carry > 0 {
      MulMono(R * p, 1, carry);
    }
    MulDist(p, y, 1);
    if y + 1 <= R / 2 {
      MulMono(p, y + 1, R / 2);
    }
  }

  lemma {:induction false} NormalizedArith(olow: int, y: int, low: int, x: int, s: int, p: int, carry: int)
    requires (olow + y * p) + carry * (R * p) == (low + x * p) * s
    requires 0 <= olow < p && 0 <= low < p && 0 <= y < R && s > 0 && carry >= 0 && x >= 0
    requires R / 2 <= x * s && (x + 1) * s <= R
    ensures carry == 0 && y >= R / 2
  {
    ShiftedRange(low, x, s, p);
    TopDigitRange(olow, y, p, carry, (low + x * p) * s);
  }

  /** The dividend's window starts out below the divisor. */
  lemma {:induction false} FirstWindow(u: seq<digit>, v: seq<digit>, m: nat)
    requires |v| >= 1 && m >= |v| && |u| == m + 1 && u[m] < R / 2 <= v[|v| - 1]
    ensures Val(R, u[m - |v| + 1..]) < Val(R, v)
  {
    var n, w := |v|, u[m - |v| + 1..];
    var p := Pow(R, n - 1);
    assert w[..n] == w && v[..n] == v && w[n - 1] == u[m];
    ValStep(R, w, n - 1);
    ValStep(R, v, n - 1);
    DigitDigits(w[..n - 1]);
    ValBound(R, w[..n - 1]);
    MulMono(p, w[n - 1] + 1, v[n - 1]);
    MulDist(p, w[n - 1], 1);
  }

  /** A scaled division read back at the original scale. */
  lemma {:induction false} Unscale(x: nat, d: nat, s: nat, q: nat, r: nat)
    requires s > 0 && d > 0 && x * s == q * (d * s) + r && r < d * s
    ensures x >= q * d && x - q * d < d && r == (x - q * d) * s
  {
    UnshiftRemainder(x, d, s, q, r);
    MulDist(s, x, q * d);
    assert q * (d * s) == (q * d) * s;
  }

  /** Both magnitudes as digits, shifted so that the divisor's top digit is at least half the radix. */
  method NormalizeOperands(a: seq<word>, firstA: nat, m: nat, b: seq<word>, firstB: nat, n: nat)
    returns (shift: nat, u: array<digit>, v: array<digit>)
    requires a != [] && b != [] && CountsDigits(a, firstA, m) && CountsDigits(b, firstB, n) && m >= n >= 2
    ensures fresh(u) && fresh(v) && u != v && u.Length == m + 1 && v.Length == n && shift < 32
    ensures Val(R, u[..]) == Abs(Signed(a)) * Pow(2, shift)
    ensures Val(R, v[..]) == Abs(Signed(b)) * Pow(2, shift)
    ensures v[n - 1] >= R / 2 && Val(R, u[..][m - n + 1..]) < Val(R, v[..])
  {
    shift := TopShift(AbsDigit(b, firstB, n - 1));
    u := ScaleDividend(a, firstA, m, shift);
    v := ScaleDivisor(b, firstB, n, shift);
    FirstWindow(u[..], v[..], m);
  }

  /** The dividend's scaled digits with one more for the carry. */
  method ScaleDividend(a: seq<word>, firstA: nat, m: nat, shift: nat) returns (u: array<digit>)
    requires a != [] && CountsDigits(a, firstA, m) && shift < 32
    ensures fresh(u) && u.Length == m + 1 && u[m] < R / 2
    ensures Val(R, u[..]) == Abs(Signed(a)) * Pow(2, shift)
  {
    u := new digit[m + 1](_ => 0);
    var carry := NormalizeDigits(a, firstA, m, shift, u);
    DividendTop(u[..], AbsDigits(a, firstA, m), shift, carry);
    u[m] := carry;
  }

  /** The divisor's scaled digits; its top digit was chosen so that nothing is carried out. */
  method ScaleDivisor(b: seq<word>, firstB: nat, n: nat, shift: nat) returns (v: array<digit>)
    requires b != [] && CountsDigits(b, firstB, n) && n > 0 && shift < 32
    requires R / 2 <= AbsDigit(b, firstB, n - 1) * Pow(2, shift) < R
    ensures fresh(v) && v.Length == n && v[n - 1] >= R / 2
    ensures Val(R, v[..]) == Abs(Signed(b)) * Pow(2, shift)
  {
    v := new digit[n](_ => 0);
    var dropped := NormalizeDigits(b, firstB, n, shift, v);
    NormalizedDivisor(v[..], AbsDigits(b, firstB, n), shift, dropped);
  }

  /** Algorithm D on the magnitudes of a and b, of m and n digits. */
  method DivideMagnitudes(a: seq<word>, firstA: nat, m: nat, b: seq<word>, firstB: nat, n: nat)
    returns (q: array<word>, r: array<word>)
    requires a != [] && b != [] && CountsDigits(a, firstA, m) && CountsDigits(b, firstB, n) && m >= n >= 2
    ensures fresh(q) && fresh(r) && q != r && q.Length > 0 && r.Length > 0
    ensures Val(W, q[..]) < Half(q.Length) && Val(W, r[..]) < Half(r.Length)
    ensures Abs(Signed(a)) == Val(W, q[..]) * Abs(Signed(b)) + Val(W, r[..])
    ensures Val(W, r[..]) < Abs(Signed(b))
  {
    var shift, u, v := NormalizeOperands(a, firstA, m, b, firstB, n);
    q := new word[(m - n) / 2 + 2](_ => 0);
    LongDivide(u, v, q, m, n);
    ghost var x, d := Abs(Signed(a)), Abs(Signed(b));
    CountBounds(b, firstB, n);
    Unscale(x, d, Pow(2, shift), Val(W, q[..]), Val(R, u[..][..n]));
    r := ExtractRemainder(u, n, shift, x - Val(W, q[..]) * d);
    ZeroGuard(q[..]);
    ZeroGuard(r[..]);
  }

  lemma {:induction false} DividendTop(u: seq<digit>, t: seq<digit>, shift: nat, carry: nat)
    requires |u| == |t| + 1 && shift < 32 && Shifting(u, t, shift, carry, |t|)
    ensures carry < R / 2
    ensures Val(R, u[|t| := carry]) == Val(R, t) * Pow(2, shift)
  {
    var m := |t|;
    Pow2Words();
    PowMono(2, shift, 31);
    PowAdd(2, 1, 31);
    var u' := u[m := carry];
    assert u'[..m] == u[..m] && u'[..m + 1] == u' && t[..m] == t;
    ValStep(R, u', m);
  }

  /** The pair that satisfies the truncating division equation, for any dividend and canonical divisor. */
  method DivRemFallback(a: seq<word>, b: seq<word>) returns (result: DivResult)
    requires a != [] && CanonicalWords(b)
    ensures result.ZeroDivision? <==> Signed(b) == 0
    ensures result.Ok? ==> Canonical(result.q) && Canonical(result.r) &&
                           TruncDivRem(Signed(a), Signed(b), Value(result.q), Value(result.r))
  {
    if |b| == 1 {
      OneWord(b[0]);
      assert b == [b[0]];
      result := ScalarDivision.DivRemFallback(a, ToInt64(b[0]));
      return;
    }
    var firstA := FirstNonzero(a);
    var firstB := FirstNonzero(b);
    var m := DigitCount(a, firstA);
    var n := DigitCount(b, firstB);
    TwoDigitsAtLeast(b, firstB, n);
    CountBounds(a, firstA, m);
    CountBounds(b, firstB, n);
    if m < n {
      PowMono(R, m, n - 1);
      SmallDividend(Signed(a), Signed(b));
      var copy := new word[|a|](i requires 0 <= i < |a| => a[i]);
      assert copy[..] == a;
      var remainder := Normalize(copy);
      return Ok(Inline(0), remainder);
    }
    var q, r := DivideMagnitudes(a, firstA, m, b, firstB, n);
    result := SignResults(a, b, q, r);
  }

  /** Magnitudes q and r of a truncating division become its signed results. */
  method SignResults(a: seq<word>, b: seq<word>, q: array<word>, r: array<word>) returns (result: DivResult)
    requires a != [] && b != [] && q != r && q.Length > 0 && r.Length > 0
    requires Val(W, q[..]) < Half(q.Length) && Val(W, r[..]) < Half(r.Length)
    requires Abs(Signed(a)) == Val(W, q[..]) * Abs(Signed(b)) + Val(W, r[..]) && Val(W, r[..]) < Abs(Signed(b))
    modifies q, r
    ensures result.Ok? && Canonical(result.q) && Canonical(result.r)
    ensures TruncDivRem(Signed(a), Signed(b), Value(result.q), Value(result.r))
  {
    SignedRange(a);
    SignedRange(b);
    SignsOfTruncation(Signed(a), Signed(b), Val(W, q[..]), Val(W, r[..]));
    ApplySign(q, IsNegative(a) != IsNegative(b));
    ApplySign(r, IsNegative(a));
    var quotient := Normalize(q);
    var remainder := Normalize(r);
    return Ok(quotient, remainder);
  }

  lemma {:induction false} SmallDividend(a: int, b: int)
    requires Abs(a) < Abs(b)
    ensures TruncDivRem(a, b, 0, a) && b != 0
  {
  }
}
