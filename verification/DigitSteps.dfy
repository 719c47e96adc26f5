/**
  One quotient digit of Knuth's Algorithm D: estimate and refine it from the leading digits,
  subtract estimate * divisor from the window in place, add the divisor back if that was once too often.
*/
module DigitSteps {
  import opened Radix
  import opened Words
  import opened Additive
  import opened Multiply
  import opened ScalarDivision

  type digit = x: nat | x < 0x1_0000_0000

  lemma {:induction false} DigitDigits(s: seq<digit>)
    ensures Digits(R, s)
  {
  }

  // ---------- step 1 and 2: the quotient digit estimate ----------

  /**
    What refinement reaches: the estimate times the two leading divisor digits fits under the
    three leading window digits, and one more would not.
  */
  ghost predicate Refined(estimate: nat, u3: nat, v2: nat) {
    estimate < R && estimate * v2 <= u3 && (estimate == R - 1 || (estimate + 1) * v2 > u3)
  }

  lemma {:induction false} RefineGap(u0: int, u1: int, u2: int, v0: int, v1: int, estimate: int, residual: int)
    requires estimate * v0 + residual == u0 * R + u1
    ensures (u0 * R + u1) * R + u2 - estimate * (v0 * R + v1) == residual * R + u2 - estimate * v1
  {
    MulDist(estimate, v0 * R, v1);
    assert estimate * (v0 * R) == (estimate * v0) * R;
  }

  /** First guess from one divisor digit; equality of the leading digits is clamped. */
  method Guess(u0: digit, u1: digit, v0: digit) returns (estimate: nat, residual: nat)
    requires u0 <= v0 && R / 2 <= v0
    ensures estimate < R && estimate * v0 + residual == u0 * R + u1
    ensures estimate == R - 1 || residual < v0
    ensures residual < 2 * R
  {
    if u0 == v0 {
      estimate := R - 1;
      residual := u1 + v0;
    } else {
      var numerator := JoinHalves(u0, u1);
      QuotientBelow(u0, u1, v0);
      estimate, residual := NatDivMod(numerator, v0);
    }
  }

  lemma {:induction false} QuotientBelow(u0: nat, u1: nat, v0: nat)
    requires u0 < v0 && u1 < R
    ensures (u0 * R + u1) / v0 < R
  {
    DivBelow(u0 * R + u1, v0, R);
  }

  /** Estimates one quotient digit; `steps` counts the refinements, at most two. */
  method Estimate(u0: digit, u1: digit, u2: digit, v0: digit, v1: digit) returns (estimate: nat, ghost steps: nat)
    requires u0 <= v0 && R / 2 <= v0
    ensures Refined(estimate, (u0 * R + u1) * R + u2, v0 * R + v1)
    ensures steps <= 2
  {
    var residual: nat;
    estimate, residual := Guess(u0, u1, v0);
    steps := 0;
    ghost var u3, v2 := (u0 * R + u1) * R + u2, v0 * R + v1;
    GuessAbove(u0, u1, u2, v0, v1, estimate, residual);
    HalfProduct(estimate, v1);
    while residual < R && estimate * v1 > residual * R + u2
      invariant estimate < R && estimate * v0 + residual == u0 * R + u1
      invariant estimate == R - 1 || (estimate + 1) * v2 > u3
      invariant residual >= steps * v0 && steps <= 2
      invariant residual < 2 * R && estimate * v1 < W
      decreases estimate
    {
      assert residual * R + u2 < W;
      RefineGap(u0, u1, u2, v0, v1, estimate, residual);
      MulDist(v0, estimate, 1);
      MulDist(v0, steps, 1);
      HalfProduct(estimate - 1, v1);
      estimate := estimate - 1;
      residual := residual + v0;
      steps := steps + 1;
    }
    RefineGap(u0, u1, u2, v0, v1, estimate, residual);
    HalfProduct(estimate, v1);
  }

  lemma {:induction false} GuessAbove(u0: nat, u1: nat, u2: nat, v0: nat, v1: nat, estimate: nat, residual: nat)
    requires estimate * v0 + residual == u0 * R + u1 && u2 < R
    requires estimate == R - 1 || residual < v0
    ensures estimate == R - 1 || (estimate + 1) * (v0 * R + v1) > (u0 * R + u1) * R + u2
  {
    if estimate != R - 1 {
      MulDist(v0, estimate, 1);
      RefineGap(u0, u1, u2, v0, v1, estimate + 1, residual - v0);
      MulMono(R, residual - v0, -1);
      assert (estimate + 1) * v1 >= 0;
    }
  }

  /** A refined estimate is the true digit or one too high: it overshoots by less than one divisor. */
  lemma {:induction false} EstimateLow(estimate: nat, u3: nat, v2: nat, e: nat, ulow: nat, vlow: nat, u: nat, v: nat)
    requires estimate < R && estimate * v2 <= u3 && e > 0 && v2 >= R
    requires u == u3 * e + ulow && v == v2 * e + vlow && vlow < e
    ensures estimate * v - v < u
  {
    MulDist(estimate, v2 * e, vlow);
    assert estimate * (v2 * e) == (estimate * v2) * e;
    MulMono(e, estimate * v2, u3);
    MulMono(estimate, vlow, e);
    MulMono(e, estimate, R - 1);
    MulMono(e, R, v2);
  }

  lemma {:induction false} EstimateHigh(estimate: nat, u3: nat, v2: nat, e: nat, ulow: nat, vlow: nat, u: nat, v: nat)
    requires (estimate + 1) * v2 > u3 && u == u3 * e + ulow && ulow < e && v == v2 * e + vlow
    ensures u < estimate * v + v
  {
    MulDist(v, estimate, 1);
    NextMultiple(estimate + 1, u3, v2, e, v);
    MulDist(e, u3, 1);
  }

  lemma {:induction false} NextMultiple(a: nat, u3: nat, v2: nat, e: nat, v: nat)
    requires a * v2 > u3 && v >= v2 * e
    ensures a * v >= (u3 + 1) * e
  {
    MulMono(e, u3 + 1, a * v2);
    MulAssoc(a, v2, e);
    MulMono(a, v2 * e, v);
  }

  /** The window minus estimate * divisor lies strictly between minus the divisor and the divisor. */
  lemma {:induction false} EstimateBounds(estimate: nat, u3: nat, v2: nat, e: nat, ulow: nat, vlow: nat, u: nat, v: nat)
    requires Refined(estimate, u3, v2) && e > 0 && v2 >= R
    requires u == u3 * e + ulow && ulow < e
    requires v == v2 * e + vlow && vlow < e
    requires u < v * R
    ensures estimate * v - v < u < estimate * v + v
  {
    EstimateLow(estimate, u3, v2, e, ulow, vlow, u, v);
    if estimate == R - 1 {
      assert estimate * v + v == v * R;
    } else {
      EstimateHigh(estimate, u3, v2, e, ulow, vlow, u, v);
    }
  }

  // ---------- step 3: subtracting estimate * divisor from the window ----------

  /** Window digits [j, j + i) after i columns of a pass that leaves everything else alone. */
  ghost predicate OnlyWindow(d: seq<digit>, s: seq<digit>, j: nat, i: nat)
    requires |d| == |s| && j + i <= |d|
  {
    d[..j] == s[..j] && d[j + i..] == s[j + i..]
  }

  lemma {:induction false} WindowStep(d: seq<digit>, s: seq<digit>, j: nat, i: nat, x: digit)
    requires |d| == |s| && j + i < |d| && OnlyWindow(d, s, j, i)
    ensures d[j + i] == s[j + i]
    ensures OnlyWindow(d[j + i := x], s, j, i + 1)
    ensures Val(R, d[j + i := x][j..j + i + 1]) == Val(R, d[j..j + i]) + x * Pow(R, i)
    ensures Val(R, s[j..j + i + 1]) == Val(R, s[j..j + i]) + s[j + i] * Pow(R, i)
  {
    var k := j + i;
    var d' := d[k := x];
    assert d[k] == d[k..][0] == s[k..][0];
    assert d'[..j] == d[..j] && d'[k + 1..] == d[k..][1..] == s[k..][1..];
    assert d'[j..k + 1] == d[j..k] + [x] && s[j..k + 1] == s[j..k] + [s[k]];
    ValSnoc(R, d[j..k], x);
    ValSnoc(R, s[j..k], s[k]);
  }

  ghost predicate Subtracted(d: seq<digit>, s: seq<digit>, v: seq<digit>, j: nat, estimate: nat, borrow: nat, i: nat)
    requires |d| == |s| && i <= |v| && j + i <= |d|
  {
    borrow < R && OnlyWindow(d, s, j, i) &&
    Val(R, d[j..j + i]) + estimate * Val(R, v[..i]) == Val(R, s[j..j + i]) + borrow * Pow(R, i)
  }

  lemma {:induction false} SubtractColumn(estimate: nat, y: nat, borrow: nat, before: nat)
    requires estimate < R && y < R && borrow < R && before < R
    ensures var product := estimate * y + borrow;
            var low := product % R;
            var borrow' := product / R + (if before < low then 1 else 0);
            0 <= product < W && borrow' < R &&
            (before as int - low) % R + product == before + R * borrow'
  {
    HalfProduct(estimate, y);
    var product := estimate * y + borrow;
    assert product <= (R - 1) * R;
    var low, high := product % R, product / R;
    if before < low {
      DivModUnique(before - low, R, -1, before - low + R);
    } else {
      DivModUnique(before - low, R, 0, before - low);
    }
  }

  lemma {:induction false} SubtractArith(dv: int, sv: int, vv: int, p: int, q: int, y: int, o: int, borrow: int,
      d: int, c: int)
    requires dv + q * vv == sv + borrow * p
    requires d + (q * y + borrow) == o + R * c
    ensures (dv + d * p) + q * (vv + y * p) == (sv + o * p) + c * (R * p)
  {
    MulDist(q, vv, y * p);
    assert q * (y * p) == (q * y) * p;
    assert (d + (q * y + borrow)) * p == d * p + (q * y) * p + borrow * p;
    assert (o + R * c) * p == o * p + c * (R * p);
  }

  lemma {:induction false} SubtractedStep(d: seq<digit>, s: seq<digit>, v: seq<digit>, j: nat, estimate: nat,
      borrow: nat, i: nat, x: digit, c: nat)
    requires |d| == |s| && i < |v| && j + i < |d| && Subtracted(d, s, v, j, estimate, borrow, i)
    requires x + (estimate * v[i] + borrow) == d[j + i] + R * c && c < R
    ensures Subtracted(d[j + i := x], s, v, j, estimate, c, i + 1)
  {
    WindowStep(d, s, j, i, x);
    ValStep(R, v, i);
    SubtractArith(Val(R, d[j..j + i]), Val(R, s[j..j + i]), Val(R, v[..i]), Pow(R, i), estimate, v[i], s[j + i],
                  borrow, x, c);
  }

  /** One column: the product's low digit leaves the window and the rest becomes the borrow. */
  method SubtractDigit(u: array<digit>, v: array<digit>, j: nat, i: nat, estimate: nat, borrow: nat,
      ghost s: seq<digit>)
    returns (next: nat)
    requires u != v && i < v.Length && j + v.Length < u.Length == |s| && estimate < R
    requires Subtracted(u[..], s, v[..], j, estimate, borrow, i)
    modifies u
    ensures Subtracted(u[..], s, v[..], j, estimate, next, i + 1)
  {
    ghost var d := u[..];
    SubtractColumn(estimate, v[i], borrow, u[j + i]);
    var product: nat := estimate * v[i] + borrow;
    var low: nat := product % R;
    var before: nat := u[j + i];
    u[j + i] := (before as int - low) % R;
    next := product / R + if before < low then 1 else 0;
    SubtractedStep(d, s, v[..], j, estimate, borrow, i, u[j + i], next);
  }

  /** Subtracts estimate * v from the n + 1 window digits at j, modulo the window, and says whether it wrapped. */
  method SubtractProduct(u: array<digit>, v: array<digit>, j: nat, estimate: nat) returns (negative: bool)
    requires u != v && j + v.Length < u.Length && estimate < R
    modifies u
    ensures OnlyWindow(u[..], old(u[..]), j, v.Length + 1)
    ensures Val(R, u[..][j..j + v.Length + 1])
            == Val(R, old(u[..])[j..j + v.Length + 1]) - estimate * Val(R, v[..])
               + (if negative then Pow(R, v.Length + 1) else 0)
  {
    ghost var s, vs := u[..], v[..];
    var n := v.Length;
    var borrow: nat := 0;
    assert s[j..j] == [] && vs[..0] == [];
    for i := 0 to n
      invariant v[..] == vs && Subtracted(u[..], s, vs, j, estimate, borrow, i)
    {
      borrow := SubtractDigit(u, v, j, i, estimate, borrow, s);
    }
    ghost var d := u[..];
    var top: nat := u[j + n];
    negative := top < borrow;
    u[j + n] := (top as int - borrow) % R;
    SubtractedEnd(d, s, vs, j, estimate, borrow, u[j + n]);
  }

  lemma {:induction false} SubtractedEnd(d: seq<digit>, s: seq<digit>, v: seq<digit>, j: nat, estimate: nat,
      borrow: nat, x: digit)
    requires |d| == |s| && j + |v| < |d| && Subtracted(d, s, v, j, estimate, borrow, |v|)
    requires x == (d[j + |v|] as int - borrow) % R
    ensures var d' := d[j + |v| := x];
            OnlyWindow(d', s, j, |v| + 1) &&
            Val(R, d'[j..j + |v| + 1]) == Val(R, s[j..j + |v| + 1]) - estimate * Val(R, v)
                                         + if d[j + |v|] < borrow then Pow(R, |v| + 1) else 0
  {
    var n := |v|;
    var top: int := d[j + n];
    WindowStep(d, s, j, n, x);
    assert v[..n] == v;
    var c := if top < borrow then 1 else 0;
    DivModUnique(top - borrow, R, -c, top - borrow + R * c);
    TopArith(Val(R, d[j..j + n]), Val(R, s[j..j + n]), estimate * Val(R, v), Pow(R, n), x, top, borrow, c);
  }

  lemma {:induction false} TopArith(dv: int, sv: int, qv: int, p: int, x: int, top: int, borrow: int, c: int)
    requires dv + qv == sv + borrow * p && x + borrow == top + R * c
    ensures (dv + x * p) == (sv + top * p) - qv + c * (R * p)
  {
    assert (x + borrow) * p == x * p + borrow * p;
    assert (top + R * c) * p == top * p + c * (R * p);
  }

  // ---------- step 4: adding the divisor back ----------

  ghost predicate AddedBack(d: seq<digit>, s: seq<digit>, v: seq<digit>, j: nat, carry: nat, i: nat)
    requires |d| == |s| && i <= |v| && j + i <= |d|
  {
    carry <= 1 && OnlyWindow(d, s, j, i) &&
    Val(R, d[j..j + i]) + carry * Pow(R, i) == Val(R, s[j..j + i]) + Val(R, v[..i])
  }

  lemma {:induction false} AddedStep(d: seq<digit>, s: seq<digit>, v: seq<digit>, j: nat, carry: nat, i: nat)
    requires |d| == |s| && i < |v| && j + i < |d| && AddedBack(d, s, v, j, carry, i)
    ensures var sum := d[j + i] as int + v[i] + carry;
            AddedBack(d[j + i := sum % R], s, v, j, sum / R, i + 1)
  {
    var sum := d[j + i] as int + v[i] + carry;
    WindowStep(d, s, j, i, sum % R);
    ValStep(R, v, i);
    ColumnSum(R, Pow(R, i), s[j + i], v[i], carry, sum % R, sum / R);
  }

  /** Adds v to the window modulo its width. */
  method AddBack(u: array<digit>, v: array<digit>, j: nat) returns (ghost dropped: nat)
    requires u != v && j + v.Length < u.Length
    modifies u
    ensures OnlyWindow(u[..], old(u[..]), j, v.Length + 1)
    ensures Val(R, u[..][j..j + v.Length + 1])
            == Val(R, old(u[..])[j..j + v.Length + 1]) + Val(R, v[..]) - dropped * Pow(R, v.Length + 1)
  {
    ghost var s, vs := u[..], v[..];
    var n := v.Length;
    var carry: nat := 0;
    assert s[j..j] == [] && vs[..0] == [];
    for i := 0 to n
      invariant v[..] == vs && AddedBack(u[..], s, vs, j, carry, i)
    {
      AddedStep(u[..], s, vs, j, carry, i);
      var sum: nat := u[j + i] as int + v[i] + carry;
      u[j + i] := sum % R;
      carry := sum / R;
    }
    ghost var d := u[..];
    var top: nat := u[j + n] as int + carry;
    u[j + n] := top % R;
    dropped := top / R;
    WindowStep(d, s, j, n, top % R);
    assert vs[..n] == vs;
    ColumnSum(R, Pow(R, n), s[j + n], 0, carry, top % R, top / R);
  }

  // ---------- one quotient digit ----------

  lemma {:induction false} LeadingTwo(v: seq<digit>)
    requires |v| >= 2
    ensures var n, e := |v|, Pow(R, |v| - 2);
            Val(R, v) == (v[n - 1] * R + v[n - 2]) * e + Val(R, v[..n - 2]) && Val(R, v[..n - 2]) < e
  {
    var n := |v|;
    ValSplit(R, v, n - 2);
    DigitDigits(v[..n - 2]);
    ValBound(R, v[..n - 2]);
    TwoDigitsValue(v[n - 2..]);
  }

  lemma {:induction false} LeadingThree(w: seq<digit>)
    requires |w| >= 3
    ensures var n, e := |w|, Pow(R, |w| - 3);
            Val(R, w) == ((w[n - 1] * R + w[n - 2]) * R + w[n - 3]) * e + Val(R, w[..n - 3]) && Val(R, w[..n - 3]) < e
  {
    var n := |w|;
    ValSplit(R, w, n - 3);
    DigitDigits(w[..n - 3]);
    ValBound(R, w[..n - 3]);
    ThreeDigits(w[n - 3..]);
  }

  lemma {:induction false} TwoDigitsValue(s: seq<digit>)
    requires |s| == 2
    ensures Val(R, s) == s[1] * R + s[0]
  {
    assert s[1..][1..] == [];
    assert Val(R, s[1..]) == s[1] + R * Val(R, s[1..][1..]) == s[1];
  }

  lemma {:induction false} ThreeDigits(s: seq<digit>)
    requires |s| == 3
    ensures Val(R, s) == (s[2] * R + s[1]) * R + s[0]
  {
    TwoDigitsValue(s[1..]);
  }

  /** The window's leading digit is at most the divisor's. */
  lemma {:induction false} LeadingAtMost(w: seq<digit>, v: seq<digit>)
    requires |v| >= 2 && |w| == |v| + 1 && Val(R, w) < R * Val(R, v)
    ensures w[|v|] <= v[|v| - 1]
  {
    var n := |v|;
    var p := Pow(R, n - 1);
    assert w[..n + 1] == w && v[..n] == v;
    ValStep(R, w, n);
    ValStep(R, v, n - 1);
    DigitDigits(v[..n - 1]);
    ValBound(R, v[..n - 1]);
    LeadArith(Val(R, w[..n]), w[n], Val(R, v[..n - 1]), v[n - 1], p);
  }

  lemma {:induction false} LeadArith(wl: int, wn: int, vl: int, vn: int, p: int)
    requires 0 <= wl && 0 <= vl < p && wl + wn * (R * p) < R * (vl + vn * p)
    ensures wn <= vn
  {
    MulDist(R * p, vn, 1);
    assert vn * (R * p) == R * (vn * p);
    if wn > vn {
      MulMono(R * p, vn + 1, wn);
    }
  }

  lemma {:induction false} EstimateWindow(w: seq<digit>, v: seq<digit>, estimate: nat)
    requires |v| >= 2 && |w| == |v| + 1 && Val(R, w) < R * Val(R, v) && v[|v| - 1] >= R / 2
    requires var n := |v|;
             Refined(estimate, (w[n] * R + w[n - 1]) * R + w[n - 2], v[n - 1] * R + v[n - 2])
    ensures estimate * Val(R, v) - Val(R, v) < Val(R, w) < estimate * Val(R, v) + Val(R, v)
  {
    var n := |v|;
    LeadingTwo(v);
    LeadingThree(w);
    EstimateBounds(estimate, (w[n] * R + w[n - 1]) * R + w[n - 2], v[n - 1] * R + v[n - 2], Pow(R, n - 2),
                   Val(R, w[..n - 2]), Val(R, v[..n - 2]), Val(R, w), Val(R, v));
  }

  /** A value below the width that is congruent to the true remainder is the true remainder. */
  lemma {:induction false} SettleRemainder(d: seq<digit>, x: int, k: int)
    requires Val(R, d) == x + k * Pow(R, |d|) && 0 <= x < Pow(R, |d|)
    ensures Val(R, d) == x
  {
    DigitDigits(d);
    ValBound(R, d);
    if k >= 1 {
      MulMono(Pow(R, |d|), 1, k);
    } else if k <= -1 {
      MulMono(Pow(R, |d|), k, -1);
    }
  }

  lemma {:induction false} DivisorBelowWidth(v: seq<digit>)
    ensures Val(R, v) < Pow(R, |v| + 1)
  {
    DigitDigits(v);
    ValBound(R, v);
  }

  /** A wrapped window stands for a negative number. */
  lemma {:induction false} NegativeWindow(t: seq<digit>, x: int)
    requires Val(R, t) == x + Pow(R, |t|)
    ensures x < 0
  {
    DigitDigits(t);
    ValBound(R, t);
  }

  /** One add-back settles a window that was less than the divisor below zero. */
  lemma {:induction false} AddedWindow(t: seq<digit>, x: int, d: nat, dropped: nat)
    requires Val(R, t) == x + Pow(R, |t|) + d - dropped * Pow(R, |t|)
    requires -1 * d < x < 0 && d < Pow(R, |t|)
    ensures Val(R, t) == x + d
  {
    MulDist(Pow(R, |t|), 1, dropped);
    SettleRemainder(t, x + d, 1 - dropped);
  }

  /** Steps 3 and 4: the estimate's product is subtracted, and one add-back corrects an estimate one too high. */
  method SubtractEstimate(u: array<digit>, v: array<digit>, j: nat, estimate: nat) returns (q: nat)
    requires u != v && j + v.Length < u.Length && estimate < R
    requires var w, d := Val(R, u[..][j..j + v.Length + 1]), Val(R, v[..]);
             estimate * d - d < w < estimate * d + d
    modifies u
    ensures q < R && OnlyWindow(u[..], old(u[..]), j, v.Length + 1)
    ensures var w, w', d := Val(R, old(u[..])[j..j + v.Length + 1]), Val(R, u[..][j..j + v.Length + 1]), Val(R, v[..]);
            w == q * d + w' && w' < d
  {
    var n := v.Length;
    ghost var s, vs := u[..], v[..];
    ghost var x, d := Val(R, s[j..j + n + 1]) - estimate * Val(R, vs), Val(R, vs);
    q := estimate;
    var negative := SubtractProduct(u, v, j, estimate);
    if negative {
      NegativeWindow(u[..][j..j + n + 1], x);
      DivisorBelowWidth(vs);
      var dropped := AddBack(u, v, j);
      AddedWindow(u[..][j..j + n + 1], x, d, dropped);
      PositiveEstimate(estimate, d, Val(R, s[j..j + n + 1]));
      q := estimate - 1;
    }
  }

  lemma {:induction false} PositiveEstimate(estimate: nat, d: nat, w: nat)
    requires w < estimate * d
    ensures estimate > 0 && (estimate - 1) * d == estimate * d - d
  {
    MulDist(d, estimate, 1);
  }

  /**
    Steps 1 to 4 at one position: the window is divided exactly, with the remainder
    left in its place and every other digit untouched.
  */
  method QuotientDigit(u: array<digit>, v: array<digit>, j: nat) returns (q: nat)
    requires u != v && v.Length >= 2 && j + v.Length < u.Length && v[v.Length - 1] >= R / 2
    requires Val(R, u[..][j..j + v.Length + 1]) < R * Val(R, v[..])
    modifies u
    ensures q < R && OnlyWindow(u[..], old(u[..]), j, v.Length + 1)
    ensures var w, w', d := Val(R, old(u[..])[j..j + v.Length + 1]), Val(R, u[..][j..j + v.Length + 1]), Val(R, v[..]);
            w == q * d + w' && w' < d
  {
    var n := v.Length;
    ghost var w := u[..][j..j + n + 1];
    LeadingAtMost(w, v[..]);
    var estimate, steps := Estimate(u[j + n], u[j + n - 1], u[j + n - 2], v[n - 1], v[n - 2]);
    EstimateWindow(w, v[..], estimate);
    q := SubtractEstimate(u, v, j, estimate);
  }
}
