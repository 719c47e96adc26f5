/** Schoolbook multiplication from 32-bit half products, with the signs corrected afterwards. */
module Multiply {
  import opened Radix
  import opened Words
  import opened Bits
  import opened Additive

  // ---------- one column ----------

  /** Low and high word of the product, assembled from its four half products. */
  function WideParts(p00: word, p01: word, p10: word, p11: word): (word, word) {
    // The middle sum fits 34 bits: its low half completes `low`, the rest carries into `high`.
    var middle := Wrap(Hi(p00) + Lo(p01) + Lo(p10));
    (Wrap(Bitwise(Or, Wrap(middle * R), Lo(p00))), Wrap(p11 + Hi(p01) + Hi(p10) + Hi(middle)))
  }

  lemma {:induction false} HalfProduct(x: nat, y: nat)
    requires x < R && y < R
    ensures x * y <= (R - 1) * (R - 1)
  {
    MulMono(x, y, R - 1);
    MulMono(R - 1, x, R - 1);
  }

  lemma {:induction false} Expand(a: int, b: int, c: int, d: int)
    ensures (a + R * b) * (c + R * d) == a * c + R * (a * d + b * c) + W * (b * d)
  {
    calc {
      (a + R * b) * (c + R * d);
      { MulDist(c + R * d, a, R * b); }
      a * (c + R * d) + (R * b) * (c + R * d);
      { MulDist(a, c, R * d); MulDist(R * b, c, R * d); }
      a * c + a * (R * d) + (R * b) * c + (R * b) * (R * d);
    }
  }

  lemma {:induction false} HiLo(x: word)
    ensures x == R * Hi(x) + Lo(x) && Lo(x) < R && Hi(x) < R
  {
  }

  lemma {:induction false} SmallWrap(x: int)
    requires 0 <= x < W
    ensures Wrap(x) == x
  {
  }

  lemma {:induction false} WrapShift(x: word)
    ensures Wrap(x * R) == Lo(x) * R
  {
    HiLo(x);
    DivModUnique(x * R, W, Hi(x), Lo(x) * R);
  }

  /** The full 128-bit product of two words. */
  method WideMul(x: word, y: word) returns (low: word, high: word)
    ensures low + W * high == x * y <= (W - 1) * (W - 1)
  {
    var xLow, xHigh, yLow, yHigh := Lo(x), Hi(x), Lo(y), Hi(y);
    var p00 := Wrap(xLow * yLow);
    var p01 := Wrap(xLow * yHigh);
    var p10 := Wrap(xHigh * yLow);
    var p11 := Wrap(xHigh * yHigh);
    var parts := WideParts(p00, p01, p10, p11);
    low, high := parts.0, parts.1;
    HiLo(x);
    HiLo(y);
    HalvesSum(xLow, xHigh, yLow, yHigh);
  }

  lemma {:induction false} HalvesSum(a: nat, b: nat, c: nat, d: nat)
    requires a < R && b < R && c < R && d < R
    ensures var parts := WideParts(Wrap(a * c), Wrap(a * d), Wrap(b * c), Wrap(b * d));
            parts.0 + W * parts.1 == (a + R * b) * (c + R * d) <= (W - 1) * (W - 1)
  {
    HalfProduct(a, c);
    HalfProduct(a, d);
    HalfProduct(b, c);
    HalfProduct(b, d);
    Expand(a, b, c, d);
    WideSum(a * c, a * d, b * c, b * d);
  }

  lemma {:induction false} WideSum(p00: nat, p01: nat, p10: nat, p11: nat)
    requires p00 <= (R - 1) * (R - 1) && p01 <= (R - 1) * (R - 1)
    requires p10 <= (R - 1) * (R - 1) && p11 <= (R - 1) * (R - 1)
    ensures WideParts(Wrap(p00), Wrap(p01), Wrap(p10), Wrap(p11)).0
            + W * WideParts(Wrap(p00), Wrap(p01), Wrap(p10), Wrap(p11)).1
            == p00 + R * (p01 + p10) + W * p11
    ensures p00 + R * (p01 + p10) + W * p11 <= (W - 1) * (W - 1)
  {
    SmallWrap(p00);
    SmallWrap(p01);
    SmallWrap(p10);
    SmallWrap(p11);
    PartsSum(p00, p01, p10, p11);
  }

  /** The wide sum from the halves of its parts. */
  lemma {:induction false} PartsSum(p00: word, p01: word, p10: word, p11: word)
    requires p01 <= (R - 1) * (R - 1) && p10 <= (R - 1) * (R - 1) && p11 <= (R - 1) * (R - 1)
    ensures WideParts(p00, p01, p10, p11).0 + W * WideParts(p00, p01, p10, p11).1
            == p00 + R * (p01 + p10) + W * p11
  {
    HiLo(p00);
    HiLo(p01);
    HiLo(p10);
    var middle: nat := Hi(p00) + Lo(p01) + Lo(p10);
    SmallWrap(middle);
    HiLo(middle);
    PartsAre(p00, p01, p10, p11, middle);
    WideArith(p00, p01, p10, p11, Hi(p00), Lo(p00), Hi(p01), Lo(p01), Hi(p10), Lo(p10), Hi(middle), Lo(middle));
    SmallWrap(p11 + Hi(p01) + Hi(p10) + Hi(middle));
  }

  lemma {:induction false} PartsAre(p00: word, p01: word, p10: word, p11: word, middle: word)
    requires middle == Wrap(Hi(p00) + Lo(p01) + Lo(p10))
    ensures WideParts(p00, p01, p10, p11)
            == (Lo(middle) * R + Lo(p00), Wrap(p11 + Hi(p01) + Hi(p10) + Hi(middle)))
  {
    LowBelow(p00);
    LowPart(middle, Lo(p00));
  }

  lemma {:induction false} OrLow(h: nat, l: nat)
    requires h < R && l < R
    ensures Wrap(Bitwise(Or, Wrap(h * R), l)) == h * R + l
  {
    OrHalves(h, l);
    SmallWrap(Bitwise(Or, Wrap(h * R), l));
  }

  lemma {:induction false} LowPart(middle: word, l: nat)
    requires l < R
    ensures Wrap(Bitwise(Or, Wrap(middle * R), l)) == Lo(middle) * R + l
  {
    WrapShift(middle);
    LowBelow(middle);
    SmallWrap(Lo(middle) * R);
    OrLow(Lo(middle), l);
  }

  lemma {:induction false} LowBelow(x: word)
    ensures Lo(x) < R
  {
  }

  lemma {:induction false} WideArith(p00: nat, p01: nat, p10: nat, p11: nat,
      h00: nat, l00: nat, h01: nat, l01: nat, h10: nat, l10: nat, hm: nat, lm: nat)
    requires p00 == R * h00 + l00 && p01 == R * h01 + l01 && p10 == R * h10 + l10
    requires h00 + l01 + l10 == R * hm + lm
    requires p11 <= (R - 1) * (R - 1) && p01 <= (R - 1) * (R - 1) && p10 <= (R - 1) * (R - 1)
    requires l00 < R && l01 < R && l10 < R && lm < R && h00 < R
    ensures lm * R + l00 + W * (p11 + h01 + h10 + hm) == p00 + R * (p01 + p10) + W * p11
    ensures p11 + h01 + h10 + hm < W
  {
  }

  /** Product plus the word already there plus the carry, as a word and the next carry; nothing is lost. */
  method MulColumn(x: word, y: word, existing: word, carry: word) returns (d: word, c: word)
    ensures d + W * c == x * y + existing + carry
  {
    var low, high := WideMul(x, y);
    var sumLow := Wrap(low + existing);
    WrapSum(low, existing);
    var first: nat := Bit(sumLow < low);
    SmallWrap(high + first);
    high := Wrap(high + first);
    d := Wrap(sumLow + carry);
    WrapSum(sumLow, carry);
    var second: nat := Bit(d < carry);
    SmallWrap(high + second);
    c := Wrap(high + second);
  }

  lemma {:induction false} WrapSum(x: word, y: word)
    ensures var sum := Wrap(x + y);
            sum + W * Bit(sum < x) == x + y && (sum < x <==> sum < y)
  {
  }

  // ---------- one row ----------

  ghost predicate RowInvariant(d: seq<word>, s: seq<word>, x: word, b: seq<word>, carry: word, i: nat, j: nat)
    requires |d| == |s| && j <= |b| && i + |b| <= |d|
  {
    d[..i] == s[..i] && d[i + j..] == s[i + j..] &&
    Val(W, d[i..i + j]) + carry * Pow(W, j) == Val(W, s[i..i + j]) + x * Val(W, b[..j])
  }

  lemma {:induction false} RowStep(d: seq<word>, s: seq<word>, x: word, b: seq<word>, carry: word, i: nat, j: nat,
      w: word, c: word)
    requires |d| == |s| && j < |b| && i + |b| <= |d|
    requires RowInvariant(d, s, x, b, carry, i, j)
    requires w + W * c == x * b[j] + d[i + j] + carry
    ensures RowInvariant(d[i + j := w], s, x, b, c, i, j + 1)
  {
    var k := i + j;
    var d' := d[k := w];
    assert d[k] == d[k..][0] == s[k..][0] == s[k];
    assert d'[..i] == d[..i] && d'[k + 1..] == d[k..][1..] == s[k..][1..] == s[k + 1..];
    assert d'[i..k] == d[i..k];
    SliceStep(d', i, j);
    SliceStep(s, i, j);
    ValStep(W, b, j);
    RowArith(Val(W, d[i..k]), Val(W, s[i..k]), Val(W, b[..j]), Pow(W, j), x, b[j], s[k], carry, w, c);
  }

  lemma {:induction false} RowArith(dv: int, sv: int, bv: int, p: int, x: int, y: int, o: int, carry: int,
      w: int, c: int)
    requires dv + carry * p == sv + x * bv
    requires w + W * c == x * y + o + carry
    ensures (dv + w * p) + c * (W * p) == (sv + o * p) + x * (bv + y * p)
  {
    ColumnSum(W, p, x * y, o, carry, w, c);
    MulDist(x, bv, y * p);
    MulAssoc(x, y, p);
  }

  lemma {:induction false} SliceStep(s: seq<word>, i: nat, j: nat)
    requires i + j < |s|
    ensures Val(W, s[i..i + j + 1]) == Val(W, s[i..i + j]) + s[i + j] * Pow(W, j)
  {
    assert s[i..i + j + 1] == s[i..i + j] + [s[i + j]];
    ValSnoc(W, s[i..i + j], s[i + j]);
  }

  /** Adds x * b at word i, leaving the row's last carry in word i + |b|. */
  method MulRow(data: array<word>, i: nat, x: word, b: seq<word>)
    requires i + |b| < data.Length
    modifies data
    ensures data[..i] == old(data[..i])
    ensures Val(W, data[i..i + |b| + 1]) == Val(W, old(data[i..i + |b|])) + x * Val(W, b)
  {
    ghost var s := data[..];
    var carry: word := 0;
    assert s[i..i] == [] && b[..0] == [];
    for j := 0 to |b|
      invariant RowInvariant(data[..], s, x, b, carry, i, j)
    {
      ghost var d, before := data[..], carry;
      var w;
      w, carry := MulColumn(x, b[j], data[i + j], carry);
      data[i + j] := w;
      RowStep(d, s, x, b, before, i, j, w, carry);
    }
    ghost var d := data[..];
    data[i + |b|] := carry;
    RowEnd(d, s, x, b, carry, i, data[..]);
    assert data[..][i..i + |b| + 1] == data[i..i + |b| + 1] && data[..][..i] == data[..i];
    assert s[i..i + |b|] == old(data[i..i + |b|]) && s[..i] == old(data[..i]);
  }

  lemma {:induction false} RowEnd(d: seq<word>, s: seq<word>, x: word, b: seq<word>, carry: word, i: nat, d': seq<word>)
    requires |d| == |s| && i + |b| < |d|
    requires RowInvariant(d, s, x, b, carry, i, |b|)
    requires d' == d[i + |b| := carry]
    ensures d'[..i] == s[..i]
    ensures Val(W, d'[i..i + |b| + 1]) == Val(W, s[i..i + |b|]) + x * Val(W, b)
  {
    var n := |b|;
    assert b[..n] == b && d'[..i] == d[..i] && d'[i..i + n] == d[i..i + n];
    SliceStep(d', i, n);
  }

  lemma {:induction false} RowsStep(d: seq<word>, s: seq<word>, a: seq<word>, b: seq<word>, i: nat)
    requires i < |a| && |d| == |s| == |a| + |b|
    requires d[..i] == s[..i]
    requires Val(W, s[..i + |b|]) == Val(W, a[..i]) * Val(W, b)
    requires Val(W, d[i..i + |b| + 1]) == Val(W, s[i..i + |b|]) + a[i] * Val(W, b)
    ensures Val(W, d[..i + |b| + 1]) == Val(W, a[..i + 1]) * Val(W, b)
  {
    var p, y := Pow(W, i), Val(W, b);
    assert d[..i + |b| + 1] == d[..i] + d[i..i + |b| + 1];
    ValConcat(W, d[..i], d[i..i + |b| + 1]);
    assert s[..i + |b|] == s[..i] + s[i..i + |b|];
    ValConcat(W, s[..i], s[i..i + |b|]);
    ValStep(W, a, i);
    RowsArith(p, y, Val(W, d[..i]), Val(W, s[i..i + |b|]), Val(W, a[..i]), a[i]);
  }

  lemma {:induction false} RowsArith(p: int, y: int, low: int, high: int, x: int, w: int)
    requires low + p * high == x * y
    ensures low + p * (high + w * y) == (x + w * p) * y
  {
    MulDist(p, high, w * y);
    MulDist(y, x, w * p);
    MulAssoc(p, w, y);
  }

  /** The unsigned product of two word arrays. */
  method MulUnsigned(a: seq<word>, b: seq<word>) returns (data: array<word>)
    ensures fresh(data) && data.Length == |a| + |b|
    ensures Val(W, data[..]) == Val(W, a) * Val(W, b)
  {
    var na, nb := |a|, |b|;
    data := new word[na + nb](_ => 0);
    assert a[..0] == [];
    ValZeros(W, data[..nb]);
    for i := 0 to na
      invariant Val(W, data[..i + nb]) == Val(W, a[..i]) * Val(W, b)
    {
      ghost var s := data[..];
      MulRow(data, i, a[i], b);
      assert data[..][..i] == s[..i] && data[..][i..i + nb + 1] == data[i..i + nb + 1];
      assert data[..][..i + nb + 1] == data[..i + nb + 1];
      RowsStep(data[..], s, a, b, i);
    }
    assert a[..na] == a && data[..na + nb] == data[..];
  }

  // ---------- sign correction ----------

  ghost predicate BorrowInvariant(d: seq<word>, s: seq<word>, x: seq<word>, shift: nat, borrow: word, i: nat)
    requires |d| == |s| && i <= |x| && shift + |x| <= |d|
  {
    borrow <= 1 && d[..shift] == s[..shift] && d[shift + i..] == s[shift + i..] &&
    Val(W, d[shift..shift + i]) + Val(W, x[..i]) == Val(W, s[shift..shift + i]) + borrow * Pow(W, i)
  }

  lemma {:induction false} BorrowStep(d: seq<word>, s: seq<word>, x: seq<word>, shift: nat, borrow: word, i: nat,
      d': seq<word>)
    requires |d| == |s| && i < |x| && shift + |x| <= |d|
    requires BorrowInvariant(d, s, x, shift, borrow, i)
    requires d' == d[shift + i := Wrap(d[shift + i] - Wrap(x[i] + borrow))]
    ensures var rhs := Wrap(x[i] + borrow);
            BorrowInvariant(d', s, x, shift, Bit(rhs < x[i] || d[shift + i] < rhs), i + 1)
  {
    var k := shift + i;
    var rhs := Wrap(x[i] + borrow);
    var borrow' := Bit(rhs < x[i] || d[k] < rhs);
    assert d[k] == d[k..][0] == s[k..][0] == s[k];
    assert d'[..shift] == d[..shift] && d'[k + 1..] == d[k..][1..] == s[k..][1..] == s[k + 1..];
    assert d'[shift..k] == d[shift..k];
    assert rhs == x[i] + borrow || rhs == x[i] + borrow - W;
    assert d'[k] + x[i] + borrow == s[k] + W * borrow';
    SliceStep(d', shift, i);
    SliceStep(s, shift, i);
    ValStep(W, x, i);
    ColumnSum(W, Pow(W, i), d'[k], x[i], borrow, s[k], borrow');
  }

  /** Subtracts x shifted up by `shift` words from a construction array that it reaches the end of. */
  method SubtractShifted(data: array<word>, x: seq<word>, shift: nat) returns (ghost borrow: nat)
    requires shift + |x| == data.Length
    modifies data
    ensures Val(W, data[..]) == Val(W, old(data[..])) - Val(W, x) * Pow(W, shift) + borrow * Pow(W, data.Length)
  {
    ghost var s := data[..];
    var carry: word := 0;
    assert s[shift..shift] == [] && x[..0] == [];
    for i := 0 to |x|
      invariant BorrowInvariant(data[..], s, x, shift, carry, i)
    {
      ghost var d, c := data[..], carry;
      var rhs := Wrap(x[i] + carry);
      var before: nat := data[shift + i];
      data[shift + i] := Wrap(before - rhs);
      carry := Bit(rhs < x[i] || before < rhs);
      BorrowStep(d, s, x, shift, c, i, data[..]);
    }
    borrow := carry;
    ShiftedDifference(data[..], s, x, shift, carry);
  }

  lemma {:induction false} ShiftedDifference(d: seq<word>, s: seq<word>, x: seq<word>, shift: nat, borrow: word)
    requires |d| == |s| == shift + |x|
    requires BorrowInvariant(d, s, x, shift, borrow, |x|)
    ensures Val(W, d) == Val(W, s) - Val(W, x) * Pow(W, shift) + borrow * Pow(W, |d|)
  {
    var n := |x|;
    assert d[shift..shift + n] == d[shift..] && s[shift..shift + n] == s[shift..] && x[..n] == x;
    var p := Pow(W, shift);
    var hd, hs, vx := Val(W, d[shift..]), Val(W, s[shift..]), Val(W, x);
    ValSplit(W, d, shift);
    ValSplit(W, s, shift);
    PowAdd(W, shift, n);
    ShiftArith(p, Pow(W, n), hd, hs, vx, borrow);
  }

  lemma {:induction false} ShiftArith(p: int, q: int, hd: int, hs: int, vx: int, borrow: int)
    requires hd + vx == hs + borrow * q
    ensures p * hd == p * hs - vx * p + borrow * (p * q)
  {
    MulDist(p, hd, vx);
    MulDist(p, hs, borrow * q);
    assert p * (borrow * q) == borrow * (p * q);
  }

  // ---------- the signed product ----------

  lemma {:induction false} ProductRange(a: seq<word>, b: seq<word>)
    requires a != [] && b != []
    ensures -Half(|a| + |b|) <= Signed(a) * Signed(b) < Half(|a| + |b|)
    ensures Pow(W, |a| + |b|) == Pow(W, |a|) * Pow(W, |b|)
  {
    var x, y, h, g := Signed(a), Signed(b), Half(|a|), Half(|b|);
    SignedRange(a);
    SignedRange(b);
    HalfTwice(|a|);
    HalfTwice(|b|);
    HalfTwice(|a| + |b|);
    PowAdd(W, |a|, |b|);
    assert Pow(W, |a|) * Pow(W, |b|) == (2 * h) * (2 * g) == 4 * (h * g);
    AbsProduct(x, y, h, g);
    assert h * g > 0;
  }

  lemma {:induction false} AbsProduct(x: int, y: int, h: int, g: int)
    requires -h <= x <= h && -g <= y <= g
    ensures -(h * g) <= x * y <= h * g
  {
    assert (h - x) * (g + y) >= 0 && (h + x) * (g - y) >= 0;
    assert (h - x) * (g - y) >= 0 && (h + x) * (g + y) >= 0;
    assert (h - x) * (g + y) == h * g + h * y - x * g - x * y;
    assert (h + x) * (g - y) == h * g - h * y + x * g - x * y;
    assert (h - x) * (g - y) == h * g - h * y - x * g + x * y;
    assert (h + x) * (g + y) == h * g + h * y + x * g + x * y;
  }

  /**
    With A, B the unsigned readings of a, b: after the corrections the unsigned product
    is the signed one up to multiples of the width.
  */
  lemma {:induction false} SignCorrection(a: seq<word>, b: seq<word>, d: seq<word>, s: nat, t: nat)
    requires a != [] && b != [] && |d| == |a| + |b|
    requires Val(W, d) == Val(W, a) * Val(W, b)
                          - (if IsNegative(a) then Val(W, b) * Pow(W, |a|) - s * Pow(W, |d|) else 0)
                          - (if IsNegative(b) then Val(W, a) * Pow(W, |b|) - t * Pow(W, |d|) else 0)
    ensures Signed(d) == Signed(a) * Signed(b)
  {
    ProductRange(a, b);
    var p, q, x, y := Pow(W, |a|), Pow(W, |b|), Val(W, a), Val(W, b);
    var na, nb := if IsNegative(a) then 1 else 0, if IsNegative(b) then 1 else 0;
    SignedByCongruence(d, Signed(a) * Signed(b), SignArith(x, y, p, q, na, nb, s, t));
  }

  function SignArith(x: int, y: int, p: int, q: int, na: int, nb: int, s: int, t: int): (k: int)
    requires na == 0 || na == 1
    requires nb == 0 || nb == 1
    ensures x * y - (if na == 1 then y * p - s * (p * q) else 0) - (if nb == 1 then x * q - t * (p * q) else 0)
            == (x - na * p) * (y - nb * q) + k * (p * q)
  {
    if na == 1 && nb == 1 then
      assert (x - p) * (y - q) == x * y - y * p - x * q + p * q;
      Dist4(p * q, s, t, -1, 0);
      s + t - 1
    else if na == 1 then
      MulDist(y, x, p);
      s
    else if nb == 1 then
      MulDist(x, y, q);
      t
    else 0
  }

  method MulFallback(a: seq<word>, b: seq<word>) returns (r: BigInt)
    requires a != [] && b != []
    ensures Canonical(r) && Value(r) == Signed(a) * Signed(b)
  {
    var data := MulUnsigned(a, b);
    ghost var s, t := 0, 0;
    if IsNegative(a) {
      s := SubtractShifted(data, b, |a|);
    }
    if IsNegative(b) {
      t := SubtractShifted(data, a, |b|);
    }
    SignCorrection(a, b, data[..], s, t);
    r := Normalize(data);
  }
}
