/**
  Shifts of whole word arrays: the pieces that work word by word, and the two routines that
  move an integer by any nonnegative count, with their errors.
*/
module Shifts {
  import opened Radix
  import opened Words
  import opened Bits
  import opened Additive

  lemma {:induction false} PowInverse(shift: nat)
    requires shift < 64
    ensures Pow(2, shift) * Pow(2, 64 - shift) == W && Pow(2, shift) <= HALF
  {
    Pow2Words();
    PowAdd(2, shift, 64 - shift);
    PowMono(2, shift, 63);
  }

  /** Shifting a word left by s keeps its low bits; the bits above leave at the top. */
  lemma {:induction false} ShiftedWord(x: word, s: nat, t: nat)
    requires s > 0 && t > 0 && s * t == W
    ensures x * s == W * (x / t) + Wrap(x * s) && Wrap(x * s) == x % t * s
  {
    DivModBasics(x, t);
    var q, r := x / t, x % t;
    MulDist(s, t * q, r);
    assert (t * q) * s == (s * t) * q;
    MulMono(s, r + 1, t);
    MulDist(s, r, 1);
    DivModUnique(x * s, W, q, r * s);
  }

  // ---------- arrays shifted by less than a word ----------

  /** Word j of an array moved up by `part` bits: its own low bits and the bits leaving the word below. */
  function LeftWord(x: seq<word>, j: nat, part: nat): nat
    requires j < |x| && part < 64
  {
    if part > 0 && j > 0 then Bitwise(Or, Shl(x[j], part), Shr(x[j - 1], 64 - part))
    else Shl(x[j], part)
  }

  /** Bits that left word j - 1 at the top. */
  function LeftCarry(x: seq<word>, j: nat, part: nat): nat
    requires j <= |x| && part < 64
  {
    if j == 0 then 0 else x[j - 1] / Pow(2, 64 - part)
  }

  lemma {:induction false} ShiftedOr(x: word, y: word, part: nat)
    requires 0 < part < 64
    ensures var s, t := Pow(2, part), Pow(2, 64 - part);
            Bitwise(Or, Shl(x, part), Shr(y, 64 - part)) == Shl(x, part) + y / t < W
  {
    var s, t := Pow(2, part), Pow(2, 64 - part);
    PowInverse(part);
    ShiftedWord(x, s, t);
    OrBelow(x % t, y, part);
  }

  lemma {:induction false} OrBelow(r: nat, y: word, part: nat)
    requires 0 < part < 64 && r < Pow(2, 64 - part)
    ensures var s, c := Pow(2, part), y / Pow(2, 64 - part);
            Bitwise(Or, r * s, c) == r * s + c < W
  {
    var s, t := Pow(2, part), Pow(2, 64 - part);
    PowInverse(part);
    DivBelow(y, t, s);
    BelowWord(r, y / t, s, t);
    OrDisjoint(r, y / t, part);
  }

  lemma {:induction false} BelowWord(r: nat, c: nat, s: nat, t: nat)
    requires r < t && c < s && s * t == W
    ensures r * s + c < W
  {
    MulMono(s, r + 1, t);
    MulDist(s, r, 1);
  }

  lemma {:induction false} LeftWordExact(x: seq<word>, j: nat, part: nat)
    requires j < |x| && part < 64
    ensures LeftWord(x, j, part) + W * LeftCarry(x, j + 1, part) == x[j] * Pow(2, part) + LeftCarry(x, j, part)
    ensures LeftWord(x, j, part) < W
  {
    PowInverse(part);
    ShiftedWord(x[j], Pow(2, part), Pow(2, 64 - part));
    if j > 0 {
      if part == 0 {
        DivModUnique(x[j - 1], W, 0, x[j - 1]);
      } else {
        ShiftedOr(x[j], x[j - 1], part);
      }
    }
  }

  lemma {:induction false} LeftShiftedPrefix(x: seq<word>, d: seq<word>, part: nat, k: nat)
    requires part < 64 && |d| == |x| && k <= |x|
    requires forall j :: 0 <= j < k ==> d[j] == LeftWord(x, j, part)
    ensures Val(W, d[..k]) + LeftCarry(x, k, part) * Pow(W, k) == Val(W, x[..k]) * Pow(2, part)
    decreases k
  {
    if k > 0 {
      var j := k - 1;
      LeftShiftedPrefix(x, d, part, j);
      LeftWordExact(x, j, part);
      ValStep(W, d, j);
      ValStep(W, x, j);
      LeftArith(Val(W, d[..j]), Val(W, x[..j]), Pow(2, part), Pow(W, j), d[j], x[j],
                LeftCarry(x, j, part), LeftCarry(x, k, part));
    }
  }

  lemma {:induction false} LeftArith(dv: int, xv: int, s: int, p: int, w: int, x: int, c: int, c': int)
    requires dv + c * p == xv * s && w + W * c' == x * s + c
    ensures (dv + w * p) + c' * (W * p) == (xv + x * p) * s
  {
    ColumnSum(W, p, x * s, 0, c, w, c');
    MulDist(s, xv, x * p);
    assert (x * s) * p == (x * p) * s;
  }

  /** Word i of an array moved down by `part` bits, `above` being the word that follows it. */
  function RightWord(x: word, above: word, part: nat): nat
    requires part < 64
  {
    if part > 0 then Bitwise(Or, Shl(above, 64 - part), Shr(x, part)) else x
  }

  lemma {:induction false} RightWordExact(x: word, above: word, part: nat)
    requires part < 64
    ensures var s := Pow(2, part);
            s * RightWord(x, above, part) + x % s == x + W * (above % s)
    ensures RightWord(x, above, part) < W
  {
    var s, t := Pow(2, part), Pow(2, 64 - part);
    PowInverse(part);
    DivModBasics(x, s);
    if part > 0 {
      RightWordValue(x, above, part);
      DivModBasics(above, s);
      RightWordArith(x, s, t, x / s, x % s, above % s);
    } else {
      DivModUnique(x, 1, x, 0);
      DivModUnique(above, 1, above, 0);
    }
  }

  lemma {:induction false} RightWordArith(x: int, s: int, t: int, q: int, m: int, r: int)
    requires s * t == W && x == m + s * q
    ensures s * (r * t + q) + m == x + W * r
  {
    MulDist(s, r * t, q);
    assert s * (r * t) == (s * t) * r;
  }

  lemma {:induction false} RightWordValue(x: word, above: word, part: nat)
    requires 0 < part < 64
    ensures var s, t := Pow(2, part), Pow(2, 64 - part);
            RightWord(x, above, part) == (above % s) * t + x / s < W
  {
    var s, t := Pow(2, part), Pow(2, 64 - part);
    PowInverse(part);
    PowInverse(64 - part);
    ShiftedWord(above, t, s);
    DivBelow(x, s, t);
    DivModBasics(x, s);
    DivModBasics(above, s);
    var r, q := above % s, x / s;
    OrDisjoint(r, q, 64 - part);
    MulMono(t, r + 1, s);
    MulDist(t, r, 1);
  }

  function Above(x: seq<word>, ext: word, i: nat): word { if i < |x| then x[i] else ext }

  /** Moving an array down by `part` bits, with the bits of `ext` coming in at the top. */
  lemma {:induction false} RightShifted(x: seq<word>, r: seq<word>, ext: word, part: nat)
    requires part < 64 && |r| == |x|
    requires forall i :: 0 <= i < |x| ==> r[i] == RightWord(x[i], Above(x, ext, i + 1), part)
    ensures var s := Pow(2, part);
            s * Val(W, r) + Above(x, ext, 0) % s == Val(W, x) + (ext % s) * Pow(W, |x|)
  {
    var s := Pow(2, part);
    if x == [] {
    } else {
      forall i | 0 <= i < |x| - 1
        ensures r[1..][i] == RightWord(x[1..][i], Above(x[1..], ext, i + 1), part)
      {
        assert r[1..][i] == r[i + 1] && x[1..][i] == x[i + 1];
      }
      RightShifted(x[1..], r[1..], ext, part);
      var above := Above(x, ext, 1);
      assert above == Above(x[1..], ext, 0);
      RightWordExact(x[0], above, part);
      RightArith(s, r[0], Val(W, r[1..]), x[0], Val(W, x[1..]), x[0] % s, above % s, ext % s, Pow(W, |x| - 1));
    }
  }

  lemma {:induction false} RightArith(s: int, r: int, rv: int, x: int, xv: int, m: int, a: int, e: int, p: int)
    requires s * r + m == x + W * a && s * rv + a == xv + e * p
    ensures s * (r + W * rv) + m == (x + W * xv) + e * (W * p)
  {
    MulDist(s, r, W * rv);
    assert s * (W * rv) == W * (s * rv);
    assert e * (W * p) == W * (e * p);
  }

  // ---------- counts ----------

  datatype Count = Fits(n: nat) | TooLarge | Negative

  datatype ShiftResult = Shifted(x: BigInt) | NegativeCount | CountOverflow

  lemma {:induction false} HighZeros(s: seq<word>)
    requires s != [] && !IsNegative(s)
    ensures (forall i :: 1 <= i < |s| ==> s[i] == 0) ==> Signed(s) == s[0]
    ensures (exists i :: 1 <= i < |s| && s[i] != 0) ==> Signed(s) >= W
  {
    if forall i :: 1 <= i < |s| ==> s[i] == 0 {
      ValZeros(W, s[1..]);
    } else {
      var i :| 1 <= i < |s| && s[i] != 0;
      assert s[1..][i - 1] != 0;
      PositiveValue(s[1..], i - 1);
    }
  }

  lemma {:induction false} PositiveValue(s: seq<word>, i: nat)
    requires i < |s| && s[i] != 0
    ensures Val(W, s) > 0
  {
    if i > 0 {
      PositiveValue(s[1..], i - 1);
    }
  }

  /** Reads a shift count; size_t is 64 bits wide. */
  method ShiftCount(count: seq<word>) returns (r: Count)
    requires count != []
    ensures r.Negative? <==> Signed(count) < 0
    ensures r.Fits? <==> 0 <= Signed(count) < W
    ensures r.Fits? ==> r.n == Signed(count)
  {
    SignedRange(count);
    if IsNegative(count) {
      return Negative;
    }
    HighZeros(count);
    for i := 1 to |count|
      invariant forall k :: 1 <= k < i ==> count[k] == 0
    {
      if count[i] != 0 {
        return TooLarge;
      }
    }
    return Fits(count[0]);
  }

  lemma {:induction false} PowSplit(whole: nat, part: nat)
    ensures Pow(2, 64 * whole + part) == Pow(W, whole) * Pow(2, part)
  {
    Pow2Words();
    PowAdd(2, 64 * whole, part);
    PowPow(2, 64, whole);
  }

  // ---------- left shift ----------

  /** The words of x moved up by `part` bits, one guard word added. */
  lemma {:induction false} LeftSigned(x: seq<word>, d: seq<word>, part: nat)
    requires x != [] && part < 64 && |d| == |x| + 1
    requires forall j :: 0 <= j < |d| ==> d[j] == LeftWord(Extend(x, |d|), j, part)
    ensures Signed(d) == Signed(x) * Pow(2, part)
  {
    var n, e, s := |d|, Extend(x, |d|), Pow(2, part);
    LeftShiftedPrefix(e, d, part, n);
    assert d[..n] == d && e[..n] == e;
    ExtendValue(x, n);
    PowInverse(part);
    LeftRange(x, s);
    LeftCongruence(x, d, LeftCarry(e, n, part), s);
  }

  lemma {:induction false} LeftCongruence(x: seq<word>, d: seq<word>, c: int, s: int)
    requires x != [] && d != []
    requires Val(W, d) + c * Pow(W, |d|) == (Signed(x) + if IsNegative(x) then Pow(W, |d|) else 0) * s
    requires -Half(|d|) <= Signed(x) * s < Half(|d|)
    ensures Signed(d) == Signed(x) * s
  {
    var neg, p := if IsNegative(x) then 1 else 0, Pow(W, |d|);
    LeftSignedArith(Val(W, d), c, p, Signed(x), neg, s);
    SignedByCongruence(d, Signed(x) * s, neg * s - c);
  }

  lemma {:induction false} LeftSignedArith(dv: int, c: int, p: int, v: int, neg: int, s: int)
    requires dv + c * p == (v + neg * p) * s
    ensures dv == v * s + (neg * s - c) * p
  {
    MulDist(s, v, neg * p);
    MulDist(p, neg * s, c);
    assert (neg * p) * s == (neg * s) * p;
  }

  lemma {:induction false} LeftRange(x: seq<word>, s: nat)
    requires x != [] && 0 < s <= HALF
    ensures -Half(|x| + 1) <= Signed(x) * s < Half(|x| + 1)
  {
    SignedRange(x);
    var h, v := Half(|x|), Signed(x);
    MulMono(s, -h, v);
    MulMono(s, v, h - 1);
    MulDist(s, h, 1);
    assert (-h) * s == -(h * s);
    MulMono(h, s, HALF);
    HalfTwice(|x|);
  }

  /** Whole zero words below scale by a power of the word base. */
  lemma {:induction false} LowZeros(d: seq<word>, whole: nat)
    requires whole < |d| && forall i :: 0 <= i < whole ==> d[i] == 0
    ensures Signed(d) == Signed(d[whole..]) * Pow(W, whole)
  {
    var t := d[whole..];
    ValSplit(W, d, whole);
    ValZeros(W, d[..whole]);
    assert t[|t| - 1] == d[|d| - 1];
    PowAdd(W, whole, |t|);
    var p := Pow(W, whole);
    MulDist(p, Val(W, t), Pow(W, |t|));
  }

  method LeftShiftFallback(x: seq<word>, count: seq<word>) returns (r: ShiftResult)
    requires CanonicalWords(x) && count != []
    ensures r.NegativeCount? <==> Signed(count) < 0
    ensures r.CountOverflow? <==> Signed(count) >= W && Signed(x) != 0
    ensures r.Shifted? ==> Canonical(r.x) && (Signed(x) == 0 ==> Value(r.x) == 0)
    ensures r.Shifted? && Signed(x) != 0 ==> Value(r.x) == Signed(x) * Pow(2, Signed(count))
  {
    var c := ShiftCount(count);
    if c.Negative? {
      return NegativeCount;
    }
    OneWord(x[0]);
    if |x| == 1 && x[0] == 0 {
      assert x == [x[0]];
      return Shifted(Inline(0));
    }
    NonzeroCanonical(x);
    if c.TooLarge? {
      return CountOverflow;
    }
    var data := LeftShiftWords(x, c.n);
    var y := Normalize(data);
    return Shifted(y);
  }

  lemma {:induction false} NonzeroCanonical(x: seq<word>)
    requires CanonicalWords(x) && !(|x| == 1 && x[0] == 0)
    ensures Signed(x) != 0
  {
    OneWord(x[0]);
    if |x| == 1 {
      assert x == [x[0]];
    } else {
      CanonicalOutside(x);
      HalfTwice(|x| - 1);
    }
  }

  method LeftShiftWords(x: seq<word>, shift: nat) returns (data: array<word>)
    requires x != []
    ensures fresh(data) && Signed(data[..]) == Signed(x) * Pow(2, shift)
  {
    var whole, part := shift / 64, shift % 64;
    var size := |x| + whole + 1;
    data := new word[size](_ => 0);
    var extension := SignWord(x);
    ghost var e := Extend(x, |x| + 1);
    for i := whole to size
      invariant forall k :: 0 <= k < whole ==> data[k] == 0
      invariant forall k :: whole <= k < i ==> data[k] == LeftWord(e, k - whole, part)
    {
      var j := i - whole;
      LeftWordExact(e, j, part);
      var w: nat := Shl(if j < |x| then x[j] else extension, part);
      if part > 0 && j > 0 {
        w := Bitwise(Or, w, Shr(x[j - 1], 64 - part));
      }
      data[i] := w;
    }
    LeftShiftedSigned(x, data[..], whole, part);
  }

  lemma {:induction false} LeftShiftedSigned(x: seq<word>, data: seq<word>, whole: nat, part: nat)
    requires x != [] && part < 64 && |data| == |x| + whole + 1
    requires forall k :: 0 <= k < whole ==> data[k] == 0
    requires forall k :: whole <= k < |data| ==> data[k] == LeftWord(Extend(x, |x| + 1), k - whole, part)
    ensures Signed(data) == Signed(x) * Pow(2, 64 * whole + part)
  {
    var d := data[whole..];
    forall j | 0 <= j < |d|
      ensures d[j] == LeftWord(Extend(x, |x| + 1), j, part)
    {
      assert d[j] == data[whole + j];
    }
    LeftSigned(x, d, part);
    LowZeros(data, whole);
    PowSplit(whole, part);
    MulRotate(Signed(x), Pow(2, part), Pow(W, whole));
  }

  lemma {:induction false} MulRotate(x: int, y: int, z: int)
    ensures (x * y) * z == x * (z * y)
  {
  }

  // ---------- right shift ----------

  lemma {:induction false} ModOfSignWord(s: nat, t: nat)
    requires s > 0 && s * t == W
    ensures (W - 1) % s == s - 1
  {
    MulDist(s, t, 1);
    DivModUnique(W - 1, s, t - 1, s - 1);
  }

  /** Moving down by `part` bits with sign extension divides and rounds down. */
  lemma {:induction false} RightSigned(x: seq<word>, r: seq<word>, part: nat)
    requires x != [] && part < 64 && |r| == |x|
    requires forall i :: 0 <= i < |x| ==> r[i] == RightWord(x[i], Above(x, SignWord(x), i + 1), part)
    ensures Signed(r) == Signed(x) / Pow(2, part)
  {
    var s, t, n := Pow(2, part), Pow(2, 64 - part), |x|;
    PowInverse(part);
    RightShifted(x, r, SignWord(x), part);
    ModOfSignWord(s, t);
    DivModUnique(0, s, 0, 0);
    var p, m, v := Pow(W, n), x[0] % s, Signed(x);
    DivModBasics(x[0], s);
    var neg := if IsNegative(x) then 1 else 0;
    RightSignedArith(s, Val(W, r), m, v, neg, p);
    var q := Val(W, r) - neg * p;
    DivModUnique(v, s, q, m);
    SignedRange(x);
    FloorRange(v, s, q, m, Half(n));
    SignedByCongruence(r, q, neg);
  }

  lemma {:induction false} RightSignedArith(s: int, rv: int, m: int, v: int, neg: int, p: int)
    requires neg == 0 || neg == 1
    requires s * rv + m == v + neg * p + (neg * (s - 1)) * p
    ensures v == s * (rv - neg * p) + m
  {
    MulDist(s, rv, neg * p);
    if neg == 1 {
      MulDist(p, s, 1);
    }
  }

  lemma {:induction false} FloorRange(v: int, s: int, q: int, m: int, h: int)
    requires s > 0 && v == s * q + m && 0 <= m < s && -h <= v < h && h > 0
    ensures -h <= q < h
  {
    MulMono(h, 1, s);
    assert s * (-h - 1) == -(s * h) - s;
    if q >= h {
      MulMono(s, h, q);
    }
    if q < -h {
      MulMono(s, q, -h - 1);
    }
  }

  /** Dropping whole low words divides and rounds down. */
  lemma {:induction false} DropWords(x: seq<word>, whole: nat)
    requires whole < |x|
    ensures Signed(x[whole..]) == Signed(x) / Pow(W, whole)
  {
    var t, p := x[whole..], Pow(W, whole);
    ValSplit(W, x, whole);
    WordDigits(x[..whole]);
    ValBound(W, x[..whole]);
    assert t[|t| - 1] == x[|x| - 1];
    PowAdd(W, whole, |t|);
    MulDist(p, Val(W, t), Pow(W, |t|));
    DivModUnique(Signed(x), p, Signed(t), Val(W, x[..whole]));
  }

  lemma {:induction false} DivDiv(x: int, p: nat, s: nat)
    requires p > 0 && s > 0
    ensures p * s > 0 && x / (p * s) == x / p / s
  {
    var q, r := x / p, x % p;
    var a, b := q / s, q % s;
    FloorBasics(x, p);
    FloorBasics(q, s);
    assert x == p * (s * a + b) + r;
    MulDist(p, s * a, b);
    assert p * (s * a) == (p * s) * a;
    MulMono(p, b, s - 1);
    MulDist(p, s, 1);
    DivModUnique(x, p * s, a, p * b + r);
  }

  lemma {:induction false} FloorBasics(x: int, b: nat)
    requires b > 0
    ensures 0 <= x % b < b && x == b * (x / b) + x % b
  {
  }

  /** Shifting right by n leaves nothing but the sign. */
  predicate OnlySign(x: int, n: nat) { 0 - Pow(2, n) <= x < Pow(2, n) }

  lemma {:induction false} WordsBelowPower(k: nat, n: nat)
    requires n >= 64 * k
    ensures Pow(W, k) <= Pow(2, n)
  {
    PowSplit(k, 0);
    PowMono(2, 64 * k, n);
  }

  /** A power beyond the operand's range leaves only the sign. */
  lemma {:induction false} HugeShift(x: seq<word>, n: nat)
    requires x != [] && n >= 64 * |x|
    ensures OnlySign(Signed(x), n)
    ensures Signed(x) / Pow(2, n) == if IsNegative(x) then -1 else 0
  {
    SignedRange(x);
    HalfTwice(|x|);
    WordsBelowPower(|x|, n);
    SignQuotient(Signed(x), Pow(2, n));
  }

  lemma {:induction false} SignQuotient(v: int, p: int)
    requires p > 0
    ensures v / p == (if v < 0 then -1 else 0) <==> -p <= v < p
  {
    if -p <= v < p {
      DivModUnique(v, p, if v < 0 then -1 else 0, if v < 0 then v + p else v);
    } else {
      FloorBasics(v, p);
    }
  }

  /** Result word k, for partial shifts of zero too. */
  method ReadRightWord(x: seq<word>, k: nat, part: nat) returns (w: word)
    requires k < |x| && part < 64
    ensures w == RightWord(x[k], Above(x, SignWord(x), k + 1), part)
  {
    RightWordExact(x[k], Above(x, SignWord(x), k + 1), part);
    DivModUnique(x[k], 1, x[k], 0);
    var y: nat := Shr(x[k], part);
    if part > 0 {
      var high := if k + 1 < |x| then x[k + 1] else SignWord(x);
      y := Bitwise(Or, Shl(high, 64 - part), y);
    }
    w := y;
  }

  method RightShiftWords(x: seq<word>, shift: nat) returns (data: array<word>)
    requires x != [] && shift / 64 < |x|
    ensures fresh(data) && Signed(data[..]) == Signed(x) / Pow(2, shift)
  {
    var whole, part := shift / 64, shift % 64;
    var size := |x| - whole;
    data := new word[size](_ => 0);
    for i := 0 to size
      invariant forall k :: 0 <= k < i ==>
                  data[k] == RightWord(x[whole + k], Above(x, SignWord(x), whole + k + 1), part)
    {
      var w := ReadRightWord(x, whole + i, part);
      data[i] := w;
    }
    RightShiftedSigned(x, data[..], shift);
  }

  lemma {:induction false} RightShiftedSigned(x: seq<word>, data: seq<word>, shift: nat)
    requires x != [] && shift / 64 < |x| && |data| == |x| - shift / 64
    requires forall k :: 0 <= k < |data| ==>
               data[k] == RightWord(x[shift / 64 + k], Above(x, SignWord(x), shift / 64 + k + 1), shift % 64)
    ensures Signed(data) == Signed(x) / Pow(2, shift)
  {
    var whole, part := shift / 64, shift % 64;
    RightSigned(x[whole..], data, part);
    DropWords(x, whole);
    PowSplit(whole, part);
    DivDiv(Signed(x), Pow(W, whole), Pow(2, part));
  }

  /**
    Shifts right, rounding down.  Counts of 2^64 and more always give the sign, which is the
    floor exactly when nothing else is left; operands of at most 2^58 words are that small.
  */
  method RightShiftFallback(x: seq<word>, count: seq<word>) returns (r: ShiftResult)
    requires x != [] && count != []
    ensures r.NegativeCount? <==> Signed(count) < 0
    ensures !r.CountOverflow? && (r.Shifted? ==> Canonical(r.x))
    ensures r.Shifted? ==> (Value(r.x) == Signed(x) / Pow(2, Signed(count))
                            <==> Signed(count) < W || OnlySign(Signed(x), Signed(count)))
    ensures r.Shifted? && Signed(count) >= W ==> Value(r.x) == if Signed(x) < 0 then -1 else 0
    ensures 64 * |x| <= W <= Signed(count) ==> OnlySign(Signed(x), Signed(count))
  {
    var c := ShiftCount(count);
    if c.Negative? {
      return NegativeCount;
    }
    if c.TooLarge? || c.n / 64 >= |x| {
      if Signed(count) < W || 64 * |x| <= W {
        HugeShift(x, Signed(count));
      }
      SignedRange(x);
      SignQuotient(Signed(x), Pow(2, Signed(count)));
      return Shifted(Inline(if IsNegative(x) then -1 else 0));
    }
    var data := RightShiftWords(x, c.n);
    var y := Normalize(data);
    return Shifted(y);
  }

  /** A one above k zero words. */
  lemma {:induction false} LeadingOne(k: nat)
    requires k > 0
    ensures var x := seq(k, _ => 0) + [1];
            CanonicalWords(x) && Signed(x) == Pow(W, k)
  {
    var zeros: seq<word> := seq(k, _ => 0);
    var x := zeros + [1];
    TopWord(x);
    ValZeros(W, zeros);
    assert x[..k] == zeros && x[k] == 1 && x[k - 1] == zeros[k - 1] == 0;
  }

  /**
    An operand on which a shift by 2^64 is not the floor: 2^(2^64), stored in 2^58 + 1 words.
    The floor is 1, the result 0.
  */
  lemma {:induction false} SignIsNotFloor(k: nat)
    requires 64 * k == W
    ensures var x: seq<word> := seq(k, _ => 0) + [1];
            && CanonicalWords(x) && Signed(x) == Pow(2, 64 * k) && !OnlySign(Signed(x), 64 * k)
            && Signed(x) / Pow(2, 64 * k) == 1
  {
    LeadingOne(k);
    PowSplit(k, 0);
    var p := Pow(2, 64 * k);
    DivModUnique(p, p, 1, 0);
  }
}
