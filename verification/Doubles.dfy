/**
  Conversions between integers and doubles.  A finite double is its normalized sign,
  53-bit significand and exponent.
*/
module Doubles {
  import opened Radix
  import opened Words
  import opened Bits
  import opened Additive
  import opened Magnitude
  import opened Shifts
  import opened BitwiseOps
  import opened Rounding

  /** Finite(neg, m, e) is m * 2^(e - 53), with m in [2^52, 2^53) unless it is zero. */
  datatype Double = NaN | Infinity(negative: bool) | Finite(negative: bool, significand: nat, exponent: int)

  predicate Normal(d: Double) {
    d.Finite? ==> (d.significand == 0 && d.exponent == 0) || TOP / 2 <= d.significand < TOP
  }

  // ---------- integer to double ----------

  datatype ToResult = Num(d: Double) | Overflow

  /** The double's value is exactly v. */
  ghost predicate DoubleIs(d: Double, v: int) {
    d.Finite? && Normal(d) && (v != 0 ==> d.negative == (v < 0)) &&
    if d.exponent >= 53 then d.significand * Pow(2, d.exponent - 53) == Abs(v)
    else d.significand == Abs(v) * Pow(2, 53 - d.exponent)
  }

  /** ldexp of a significand of at most 53 bits, or 2^53 itself. */
  function Ldexp(negative: bool, m: nat, shift: nat): (d: Double)
    requires m <= TOP
  {
    var n := BitLength(m);
    if m == 0 then Finite(negative, 0, 0)
    else if n <= 53 then Finite(negative, m * Pow(2, 53 - n), n + shift)
    else Finite(negative, TOP / 2, 54 + shift)
  }

  function Sign(negative: bool, n: nat): int { if negative then 0 - n else n }

  lemma {:induction false} LdexpExact(negative: bool, m: nat, shift: nat)
    requires m <= TOP && (shift == 0 || m >= TOP / 2)
    ensures DoubleIs(Ldexp(negative, m, shift), Sign(negative, m * Pow(2, shift)))
  {
    BitLengthBounds(m);
    if m == 0 {
      assert m * Pow(2, shift) == 0;
    } else if m >= TOP / 2 {
      PowTop();
      BitLengthUnique(m, if m == TOP then 54 else 53);
      FullLdexp(negative, m, shift);
    } else {
      SmallLdexp(m);
    }
  }

  lemma {:induction false} AbsOfSign(negative: bool, n: nat)
    ensures Abs(Sign(negative, n)) == n && (n > 0 ==> (Sign(negative, n) < 0 <==> negative))
  {
  }

  /** A full significand times a power of two, in the form the double stores. */
  lemma {:induction false} FullProduct(m: nat, shift: nat)
    requires TOP / 2 <= m <= TOP
    ensures m == TOP ==> TOP / 2 * Pow(2, 1 + shift) == m * Pow(2, shift)
    ensures m * Pow(2, 0) == m && m * Pow(2, shift) > 0
  {
    var p := Pow(2, shift);
    assert Pow(2, 1 + shift) == 2 * p;
    assert Pow(2, 0) == 1;
    assert TOP / 2 * (2 * p) == TOP * p;
    MulMono(p, 1, m);
  }

  lemma {:induction false} FullLdexp(negative: bool, m: nat, shift: nat)
    requires TOP / 2 <= m <= TOP && BitLength(m) == if m == TOP then 54 else 53
    ensures DoubleIs(Ldexp(negative, m, shift), Sign(negative, m * Pow(2, shift)))
  {
    FullProduct(m, shift);
    AbsOfSign(negative, m * Pow(2, shift));
  }

  lemma {:induction false} SmallLdexp(m: nat)
    requires 0 < m < TOP / 2
    ensures BitLength(m) < 53
    ensures TOP / 2 <= m * Pow(2, 53 - BitLength(m)) < TOP
  {
    var n := BitLength(m);
    PowTop();
    BitLengthBounds(m);
    if n >= 53 {
      PowMono(2, 52, n - 1);
    }
    var s := Pow(2, 53 - n);
    PowAdd(2, n, 53 - n);
    PowAdd(2, n - 1, 53 - n);
    MulMono(s, m + 1, Pow(2, n));
    MulDist(s, m, 1);
    MulMono(s, Pow(2, n - 1), m);
  }

  /** Bit i of the magnitude, read from the word that holds it. */
  lemma {:induction false} MagnitudeBit(x: seq<word>, first: nat, n: nat, i: nat)
    requires x != [] && IsFirstNonzero(x, first) && |x| <= n && i < 64 * n
    ensures BitAt(AbsWord(x, first, i / 64), i % 64) <==> BitAt(Abs(Signed(x)), i)
  {
    var t := AbsWords(x, first, n);
    var s := t + [0];
    AbsValue(x, first, n);
    ValSnoc(W, t, 0);
    SignedBit(s, i);
    assert s[i / 64] == t[i / 64];
  }

  // ---------- reading the magnitude bit by bit ----------

  lemma {:induction false} AppendBit(x: nat, i: nat)
    ensures x / Pow(2, i) == 2 * (x / Pow(2, i + 1)) + if BitAt(x, i) then 1 else 0
    ensures x % Pow(2, i + 1) == x % Pow(2, i) + if BitAt(x, i) then Pow(2, i) else 0
  {
    var p := Pow(2, i);
    var q, r := x / p, x % p;
    var h, b := q / 2, q % 2;
    DivModBasics(x, p);
    MulDist(p, 2 * h, b);
    assert p * (2 * h) == (2 * p) * h;
    DivModUnique(x, 2 * p, h, p * b + r);
  }

  /** At most 53 gathered bits stay far below the width of a word. */
  lemma {:induction false} GatheredBound(m: nat, bits: nat, i: nat)
    requires m < Pow(2, bits) && i <= bits <= i + 53
    ensures m / Pow(2, i) < TOP
  {
    PowTop();
    PowMono(2, bits, i + 53);
    PowAdd(2, i, 53);
    DivBelow(m, Pow(2, i), TOP);
  }

  /** The top `bits - shift` bits of the magnitude, as the significand loop gathers them. */
  method GatherBits(x: seq<word>, first: nat, bits: nat, shift: nat) returns (significand: nat)
    requires x != [] && IsFirstNonzero(x, first) && shift <= bits <= 64 * |x|
    requires Abs(Signed(x)) < Pow(2, bits) && bits - shift <= 53
    ensures significand == Abs(Signed(x)) / Pow(2, shift) < TOP
  {
    ghost var m := Abs(Signed(x));
    significand := 0;
    DivModUnique(m, Pow(2, bits), 0, m);
    for i := bits downto shift
      invariant significand == m / Pow(2, i) < TOP
    {
      GatheredBound(m, bits, i);
      MagnitudeBit(x, first, |x|, i);
      AppendBit(m, i);
      significand := 2 * significand + if BitAt(AbsWord(x, first, i / 64), i % 64) then 1 else 0;
    }
  }

  /** Whether any of the low n bits of the magnitude is set. */
  method StickyBits(x: seq<word>, first: nat, n: nat) returns (sticky: bool)
    requires x != [] && IsFirstNonzero(x, first) && n <= 64 * |x|
    ensures sticky <==> Abs(Signed(x)) % Pow(2, n) != 0
  {
    ghost var m := Abs(Signed(x));
    sticky := false;
    DivModUnique(m, 1, m, 0);
    for i := 0 to n
      invariant sticky <==> m % Pow(2, i) != 0
    {
      MagnitudeBit(x, first, |x|, i);
      AppendBit(m, i);
      DivModBasics(m, Pow(2, i));
      sticky := sticky || BitAt(AbsWord(x, first, i / 64), i % 64);
    }
  }

  /** Counts the bits of the top word. */
  method CountBits(high: word) returns (n: nat)
    ensures n == BitLength(high)
  {
    n := 0;
    var rest: nat := high;
    while rest != 0
      invariant n + BitLength(rest) == BitLength(high)
    {
      rest := rest / 2;
      n := n + 1;
    }
  }

  lemma {:induction false} TopWordBits(low: nat, high: nat, k: nat)
    requires low < Pow(2, k) && high > 0
    ensures BitLength(low + high * Pow(2, k)) == k + BitLength(high)
  {
    var n, p := BitLength(high), Pow(2, k);
    BitLengthBounds(high);
    PowAdd(2, n - 1, k);
    PowAdd(2, n, k);
    MulMono(p, Pow(2, n - 1), high);
    MulMono(p, high + 1, Pow(2, n));
    MulDist(p, high, 1);
    BitLengthUnique(low + high * p, n + k);
  }

  /** The magnitude without its high zero words. */
  method TrimWords(x: seq<word>, first: nat) returns (size: nat)
    requires x != [] && IsFirstNonzero(x, first)
    ensures size <= |x| && Val(W, AbsWords(x, first, |x|)[..size]) == Abs(Signed(x))
    ensures size > 0 ==> AbsWord(x, first, size - 1) != 0
  {
    ghost var s := AbsWords(x, first, |x|);
    AbsValue(x, first, |x|);
    size := |x|;
    assert s[..|x|] == s;
    while size > 0 && AbsWord(x, first, size - 1) == 0
      invariant 0 <= size <= |x| && Val(W, s[..size]) == Abs(Signed(x))
    {
      ValStep(W, s, size - 1);
      size := size - 1;
    }
  }

  /** Significant words of the magnitude, and its bit length from the top one. */
  method SignificantWords(x: seq<word>, first: nat) returns (size: nat, bits: nat)
    requires x != [] && IsFirstNonzero(x, first)
    ensures size <= |x| && (size == 0 <==> Signed(x) == 0) && bits == BitLength(Abs(Signed(x)))
    ensures size > 0 ==> 64 * (size - 1) < bits <= 64 * size
  {
    size := TrimWords(x, first);
    if size == 0 {
      return 0, 0;
    }
    var high := AbsWord(x, first, size - 1);
    var highBits := CountBits(high);
    bits := (size - 1) * 64 + highBits;
    LengthFromTop(AbsWords(x, first, |x|)[..size]);
    WordBits(high);
  }

  lemma {:induction false} LengthFromTop(s: seq<word>)
    requires s != [] && s[|s| - 1] != 0
    ensures Val(W, s) > 0 && BitLength(Val(W, s)) == 64 * (|s| - 1) + BitLength(s[|s| - 1])
  {
    var n := |s| - 1;
    TopWord(s);
    PowSplit(n, 0);
    TopWordBits(Val(W, s[..n]), s[n], 64 * n);
    MulMono(Pow(W, n), 1, s[n]);
  }

  lemma {:induction false} WordBits(x: word)
    requires x > 0
    ensures 0 < BitLength(x) <= 64
  {
    BitLengthBounds(x);
    Pow2Words();
    if BitLength(x) > 64 {
      PowMono(2, 64, BitLength(x) - 1);
    }
  }

  /** The rounding decision from the half bit, the sticky bits below it and the last kept bit. */
  lemma {:induction false} RoundingDecision(x: nat)
    requires ExtraBits(x) > 0
    ensures var k := ExtraBits(x);
            var q := x / Pow(2, k);
            RoundedSignificand(x)
            == if BitAt(x, k - 1) && (x % Pow(2, k - 1) != 0 || q % 2 == 1) then q + 1 else q
  {
    var k := ExtraBits(x);
    AppendBit(x, k - 1);
    DivModBasics(x, Pow(2, k - 1));
    assert Pow(2, k) == 2 * Pow(2, k - 1);
  }

  /** Rounding reaches 2^1024 exactly when the value does or its 1024 bits round up. */
  lemma {:induction false} RoundedOverflow(x: nat)
    ensures var n := BitLength(x);
            Rounded(x) >= Pow(2, 1024) <==> n > 1024 || (n == 1024 && RoundedSignificand(x) == TOP)
  {
    var k, m := ExtraBits(x), RoundedSignificand(x);
    RoundedRange(x);
    OverflowArith(m, Pow(2, k));
    Binade(k);
    Thresholds(k);
  }

  lemma {:induction false} Binade(k: nat)
    ensures TOP * Pow(2, k) == Pow(2, 53 + k) && TOP / 2 * Pow(2, k) == Pow(2, 52 + k)
  {
    PowTop();
    PowAdd(2, 52, k);
    PowAdd(2, 53, k);
  }

  lemma {:induction false} Thresholds(k: nat)
    ensures k > 971 ==> Pow(2, 52 + k) >= Pow(2, 1024)
    ensures k == 971 ==> Pow(2, 53 + k) == Pow(2, 1024)
    ensures k < 971 ==> Pow(2, 53 + k) < Pow(2, 1024)
  {
    if k > 971 {
      PowMono(2, 1024, 52 + k);
    } else if k < 971 {
      PowMono(2, 53 + k, 1023);
      assert Pow(2, 1024) == 2 * Pow(2, 1023);
    }
  }

  /** Where m * s lies for a significand m of at most 53 bits, or 2^53 itself. */
  lemma {:induction false} OverflowArith(m: int, s: int)
    requires 0 <= m <= TOP && s > 0
    ensures m * s <= TOP * s
    ensures m >= TOP / 2 ==> m * s >= TOP / 2 * s
    ensures m < TOP ==> m * s < TOP * s
  {
    MulMono(s, m, TOP);
    MulMono(s, TOP - m, TOP);
    assert (TOP - m) * s == TOP * s - m * s;
    if m >= TOP / 2 {
      MulMono(s, TOP / 2, m);
    }
  }

  /** Rounds to the nearest double, ties to even; throws exactly when that reaches 2^1024. */
  method ToDoubleFallback(value: BigInt) returns (r: ToResult)
    requires Canonical(value)
    ensures r.Overflow? <==> Rounded(Abs(Value(value))) >= Pow(2, 1024)
    ensures r.Num? ==> DoubleIs(r.d, Sign(Value(value) < 0, Rounded(Abs(Value(value)))))
    ensures Value(value) == 0 ==> r == Num(Finite(false, 0, 0))
  {
    var x := View(value);
    ViewValue(value);
    SignedRange(x);
    ghost var m := Abs(Signed(x));
    RoundedOverflow(m);
    RoundedRange(m);
    BitLengthBounds(m);
    var first := FirstNonzero(x);
    var size, bits := SignificantWords(x, first);
    if size == 0 {
      assert BitLength(m) == 0 && m * Pow(2, 0) == 0;
      return Num(Finite(false, 0, 0));
    }
    if size > 16 {
      return Overflow;
    }
    var shift := if bits > 53 then bits - 53 else 0;
    var significand := RoundBits(x, first, bits, shift);
    if bits == 1024 && significand == TOP {
      return Overflow;
    }
    LdexpExact(IsNegative(x), significand, shift);
    return Num(Ldexp(IsNegative(x), significand, shift));
  }

  /** Gathers the kept bits and rounds them by the half bit and the bits below it. */
  method RoundBits(x: seq<word>, first: nat, bits: nat, shift: nat) returns (significand: nat)
    requires x != [] && IsFirstNonzero(x, first) && bits == BitLength(Abs(Signed(x))) <= 64 * |x|
    requires shift == ExtraBits(Abs(Signed(x)))
    ensures significand == RoundedSignificand(Abs(Signed(x)))
  {
    ghost var m := Abs(Signed(x));
    BitLengthBounds(m);
    assert bits - shift <= 53;
    significand := GatherBits(x, first, bits, shift);
    if shift > 0 {
      var sticky := StickyBits(x, first, shift - 1);
      MagnitudeBit(x, first, |x|, shift - 1);
      RoundingDecision(m);
      if BitAt(AbsWord(x, first, (shift - 1) / 64), (shift - 1) % 64) && (sticky || significand % 2 == 1) {
        significand := significand + 1;
      }
    } else {
      NothingExtra(m);
    }
  }

  lemma {:induction false} NothingExtra(m: nat)
    requires ExtraBits(m) == 0
    ensures RoundedSignificand(m) == m / Pow(2, 0)
  {
    RoundedRange(m);
    DivModUnique(m, 1, m, 0);
  }

  // ---------- double to integer ----------

  datatype FromResult = Integer(x: BigInt) | ValueError | OverflowError

  /** v is the finite double rounded toward zero. */
  ghost predicate IsTruncated(d: Double, v: int) {
    d.Finite? && exists t: nat :: v == Sign(d.negative, t) && TruncatesTo(d.significand, d.exponent, t)
  }

  ghost predicate TruncatesTo(m: nat, exponent: int, t: nat) {
    if exponent >= 53 then t == m * Pow(2, exponent - 53)
    else t * Pow(2, 53 - exponent) <= m < (t + 1) * Pow(2, 53 - exponent)
  }

  lemma {:induction false} TruncatedUnique(d: Double, v: int, w: int)
    requires IsTruncated(d, v) && IsTruncated(d, w)
    ensures v == w
  {
    var t: nat :| v == Sign(d.negative, t) && TruncatesTo(d.significand, d.exponent, t);
    var u: nat :| w == Sign(d.negative, u) && TruncatesTo(d.significand, d.exponent, u);
    if d.exponent < 53 {
      var s := Pow(2, 53 - d.exponent);
      if t < u {
        MulMono(s, t + 1, u);
      } else if u < t {
        MulMono(s, u + 1, t);
      }
    }
  }

  /** An exact value is its own truncation. */
  lemma {:induction false} ExactIsTruncated(d: Double, v: int)
    requires DoubleIs(d, v)
    ensures IsTruncated(d, v)
  {
    var t := Abs(v);
    if d.exponent < 53 {
      MulDist(Pow(2, 53 - d.exponent), t, 1);
    }
    if v == 0 && d.significand > 0 && d.exponent >= 53 {
      MulMono(Pow(2, d.exponent - 53), 1, d.significand);
    }
    assert v == Sign(d.negative, t) && TruncatesTo(d.significand, d.exponent, t);
  }

  lemma {:induction false} SmallTruncation(m: nat, exponent: int)
    requires m < TOP && exponent <= 53
    ensures exponent <= 0 ==> TruncatesTo(m, exponent, 0)
    ensures exponent > 0 ==> TruncatesTo(m, exponent, m / Pow(2, 53 - exponent)) && m / Pow(2, 53 - exponent) <= m
  {
    var s := Pow(2, 53 - exponent);
    if exponent <= 0 {
      PowTop();
      PowMono(2, 53, 53 - exponent);
    } else {
      DivModBasics(m, s);
      var q := m / s;
      MulDist(s, q, 1);
      MulMono(q, 1, s);
      if exponent == 53 {
        DivModUnique(m, 1, m, 0);
      }
    }
  }

  /** The significand split over the two words it lands in. */
  lemma {:induction false} PlacedWords(m: nat, part: nat)
    requires m < TOP && part < 64
    ensures Shl(m, part) + W * Shr(m, 64 - part) == m * Pow(2, part)
    ensures part == 0 ==> Shr(m, 64 - part) == 0
    ensures Shr(m, 64 - part) < W
  {
    var s, t := Pow(2, part), Pow(2, 64 - part);
    PowInverse(part);
    ShiftedWord(m, s, t);
    DivModBasics(m, t);
    MulMono(m / t, 1, t);
    if part == 0 {
      DivModUnique(m, W, 0, m);
    }
  }

  /** A number placed at word `whole` of otherwise zero words. */
  lemma {:induction false} PlacedValue(d: seq<word>, whole: nat, low: word, high: word)
    requires whole + 2 <= |d|
    requires forall i :: 0 <= i < |d| && i != whole && i != whole + 1 ==> d[i] == 0
    requires d[whole] == low && d[whole + 1] == high
    ensures Val(W, d) == Pow(W, whole) * (low + W * high)
  {
    var t := d[whole..];
    ValSplit(W, d, whole);
    ValZeros(W, d[..whole]);
    ValZeros(W, t[1..][1..]);
    assert t[1..][0] == high && t[0] == low;
    assert Val(W, t[1..]) == high + W * Val(W, t[1..][1..]);
  }

  /** Places the shifted significand in words; the words above stay zero as sign guard. */
  method PlaceSignificand(m: nat, exponent: nat) returns (data: array<word>)
    requires m < TOP && exponent > 53
    ensures fresh(data) && data.Length > 0
    ensures Val(W, data[..]) == m * Pow(2, exponent - 53) < Half(data.Length)
  {
    var shift := exponent - 53;
    var size := (exponent + 63) / 64 + 1;
    var whole, part := shift / 64, shift % 64;
    data := new word[size](_ => 0);
    PlacedWords(m, part);
    var low, high: word := Shl(m, part), Shr(m, 64 - part);
    data[whole] := low;
    if part > 0 {
      data[whole + 1] := high;
    }
    PlacedValue(data[..], whole, low, high);
    PlacedProduct(m, whole, part);
    PlacedBound(m, exponent, size);
  }

  lemma {:induction false} PlacedProduct(m: nat, whole: nat, part: nat)
    ensures Pow(W, whole) * (m * Pow(2, part)) == m * Pow(2, 64 * whole + part)
  {
    PowSplit(whole, part);
    Regroup(m, Pow(W, whole), Pow(2, part), 1);
  }

  lemma {:induction false} PlacedBound(m: nat, exponent: nat, size: nat)
    requires m < TOP && exponent > 53 && size == (exponent + 63) / 64 + 1
    ensures m * Pow(2, exponent - 53) < Half(size)
  {
    ScaledBound(m, exponent);
    PowBelowHalf(exponent, size);
  }

  lemma {:induction false} ScaledBound(m: nat, exponent: nat)
    requires m < TOP && exponent > 53
    ensures m * Pow(2, exponent - 53) < Pow(2, exponent)
  {
    PowTop();
    PowAdd(2, 53, exponent - 53);
    var p := Pow(2, exponent - 53);
    MulMono(p, m + 1, TOP);
    MulDist(p, m, 1);
  }

  lemma {:induction false} PowBelowHalf(exponent: nat, size: nat)
    requires size == (exponent + 63) / 64 + 1
    ensures Pow(2, exponent) <= Half(size)
  {
    PowSplit(size - 1, 0);
    PowMono(2, exponent, 64 * (size - 1));
  }

  /** Truncates a double toward zero. */
  method FromDoubleFallback(d: Double) returns (r: FromResult)
    requires Normal(d)
    ensures r.ValueError? <==> d.NaN?
    ensures r.OverflowError? <==> d.Infinity?
    ensures r.Integer? ==> Canonical(r.x) && IsTruncated(d, Value(r.x))
  {
    if d.NaN? {
      return ValueError;
    }
    if d.Infinity? {
      return OverflowError;
    }
    if d.exponent <= 53 {
      SmallTruncation(d.significand, d.exponent);
    }
    if d.exponent <= 0 {
      assert 0 == Sign(d.negative, 0);
      return Integer(Inline(0));
    }
    if d.exponent <= 53 {
      var t := Shr(d.significand, 53 - d.exponent);
      return Integer(Inline(Sign(d.negative, t)));
    }
    var data := PlaceSignificand(d.significand, d.exponent);
    ghost var t := d.significand * Pow(2, d.exponent - 53);
    ApplySign(data, d.negative);
    var x := Normalize(data);
    assert Value(x) == Sign(d.negative, t) && TruncatesTo(d.significand, d.exponent, t);
    return Integer(x);
  }

  // ---------- the two conversions together ----------

  /** At most 53 significant bits round to themselves. */
  lemma {:induction false} RoundedExact(x: nat, m: nat, e: nat)
    requires m <= TOP && x == m * Pow(2, e)
    ensures Rounded(x) == x
  {
    NearestDouble(x, m, e, 0);
    assert Pow(2, 0) == 1;
  }

  /** At most 53 significant bits. */
  ghost predicate FitsDouble(x: nat) { exists m: nat, e: nat :: Scaled(m, e) == x && m <= TOP }

  function Scaled(m: nat, e: nat): nat { m * Pow(2, e) }

  lemma {:induction false} RoundedFits(x: nat)
    ensures FitsDouble(x) <==> Rounded(x) == x
  {
    if FitsDouble(x) {
      var m: nat, e: nat :| Scaled(m, e) == x && m <= TOP;
      RoundedExact(x, m, e);
    }
    RoundedRange(x);
    assert Rounded(x) == Scaled(RoundedSignificand(x), ExtraBits(x));
  }

  /** To double and back is the identity exactly on the integers of at most 53 significant bits below 2^1024. */
  method DoubleRoundTrip(x: BigInt) returns (r: FromResult)
    requires Canonical(x)
    ensures r == Integer(x) <==> FitsDouble(Abs(Value(x))) && Abs(Value(x)) < Pow(2, 1024)
  {
    ghost var v := Value(x);
    RoundedFits(Abs(v));
    var d := ToDoubleFallback(x);
    if d.Overflow? {
      return OverflowError;
    }
    r := FromDoubleFallback(d.d);
    ghost var w := Sign(v < 0, Rounded(Abs(v)));
    ExactIsTruncated(d.d, w);
    TruncatedUnique(d.d, Value(r.x), w);
    if w == v {
      CanonicalUnique(r.x, x);
    }
  }

  lemma {:induction false} IntegralFits(d: Double, v: int)
    requires DoubleIs(d, v)
    ensures FitsDouble(Abs(v))
  {
    if d.exponent >= 53 {
      assert Scaled(d.significand, d.exponent - 53) == Abs(v);
    } else {
      var s := Pow(2, 53 - d.exponent);
      MulMono(Abs(v), 1, s);
      assert Scaled(Abs(v), 0) == Abs(v);
    }
  }

  /** To integer and back is the identity on every double that is a nonzero integer. */
  method IntegralRoundTrip(d: Double, ghost v: int) returns (r: ToResult)
    requires DoubleIs(d, v) && v != 0 && Abs(v) < Pow(2, 1024)
    ensures r == ToResult.Num(d)
  {
    var x := FromDoubleFallback(d);
    ExactIsTruncated(d, v);
    TruncatedUnique(d, Value(x.x), v);
    IntegralFits(d, v);
    RoundedFits(Abs(v));
    r := ToDoubleFallback(x.x);
    DoubleUnique(d, r.d, v);
  }

  /** A nonzero double is determined by its value. */
  lemma {:induction false} DoubleUnique(d: Double, d': Double, v: int)
    requires DoubleIs(d, v) && DoubleIs(d', v) && v != 0
    ensures d == d'
  {
    var n := Abs(v);
    DoubleLength(d, v);
    DoubleLength(d', v);
    if d.exponent >= 53 {
      CancelScale(Pow(2, d.exponent - 53), d.significand, d'.significand);
    }
  }

  lemma {:induction false} CancelScale(s: int, x: int, y: int)
    requires s > 0 && x * s == y * s
    ensures x == y
  {
    MulDist(s, x, 1);
    MulDist(s, y, 1);
    if x < y {
      MulMonoInt(s, x + 1, y);
    } else if y < x {
      MulMonoInt(s, y + 1, x);
    }
  }

  lemma {:induction false} MulMonoInt(s: int, x: int, y: int)
    requires s >= 0 && x <= y
    ensures x * s <= y * s
  {
  }

  lemma {:induction false} DoubleLength(d: Double, v: int)
    requires DoubleIs(d, v) && v != 0
    ensures d.exponent == BitLength(Abs(v)) && d.negative == (v < 0)
  {
    var n, m := Abs(v), d.significand;
    PowTop();
    if d.exponent >= 53 {
      var s := Pow(2, d.exponent - 53);
      assert m > 0 by {
        assert 0 * s == 0;
      }
      BitLengthUnique(m, 53);
      BitLengthScaled(m, d.exponent - 53);
    } else {
      MulMono(Pow(2, 53 - d.exponent), 1, n);
      BitLengthUnique(m, 53);
      BitLengthScaled(n, 53 - d.exponent);
    }
  }

  // ---------- the conversions of the integer type ----------

  /** d >= v and d < v for a finite double and an integer, as the reals compare. */
  predicate AtLeast(d: Double, v: int)
    requires d.Finite?
  {
    if d.exponent >= 53 then Sign(d.negative, d.significand * Pow(2, d.exponent - 53)) >= v
    else Sign(d.negative, d.significand) >= v * Pow(2, 53 - d.exponent)
  }

  predicate Below(d: Double, v: int)
    requires d.Finite?
  {
    if d.exponent >= 53 then Sign(d.negative, d.significand * Pow(2, d.exponent - 53)) < v
    else Sign(d.negative, d.significand) < v * Pow(2, 53 - d.exponent)
  }

  /** The range test in front of the inline conversion; its upper bound is exclusive. */
  predicate InRange(d: Double) { d.Finite? && AtLeast(d, 0 - HALF) && Below(d, HALF) }

  /** Rounding toward zero below exponent 53 stays within 53 bits, far inside int64. */
  lemma {:induction false} SmallInRange(d: Double, v: int)
    requires d.Finite? && Normal(d) && d.exponent < 53 && IsTruncated(d, v)
    ensures InRange(d) && InInt64(v)
  {
    var t: nat :| v == Sign(d.negative, t) && TruncatesTo(d.significand, d.exponent, t);
    var s := Pow(2, 53 - d.exponent);
    MulMono(t, 1, s);
    MulMono(HALF, 1, s);
    assert (0 - HALF) * s == 0 - HALF * s;
  }

  /** The test selects exactly the doubles whose truncation fits int64. */
  lemma {:induction false} RangeExact(d: Double, v: int)
    requires d.Finite? && Normal(d) && IsTruncated(d, v)
    ensures InRange(d) <==> InInt64(v)
  {
    if d.exponent < 53 {
      SmallInRange(d, v);
    }
  }

  /** What the language's cast to int64 does with a double whose truncation fits. */
  function CastToInt64(d: Double): (v: int)
    requires d.Finite? && Normal(d)
    ensures IsTruncated(d, v)
  {
    if d.exponent >= 53 then
      var t: nat := d.significand * Pow(2, d.exponent - 53);
      assert TruncatesTo(d.significand, d.exponent, t);
      Sign(d.negative, t)
    else
      SmallTruncation(d.significand, d.exponent);
      var t: nat := if d.exponent <= 0 then 0 else d.significand / Pow(2, 53 - d.exponent);
      assert TruncatesTo(d.significand, d.exponent, t);
      Sign(d.negative, t)
  }

  /** Double to integer: inline when the range test says so, and then with the fallback's result. */
  method FromDouble(d: Double) returns (r: FromResult)
    requires Normal(d)
    ensures r.ValueError? <==> d.NaN?
    ensures r.OverflowError? <==> d.Infinity?
    ensures r.Integer? ==> Canonical(r.x) && IsTruncated(d, Value(r.x)) && (r.x.Inline? <==> InRange(d))
    ensures r.Integer? ==> forall y :: Canonical(y) && IsTruncated(d, Value(y)) ==> y == r.x
  {
    if InRange(d) {
      RangeExact(d, CastToInt64(d));
      r := Integer(Inline(CastToInt64(d)));
    } else {
      r := FromDoubleFallback(d);
    }
    if r.Integer? {
      OneTruncation(d, r.x);
    }
  }

  lemma {:induction false} OneTruncation(d: Double, x: BigInt)
    requires Normal(d) && Canonical(x) && IsTruncated(d, Value(x))
    ensures x.Inline? <==> InRange(d)
    ensures forall y :: Canonical(y) && IsTruncated(d, Value(y)) ==> y == x
  {
    RangeExact(d, Value(x));
    ViewValue(x);
    forall y | Canonical(y) && IsTruncated(d, Value(y))
      ensures y == x
    {
      TruncatedUnique(d, Value(y), Value(x));
      CanonicalUnique(y, x);
    }
  }

  lemma {:induction false} ZeroRounds()
    ensures RoundedSignificand(0) == 0
  {
    BitLengthBounds(0);
    NothingExtra(0);
  }

  /** What the language's cast from int64 gives: the nearest double, ties to even. */
  function CastToDouble(v: int64): (d: Double)
    ensures DoubleIs(d, Sign(v < 0, Rounded(Abs(v))))
    ensures v == 0 ==> d == Finite(false, 0, 0)
  {
    var m := Abs(v);
    ZeroRounds();
    RoundedRange(m);
    LdexpExact(v < 0, RoundedSignificand(m), ExtraBits(m));
    Ldexp(v < 0, RoundedSignificand(m), ExtraBits(m))
  }

  lemma {:induction false} SmallNeverOverflows(v: int64)
    ensures Rounded(Abs(v)) < Pow(2, 1024)
  {
    var m := Abs(v);
    RoundedRange(m);
    BitLengthBounds(m);
    Pow2Words();
    if BitLength(m) > 64 {
      PowMono(2, 64, BitLength(m) - 1);
    }
    RoundedOverflow(m);
  }

  /** Integer to double: the inline cast and the fallback round the same way and overflow alike. */
  method ToDouble(x: BigInt) returns (r: ToResult)
    requires Canonical(x)
    ensures r.Overflow? <==> Rounded(Abs(Value(x))) >= Pow(2, 1024)
    ensures r.Num? ==> DoubleIs(r.d, Sign(Value(x) < 0, Rounded(Abs(Value(x)))))
    ensures Value(x) == 0 ==> r == ToResult.Num(Finite(false, 0, 0))
  {
    if x.Inline? {
      SmallNeverOverflows(x.v);
      return ToResult.Num(CastToDouble(x.v));
    }
    r := ToDoubleFallback(x);
  }
}
