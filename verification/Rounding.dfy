/**
  Rounding a natural number to 53 significant bits, to nearest with ties to even: bit lengths,
  the rounded significand, how far it is from the number and that no other 53-bit significand
  at any exponent is nearer.
*/
module Rounding {
  import opened Radix
  import opened Bits
  import opened Magnitude

  const TOP: nat := 0x20_0000_0000_0000  // 2^53

  lemma {:induction false} PowTop()
    ensures Pow(2, 53) == TOP && Pow(2, 52) == TOP / 2
  {
    Pow2Small();
    PowAdd(2, 16, 16);
    PowAdd(2, 32, 16);
    assert Pow(2, 4) == 16;
    PowAdd(2, 48, 4);
    assert Pow(2, 53) == 2 * Pow(2, 52);
  }

  // ---------- bit lengths ----------

  function BitLength(x: nat): nat { if x == 0 then 0 else 1 + BitLength(x / 2) }

  lemma {:induction false} BitLengthBounds(x: nat)
    ensures x < Pow(2, BitLength(x))
    ensures x > 0 ==> BitLength(x) > 0 && Pow(2, BitLength(x) - 1) <= x
  {
    if x > 1 {
      BitLengthBounds(x / 2);
    }
  }

  lemma {:induction false} BitLengthUnique(x: nat, n: nat)
    requires n > 0 && Pow(2, n - 1) <= x < Pow(2, n)
    ensures BitLength(x) == n
    decreases n
  {
    if n > 1 {
      BitLengthUnique(x / 2, n - 1);
    }
  }

  lemma {:induction false} BitLengthScaled(x: nat, k: nat)
    requires x > 0
    ensures BitLength(x * Pow(2, k)) == BitLength(x) + k
  {
    var n, s := BitLength(x), Pow(2, k);
    BitLengthBounds(x);
    PowAdd(2, n - 1, k);
    PowAdd(2, n, k);
    MulMono(s, Pow(2, n - 1), x);
    MulMono(s, x + 1, Pow(2, n));
    MulDist(s, x, 1);
    BitLengthUnique(x * s, n + k);
  }

  // ---------- rounding to nearest, ties to even ----------

  /** How many low bits of x do not fit a 53-bit significand. */
  function ExtraBits(x: nat): nat { if BitLength(x) > 53 then BitLength(x) - 53 else 0 }

  /** q or q + 1, whichever multiple is nearer to q * s + r; a tie goes to the even one. */
  function HalfEven(q: nat, r: nat, s: nat): nat {
    if 2 * r > s || (2 * r == s && q % 2 == 1) then q + 1 else q
  }

  function RoundedSignificand(x: nat): nat {
    var s := Pow(2, ExtraBits(x));
    HalfEven(x / s, x % s, s)
  }

  /** The magnitude the conversion rounds x to. */
  function Rounded(x: nat): nat { RoundedSignificand(x) * Pow(2, ExtraBits(x)) }

  lemma {:induction false} HalfEvenClose(x: nat, q: nat, r: nat, s: nat)
    requires x == r + s * q && r < s
    ensures var m := HalfEven(q, r, s);
            2 * Abs(x - m * s) <= s && (2 * Abs(x - m * s) == s ==> m % 2 == 0)
  {
    MulDist(s, q, 1);
  }

  lemma {:induction false} RoundedClose(x: nat)
    ensures var s, m := Pow(2, ExtraBits(x)), RoundedSignificand(x);
            2 * Abs(x - m * s) <= s && (2 * Abs(x - m * s) == s ==> m % 2 == 0)
  {
    var s := Pow(2, ExtraBits(x));
    DivModBasics(x, s);
    HalfEvenClose(x, x / s, x % s, s);
  }

  lemma {:induction false} HalfEvenRange(q: nat, r: nat, s: nat)
    requires q < TOP
    ensures q <= HalfEven(q, r, s) <= TOP
  {
  }

  lemma {:induction false} RoundedRange(x: nat)
    ensures RoundedSignificand(x) <= TOP
    ensures ExtraBits(x) > 0 ==> TOP / 2 <= RoundedSignificand(x)
    ensures ExtraBits(x) == 0 ==> RoundedSignificand(x) == x
  {
    BitLengthBounds(x);
    var k := ExtraBits(x);
    var s := Pow(2, k);
    if k > 0 {
      QuotientRange(x, k);
      HalfEvenRange(x / s, x % s, s);
    } else {
      PowTop();
      PowMono(2, BitLength(x), 53);
      DivModUnique(x, 1, x, 0);
    }
  }

  lemma {:induction false} QuotientRange(x: nat, k: nat)
    requires Pow(2, 52 + k) <= x < Pow(2, 53 + k)
    ensures TOP / 2 <= x / Pow(2, k) < TOP
  {
    PowTop();
    PowAdd(2, 53, k);
    PowAdd(2, 52, k);
    DivBelow(x, Pow(2, k), TOP);
    AtLeastQuotient(x, Pow(2, k), TOP / 2);
  }

  lemma {:induction false} AtLeastQuotient(x: nat, s: nat, n: nat)
    requires s > 0 && n * s <= x
    ensures n <= x / s
  {
    DivModBasics(x, s);
    var q := x / s;
    MulDist(s, q, 1);
    if q < n {
      MulMono(s, q + 1, n);
    }
  }

  /**
    No double is closer to x: every double's magnitude is m * 2^e / 2^k for some m of at most
    53 bits, compared here at the common scale 2^k.
  */
  lemma {:induction false} NearestDouble(x: nat, m: nat, e: nat, k: nat)
    requires m <= TOP
    ensures Abs(Pow(2, k) * (x - Rounded(x))) <= Abs(Pow(2, k) * x - m * Pow(2, e))
  {
    var b := ExtraBits(x);
    if b == 0 {
      RoundedRange(x);
      assert Rounded(x) == x * Pow(2, 0) == x;
      assert Pow(2, k) * (x - Rounded(x)) == 0;
    } else if e >= b + k {
      OnGrid(m, e, b, k);
      NearestOnGrid(x, m * Pow(2, e - b - k), k);
    } else {
      BelowBinade(x, m, e, k);
      NearestOnGrid(x, TOP / 2, k);
      MulDist(Pow(2, k), x, TOP / 2 * Pow(2, b));
    }
  }

  lemma {:induction false} OnGrid(m: nat, e: nat, b: nat, k: nat)
    requires e >= b + k
    ensures m * Pow(2, e) == Pow(2, k) * (m * Pow(2, e - b - k) * Pow(2, b))
  {
    PowAdd(2, b + k, e - b - k);
    PowAdd(2, b, k);
    Regroup(m, Pow(2, b), Pow(2, k), Pow(2, e - b - k));
  }

  lemma {:induction false} Regroup(m: int, s: int, c: int, f: int)
    ensures m * ((s * c) * f) == c * (m * f * s)
  {
  }

  /** Against any multiple of the rounding step, at the scale 2^k. */
  lemma {:induction false} NearestOnGrid(x: nat, g: nat, k: nat)
    ensures Abs(Pow(2, k) * (x - Rounded(x))) <= Abs(Pow(2, k) * x - Pow(2, k) * (g * Pow(2, ExtraBits(x))))
  {
    var s, c := Pow(2, ExtraBits(x)), Pow(2, k);
    RoundedClose(x);
    GridNearest(x, RoundedSignificand(x), g, s);
    ScaleAbs(c, x - Rounded(x), x - g * s);
    MulDist(c, x, g * s);
  }

  /** A grid point at most half a step away is as close as any. */
  lemma {:induction false} GridNearest(x: int, m: int, g: int, s: int)
    requires s > 0 && 2 * Abs(x - m * s) <= s
    ensures Abs(x - m * s) <= Abs(x - g * s)
  {
    MulDist(s, m, g);
    if m < g {
      MulMono(s, 1, g - m);
      MulDist(s, g, m);
    } else if g < m {
      MulMono(s, 1, m - g);
    }
  }

  lemma {:induction false} ScaleAbs(c: nat, x: int, y: int)
    requires Abs(x) <= Abs(y)
    ensures Abs(c * x) <= Abs(c * y)
  {
    AbsScaled(c, x);
    AbsScaled(c, y);
    MulMono(c, Abs(x), Abs(y));
  }

  lemma {:induction false} AbsScaled(c: nat, x: int)
    ensures Abs(c * x) == c * Abs(x)
  {
    assert c * (-x) == -(c * x);
  }

  /** Doubles of a smaller exponent lie at or below the start of x's binade. */
  lemma {:induction false} BelowBinade(x: nat, m: nat, e: nat, k: nat)
    requires m <= TOP && ExtraBits(x) > 0 && e < ExtraBits(x) + k
    ensures var s := Pow(2, ExtraBits(x));
            m * Pow(2, e) <= Pow(2, k) * (TOP / 2 * s) <= Pow(2, k) * x
  {
    var b, c := ExtraBits(x), Pow(2, k);
    var s := Pow(2, b);
    assert TOP / 2 * s <= x by {
      PowTop();
      BitLengthBounds(x);
      PowAdd(2, 52, b);
    }
    MulMono(c, TOP / 2 * s, x);
    SmallDouble(m, e, b, k);
  }

  lemma {:induction false} SmallDouble(m: nat, e: nat, b: nat, k: nat)
    requires m <= TOP && b > 0 && e < b + k
    ensures m * Pow(2, e) <= Pow(2, k) * (TOP / 2 * Pow(2, b))
  {
    var p, q := Pow(2, e), Pow(2, b + k - 1);
    PowMono(2, e, b + k - 1);
    MulMono(p, m, TOP);
    MulMono(TOP, p, q);
    assert Pow(2, b + k) == 2 * q;
    PowAdd(2, b, k);
    Regroup(TOP / 2, Pow(2, b), Pow(2, k), 1);
  }
}
