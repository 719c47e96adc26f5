/**
  Positional notation: the natural number that a little-endian sequence of digits
  stands for in an arbitrary base.  Every bignum routine, the decimal text and the
  byte hash speak about one of its instances: words are digits in base 2^64, half
  words in base 2^32, bytes in base 256.
*/
module Radix {

  /** b to the power n. */
  function Pow(b: nat, n: nat): (p: nat)
    ensures b > 0 ==> p > 0
  {
    if n == 0 then 1 else b * Pow(b, n - 1)
  }

  /** The number written by `s`, least significant digit first. */
  function Val(b: nat, s: seq<nat>): nat {
    if s == [] then 0 else s[0] + b * Val(b, s[1..])
  }

  predicate Digits(b: nat, s: seq<nat>) {
    forall i :: 0 <= i < |s| ==> s[i] < b
  }

  lemma {:induction false} PowAdd(b: nat, m: nat, n: nat)
    ensures Pow(b, m + n) == Pow(b, m) * Pow(b, n)
  {
    if m > 0 {
      PowAdd(b, m - 1, n);
      assert Pow(b, m + n) == b * Pow(b, m - 1 + n);
      MulAssoc(b, Pow(b, m - 1), Pow(b, n));
    }
  }

  lemma {:induction false} PowPow(b: nat, m: nat, n: nat)
    ensures Pow(Pow(b, m), n) == Pow(b, m * n)
  {
    if n > 0 {
      PowPow(b, m, n - 1);
      PowAdd(b, m, m * (n - 1));
      assert m * n == m + m * (n - 1);
    }
  }

  lemma {:induction false} PowMono(b: nat, m: nat, n: nat)
    requires b > 0 && m <= n
    ensures Pow(b, m) <= Pow(b, n)
  {
    if m < n {
      PowMono(b, m, n - 1);
      assert Pow(b, n) == b * Pow(b, n - 1) >= Pow(b, n - 1);
    }
  }

  lemma {:induction false} MulAssoc(x: int, y: int, z: int)
    ensures x * (y * z) == (x * y) * z
  {
  }

  lemma {:induction false} ValConcat(b: nat, s: seq<nat>, t: seq<nat>)
    ensures Val(b, s + t) == Val(b, s) + Pow(b, |s|) * Val(b, t)
  {
    if s == [] {
      assert s + t == t;
    } else {
      ValConcat(b, s[1..], t);
      assert (s + t)[1..] == s[1..] + t;
      var r := Pow(b, |s| - 1);
      calc {
        Val(b, s + t);
        s[0] + b * (Val(b, s[1..]) + r * Val(b, t));
        { MulDist(b, Val(b, s[1..]), r * Val(b, t)); MulAssoc(b, r, Val(b, t)); }
        s[0] + b * Val(b, s[1..]) + (b * r) * Val(b, t);
      }
    }
  }

  lemma {:induction false} MulDist(x: int, y: int, z: int)
    ensures x * (y + z) == x * y + x * z
    ensures (y + z) * x == y * x + z * x
    ensures x * (y - z) == x * y - x * z
    ensures (y - z) * x == y * x - z * x
  {
  }

  lemma {:induction false} ValSnoc(b: nat, s: seq<nat>, x: nat)
    ensures Val(b, s + [x]) == Val(b, s) + x * Pow(b, |s|)
  {
    ValConcat(b, s, [x]);
    assert [x][1..] == [];
    assert Val(b, [x]) == x + b * Val(b, []) == x;
  }

  /** One more digit of a prefix. */
  lemma {:induction false} ValStep(b: nat, s: seq<nat>, i: nat)
    requires i < |s|
    ensures Val(b, s[..i + 1]) == Val(b, s[..i]) + s[i] * Pow(b, i)
  {
    assert s[..i + 1] == s[..i] + [s[i]];
    ValSnoc(b, s[..i], s[i]);
  }

  lemma {:induction false} ValSplit(b: nat, s: seq<nat>, i: nat)
    requires i <= |s|
    ensures Val(b, s) == Val(b, s[..i]) + Pow(b, i) * Val(b, s[i..])
  {
    assert s == s[..i] + s[i..];
    ValConcat(b, s[..i], s[i..]);
  }

  lemma {:induction false} ValBound(b: nat, s: seq<nat>)
    requires Digits(b, s)
    ensures b > 0 ==> Val(b, s) < Pow(b, |s|)
    ensures b == 0 ==> s == []
  {
    if s == [] {
    } else {
      assert s[0] < b;
      ValBound(b, s[1..]);
      var r := Pow(b, |s| - 1);
      assert Val(b, s[1..]) <= r - 1;
      MulMono(b, Val(b, s[1..]), r - 1);
      MulDist(b, r, 1);
    }
  }

  lemma {:induction false} MulMono(x: nat, y: int, z: int)
    requires y <= z
    ensures x * y <= x * z
    ensures y * x <= z * x
  {
  }

  lemma {:induction false} ValZeros(b: nat, s: seq<nat>)
    requires forall i :: 0 <= i < |s| ==> s[i] == 0
    ensures Val(b, s) == 0
  {
    if s != [] {
      ValZeros(b, s[1..]);
    }
  }

  /** Two strings of digits of one length and one value are the same string. */
  lemma {:induction false} ValUnique(b: nat, s: seq<nat>, t: seq<nat>)
    requires Digits(b, s) && Digits(b, t) && |s| == |t|
    requires Val(b, s) == Val(b, t)
    ensures s == t
  {
    if s != [] {
      var x, y := Val(b, s[1..]), Val(b, t[1..]);
      if x < y {
        MulMono(b, x + 1, y);
        MulDist(b, x, 1);
      } else if y < x {
        MulMono(b, y + 1, x);
        MulDist(b, y, 1);
      }
      ValUnique(b, s[1..], t[1..]);
      assert s == [s[0]] + s[1..] && t == [t[0]] + t[1..];
    }
  }

  /** Quotient and remainder are determined by their defining equation. */
  lemma {:induction false} DivModUnique(x: int, d: int, q: int, r: int)
    requires d > 0 && x == d * q + r && 0 <= r < d
    ensures x / d == q && x % d == r
  {
    var q', r' := x / d, x % d;
    assert x == d * q' + r';
    MulDist(d, q, q');
    if q' < q {
      MulMono(d, 1, q - q');
    } else if q < q' {
      MulMono(d, 1, q' - q);
      MulDist(d, q', q);
    }
  }

  /** The n low digits of x. */
  function DigitsOf(b: nat, x: nat, n: nat): (s: seq<nat>)
    requires b > 0
    ensures |s| == n && Digits(b, s)
    decreases n
  {
    if n == 0 then [] else [x % b] + DigitsOf(b, x / b, n - 1)
  }

  lemma {:induction false} DivModBasics(x: nat, b: nat)
    requires b > 0
    ensures x / b >= 0 && 0 <= x % b < b && x == x % b + b * (x / b)
  {
  }

  lemma {:induction false} DivBelow(x: nat, b: nat, p: nat)
    requires b > 0 && x < b * p
    ensures x / b < p
  {
    if x / b >= p {
      MulMono(b, p, x / b);
    }
  }

  lemma {:induction false} DigitsOfValue(b: nat, x: nat, n: nat)
    requires b > 0 && x < Pow(b, n)
    ensures Val(b, DigitsOf(b, x, n)) == x
    decreases n
  {
    if n > 0 {
      DivBelow(x, b, Pow(b, n - 1));
      DivModBasics(x, b);
      var low, high := x % b, x / b;
      DigitsOfValue(b, high, n - 1);
      assert DigitsOf(b, x, n) == [low] + DigitsOf(b, high, n - 1);
      assert DigitsOf(b, x, n)[1..] == DigitsOf(b, high, n - 1);
    }
  }
}
