/** What division means: the two rounding conventions, each of which determines its results. */
module Quotients {
  import opened Radix
  import opened Words
  import opened Magnitude

  /** Quotient rounded toward zero: the remainder is zero or has the dividend's sign. */
  ghost predicate TruncDivRem(a: int, b: int, q: int, r: int) {
    a == q * b + r && Abs(r) < Abs(b) && (r == 0 || (r < 0 <==> a < 0))
  }

  /** Quotient rounded down: the remainder is zero or has the divisor's sign. */
  ghost predicate FloorDivRem(a: int, b: int, q: int, r: int) {
    a == q * b + r && Abs(r) < Abs(b) && (r == 0 || (r < 0 <==> b < 0))
  }

  datatype DivResult = Ok(q: BigInt, r: BigInt) | ZeroDivision

  lemma {:induction false} MultipleBound(b: int, k: int)
    requires k != 0
    ensures Abs(k * b) >= Abs(b)
  {
    var c := Abs(b);
    assert Abs(k * b) == Abs(k) * c by {
      assert (-k) * b == -(k * b) == k * (-b) && (-k) * (-b) == k * b;
    }
    MulMono(c, 1, Abs(k));
  }

  lemma {:induction false} TruncUnique(a: int, b: int, q: int, r: int, q': int, r': int)
    requires TruncDivRem(a, b, q, r) && TruncDivRem(a, b, q', r')
    ensures q == q' && r == r'
  {
    MulDist(b, q, q');
    if q != q' {
      MultipleBound(b, q - q');
    }
  }

  lemma {:induction false} FloorUnique(a: int, b: int, q: int, r: int, q': int, r': int)
    requires FloorDivRem(a, b, q, r) && FloorDivRem(a, b, q', r')
    ensures q == q' && r == r'
  {
    MulDist(b, q, q');
    if q != q' {
      MultipleBound(b, q - q');
    }
  }

  /** Dividing magnitudes and fixing the signs afterwards truncates. */
  lemma {:induction false} SignsOfTruncation(a: int, b: int, q: nat, r: nat)
    requires Abs(a) == q * Abs(b) + r && r < Abs(b)
    ensures TruncDivRem(a, b, if (a < 0) != (b < 0) then 0 - q else q, if a < 0 then 0 - r else r)
  {
    var k: int := q;
    assert (-k) * b == -(k * b) == k * (-b);
  }

  /** One step from truncation to rounding down. */
  lemma {:induction false} FloorFromTrunc(a: int, b: int, q: int, r: int)
    requires TruncDivRem(a, b, q, r)
    ensures r != 0 && (a < 0) != (b < 0) ==> FloorDivRem(a, b, q - 1, r + b)
    ensures r == 0 || (a < 0) == (b < 0) ==> FloorDivRem(a, b, q, r)
  {
    MulDist(b, q, 1);
  }

  // ---------- C++ operators on int64 ----------

  /** Native division and remainder, which truncate. */
  function Quot(a: int, b: int): int
    requires b != 0
  {
    if (a < 0) != (b < 0) then -(Abs(a) / Abs(b)) else Abs(a) / Abs(b)
  }

  function Rem(a: int, b: int): int
    requires b != 0
  {
    if a < 0 then -(Abs(a) % Abs(b)) else Abs(a) % Abs(b)
  }

  lemma {:induction false} NativeTruncates(a: int, b: int)
    requires b != 0
    ensures TruncDivRem(a, b, Quot(a, b), Rem(a, b))
    ensures Abs(Quot(a, b)) <= Abs(a)
  {
    var q, r := Abs(a) / Abs(b), Abs(a) % Abs(b);
    DivModBasics(Abs(a), Abs(b));
    SignsOfTruncation(a, b, q, r);
    MulMono(q, 1, Abs(b));
  }

  /** Division rounded down, from the truncating operators. */
  function FloorQuot(a: int, b: int): int
    requires b != 0
  {
    if Rem(a, b) != 0 && (a < 0) != (b < 0) then Quot(a, b) - 1 else Quot(a, b)
  }

  function FloorRem(a: int, b: int): int
    requires b != 0
  {
    if Rem(a, b) != 0 && (a < 0) != (b < 0) then Rem(a, b) + b else Rem(a, b)
  }

  lemma {:induction false} NativeFloors(a: int, b: int)
    requires b != 0
    ensures FloorDivRem(a, b, FloorQuot(a, b), FloorRem(a, b))
  {
    NativeTruncates(a, b);
    FloorFromTrunc(a, b, Quot(a, b), Rem(a, b));
  }

  lemma {:induction false} TruncIs(a: int, b: int, q: int, r: int)
    requires TruncDivRem(a, b, q, r)
    ensures b != 0 && q == Quot(a, b) && r == Rem(a, b)
  {
    NativeTruncates(a, b);
    TruncUnique(a, b, q, r, Quot(a, b), Rem(a, b));
  }
}
