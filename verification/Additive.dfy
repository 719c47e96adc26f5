/**
  Addition, subtraction, negation and complement: one pass of wrapping 64-bit
  words with a one-bit carry.
*/
module Additive {
  import opened Radix
  import opened Words

  function Max(m: nat, n: nat): nat { if m >= n then m else n }

  function Bit(c: bool): word { if c then 1 else 0 }

  // One column: two wrapping additions, with the carry recovered by comparisons.
  function ColumnWord(x: word, y: word, carry: word): word {
    Wrap(Wrap(x + y) + carry)
  }

  function ColumnCarry(x: word, y: word, carry: word): word {
    var sum := Wrap(x + y);
    var result := Wrap(sum + carry);
    Bit(sum < x || result < sum)
  }

  lemma {:induction false} ColumnExact(x: word, y: word, carry: word)
    requires carry <= 1
    ensures ColumnWord(x, y, carry) + W * ColumnCarry(x, y, carry) == x + y + carry
    ensures ColumnCarry(x, y, carry) <= 1
  {
    var sum := Wrap(x + y);
    assert sum == x + y || sum == x + y - W;
    assert Wrap(sum + carry) == sum + carry || Wrap(sum + carry) == sum + carry - W;
  }

  /** A column equation scaled to its position. */
  lemma {:induction false} ColumnSum(b: int, p: int, x: int, y: int, c: int, d: int, c': int)
    requires d + b * c' == x + y + c
    ensures d * p + c' * (b * p) == x * p + y * p + c * p
  {
    assert (d + b * c') * p == d * p + c' * (b * p);
    assert (x + y + c) * p == x * p + y * p + c * p;
  }

  lemma {:induction false} Dist4(p: int, w: int, x: int, y: int, z: int)
    ensures (w + x + y + z) * p == w * p + x * p + y * p + z * p
  {
  }

  /** What the carry loop leaves after i columns. */
  ghost predicate CarryInvariant(d: seq<word>, x: seq<word>, y: seq<word>, first: nat, carry: word, i: nat)
    requires i <= |d| && i <= |x| && i <= |y|
  {
    carry <= 1 &&
    Val(W, d[..i]) + carry * Pow(W, i) == Val(W, x[..i]) + Val(W, y[..i]) + first
  }

  lemma {:induction false} CarryStep(d: seq<word>, x: seq<word>, y: seq<word>, first: nat, carry: word, i: nat)
    requires i < |d| && i < |x| && i < |y|
    requires CarryInvariant(d, x, y, first, carry, i)
    requires d[i] == ColumnWord(x[i], y[i], carry)
    ensures CarryInvariant(d, x, y, first, ColumnCarry(x[i], y[i], carry), i + 1)
  {
    ColumnExact(x[i], y[i], carry);
    ColumnSum(W, Pow(W, i), x[i], y[i], carry, d[i], ColumnCarry(x[i], y[i], carry));
    ValStep(W, d, i);
    ValStep(W, x, i);
    ValStep(W, y, i);
  }

  /** Two operands extended by one word never overflow the result's signed range. */
  lemma {:induction false} OneGuardWord(s: seq<word>, n: nat)
    requires s != [] && |s| < n
    ensures -Half(n) < 4 * Signed(s) < Half(n)
  {
    SignedRange(s);
    HalfMono(|s|, n - 1);
  }

  method AddFallback(a: seq<word>, b: seq<word>) returns (r: BigInt)
    requires a != [] && b != []
    ensures Canonical(r) && Value(r) == Signed(a) + Signed(b)
  {
    var size := Max(|a|, |b|) + 1;
    var data := new word[size];
    var signA, signB := SignWord(a), SignWord(b);
    var carry: word := 0;
    ghost var xs, ys := Extend(a, size), Extend(b, size);
    for i := 0 to size
      invariant CarryInvariant(data[..], xs, ys, 0, carry, i)
    {
      var x: nat := if i < |a| then a[i] else signA;
      var y: nat := if i < |b| then b[i] else signB;
      ghost var before := data[..];
      ghost var c := carry;
      var sum := Wrap(x + y);
      var result := Wrap(sum + carry);
      carry := Bit(sum < x || result < sum);
      data[i] := result;
      assert data[..][..i] == before[..i];
      CarryStep(data[..], xs, ys, 0, c, i);
    }
    SumSigned(data[..], a, b, carry);
    r := Normalize(data);
  }

  /** How many widths p the signs and the final carry leave. */
  function Multiples(p: int, first: bool, second: bool, carry: int): (k: int)
    ensures k * p == (if first then p else 0) + (if second then p else 0) - carry * p
  {
    var m, n := if first then 1 else 0, if second then 1 else 0;
    Dist4(p, m, n, 0, -carry);
    m + n - carry
  }

  lemma {:induction false} SumSigned(d: seq<word>, a: seq<word>, b: seq<word>, carry: word)
    requires a != [] && b != [] && |d| == Max(|a|, |b|) + 1
    requires CarryInvariant(d, Extend(a, |d|), Extend(b, |d|), 0, carry, |d|)
    ensures Signed(d) == Signed(a) + Signed(b)
  {
    var n := |d|;
    var xs, ys := Extend(a, n), Extend(b, n);
    assert d[..n] == d && xs[..n] == xs && ys[..n] == ys;
    ExtendValue(a, n);
    ExtendValue(b, n);
    OneGuardWord(a, n);
    OneGuardWord(b, n);
    var k := Multiples(Pow(W, n), IsNegative(a), IsNegative(b), carry);
    SignedByCongruence(d, Signed(a) + Signed(b), k);
  }

  /** Complementing every word takes x to -x - 1. */
  function NotAll(s: seq<word>): (t: seq<word>)
    ensures |t| == |s|
  {
    seq(|s|, i requires 0 <= i < |s| => Not(s[i]))
  }

  lemma {:induction false} NotAllVal(s: seq<word>)
    ensures Val(W, NotAll(s)) == Pow(W, |s|) - 1 - Val(W, s)
  {
    if s != [] {
      NotAllVal(s[1..]);
      assert NotAll(s)[1..] == NotAll(s[1..]);
    }
  }

  method SubFallback(a: seq<word>, b: seq<word>) returns (r: BigInt)
    requires a != [] && b != []
    ensures Canonical(r) && Value(r) == Signed(a) - Signed(b)
  {
    var size := Max(|a|, |b|) + 1;
    var data := new word[size];
    var signA, signB := SignWord(a), SignWord(b);
    var carry: word := 1;
    ghost var xs, ys := Extend(a, size), NotAll(Extend(b, size));
    for i := 0 to size
      invariant CarryInvariant(data[..], xs, ys, 1, carry, i)
    {
      var x: nat := if i < |a| then a[i] else signA;
      var y: nat := if i < |b| then b[i] else signB;
      y := Not(y);
      ghost var before := data[..];
      ghost var c := carry;
      var sum := Wrap(x + y);
      var result := Wrap(sum + carry);
      carry := Bit(sum < x || result < sum);
      data[i] := result;
      assert data[..][..i] == before[..i];
      CarryStep(data[..], xs, ys, 1, c, i);
    }
    DifferenceSigned(data[..], a, b, carry);
    r := Normalize(data);
  }

  lemma {:induction false} DifferenceSigned(d: seq<word>, a: seq<word>, b: seq<word>, carry: word)
    requires a != [] && b != [] && |d| == Max(|a|, |b|) + 1
    requires CarryInvariant(d, Extend(a, |d|), NotAll(Extend(b, |d|)), 1, carry, |d|)
    ensures Signed(d) == Signed(a) - Signed(b)
  {
    var n := |d|;
    var xs, ys := Extend(a, n), NotAll(Extend(b, n));
    assert d[..n] == d && xs[..n] == xs && ys[..n] == ys;
    ExtendValue(a, n);
    ExtendValue(b, n);
    NotAllVal(Extend(b, n));
    OneGuardWord(a, n);
    OneGuardWord(b, n);
    var k := Multiples(Pow(W, n), IsNegative(a), !IsNegative(b), carry);
    SignedByCongruence(d, Signed(a) - Signed(b), k);
  }

  // Negation is the same pass with a zero second operand.

  function Zeros(n: nat): (s: seq<word>)
    ensures |s| == n
  {
    seq(n, _ => 0)
  }

  lemma {:induction false} NegateColumn(x: word, carry: word)
    requires carry <= 1
    ensures ColumnWord(x, 0, carry) == Wrap(x + carry)
    ensures ColumnCarry(x, 0, carry) == Bit(Wrap(x + carry) < x)
  {
  }

  lemma {:induction false} NegateVal(d: seq<word>, s: seq<word>, carry: word)
    requires |d| == |s|
    requires CarryInvariant(d, NotAll(s), Zeros(|d|), 1, carry, |d|)
    ensures Val(W, d) == (1 - carry) * Pow(W, |s|) - Val(W, s)
  {
    var n := |d|;
    assert d[..n] == d && NotAll(s)[..n] == NotAll(s) && Zeros(n)[..n] == Zeros(n);
    NotAllVal(s);
    ValZeros(W, Zeros(n));
  }

  lemma {:induction false} NegationSigned(d: seq<word>, x: seq<word>, carry: word)
    requires x != [] && |d| == |x| + 1
    requires CarryInvariant(d, NotAll(Extend(x, |d|)), Zeros(|d|), 1, carry, |d|)
    ensures Signed(d) == -Signed(x)
  {
    var n := |d|;
    NegateVal(d, Extend(x, n), carry);
    ExtendValue(x, n);
    OneGuardWord(x, n);
    var k := Multiples(Pow(W, n), !IsNegative(x), false, carry);
    MulDist(Pow(W, n), 1, carry);
    SignedByCongruence(d, -Signed(x), k);
  }

  method NegateFallback(x: seq<word>) returns (r: BigInt)
    requires x != []
    ensures Canonical(r) && Value(r) == -Signed(x)
  {
    var size := |x| + 1;
    var data := new word[size];
    var extension := SignWord(x);
    var carry: word := 1;
    ghost var xs := Extend(x, size);
    for i := 0 to size
      invariant CarryInvariant(data[..], NotAll(xs), Zeros(size), 1, carry, i)
    {
      var flipped := Not(if i < |x| then x[i] else extension);
      ghost var before := data[..];
      ghost var c := carry;
      var result := Wrap(flipped + carry);
      carry := Bit(result < flipped);
      data[i] := result;
      NegateColumn(flipped, c);
      assert data[..][..i] == before[..i];
      CarryStep(data[..], NotAll(xs), Zeros(size), 1, c, i);
    }
    NegationSigned(data[..], x, carry);
    r := Normalize(data);
  }

  /** Negates construction words in place, modulo their fixed width. */
  method NegateInplace(data: array<word>)
    modifies data
    ensures Val(W, data[..]) == (if Val(W, old(data[..])) == 0 then 0 else Pow(W, data.Length) - Val(W, old(data[..])))
  {
    ghost var s := data[..];
    var carry: word := 1;
    for i := 0 to data.Length
      invariant data[i..] == s[i..]
      invariant CarryInvariant(data[..], NotAll(s), Zeros(|s|), 1, carry, i)
    {
      assert data[i] == data[i..][0] == s[i];
      var flipped := Not(data[i]);
      ghost var before := data[..];
      ghost var c := carry;
      var result := Wrap(flipped + carry);
      carry := Bit(result < flipped);
      data[i] := result;
      NegateColumn(flipped, c);
      assert data[..][..i] == before[..i];
      assert data[i + 1..] == before[i..][1..];
      CarryStep(data[..], NotAll(s), Zeros(|s|), 1, c, i);
    }
    NegatedValue(data[..], s, carry);
  }

  lemma {:induction false} NegatedValue(d: seq<word>, s: seq<word>, carry: word)
    requires |d| == |s|
    requires CarryInvariant(d, NotAll(s), Zeros(|s|), 1, carry, |s|)
    ensures Val(W, d) == if Val(W, s) == 0 then 0 else Pow(W, |s|) - Val(W, s)
  {
    NegateVal(d, s, carry);
    WordDigits(s);
    ValBound(W, s);
    WordDigits(d);
    ValBound(W, d);
  }

  /** Negating the words of a nonnegative integer that leaves its top bit free gives the negative integer. */
  lemma {:induction false} NegatedSigned(d: seq<word>, v: nat)
    requires d != [] && v <= Half(|d|)
    requires Val(W, d) == if v == 0 then 0 else Pow(W, |d|) - v
    ensures Signed(d) == 0 - v
  {
    HalfTwice(|d|);
    SignedByCongruence(d, 0 - v, if v == 0 then 0 else 1);
  }

  lemma {:induction false} NonnegativeSigned(d: seq<word>)
    requires d != [] && Val(W, d) < Half(|d|)
    ensures Signed(d) == Val(W, d)
  {
    HalfTwice(|d|);
    SignedByCongruence(d, Val(W, d), 0);
  }

  /** Gives construction words holding a magnitude their sign. */
  method ApplySign(data: array<word>, negative: bool)
    requires data.Length > 0 && Val(W, data[..]) < Half(data.Length)
    modifies data
    ensures Signed(data[..]) == if negative then 0 - Val(W, old(data[..])) else Val(W, old(data[..]))
  {
    ghost var v := Val(W, data[..]);
    if negative {
      NegateInplace(data);
      NegatedSigned(data[..], v);
    } else {
      NonnegativeSigned(data[..]);
    }
  }

  method ComplementFallback(x: seq<word>) returns (r: BigInt)
    requires x != []
    ensures Canonical(r) && Value(r) == -Signed(x) - 1
  {
    var data := new word[|x|];
    for i := 0 to |x|
      invariant data[..i] == NotAll(x)[..i]
    {
      data[i] := Not(x[i]);
      assert data[..i + 1] == data[..i] + [Not(x[i])];
      assert NotAll(x)[..i + 1] == NotAll(x)[..i] + [Not(x[i])];
    }
    assert data[..] == data[..|x|] == NotAll(x)[..|x|] == NotAll(x);
    NotAllVal(x);
    r := Normalize(data);
  }
}
