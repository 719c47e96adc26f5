/**
  Magnitudes as half-word digits for Algorithm D: counting them, scaling both operands by a
  power of two so that the divisor's top digit is at least half the base, and scaling the
  remainder back.  Nothing here divides; everything is exact.
*/
module Normalization {
  import opened Radix
  import opened Words
  import opened Additive
  import opened Bits
  import opened Magnitude
  import opened Multiply
  import opened ScalarDivision
  import opened Shifts
  import opened DigitSteps

  // ---------- magnitudes as digits ----------

  /** Digit i of a magnitude: half of the word AbsWord reads. */
  function AbsDigit(x: seq<word>, first: nat, i: nat): digit
    requires x != []
  {
    if i % 2 == 0 then Lo(AbsWord(x, first, i / 2)) else Hi(AbsWord(x, first, i / 2))
  }

  function AbsDigits(x: seq<word>, first: nat, n: nat): (s: seq<digit>)
    requires x != []
    ensures |s| == n
  {
    seq(n, i requires 0 <= i => AbsDigit(x, first, i))
  }

  lemma {:induction false} SplitDigits(s: seq<word>, t: seq<digit>)
    requires |t| == 2 * |s|
    requires forall i :: 0 <= i < |s| ==> t[2 * i] == Lo(s[i]) && t[2 * i + 1] == Hi(s[i])
    ensures Val(R, t) == Val(W, s)
  {
    if s != [] {
      forall i | 0 <= i < |s| - 1
        ensures t[2..][2 * i] == Lo(s[1..][i]) && t[2..][2 * i + 1] == Hi(s[1..][i])
      {
        assert t[2..][2 * i] == t[2 * (i + 1)] && t[2..][2 * i + 1] == t[2 * (i + 1) + 1] && s[1..][i] == s[i + 1];
      }
      SplitDigits(s[1..], t[2..]);
      assert t[1..][1..] == t[2..];
      assert t[2 * 0] == Lo(s[0]) && t[2 * 0 + 1] == Hi(s[0]);
      HiLo(s[0]);
    }
  }

  lemma {:induction false} AbsDigitsValue(x: seq<word>, first: nat, words: nat)
    requires x != []
    ensures Val(R, AbsDigits(x, first, 2 * words)) == Val(W, AbsWords(x, first, words))
  {
    var t, s := AbsDigits(x, first, 2 * words), AbsWords(x, first, words);
    forall i | 0 <= i < words
      ensures t[2 * i] == Lo(s[i]) && t[2 * i + 1] == Hi(s[i])
    {
      assert 2 * i % 2 == 0 && (2 * i + 1) % 2 == 1 && 2 * i / 2 == i && (2 * i + 1) / 2 == i;
    }
    SplitDigits(s, t);
  }

  /** n digits write the magnitude with a nonzero digit on top. */
  ghost predicate CountsDigits(x: seq<word>, first: nat, n: nat)
    requires x != []
  {
    Abs(Signed(x)) == Val(R, AbsDigits(x, first, n)) && (n > 0 ==> AbsDigit(x, first, n - 1) != 0)
  }

  lemma {:induction false} CountedPrefix(x: seq<word>, first: nat, words: nat, n: nat)
    requires x != [] && IsFirstNonzero(x, first) && words <= |x| && n <= 2 * words
    requires forall i :: words <= i < |x| ==> AbsWord(x, first, i) == 0
    requires n == 2 * words || (n == 2 * words - 1 && AbsDigit(x, first, n) == 0)
    ensures Abs(Signed(x)) == Val(R, AbsDigits(x, first, n))
  {
    AbsValue(x, first, |x|);
    assert AbsWords(x, first, |x|)[..words] == AbsWords(x, first, words);
    ZeroTail(AbsWords(x, first, words), AbsWords(x, first, |x|));
    AbsDigitsValue(x, first, words);
    if n < 2 * words {
      ValStep(R, AbsDigits(x, first, 2 * words), n);
      assert AbsDigits(x, first, 2 * words)[..n] == AbsDigits(x, first, n);
      assert AbsDigits(x, first, 2 * words)[..n + 1] == AbsDigits(x, first, 2 * words);
    }
  }

  /** The number of half-word digits up to the highest nonzero one. */
  method DigitCount(x: seq<word>, first: nat) returns (n: nat)
    requires x != [] && IsFirstNonzero(x, first)
    ensures CountsDigits(x, first, n)
  {
    var words: nat := |x|;
    while words > 0 && AbsWord(x, first, words - 1) == 0
      invariant words <= |x|
      invariant forall i :: words <= i < |x| ==> AbsWord(x, first, i) == 0
    {
      words := words - 1;
    }
    if words == 0 {
      CountedPrefix(x, first, 0, 0);
      return 0;
    }
    var top := AbsWord(x, first, words - 1);
    HiLo(top);
    n := 2 * words - if Hi(top) == 0 then 1 else 0;
    assert AbsDigit(x, first, 2 * words - 1) == Hi(top);
    CountedPrefix(x, first, words, n);
  }

  lemma {:induction false} CountBounds(x: seq<word>, first: nat, n: nat)
    requires x != [] && CountsDigits(x, first, n)
    ensures Abs(Signed(x)) < Pow(R, n)
    ensures n > 0 ==> Abs(Signed(x)) >= Pow(R, n - 1)
  {
    var t := AbsDigits(x, first, n);
    DigitDigits(t);
    ValBound(R, t);
    if n > 0 {
      assert t[..n] == t;
      ValStep(R, t, n - 1);
      MulMono(Pow(R, n - 1), 1, t[n - 1]);
    }
  }

  // ---------- normalization ----------

  ghost predicate Shifting(out: seq<digit>, t: seq<digit>, shift: nat, carry: nat, i: nat)
    requires i <= |out| && i <= |t|
  {
    carry < Pow(2, shift) && Val(R, out[..i]) + carry * Pow(R, i) == Val(R, t[..i]) * Pow(2, shift)
  }

  lemma {:induction false} HalfPower(shift: nat)
    requires shift < 32
    ensures Pow(2, shift) <= R / 2
  {
    Pow2Words();
    PowMono(2, shift, 31);
    PowAdd(2, 1, 31);
  }

  lemma {:induction false} DigitProduct(part: nat, carry: nat, s: nat)
    requires part < R && carry < s <= R / 2
    ensures part * s + carry < R * s && part * s < W
    ensures (part * s + carry) / R < s
  {
    MulMono(s, part + 1, R);
    MulDist(s, part, 1);
    DivBelow(part * s + carry, R, s);
  }

  lemma {:induction false} ShiftDigit(part: nat, carry: nat, shift: nat)
    requires part < R && shift < 32 && carry < Pow(2, shift)
    ensures var value := Bitwise(Or, Shl(part, shift), carry);
            value == part * Pow(2, shift) + carry && value / R < Pow(2, shift) <= R / 2
  {
    var s := Pow(2, shift);
    HalfPower(shift);
    DigitProduct(part, carry, s);
    SmallWrap(part * s);
    OrDisjoint(part, carry, shift);
  }

  lemma {:induction false} ShiftingStep(out: seq<digit>, t: seq<digit>, shift: nat, carry: nat, i: nat, value: nat)
    requires i < |out| && i < |t| && Shifting(out, t, shift, carry, i)
    requires value == t[i] * Pow(2, shift) + carry && value / R < Pow(2, shift)
    ensures Shifting(out[i := value % R], t, shift, value / R, i + 1)
  {
    var out' := out[i := value % R];
    assert out'[..i] == out[..i];
    ValStep(R, out', i);
    ValStep(R, t, i);
    ShiftingArith(Val(R, out[..i]), Val(R, t[..i]), Pow(2, shift), Pow(R, i), value % R, value / R, t[i], carry);
  }

  lemma {:induction false} ShiftingArith(ov: int, tv: int, s: int, p: int, d: int, c': int, x: int, c: int)
    requires ov + c * p == tv * s && d + R * c' == x * s + c
    ensures (ov + d * p) + c' * (R * p) == (tv + x * p) * s
  {
    ColumnSum(R, p, x * s, 0, c, d, c');
    MulDist(s, tv, x * p);
    assert (x * s) * p == (x * p) * s;
  }

  /** Writes the magnitude's digits shifted up by `shift` bits and returns the carry out of the top digit. */
  method NormalizeDigits(x: seq<word>, first: nat, digits: nat, shift: nat, out: array<digit>) returns (carry: nat)
    requires x != [] && shift < 32 && digits <= out.Length
    modifies out
    ensures Shifting(out[..], AbsDigits(x, first, digits), shift, carry, digits)
  {
    ghost var t := AbsDigits(x, first, digits);
    carry := 0;
    for i := 0 to digits
      invariant Shifting(out[..], t, shift, carry, i)
    {
      var part := AbsDigit(x, first, i);
      ShiftDigit(part, carry, shift);
      var value: nat := Bitwise(Or, Shl(part, shift), carry);
      ghost var before := out[..];
      out[i] := value % R;
      ShiftingStep(before, t, shift, carry, i, value);
      carry := value / R;
    }
  }

  /** Moves the divisor's top digit to at least half the radix. */
  method TopShift(top: digit) returns (shift: nat)
    requires top > 0
    ensures shift < 32 && R / 2 <= top * Pow(2, shift) < R
  {
    shift := 0;
    var t: nat := top;
    Pow2Words();
    PowAdd(2, 1, 31);
    while t < R / 2
      invariant shift < 32 && t == top * Pow(2, shift) < R
      decreases R - t
    {
      if shift >= 31 {
        MulMono(Pow(2, 31), 1, top);
      }
      assert top * (2 * Pow(2, shift)) == 2 * (top * Pow(2, shift));
      t := 2 * t % R;
      shift := shift + 1;
    }
  }

  // ---------- the remainder ----------

  function PackedWord(u: seq<digit>, i: nat): word
    requires 2 * i < |u|
  {
    u[2 * i] + R * if 2 * i + 1 < |u| then u[2 * i + 1] else 0
  }

  function PackedWords(u: seq<digit>): (s: seq<word>)
    ensures |s| == (|u| + 1) / 2
  {
    seq((|u| + 1) / 2, i requires 0 <= i < (|u| + 1) / 2 => PackedWord(u, i))
  }

  lemma {:induction false} PackedValue(u: seq<digit>)
    ensures Val(W, PackedWords(u)) == Val(R, u)
  {
    var s := PackedWords(u);
    if |u| == 1 {
      assert u[1..] == [] && s[1..] == [];
    } else if |u| >= 2 {
      PackedValue(u[2..]);
      assert s[1..] == PackedWords(u[2..]) by {
        forall i | 0 <= i < |s| - 1
          ensures s[1..][i] == PackedWord(u[2..], i)
        {
          assert s[1..][i] == s[i + 1] == PackedWord(u, i + 1);
        }
      }
      assert u[1..][1..] == u[2..];
      assert s[0] == u[0] + R * u[1];
    }
  }

  lemma {:induction false} HighDigitLost(d: int, h: int, g: int)
    ensures (d + R * h) * (R * g) == d * (R * g) + W * (h * g)
  {
    MulDist(R * g, d, R * h);
    assert (R * h) * (R * g) == W * (h * g);
  }

  /** Only the low digit of a word reaches below bit 64 when it moves up by 32 bits or more. */
  lemma {:induction false} LowDigitShifted(d: digit, h: nat, part: nat)
    requires 0 < part < 32
    ensures Shl(d + R * h, 64 - part) == Shl(d, 64 - part)
  {
    var g := Pow(2, 32 - part);
    Pow2Words();
    PowAdd(2, 32, 32 - part);
    HighDigitLost(d, h, g);
    WrapMultiple(d * (R * g), h * g);
  }

  /** The word the digits at 2i, 2i + 1 and 2i + 2 contribute once shifted down. */
  lemma {:induction false} RemainderWordExact(u: seq<digit>, i: nat, shift: nat)
    requires 2 * i < |u| && shift < 32
    ensures var s := PackedWords(u);
            var next := if 2 * i + 2 < |u| then u[2 * i + 2] else 0;
            RightWord(s[i], Above(s, 0, i + 1), shift)
            == if shift > 0 then Bitwise(Or, Shl(next, 64 - shift), Shr(s[i], shift)) else s[i]
  {
    var s := PackedWords(u);
    if shift > 0 && 2 * i + 2 < |u| {
      var h := if 2 * (i + 1) + 1 < |u| then u[2 * (i + 1) + 1] else 0;
      assert s[i + 1] == PackedWord(u, i + 1) == u[2 * i + 2] + R * h;
      LowDigitShifted(u[2 * i + 2], h, shift);
    }
  }

  lemma {:induction false} OrNothing(x: nat, part: nat)
    requires x < W
    ensures Bitwise(Or, Shl(0, part), x) == x
  {
    Pow2Words();
    OrDisjoint(0, x, 64);
  }

  method RemainderWord(u: array<digit>, n: nat, i: nat, shift: nat) returns (w: word)
    requires n <= u.Length && 2 * i < n && shift < 32
    ensures var s := PackedWords(u[..n]);
            w == RightWord(s[i], Above(s, 0, i + 1), shift)
  {
    ghost var s := PackedWords(u[..n]);
    var x: word := u[2 * i];
    if 2 * i + 1 < n {
      x := JoinHalves(u[2 * i + 1], u[2 * i]);
    }
    RemainderWordExact(u[..n], i, shift);
    RightWordExact(s[i], Above(s, 0, i + 1), shift);
    assert x == s[i];
    if shift == 0 {
      return x;
    }
    DivModBasics(x, Pow(2, shift));
    var y: nat := Shr(x, shift);
    if 2 * i + 2 < n {
      y := Bitwise(Or, Shl(u[2 * i + 2], 64 - shift), y);
    } else {
      DivBelow(x, Pow(2, shift), W);
      OrNothing(y, 64 - shift);
    }
    w := y;
  }

  lemma {:induction false} ExactMultiple(s: nat, x: nat, m: nat, y: nat)
    requires s * x + m == y * s && m < s
    ensures x == y
  {
    MulDist(s, x, y);
    if x < y {
      MulMono(s, x + 1, y);
      MulDist(s, x, 1);
    } else if y < x {
      MulMono(s, y + 1, x);
      MulDist(s, y, 1);
    }
  }

  lemma {:induction false} UnshiftWords(x: seq<word>, r: seq<word>, part: nat, rem: nat)
    requires x != [] && part < 64 && |r| == |x| && Val(W, x) == rem * Pow(2, part)
    requires forall i :: 0 <= i < |x| ==> r[i] == RightWord(x[i], Above(x, 0, i + 1), part)
    ensures Val(W, r) == rem
  {
    var s := Pow(2, part);
    RightShifted(x, r, 0, part);
    DivModUnique(0, s, 0, 0);
    DivModBasics(x[0], s);
    ExactMultiple(s, Val(W, r), x[0] % s, rem);
  }

  /** Shifts the remainder digits back down and packs them, with one zero guard word on top. */
  method ExtractRemainder(u: array<digit>, n: nat, shift: nat, ghost rem: nat) returns (r: array<word>)
    requires 0 < n <= u.Length && shift < 32 && Val(R, u[..n]) == rem * Pow(2, shift)
    ensures fresh(r) && r.Length == (n + 1) / 2 + 1 && r[r.Length - 1] == 0
    ensures Val(W, r[..]) == rem
  {
    var nr := (n + 1) / 2 + 1;
    r := new word[nr](_ => 0);
    ghost var s := PackedWords(u[..n]);
    for i := 0 to nr - 1
      invariant r[nr - 1] == 0
      invariant forall k :: 0 <= k < i ==> r[k] == RightWord(s[k], Above(s, 0, k + 1), shift)
    {
      var w := RemainderWord(u, n, i, shift);
      r[i] := w;
    }
    PackedValue(u[..n]);
    UnshiftWords(s, r[..][..nr - 1], shift, rem);
    assert r[..][..nr - 1 + 1] == r[..];
    ValStep(W, r[..], nr - 1);
  }
}
