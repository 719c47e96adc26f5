/**
  Two's-complement integers as little-endian 64-bit words, the integer type built on
  them and its canonical form.
*/
module Words {
  import opened Radix

  const W: nat := 0x1_0000_0000_0000_0000
  const HALF: nat := 0x8000_0000_0000_0000
  const R: nat := 0x1_0000_0000

  /** One word, as its unsigned bit pattern; a stored int64 is represented by its pattern too. */
  type word = x: nat | x < 0x1_0000_0000_0000_0000
  type int64 = x: int | -0x8000_0000_0000_0000 <= x < 0x8000_0000_0000_0000

  const INT64_MIN: int64 := -0x8000_0000_0000_0000
  const INT64_MAX: int64 := 0x7fff_ffff_ffff_ffff

  /** Unsigned 64-bit arithmetic discards everything above bit 63. */
  function Wrap(x: int): word { x % W }

  lemma {:induction false} WrapMultiple(x: int, k: int)
    ensures Wrap(x + W * k) == Wrap(x)
  {
    DivModUnique(x + W * k, W, x / W + k, x % W);
  }

  function Not(x: word): word { W - 1 - x }

  function Hi(x: word): nat { x / R }

  function Lo(x: word): nat { x % R }

  /** The signed reading of a bit pattern, and back. */
  function ToInt64(x: word): int64 { if x >= HALF then x - W else x }

  function ToWord(x: int64): word { if x < 0 then x + W else x }

  predicate InInt64(x: int) { INT64_MIN <= x <= INT64_MAX }

  // ---------- word arrays as integers ----------

  predicate IsNegative(s: seq<word>)
    requires s != []
  {
    s[|s| - 1] >= HALF
  }

  function SignWord(s: seq<word>): word
    requires s != []
  {
    if IsNegative(s) then W - 1 else 0
  }

  /** The integer a word array stands for; no words stand for zero. */
  function Signed(s: seq<word>): int {
    if s == [] then 0
    else Val(W, s) - (if IsNegative(s) then Pow(W, |s|) else 0)
  }

  /** Half the range of an n-word integer: Signed lies in [-Half(n), Half(n)). */
  function Half(n: nat): int
    requires n > 0
  {
    HALF * Pow(W, n - 1)
  }

  lemma {:induction false} HalfTwice(n: nat)
    requires n > 0
    ensures Pow(W, n) == 2 * Half(n) && Half(n) > 0
  {
  }

  lemma {:induction false} WordDigits(s: seq<word>)
    ensures Digits(W, s)
  {
  }

  lemma {:induction false} TopWord(s: seq<word>)
    requires s != []
    ensures var n := |s| - 1;
            Val(W, s) == Val(W, s[..n]) + s[n] * Pow(W, n) && Val(W, s[..n]) < Pow(W, n)
  {
    var n := |s| - 1;
    assert s[..n + 1] == s;
    ValStep(W, s, n);
    WordDigits(s[..n]);
    ValBound(W, s[..n]);
  }

  lemma {:induction false} SignedRange(s: seq<word>)
    requires s != []
    ensures -Half(|s|) <= Signed(s) < Half(|s|)
    ensures Signed(s) < 0 <==> IsNegative(s)
  {
    var n := |s| - 1;
    var p, x: int := Pow(W, n), s[n];
    TopWord(s);
    HalfTwice(n + 1);
    if IsNegative(s) {
      MulMono(p, HALF, x);
      MulMono(p, x + 1, W);
      MulDist(p, x, 1);
    } else {
      MulMono(p, x + 1, HALF);
      MulDist(p, x, 1);
    }
  }

  /** A representative inside the signed range is the signed value. */
  lemma {:induction false} SignedByCongruence(s: seq<word>, v: int, k: int)
    requires s != []
    requires Val(W, s) == v + k * Pow(W, |s|)
    requires -Half(|s|) <= v < Half(|s|)
    ensures Signed(s) == v
  {
    SignedRange(s);
    HalfTwice(|s|);
    var p := Pow(W, |s|);
    var c := k - (if IsNegative(s) then 1 else 0);
    MulDist(p, k, if IsNegative(s) then 1 else 0);
    assert Signed(s) == v + c * p;
    if c > 0 {
      MulMono(p, 1, c);
    } else if c < 0 {
      MulMono(p, c, -1);
    }
  }

  lemma {:induction false} SignedUnique(s: seq<word>, t: seq<word>)
    requires s != [] && |s| == |t| && Signed(s) == Signed(t)
    ensures s == t
  {
    SignedRange(s);
    SignedRange(t);
    WordDigits(s);
    WordDigits(t);
    ValUnique(W, s, t);
  }

  // ---------- canonical form ----------

  /** The top word only repeats the sign of the word below it. */
  predicate RedundantTop(s: seq<word>)
    requires |s| > 1
  {
    s[|s| - 1] == if s[|s| - 2] >= HALF then W - 1 else 0
  }

  predicate CanonicalWords(s: seq<word>) {
    |s| >= 1 && (|s| > 1 ==> !RedundantTop(s))
  }

  lemma {:induction false} DropRedundant(s: seq<word>)
    requires |s| > 1 && RedundantTop(s)
    ensures Signed(s[..|s| - 1]) == Signed(s)
  {
    var n := |s| - 1;
    TopWord(s);
    assert s[..n][n - 1] == s[n - 1];
    MulDist(Pow(W, n), W, 1);
  }

  lemma {:induction false} OutsideArith(low: int, y: int, p: int, h: int, signed: int)
    requires p == 2 * h && 0 <= low < p && signed == low + y * p
    requires y == 0 ==> low >= h
    requires y == -1 ==> low < h
    ensures signed < -h || signed >= h
  {
    if y >= 1 {
      MulMono(p, 1, y);
    } else if y <= -2 {
      MulMono(p, y, -2);
    }
  }

  /** A canonical array of n words does not fit n-1 words. */
  lemma {:induction false} CanonicalOutside(s: seq<word>)
    requires |s| > 1 && CanonicalWords(s)
    ensures Signed(s) < -Half(|s| - 1) || Signed(s) >= Half(|s| - 1)
  {
    var n := |s| - 1;
    var p, x: int, low := Pow(W, n), s[n], Val(W, s[..n]);
    TopWord(s);
    HalfTwice(n);
    var t := s[..n];
    assert t[n - 1] == s[n - 1];
    SignedRange(t);
    assert low == Signed(t) + if IsNegative(t) then p else 0;
    var y := if IsNegative(s) then x - W else x;
    MulDist(p, x, W);
    OutsideArith(low, y, p, Half(n), Signed(s));
  }

  lemma {:induction false} HalfMono(m: nat, n: nat)
    requires 0 < m <= n
    ensures Half(m) <= Half(n)
  {
    PowMono(W, m - 1, n - 1);
  }

  lemma {:induction false} CanonicalWordsUnique(s: seq<word>, t: seq<word>)
    requires CanonicalWords(s) && CanonicalWords(t) && Signed(s) == Signed(t)
    ensures s == t
  {
    SignedRange(s);
    SignedRange(t);
    if |s| < |t| {
      CanonicalOutside(t);
      HalfMono(|s|, |t| - 1);
    } else if |t| < |s| {
      CanonicalOutside(s);
      HalfMono(|t|, |s| - 1);
    } else {
      SignedUnique(s, t);
    }
  }

  // ---------- the integer type ----------

  /** An immutable integer: inline when it fits int64, otherwise its words on the heap. */
  datatype BigInt = Inline(v: int64) | Heap(words: seq<word>)

  predicate Canonical(x: BigInt) {
    x.Heap? ==> |x.words| > 1 && CanonicalWords(x.words)
  }

  /** The borrowed array view of an integer: an inline value is one word. */
  function View(x: BigInt): (s: seq<word>) {
    match x
    case Inline(v) => [ToWord(v)]
    case Heap(words) => words
  }

  function Value(x: BigInt): int {
    match x
    case Inline(v) => v
    case Heap(words) => Signed(words)
  }

  lemma {:induction false} OneWord(x: word)
    ensures Signed([x]) == ToInt64(x) && Half(1) == HALF
  {
    assert [x][1..] == [];
    assert Val(W, [x]) == x + W * Val(W, []) == x;
    assert Pow(W, 1) == W * Pow(W, 0) == W;
  }

  lemma {:induction false} ViewValue(x: BigInt)
    requires Canonical(x)
    ensures View(x) != [] && Signed(View(x)) == Value(x) && CanonicalWords(View(x))
    ensures x.Heap? <==> |View(x)| > 1
    ensures x.Heap? <==> !InInt64(Value(x))
  {
    OneWord(View(x)[0]);
    if x.Heap? {
      CanonicalOutside(x.words);
      HalfMono(1, |x.words| - 1);
    }
  }

  /** One integer has one canonical representation. */
  lemma {:induction false} CanonicalUnique(x: BigInt, y: BigInt)
    requires Canonical(x) && Canonical(y)
    ensures x == y <==> Value(x) == Value(y)
  {
    if Value(x) == Value(y) {
      ViewValue(x);
      ViewValue(y);
      CanonicalWordsUnique(View(x), View(y));
    }
  }

  /** Prunes redundant sign words of a construction array and demotes what fits int64. */
  method Normalize(data: array<word>) returns (r: BigInt)
    ensures Canonical(r) && Value(r) == Signed(data[..])
  {
    var size := data.Length;
    assert data[..size] == data[..];
    while size > 1 && data[size - 1] == if data[size - 2] >= HALF then W - 1 else 0
      invariant size <= data.Length && (data.Length > 0 ==> size > 0)
      invariant Signed(data[..size]) == Signed(data[..])
    {
      DropRedundant(data[..size]);
      assert data[..size][..size - 1] == data[..size - 1];
      size := size - 1;
    }
    if size <= 1 {
      if size == 0 {
        return Inline(0);
      }
      OneWord(data[0]);
      assert data[..1] == [data[0]];
      return Inline(ToInt64(data[0]));
    }
    return Heap(data[..size]);
  }

  // ---------- sign extension ----------

  /** Word i of the infinite sign extension, as every routine reads an operand. */
  function WordAt(s: seq<word>, i: nat): word
    requires s != []
  {
    if i < |s| then s[i] else SignWord(s)
  }

  function Extend(s: seq<word>, n: nat): (t: seq<word>)
    requires s != []
    ensures |t| == n
  {
    seq(n, i requires 0 <= i => WordAt(s, i))
  }

  lemma {:induction false} FillValue(k: nat)
    ensures Val(W, seq(k, _ => W - 1)) == Pow(W, k) - 1
  {
    if k > 0 {
      var f := seq(k, _ => W - 1);
      assert f[1..] == seq(k - 1, _ => W - 1);
      FillValue(k - 1);
    }
  }

  lemma {:induction false} FilledValue(s: seq<word>, k: nat, negative: bool)
    ensures var fill: seq<word> := if negative then seq(k, _ => W - 1) else seq(k, _ => 0);
            Val(W, s + fill) == Val(W, s) + if negative then Pow(W, |s| + k) - Pow(W, |s|) else 0
  {
    var fill: seq<word> := if negative then seq(k, _ => W - 1) else seq(k, _ => 0);
    ValConcat(W, s, fill);
    if negative {
      FillValue(k);
      PowAdd(W, |s|, k);
      MulDist(Pow(W, |s|), Pow(W, k), 1);
    } else {
      ValZeros(W, fill);
    }
  }

  lemma {:induction false} ExtendValue(s: seq<word>, n: nat)
    requires s != [] && |s| <= n
    ensures Val(W, Extend(s, n)) == Signed(s) + if IsNegative(s) then Pow(W, n) else 0
  {
    var k := n - |s|;
    var fill: seq<word> := if IsNegative(s) then seq(k, _ => W - 1) else seq(k, _ => 0);
    assert Extend(s, n) == s + fill;
    FilledValue(s, k, IsNegative(s));
  }
}
