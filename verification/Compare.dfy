/**
  Equality, ordering, minimum and maximum of word arrays, and the byte content
  through which integers enter and leave.
*/
module Compare {
  import opened Radix
  import opened Words
  import opened Additive

  method EqualFallback(a: seq<word>, b: seq<word>) returns (equal: bool)
    requires CanonicalWords(a) && CanonicalWords(b)
    ensures equal <==> Signed(a) == Signed(b)
  {
    if Signed(a) == Signed(b) {
      CanonicalWordsUnique(a, b);
    }
    if |a| != |b| {
      return false;
    }
    for i := 0 to |a|
      invariant a[..i] == b[..i]
    {
      if a[i] != b[i] {
        return false;
      }
    }
    assert a == a[..|a|] == b[..|b|] == b;
    return true;
  }

  /** The topmost differing word decides. */
  lemma {:induction false} TopDifference(s: seq<word>, t: seq<word>, i: nat)
    requires |s| == |t| && i < |s| && s[i + 1..] == t[i + 1..] && s[i] < t[i]
    ensures Val(W, s) < Val(W, t)
  {
    ValSplit(W, s, i + 1);
    ValSplit(W, t, i + 1);
    ValStep(W, s, i);
    ValStep(W, t, i);
    WordDigits(s[..i]);
    ValBound(W, s[..i]);
    var p := Pow(W, i);
    MulMono(p, s[i] + 1, t[i]);
    MulDist(p, s[i], 1);
  }

  lemma {:induction false} SameSignOrder(a: seq<word>, b: seq<word>, n: nat)
    requires a != [] && b != [] && |a| <= n && |b| <= n && IsNegative(a) == IsNegative(b)
    ensures Signed(a) - Signed(b) == Val(W, Extend(a, n)) - Val(W, Extend(b, n))
  {
    ExtendValue(a, n);
    ExtendValue(b, n);
  }

  /** What word i decides once all words above it agree. */
  lemma {:induction false} Decide(a: seq<word>, b: seq<word>, n: nat, i: nat)
    requires a != [] && b != [] && |a| <= n && |b| <= n && IsNegative(a) == IsNegative(b)
    requires i < n && Extend(a, n)[i + 1..] == Extend(b, n)[i + 1..]
    ensures WordAt(a, i) < WordAt(b, i) ==> Signed(a) < Signed(b)
    ensures WordAt(a, i) > WordAt(b, i) ==> Signed(a) > Signed(b)
    ensures WordAt(a, i) == WordAt(b, i) ==> Extend(a, n)[i..] == Extend(b, n)[i..]
  {
    var xs, ys := Extend(a, n), Extend(b, n);
    SameSignOrder(a, b, n);
    if xs[i] < ys[i] {
      TopDifference(xs, ys, i);
    } else if ys[i] < xs[i] {
      TopDifference(ys, xs, i);
    } else {
      assert xs[i..] == [xs[i]] + xs[i + 1..] && ys[i..] == [ys[i]] + ys[i + 1..];
    }
  }

  method CompareFallback(a: seq<word>, b: seq<word>) returns (order: int)
    requires a != [] && b != []
    ensures order == if Signed(a) < Signed(b) then -1 else if Signed(a) > Signed(b) then 1 else 0
  {
    SignedRange(a);
    SignedRange(b);
    if IsNegative(a) != IsNegative(b) {
      return if IsNegative(a) then -1 else 1;
    }
    var signA, signB := SignWord(a), SignWord(b);
    var i: nat := Max(|a|, |b|);
    ghost var n := i;
    while i != 0
      invariant i <= n && Extend(a, n)[i..] == Extend(b, n)[i..]
    {
      var x := if i <= |a| then a[i - 1] else signA;
      var y := if i <= |b| then b[i - 1] else signB;
      Decide(a, b, n, i - 1);
      if x != y {
        return if x > y then 1 else -1;
      }
      i := i - 1;
    }
    SameSignOrder(a, b, n);
    assert Extend(a, n)[0..] == Extend(a, n) && Extend(b, n)[0..] == Extend(b, n);
    return 0;
  }

  method CopyWords(s: seq<word>) returns (data: array<word>)
    ensures fresh(data) && data[..] == s
  {
    data := new word[|s|](i requires 0 <= i < |s| => s[i]);
  }

  method MinFallback(a: seq<word>, b: seq<word>) returns (r: BigInt)
    requires a != [] && b != []
    ensures Canonical(r) && Value(r) == if Signed(a) <= Signed(b) then Signed(a) else Signed(b)
  {
    var order := CompareFallback(a, b);
    var data := CopyWords(if order <= 0 then a else b);
    r := Normalize(data);
  }

  method MaxFallback(a: seq<word>, b: seq<word>) returns (r: BigInt)
    requires a != [] && b != []
    ensures Canonical(r) && Value(r) == if Signed(a) >= Signed(b) then Signed(a) else Signed(b)
  {
    var order := CompareFallback(a, b);
    var data := CopyWords(if order >= 0 then a else b);
    r := Normalize(data);
  }

  // ---------- byte content ----------

  type byte = x: nat | x < 256

  datatype Imported = Ok(value: BigInt) | PartialWord

  /** Little-endian bytes of one word, and back. */
  function WordBytes(x: word): (s: seq<byte>)
    ensures |s| == 8
  {
    DigitsOf(256, x, 8)
  }

  function ContentBytes(s: seq<word>): (t: seq<byte>)
    ensures |t| == 8 * |s|
  {
    if s == [] then [] else WordBytes(s[0]) + ContentBytes(s[1..])
  }

  lemma {:induction false} ByteDigits(s: seq<byte>)
    ensures Digits(256, s)
  {
  }

  /** The integer of a byte string in two's complement. */
  function SignedBytes(s: seq<byte>): int {
    if s == [] then 0
    else Val(256, s) - (if s[|s| - 1] >= 128 then Pow(256, |s|) else 0)
  }

  lemma {:induction false} EightBytes(s: seq<byte>)
    requires |s| == 8
    ensures Val(256, s) < W
    ensures Val(256, s) >= HALF <==> s[7] >= 128
  {
    Pow256(1);
    ByteDigits(s);
    ValBound(256, s);
    ValStep(256, s, 7);
    assert s[..8] == s;
    ValBound(256, s[..7]);
    assert Pow(256, 8) == 256 * Pow(256, 7);
  }

  lemma {:induction false} WordBytesValue(x: word)
    ensures Val(256, WordBytes(x)) == x
  {
    Pow256(1);
    DigitsOfValue(256, x, 8);
  }

  lemma {:induction false} Pow256(n: nat)
    ensures Pow(256, 8 * n) == Pow(W, n)
  {
    assert Pow(256, 2) == 0x1_0000;
    PowAdd(256, 2, 2);
    PowAdd(256, 4, 4);
    PowPow(256, 8, n);
  }

  /** Grouping bytes by eight keeps the number. */
  lemma {:induction false} GroupBytes(bytes: seq<byte>, words: seq<word>)
    requires |bytes| == 8 * |words|
    requires forall i :: 0 <= i < |words| ==> words[i] == Val(256, bytes[8 * i..8 * i + 8])
    ensures Val(W, words) == Val(256, bytes)
  {
    if words != [] {
      var rest := bytes[8..];
      forall i | 0 <= i < |words| - 1
        ensures words[1..][i] == Val(256, rest[8 * i..8 * i + 8])
      {
        assert rest[8 * i..8 * i + 8] == bytes[8 * (i + 1)..8 * (i + 1) + 8];
        assert words[1..][i] == words[i + 1];
      }
      GroupBytes(rest, words[1..]);
      ValSplit(256, bytes, 8);
      assert bytes[..8] == bytes[8 * 0..8 * 0 + 8];
      Pow256(1);
    }
  }

  lemma {:induction false} SignedBytesWords(bytes: seq<byte>, words: seq<word>)
    requires |bytes| == 8 * |words|
    requires forall i :: 0 <= i < |words| ==> words[i] == Val(256, bytes[8 * i..8 * i + 8])
    ensures Signed(words) == SignedBytes(bytes)
  {
    GroupBytes(bytes, words);
    if words != [] {
      TopByte(bytes, words);
      Pow256(|words|);
    }
  }

  lemma {:induction false} TopByte(bytes: seq<byte>, words: seq<word>)
    requires |bytes| == 8 * |words| && words != []
    requires forall i :: 0 <= i < |words| ==> words[i] == Val(256, bytes[8 * i..8 * i + 8])
    ensures IsNegative(words) <==> bytes[|bytes| - 1] >= 128
  {
    var n := |words| - 1;
    var last := bytes[8 * n..8 * n + 8];
    EightBytes(last);
    assert last[7] == bytes[|bytes| - 1];
  }

  /** Import from little-endian two's-complement content of any padding. */
  method FromByteArray(input: seq<byte>) returns (r: Imported)
    ensures r == PartialWord <==> |input| % 8 != 0
    ensures r.Ok? ==> Canonical(r.value) && Value(r.value) == SignedBytes(input)
  {
    if |input| % 8 != 0 {
      return PartialWord;
    }
    var size := |input| / 8;
    var data := new word[size];
    for i := 0 to size
      invariant forall k :: 0 <= k < i ==> data[k] == Val(256, input[8 * k..8 * k + 8])
    {
      var block := input[8 * i..8 * i + 8];
      EightBytes(block);
      data[i] := Val(256, block);
    }
    SignedBytesWords(input, data[..]);
    if size <= 1 {
      if size == 1 {
        OneWord(data[0]);
        assert data[..] == [data[0]];
      }
      return Ok(Inline(if size == 1 then ToInt64(data[0]) else 0));
    }
    var value := Normalize(data);
    return Ok(value);
  }

  lemma {:induction false} BlockOfConcat(w: seq<byte>, t: seq<byte>, i: nat)
    requires |w| == 8 && 8 * i + 8 <= 8 + |t|
    ensures (w + t)[8 * i..8 * i + 8] == if i == 0 then w else t[8 * (i - 1)..8 * (i - 1) + 8]
  {
  }

  lemma {:induction false} ContentBlock(s: seq<word>, i: nat)
    requires i < |s|
    ensures ContentBytes(s)[8 * i..8 * i + 8] == WordBytes(s[i])
  {
    BlockOfConcat(WordBytes(s[0]), ContentBytes(s[1..]), i);
    if i > 0 {
      ContentBlock(s[1..], i - 1);
    }
  }

  /** Exported content reads back as the exported integer. */
  lemma {:induction false} ContentValue(s: seq<word>)
    ensures SignedBytes(ContentBytes(s)) == Signed(s)
  {
    forall i | 0 <= i < |s|
      ensures s[i] == Val(256, ContentBytes(s)[8 * i..8 * i + 8])
    {
      ContentBlock(s, i);
      WordBytesValue(s[i]);
    }
    SignedBytesWords(ContentBytes(s), s);
  }

  datatype Exported = Content(bytes: seq<byte>) | Refused

  /**
    Import followed by export: whatever the padding, the bytes that come out are those of the
    canonical words, which are the same for every content of the same integer.
  */
  method ImportExport(input: seq<byte>) returns (r: Exported)
    ensures r.Refused? <==> |input| % 8 != 0
    ensures r.Content? ==> SignedBytes(r.bytes) == SignedBytes(input)
    ensures r.Content? ==> exists x :: Canonical(x) && CanonicalWords(View(x)) && r.bytes == ContentBytes(View(x))
    ensures r.Content? ==>
              forall y :: Canonical(y) && Value(y) == SignedBytes(input) ==> ContentBytes(View(y)) == r.bytes
  {
    var imported := FromByteArray(input);
    if imported.PartialWord? {
      return Refused;
    }
    var x := imported.value;
    ViewValue(x);
    ContentValue(View(x));
    forall y | Canonical(y) && Value(y) == SignedBytes(input)
      ensures y == x
    {
      CanonicalUnique(y, x);
    }
    return Content(ContentBytes(View(x)));
  }

  /** Two inputs come out as the same bytes exactly when they are the same integer. */
  lemma {:induction false} ContentNormalForm(x: BigInt, y: BigInt)
    requires Canonical(x) && Canonical(y)
    ensures ContentBytes(View(x)) == ContentBytes(View(y)) <==> Value(x) == Value(y)
  {
    ContentValue(View(x));
    ContentValue(View(y));
    ViewValue(x);
    ViewValue(y);
    if Value(x) == Value(y) {
      CanonicalUnique(x, y);
    }
  }

  /** Export followed by import gives the same representation back. */
  lemma {:induction false} ContentCanonical(x: BigInt, y: BigInt)
    requires Canonical(x) && Canonical(y) && Value(y) == SignedBytes(ContentBytes(View(x)))
    ensures y == x
  {
    ContentValue(View(x));
    ViewValue(x);
    CanonicalUnique(y, x);
  }
}
