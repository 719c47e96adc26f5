/** The platform-stable hash of byte strings, its combination and the inline strings. */
module StableHash {
  import opened Radix
  import opened Words
  import opened Bits
  import opened Compare

  const MULTIPLIER: nat := 1099511628211
  const MOD: nat := 2147483647

  /** One chunk enters the hash; the product wraps at 64 bits before the reduction. */
  function Mix(result: nat, chunk: nat): word { Wrap(result * MULTIPLIER + chunk) % MOD }

  /** Eight bytes at a time; a shorter last chunk counts as if padded with zeros. */
  function HashFrom(result: word, s: seq<byte>): word
    decreases |s|
  {
    if |s| >= 8 then HashFrom(Mix(result, Val(256, s[..8])), s[8..])
    else if s == [] then result
    else Mix(result, Val(256, s))
  }

  function HashBytes(s: seq<byte>): word { HashFrom(0, s) }

  /** The i-th chunk of eight bytes; the last one can be shorter. */
  function Chunk(data: seq<byte>, i: nat): seq<byte>
    requires 8 * i < |data|
  {
    data[8 * i..if 8 * i + 8 <= |data| then 8 * i + 8 else |data|]
  }

  /** The partial results after the first |rs| - 1 chunks, from zero. */
  ghost predicate Partials(rs: seq<nat>, data: seq<byte>) {
    && 1 <= |rs| <= (|data| + 7) / 8 + 1 && rs[0] == 0
    && forall i :: 0 <= i < |rs| - 1 ==>
         rs[i + 1] == (rs[i] * 1099511628211 + Val(256, Chunk(data, i))) % 0x1_0000_0000_0000_0000 % 2147483647
  }

  lemma {:induction false} PartialsStep(rs: seq<nat>, data: seq<byte>, k: nat, next: nat)
    requires Partials(rs, data) && |rs| == k + 1 && 8 * k < |data|
    requires next == (rs[k] * 1099511628211 + Val(256, Chunk(data, k))) % 0x1_0000_0000_0000_0000 % 2147483647
    ensures Partials(rs + [next], data)
  {
  }

  lemma {:induction false} ContinuePartials(data: seq<byte>, k: nat, rs: seq<nat>) returns (all: seq<nat>)
    requires Partials(rs, data) && |rs| == k + 1 && rs[k] < W && 8 * k <= |data| + 7
    ensures Partials(all, data) && |all| == (|data| + 7) / 8 + 1
    ensures all[|all| - 1] == HashFrom(rs[k], if 8 * k <= |data| then data[8 * k..] else [])
    decreases |data| + 8 - 8 * k
  {
    if 8 * k >= |data| {
      all := rs;
    } else {
      var rest, next := data[8 * k..], Mix(rs[k], Val(256, Chunk(data, k)));
      PartialsStep(rs, data, k, next);
      all := ContinuePartials(data, k + 1, rs + [next]);
      if |rest| >= 8 {
        assert Chunk(data, k) == rest[..8] && rest[8..] == data[8 * (k + 1)..];
      } else {
        assert Chunk(data, k) == rest;
      }
    }
  }

  /** The hash is the last of the partial results over all chunks. */
  lemma {:induction false} HashIsFold(data: seq<byte>)
    ensures exists rs :: Partials(rs, data) && |rs| == (|data| + 7) / 8 + 1 && rs[|rs| - 1] == HashBytes(data)
  {
    assert data[0..] == data;
    var rs := ContinuePartials(data, 0, [0]);
  }

  // ---------- the loop ----------

  /** The byte buffer that overlays one 64-bit word. */
  method LoadBytes(u: array<byte>, at: nat, data: seq<byte>, it: nat, n: nat)
    requires at + n <= u.Length && it + n <= |data|
    modifies u
    ensures u[at..at + n] == data[it..it + n]
    ensures u[..at] == old(u[..at]) && u[at + n..] == old(u[at + n..])
  {
    for i := 0 to n
      invariant u[at..at + i] == data[it..it + i]
      invariant u[..at] == old(u[..at]) && u[at + n..] == old(u[at + n..])
    {
      u[at + i] := data[it + i];
    }
  }

  lemma {:induction false} ChunkStep(result: word, data: seq<byte>, it: nat)
    requires it + 8 <= |data|
    ensures HashFrom(Mix(result, Val(256, data[it..it + 8])), data[it + 8..]) == HashFrom(result, data[it..])
  {
    var s := data[it..];
    assert s[..8] == data[it..it + 8] && s[8..] == data[it + 8..];
  }

  lemma {:induction false} PaddedValue(s: seq<byte>, zeros: seq<byte>)
    requires forall i :: 0 <= i < |zeros| ==> zeros[i] == 0
    ensures Val(256, s + zeros) == Val(256, s)
  {
    ValConcat(256, s, zeros);
    ValZeros(256, zeros);
  }

  /** The first `a` bytes hold the text from `start` on and the others are still zero. */
  ghost predicate Loaded(u: array<byte>, a: nat, data: seq<byte>, start: nat)
    reads u
  {
    && u.Length == 8 && a <= 8 && start + a <= |data|
    && u[..a] == data[start..start + a]
    && forall i :: a <= i < 8 ==> u[i] == 0
  }

  method LoadMore(u: array<byte>, a: nat, data: seq<byte>, start: nat, n: nat)
    requires Loaded(u, a, data, start) && a + n <= 8 && start + a + n <= |data|
    modifies u
    ensures Loaded(u, a + n, data, start)
  {
    ghost var before, rest := u[..a], u[a + n..];
    LoadBytes(u, a, data, start + a, n);
    assert u[..a + n] == before + data[start + a..start + a + n];
    assert u[a + n..] == rest;
    assert forall i :: a + n <= i < 8 ==> u[i] == rest[i - a - n];
  }

  lemma {:induction false} LoadedValue(u: array<byte>, data: seq<byte>, start: nat)
    requires start <= |data| && Loaded(u, |data| - start, data, start)
    ensures Val(256, u[..]) == Val(256, data[start..]) < W
  {
    var a := |data| - start;
    assert data[start..start + a] == data[start..];
    PaddedValue(u[..a], u[a..]);
    assert u[..] == u[..a] + u[a..];
    EightBytes(u[..]);
  }

  /** The remainder of fewer than eight bytes, by four, two and one. */
  method LoadTail(data: seq<byte>, start: nat) returns (chunk: word)
    requires start < |data| < start + 8
    ensures chunk == Val(256, data[start..])
  {
    var u := new byte[8](i => 0);
    var it, a := start, 0;
    if it + 4 <= |data| {
      LoadMore(u, a, data, start, 4);
      it, a := it + 4, a + 4;
    }
    if it + 2 <= |data| {
      LoadMore(u, a, data, start, 2);
      it, a := it + 2, a + 2;
    }
    if it + 1 <= |data| {
      LoadMore(u, a, data, start, 1);
    }
    LoadedValue(u, data, start);
    chunk := Val(256, u[..]);
  }

  /** Whether or not the data is aligned for direct loads, the fold is the same. */
  method StableHashBytes(data: seq<byte>, address: nat) returns (result: word)
    ensures result == HashBytes(data)
    ensures exists rs :: Partials(rs, data) && |rs| == (|data| + 7) / 8 + 1 && rs[|rs| - 1] == result
  {
    HashIsFold(data);
    var it := 0;
    result := 0;
    assert data[0..] == data;
    if address % 8 == 0 {
      while it + 8 <= |data|
        invariant it <= |data| && HashFrom(result, data[it..]) == HashBytes(data)
      {
        ChunkStep(result, data, it);
        result := Mix(result, Val(256, data[it..it + 8]));
        it := it + 8;
      }
    } else {
      var u := new byte[8](i => 0);
      while it + 8 <= |data|
        invariant it <= |data| && HashFrom(result, data[it..]) == HashBytes(data)
      {
        ChunkStep(result, data, it);
        LoadBytes(u, 0, data, it, 8);
        assert u[..] == u[0..8];
        result := Mix(result, Val(256, u[..]));
        it := it + 8;
      }
    }
    if it < |data| {
      var chunk := LoadTail(data, it);
      result := Mix(result, chunk);
    }
  }

  // ---------- inline strings ----------

  /** An inline string's payload word: at most seven bytes, zero above the length. */
  predicate InlinePayload(v: word, len: nat) { len <= 7 && v < Pow(256, len) }

  function InlineBytes(v: word, len: nat): (s: seq<byte>)
    ensures |s| == len
  {
    DigitsOf(256, v, len)
  }

  /** Hash of an inline string straight from its payload word. */
  function StableHashSmallStrBytes(v: word): word { v % MOD }

  /** The inline hash is the hash of the same bytes anywhere else. */
  lemma {:induction false} InlineHashAgrees(v: word, len: nat)
    requires InlinePayload(v, len)
    ensures StableHashSmallStrBytes(v) == HashBytes(InlineBytes(v, len))
  {
    DigitsOfValue(256, v, len);
    var s := InlineBytes(v, len);
    assert Val(256, s) == v;
    assert Wrap(0 * MULTIPLIER + v) == v;
    if s == [] {
      assert v == 0;
    }
  }

  lemma {:induction false} DigitsOfLow(b: nat, x: nat, n: nat)
    requires b > 0
    ensures Val(b, DigitsOf(b, x, n)) == x % Pow(b, n)
    decreases n
  {
    var p := Pow(b, n);
    if n == 0 {
      DivModUnique(x, 1, x, 0);
    } else {
      DigitsOfLow(b, x / b, n - 1);
      LowDigitsArith(x, b, Pow(b, n - 1));
      assert DigitsOf(b, x, n)[1..] == DigitsOf(b, x / b, n - 1);
    }
  }

  lemma {:induction false} LowDigitsArith(x: nat, b: nat, p: nat)
    requires b > 0 && p > 0
    ensures x % (b * p) == x % b + b * (x / b % p)
  {
    var y, d := x / b, x % b;
    var q, r := y / p, y % p;
    DivModBasics(x, b);
    DivModBasics(y, p);
    assert b * (r + p * q) == b * r + (b * p) * q;
    MulMono(b, r + 1, p);
    MulDist(b, r, 1);
    assert b * p > 0;
    DivModUnique(x, b * p, q, d + b * r);
  }

  /**
    What the hash of a payload makes of the bytes above the length: for up to seven bytes the two
    hashes agree exactly when those bytes do not matter modulo the hash's modulus.
  */
  lemma {:induction false} PaddingMatters(v: word, len: nat)
    requires len <= 7
    ensures StableHashSmallStrBytes(v) == HashBytes(InlineBytes(v, len))
            <==> v % MOD == v % Pow(256, len) % MOD
  {
    var s := InlineBytes(v, len);
    DigitsOfLow(256, v, len);
    ShortHash(s);
  }

  /** Up to seven bytes are one chunk. */
  lemma {:induction false} ShortHash(s: seq<byte>)
    requires |s| <= 7
    ensures HashBytes(s) == Val(256, s) % MOD
  {
    ByteDigits(s);
    ValBound(256, s);
    PowMono(256, |s|, 7);
    SevenBytes();
    assert Wrap(0 * MULTIPLIER + Val(256, s)) == Val(256, s);
  }

  /** Writing a short string inline: its payload reads back as the same bytes. */
  lemma {:induction false} InlineRoundTrip(s: seq<byte>)
    requires |s| <= 7
    ensures Val(256, s) < W && InlinePayload(Val(256, s), |s|) && InlineBytes(Val(256, s), |s|) == s
  {
    ByteDigits(s);
    ValBound(256, s);
    PowMono(256, |s|, 7);
    SevenBytes();
    DigitsOfValue(256, Val(256, s), |s|);
    ValUnique(256, InlineBytes(Val(256, s), |s|), s);
  }

  lemma {:induction false} SevenBytes()
    ensures Pow(256, 7) < W
  {
    assert Pow(256, 2) == 0x1_0000;
    PowAdd(256, 2, 2);
    PowAdd(256, 4, 2);
    PowAdd(256, 6, 1);
  }

  /** Two zero-padded payloads of one length with the same bytes are the same word. */
  lemma {:induction false} InlineUnique(v: word, w: word, len: nat)
    requires InlinePayload(v, len) && InlinePayload(w, len) && InlineBytes(v, len) == InlineBytes(w, len)
    ensures v == w
  {
    DigitsOfValue(256, v, len);
    DigitsOfValue(256, w, len);
  }

  // ---------- combining ----------

  function Add64(x: nat, y: nat): word { Wrap(x + y) }

  /** key ^ (value + 0x9e3779b9 + (key << 6) + (key >> 2)) on 64 bits. */
  function StableHashCombine(key: word, value: word): (r: word)
  {
    var mixed := Add64(Add64(Add64(value, 0x9e3779b9), Shl(key, 6)), Shr(key, 2));
    WordBitwise(Xor, key, mixed);
    Bitwise(Xor, key, mixed)
  }

  /** Bit by bit: the key exclusive-or the wrapped sum of the value, the constant and two shifts of the key. */
  lemma {:induction false} CombineBits(key: word, value: word, i: nat)
    ensures var sum := (value + 0x9e3779b9 + key * 64 + key / 4) % 0x1_0000_0000_0000_0000;
            BitAt(StableHashCombine(key, value), i) <==> BitAt(key, i) != BitAt(sum, i)
  {
    var mixed := Add64(Add64(Add64(value, 0x9e3779b9), Shl(key, 6)), Shr(key, 2));
    BitwiseAt(Xor, key, mixed, i);
    assert Pow(2, 6) == 64 && Pow(2, 2) == 4;
    WrapSum(value + 0x9e3779b9, key * 64, key / 4);
  }

  lemma {:induction false} WrapSum(a: nat, b: nat, c: nat)
    ensures Add64(Add64(Wrap(a), Wrap(b)), c) == Wrap(a + b + c)
  {
    var q, p := a / W, b / W;
    var x := Wrap(a) + Wrap(b);
    assert a + b + c == Wrap(x) + c + W * (q + p + x / W);
    WrapShift(Wrap(x) + c, q + p + x / W);
  }

  lemma {:induction false} WrapShift(x: nat, k: nat)
    ensures Wrap(x + W * k) == Wrap(x)
  {
    DivModUnique(x + W * k, W, x / W + k, x % W);
  }

  lemma {:induction false} XorTwice(x: nat, y: nat)
    ensures Bitwise(Xor, x, Bitwise(Xor, x, y)) == y
    decreases x + y
  {
    if x != 0 || y != 0 {
      XorTwice(x / 2, y / 2);
      var z := Bitwise(Xor, x, y);
      var e := if (x % 2 == 1) != (y % 2 == 1) then 1 else 0;
      assert z == e + 2 * Bitwise(Xor, x / 2, y / 2);
      assert z / 2 == Bitwise(Xor, x / 2, y / 2) && z % 2 == e;
    }
  }

  lemma {:induction false} Add64Injective(x: word, y: word, c: nat)
    requires Add64(x, c) == Add64(y, c)
    ensures x == y
  {
    var q, p := (x + c) / W, (y + c) / W;
    assert x + c == W * q + (x + c) % W && y + c == W * p + (y + c) % W;
    assert x - y == W * (q - p);
  }

  /** Under one key, combining never merges two values. */
  lemma {:induction false} CombineInjective(key: word, v: word, w: word)
    ensures StableHashCombine(key, v) == StableHashCombine(key, w) ==> v == w
  {
    if StableHashCombine(key, v) == StableHashCombine(key, w) {
      var a, b := Add64(v, 0x9e3779b9), Add64(w, 0x9e3779b9);
      var c, d := Add64(a, Shl(key, 6)), Add64(b, Shl(key, 6));
      XorTwice(key, Add64(c, Shr(key, 2)));
      XorTwice(key, Add64(d, Shr(key, 2)));
      Add64Injective(c, d, Shr(key, 2));
      Add64Injective(a, b, Shl(key, 6));
      Add64Injective(v, w, 0x9e3779b9);
    }
  }

  // ---------- integers ----------

  /** An inline integer hashes to its word, a heap integer to the hash of its bytes. */
  function BigIntHash(x: BigInt): word {
    match x
    case Inline(v) => ToWord(v)
    case Heap(words) => HashBytes(ContentBytes(words))
  }

  /** Equal integers have equal hashes. */
  lemma {:induction false} BigIntHashAgrees(x: BigInt, y: BigInt)
    requires Canonical(x) && Canonical(y) && Value(x) == Value(y)
    ensures BigIntHash(x) == BigIntHash(y)
  {
    CanonicalUnique(x, y);
  }
}
