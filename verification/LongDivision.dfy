/**
  Algorithm D over all positions of the dividend: one window of the dividend gives one digit of
  the quotient and leaves its remainder there, and two digits are packed to a quotient word.
*/
module LongDivision {
  import opened Radix
  import opened Words
  import opened Bits
  import opened Multiply
  import opened DigitSteps

  // ---------- all positions, packed into words ----------

  /** Digits from position p on are divided; `done` is the number their quotient digits write. */
  ghost predicate DividedDown(u: seq<digit>, s: seq<digit>, d: nat, n: nat, p: nat, done: nat)
    requires |u| == |s| && p + n <= |u|
  {
    u[..p] == s[..p] && (forall k :: p + n <= k < |u| ==> u[k] == 0) &&
    Val(R, u[p..]) < d && Val(R, s[p..]) == d * done + Val(R, u[p..])
  }

  /** Above the window everything is zero, so the window holds the number. */
  lemma {:induction false} WindowValue(u: seq<digit>, p: nat, n: nat)
    requires p + n <= |u| && forall k :: p + n <= k < |u| ==> u[k] == 0
    ensures Val(R, u[p..]) == Val(R, u[p..p + n])
  {
    var t := u[p..];
    ValSplit(R, t, n);
    assert t[..n] == u[p..p + n];
    ValZeros(R, t[n..]);
  }

  lemma {:induction false} WindowReady(u: seq<digit>, s: seq<digit>, d: nat, n: nat, p: nat, done: nat)
    requires |u| == |s| && 0 < p && p + n <= |u| && DividedDown(u, s, d, n, p, done)
    ensures Val(R, u[p - 1..p + n]) < R * d
    ensures Val(R, s[p - 1..]) == R * (d * done) + Val(R, u[p - 1..p + n])
  {
    var j := p - 1;
    WindowValue(u, j, n + 1);
    assert u[j..][1..] == u[p..] && s[j..][1..] == s[p..];
    assert u[j] == u[..p][j] == s[j];
  }

  /** A window of n + 1 digits below an n-digit divisor has a zero on top. */
  lemma {:induction false} ZeroOnTop(w: seq<digit>, v: seq<digit>)
    requires |w| == |v| + 1 && Val(R, w) < Val(R, v)
    ensures w[|v|] == 0
  {
    var n := |v|;
    DigitDigits(v);
    ValBound(R, v);
    assert w[..n + 1] == w;
    ValStep(R, w, n);
    if w[n] > 0 {
      MulMono(Pow(R, n), 1, w[n]);
    }
  }

  lemma {:induction false} DividedDownStep(u: seq<digit>, s: seq<digit>, v: seq<digit>, p: nat, done: nat,
      u': seq<digit>, q: nat)
    requires |u| == |s| == |u'| && 0 < p && p + |v| <= |u|
    requires DividedDown(u, s, Val(R, v), |v|, p, done)
    requires OnlyWindow(u', u, p - 1, |v| + 1)
    requires var w, w' := Val(R, u[p - 1..p + |v|]), Val(R, u'[p - 1..p + |v|]);
             w == q * Val(R, v) + w' && w' < Val(R, v)
    ensures DividedDown(u', s, Val(R, v), |v|, p - 1, q + R * done)
  {
    var j, n, d := p - 1, |v|, Val(R, v);
    WindowReady(u, s, d, n, p, done);
    var w := u'[j..p + n];
    ZeroOnTop(w, v);
    assert w[n] == u'[j + n];
    forall k | j + n <= k < |u'|
      ensures u'[k] == 0
    {
      if k > j + n {
        assert u'[k] == u'[j + n + 1..][k - j - n - 1] == u[j + n + 1..][k - j - n - 1] == u[k];
      }
    }
    WindowValue(u', j, n + 1);
    assert u'[..j] == u[..j] == u[..p][..j] == s[..p][..j] == s[..j];
    DownArith(d, q, done);
  }

  lemma {:induction false} DownArith(d: int, q: int, done: int)
    ensures R * (d * done) + q * d == d * (q + R * done)
  {
    MulDist(d, q, R * done);
    assert d * (R * done) == R * (d * done);
  }

  /** Two digits are packed into a word when the even one arrives; an odd one waits in `pending`. */
  ghost predicate Packed(q: seq<word>, pending: word, p: nat, done: nat)
    requires (p + 1) / 2 <= |q|
  {
    if p % 2 == 0 then done == Val(W, q[p / 2..])
    else exists h: nat :: h < R && pending == h * R && done == h + R * Val(W, q[(p + 1) / 2..])
  }

  lemma {:induction false} PackEven(q: seq<word>, pending: word, j: nat, done: nat, digit: nat, h: nat, w: word)
    requires j % 2 == 0 && j / 2 + 1 <= |q| && digit < R && h < R && pending == h * R && w == pending + digit
    requires done == h + R * Val(W, q[j / 2 + 1..])
    ensures Packed(q[j / 2 := w], pending, j, digit + R * done)
  {
    assert q[j / 2 := w][j / 2..][1..] == q[j / 2 + 1..];
  }

  method PackDigit(q: array<word>, pending: word, j: nat, digit: nat, ghost done: nat) returns (next: word)
    requires digit < R && (j + 2) / 2 <= q.Length && Packed(q[..], pending, j + 1, done)
    modifies q
    ensures Packed(q[..], next, j, digit + R * done)
    ensures forall k :: (j + 2) / 2 <= k < q.Length ==> q[k] == old(q[k])
  {
    next := pending;
    if j % 2 == 1 {
      next := Wrap(digit * R);
      SmallWrap(digit * R);
      assert next == digit * R;
    } else {
      ghost var h: nat :| h < R && pending == h * R && done == h + R * Val(W, q[..][(j + 2) / 2..]);
      OrHalves(h, digit);
      SmallWrap(pending);
      var w: word := Bitwise(Or, pending, digit);
      PackEven(q[..], pending, j, done, digit, h, w);
      q[j / 2] := w;
    }
  }

  /** The quotient digit at one position, with everything from there up divided. */
  method DivideDigit(u: array<digit>, v: array<digit>, position: nat, ghost s: seq<digit>, ghost done: nat)
    returns (digit: nat)
    requires u != v && v.Length >= 2 && 0 < position && position + v.Length <= u.Length
    requires |s| == u.Length && v[v.Length - 1] >= R / 2
    requires DividedDown(u[..], s, Val(R, v[..]), v.Length, position, done)
    modifies u
    ensures digit < R && DividedDown(u[..], s, Val(R, v[..]), v.Length, position - 1, digit + R * done)
  {
    ghost var before, vs := u[..], v[..];
    WindowReady(before, s, Val(R, vs), v.Length, position, done);
    digit := QuotientDigit(u, v, position - 1);
    DividedDownStep(before, s, vs, position, done, u[..], digit);
  }

  /** One position: a quotient digit, packed. */
  method DividePosition(u: array<digit>, v: array<digit>, q: array<word>, position: nat, pending: word,
      ghost s: seq<digit>, ghost done: nat)
    returns (next: word, ghost done': nat)
    requires u != v && v.Length >= 2 && 0 < position && position + v.Length <= u.Length && (position + 1) / 2 < q.Length
    requires |s| == u.Length && v[v.Length - 1] >= R / 2
    requires DividedDown(u[..], s, Val(R, v[..]), v.Length, position, done) && Packed(q[..], pending, position, done)
    modifies u, q
    ensures DividedDown(u[..], s, Val(R, v[..]), v.Length, position - 1, done')
    ensures Packed(q[..], next, position - 1, done')
    ensures q[q.Length - 1] == old(q[q.Length - 1])
  {
    var digit := DivideDigit(u, v, position, s, done);
    next := PackDigit(q, pending, position - 1, digit, done);
    done' := digit + R * done;
  }

  /** Divides the digits of u by v, leaving the remainder in u and the packed quotient in q. */
  method LongDivide(u: array<digit>, v: array<digit>, q: array<word>, m: nat, n: nat)
    requires u != v && v.Length == n >= 2 && m >= n && u.Length == m + 1 && q.Length == (m - n) / 2 + 2
    requires v[n - 1] >= R / 2 && q[q.Length - 1] == 0
    requires Val(R, u[..][m - n + 1..]) < Val(R, v[..])
    modifies u, q
    ensures Val(R, old(u[..])) == Val(W, q[..]) * Val(R, v[..]) + Val(R, u[..][..n])
    ensures Val(R, u[..][..n]) < Val(R, v[..])
    ensures q[q.Length - 1] == 0
  {
    ghost var s, vs, done: nat := u[..], v[..], 0;
    var pending: word := 0;
    var position: nat := m - n + 1;
    ValZeros(W, q[..][q.Length - 1..]);
    PackedStart(q[..], position);
    DividedStart(s, Val(R, vs), n, position);
    while position != 0
      invariant position <= m - n + 1 && v[..] == vs && q[q.Length - 1] == 0
      invariant DividedDown(u[..], s, Val(R, vs), n, position, done)
      invariant Packed(q[..], pending, position, done)
    {
      pending, done := DividePosition(u, v, q, position, pending, s, done);
      position := position - 1;
    }
    DividedEnd(u[..], s, q[..], Val(R, vs), n, pending, done);
  }

  lemma {:induction false} DividedStart(s: seq<digit>, d: nat, n: nat, p: nat)
    requires p + n == |s| && Val(R, s[p..]) < d
    ensures DividedDown(s, s, d, n, p, 0)
  {
  }

  lemma {:induction false} DividedEnd(u: seq<digit>, s: seq<digit>, q: seq<word>, d: nat, n: nat, pending: word,
      done: nat)
    requires |u| == |s| && n <= |u| && q != [] && DividedDown(u, s, d, n, 0, done) && Packed(q, pending, 0, done)
    ensures Val(R, s) == Val(W, q) * d + Val(R, u[..n]) && Val(R, u[..n]) < d
  {
    assert q[0..] == q && s[0..] == s && u[0..n] == u[..n];
    WindowValue(u, 0, n);
    MulComm(d, done);
  }

  lemma {:induction false} MulComm(x: int, y: int)
    ensures x * y == y * x
  {
  }

  lemma {:induction false} PackedStart(q: seq<word>, p: nat)
    requires |q| > 0 && (p + 1) / 2 == |q| - 1 && Val(W, q[|q| - 1..]) == 0
    ensures Packed(q, 0, p, 0)
  {
    if p % 2 == 1 {
      assert 0 == 0 * R && 0 == 0 + R * Val(W, q[(p + 1) / 2..]);
    }
  }
}
