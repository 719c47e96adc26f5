/**
  Reading the absolute value of a word array without copying it, from the index of its
  first nonzero word.
*/
module Magnitude {
  import opened Radix
  import opened Words
  import opened Additive

  function Abs(x: int): nat { if x < 0 then -x else x }

  ghost predicate IsFirstNonzero(x: seq<word>, first: nat) {
    first <= |x| && (forall i :: 0 <= i < first ==> x[i] == 0) && (first < |x| ==> x[first] != 0)
  }

  method FirstNonzero(x: seq<word>) returns (first: nat)
    ensures IsFirstNonzero(x, first)
  {
    first := 0;
    while first < |x| && x[first] == 0
      invariant first <= |x| && forall i :: 0 <= i < first ==> x[i] == 0
    {
      first := first + 1;
    }
  }

  /** Word i of the magnitude; words beyond the array read as zero. */
  function AbsWord(x: seq<word>, first: nat, i: nat): word
    requires x != []
  {
    if i >= |x| then 0
    else if !IsNegative(x) then x[i]
    else if i < first then 0
    else if i == first then (if ToInt64(x[i]) == INT64_MIN then x[i] else ToWord(-ToInt64(x[i])))
    else Not(x[i])
  }

  function AbsWords(x: seq<word>, first: nat, n: nat): (s: seq<word>)
    requires x != []
    ensures |s| == n
  {
    seq(n, i requires 0 <= i => AbsWord(x, first, i))
  }

  /** A block whose low words are zero and whose first nonzero word is negated complements to its negation. */
  lemma {:induction false} NegatedBlock(s: seq<word>, t: seq<word>, first: nat)
    requires |s| == |t| && first < |s|
    requires forall i :: 0 <= i < first ==> s[i] == 0 == t[i]
    requires s[first] != 0 && t[first] == W - s[first]
    requires forall i :: first < i < |s| ==> t[i] == Not(s[i])
    ensures Val(W, s) + Val(W, t) == Pow(W, |s|)
    decreases first
  {
    if first == 0 {
      assert t[1..] == NotAll(s[1..]);
      NotAllVal(s[1..]);
    } else {
      NegatedBlock(s[1..], t[1..], first - 1);
      MulDist(W, Val(W, s[1..]), Val(W, t[1..]));
    }
  }

  lemma {:induction false} ZeroTail(x: seq<word>, s: seq<word>)
    requires |x| <= |s| && s[..|x|] == x && forall i :: |x| <= i < |s| ==> s[i] == 0
    ensures Val(W, s) == Val(W, x)
  {
    ValSplit(W, s, |x|);
    ValZeros(W, s[|x|..]);
  }

  /** The words AbsWord reads are the words of the absolute value. */
  lemma {:induction false} AbsValue(x: seq<word>, first: nat, n: nat)
    requires x != [] && IsFirstNonzero(x, first) && |x| <= n
    ensures Val(W, AbsWords(x, first, n)) == Abs(Signed(x))
  {
    var t := AbsWords(x, first, |x|);
    SignedRange(x);
    if IsNegative(x) {
      assert x[|x| - 1] != 0;
      NegatedBlock(x, t, first);
    } else {
      assert t == x;
    }
    ZeroTail(t, AbsWords(x, first, n));
  }

  /** The magnitude of an n-word integer is at most half the n-word range. */
  lemma {:induction false} AbsBound(x: seq<word>)
    requires x != []
    ensures Abs(Signed(x)) <= Half(|x|)
  {
    SignedRange(x);
  }
}
