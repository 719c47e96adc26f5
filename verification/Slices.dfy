/** Which positions a slice visits, and what reading and deleting them leaves. */
module Slices {
  import opened Radix

  // ---------- slices ----------

  datatype Bound = Given(i: int) | Omitted

  datatype Slice = Slice(start: Bound, stop: Bound, step: Bound)

  function Step(s: Slice): int { if s.step.Given? then s.step.i else 1 }

  /** A slice bound brought into range: negative bounds count from the end. */
  function Clamp(i: int, n: nat, lower: int, upper: int): int {
    if i < 0 then (if i + n < lower then lower else i + n) else (if i > upper then upper else i)
  }

  function Lower(step: int): int { if step < 0 then -1 else 0 }

  function Upper(step: int, n: nat): int { if step < 0 then n - 1 else n }

  function Start(s: Slice, n: nat): int {
    var step := Step(s);
    if s.start.Given? then Clamp(s.start.i, n, Lower(step), Upper(step, n))
    else if step < 0 then Upper(step, n) else Lower(step)
  }

  function Stop(s: Slice, n: nat): int {
    var step := Step(s);
    if s.stop.Given? then Clamp(s.stop.i, n, Lower(step), Upper(step, n))
    else if step < 0 then Lower(step) else Upper(step, n)
  }

  /** How many positions range(start, stop, step) visits. */
  function RangeCount(start: int, stop: int, step: int): nat
    requires step != 0
  {
    if step > 0 && start < stop then (stop - start - 1) / step + 1
    else if step < 0 && stop < start then (start - stop - 1) / (0 - step) + 1
    else 0
  }

  function Count(s: Slice, n: nat): nat
    requires Step(s) != 0
  {
    RangeCount(Start(s, n), Stop(s, n), Step(s))
  }

  /** The k-th selected position. */
  function Position(s: Slice, n: nat, k: nat): int { Start(s, n) + k * Step(s) }

  predicate Selected(s: Slice, n: nat, i: int)
    requires Step(s) != 0
  {
    var start, stop, step := Start(s, n), Stop(s, n), Step(s);
    if step > 0 then start <= i < stop && (i - start) % step == 0
    else stop < i <= start && (start - i) % (0 - step) == 0
  }

  /** The set of the first `count` positions from `first` on, `step` apart. */
  function RangeSet(first: int, count: nat, step: int): set<int> {
    if count == 0 then {} else RangeSet(first, count - 1, step) + {first + (count - 1) * step}
  }

  function Dead(s: Slice, n: nat): set<int>
    requires Step(s) != 0
  {
    RangeSet(Start(s, n), Count(s, n), Step(s))
  }

  lemma {:induction false} RangeSetAt(first: int, count: nat, step: int, i: int)
    ensures i in RangeSet(first, count, step) <==> exists k: nat :: k < count && i == first + k * step
  {
    if count > 0 {
      RangeSetAt(first, count - 1, step, i);
      if i == first + (count - 1) * step {
        var k: nat := count - 1;
        assert i == first + k * step;
      }
    }
  }

  lemma {:induction false} QuotientBound(d: nat, step: nat, k: nat)
    requires step > 0
    ensures k <= d / step <==> k * step <= d
  {
    var q, r := d / step, d % step;
    assert d == q * step + r;
    if k <= q {
      MulMono(step, k, q);
    } else {
      MulMono(step, q + 1, k);
      assert (q + 1) * step == q * step + step;
    }
  }

  lemma {:induction false} Gap(gap: nat, step: nat, k: nat)
    requires step > 0
    ensures gap == k * step <==> gap % step == 0 && gap / step == k
  {
    if gap == k * step {
      DivModUnique(gap, step, k, 0);
    } else {
      assert gap == gap / step * step + gap % step;
    }
  }

  lemma {:induction false} ForwardMember(start: int, stop: int, step: nat, i: int, k: nat)
    requires step > 0
    ensures k < RangeCount(start, stop, step) && i == start + k * step
            <==> start <= i < stop && (i - start) % step == 0 && k == (i - start) / step
  {
    if start < stop {
      QuotientBound(stop - start - 1, step, k);
      assert 0 <= k * step;
    }
    if start <= i {
      Gap(i - start, step, k);
    } else {
      assert 0 <= k * step;
    }
  }

  /** The number of the position `i`, when it is one. */
  function Number(s: Slice, n: nat, i: int): int
    requires Step(s) != 0
  {
    var step := Step(s);
    if step > 0 then (i - Start(s, n)) / step else (Start(s, n) - i) / (0 - step)
  }

  lemma {:induction false} Member(s: Slice, n: nat, i: int, k: nat)
    requires Step(s) != 0
    ensures k < Count(s, n) && i == Position(s, n, k) <==> Selected(s, n, i) && k == Number(s, n, i)
  {
    var start, stop, step := Start(s, n), Stop(s, n), Step(s);
    if step > 0 {
      ForwardMember(start, stop, step, i, k);
    } else {
      ForwardMember(0 - start, 0 - stop, 0 - step, 0 - i, k);
      NegMul(k, 0 - step);
    }
  }

  lemma {:induction false} NegMul(j: nat, d: nat)
    ensures j * (0 - d) == 0 - j * d
  {
  }

  /** Every visited position lies inside the list. */
  lemma {:induction false} PositionInside(s: Slice, n: nat, k: nat)
    requires Step(s) != 0 && k < Count(s, n)
    ensures 0 <= Position(s, n, k) < n && Selected(s, n, Position(s, n, k))
  {
    Member(s, n, Position(s, n, k), k);
  }

  lemma {:induction false} NumberNat(s: Slice, n: nat, i: int)
    requires Step(s) != 0 && Selected(s, n, i)
    ensures Number(s, n, i) >= 0
  {
  }

  /** The visited positions are exactly the selected ones. */
  lemma {:induction false} DeadIsSelected(s: Slice, n: nat, i: int)
    requires Step(s) != 0
    ensures i in Dead(s, n) <==> Selected(s, n, i)
  {
    RangeSetAt(Start(s, n), Count(s, n), Step(s), i);
    if i in Dead(s, n) {
      var k: nat :| k < Count(s, n) && i == Start(s, n) + k * Step(s);
      Member(s, n, i, k);
    }
    if Selected(s, n, i) {
      NumberNat(s, n, i);
      var k: nat := Number(s, n, i);
      Member(s, n, i, k);
      assert i == Start(s, n) + k * Step(s);
    }
  }

  // ---------- the meaning ----------

  /** The elements at positions outside `dead`, in order. */
  function Without<T>(xs: seq<T>, dead: set<int>): seq<T> {
    if xs == [] then []
    else
      var n := |xs| - 1;
      Without(xs[..n], dead) + (if n in dead then [] else [xs[n]])
  }

  function Erase<T>(xs: seq<T>, i: nat): seq<T>
    requires i < |xs|
  {
    xs[..i] + xs[i + 1..]
  }

  /** What reading the slice returns. */
  function GetSlice<T>(xs: seq<T>, s: Slice): seq<T>
    requires Step(s) != 0
  {
    Picked(xs, s, Count(s, |xs|))
  }

  function Picked<T>(xs: seq<T>, s: Slice, k: nat): (r: seq<T>)
    requires Step(s) != 0 && k <= Count(s, |xs|)
    ensures |r| == k
  {
    if k == 0 then []
    else
      PositionInside(s, |xs|, k - 1);
      Picked(xs, s, k - 1) + [xs[Position(s, |xs|, k - 1)]]
  }

  lemma {:induction false} PickedAt<T>(xs: seq<T>, s: Slice, k: nat, j: nat)
    requires Step(s) != 0 && j < k <= Count(s, |xs|)
    ensures 0 <= Position(s, |xs|, j) < |xs| && Picked(xs, s, k)[j] == xs[Position(s, |xs|, j)]
  {
    PositionInside(s, |xs|, j);
    if j < k - 1 {
      PickedAt(xs, s, k - 1, j);
    }
  }

  lemma {:induction false} WithoutNone<T>(xs: seq<T>, dead: set<int>)
    requires forall d :: d in dead ==> d >= |xs|
    ensures Without(xs, dead) == xs
  {
    if xs != [] {
      WithoutNone(xs[..|xs| - 1], dead);
    }
  }

  /** Erasing below everything already removed is one more position removed. */
  lemma {:induction false} EraseStep<T>(xs: seq<T>, dead: set<int>, i: nat)
    requires i < |xs| && forall d :: d in dead ==> d > i
    ensures i < |Without(xs, dead)| && Without(xs, dead)[i] == xs[i]
    ensures Erase(Without(xs, dead), i) == Without(xs, dead + {i})
  {
    var n := |xs| - 1;
    var w := Without(xs[..n], dead);
    if i == n {
      WithoutNone(xs, dead);
      WithoutNone(xs[..n], dead + {i});
    } else {
      EraseStep(xs[..n], dead, i);
      var tail := if n in dead then [] else [xs[n]];
      assert Without(xs, dead) == w + tail;
      assert (w + tail)[..i] == w[..i] && (w + tail)[i + 1..] == w[i + 1..] + tail;
    }
  }

  lemma {:induction false} WithoutRun<T>(xs: seq<T>, start: nat, stop: nat)
    requires start <= stop <= |xs|
    ensures Without(xs, RangeSet(start, stop - start, 1)) == xs[..start] + xs[stop..]
  {
    var dead := RangeSet(start, stop - start, 1);
    forall i: int
      ensures i in dead <==> start <= i < stop
    {
      RangeSetAt(start, stop - start, 1, i);
      if start <= i < stop {
        var k: nat := i - start;
        assert i == start + k * 1;
      }
    }
    RunFrom(xs, start, stop, dead);
  }

  /** A slice of step 1 is a contiguous run. */
  lemma {:induction false} RunRemoved<T>(xs: seq<T>, s: Slice)
    requires Step(s) == 1
    ensures var a, b := Start(s, |xs|), Stop(s, |xs|);
            var end := if b < a then a else b;
            0 <= a <= end <= |xs| && Without(xs, Dead(s, |xs|)) == xs[..a] + xs[end..]
  {
    var a, b := Start(s, |xs|), Stop(s, |xs|);
    WithoutRun(xs, a, if b < a then a else b);
  }

  lemma {:induction false} RunFrom<T>(xs: seq<T>, start: nat, stop: nat, dead: set<int>)
    requires start <= stop && start <= |xs| && forall i: int :: 0 <= i < |xs| ==> (i in dead <==> start <= i < stop)
    ensures Without(xs, dead) == xs[..start] + (if stop <= |xs| then xs[stop..] else [])
  {
    if xs != [] {
      var n := |xs| - 1;
      if start == |xs| {
        WithoutOutside(xs, dead);
      } else {
        RunFrom(xs[..n], start, stop, dead);
        assert xs[..n][..start] == xs[..start];
        if stop <= n {
          assert xs[stop..] == xs[..n][stop..] + [xs[n]];
        }
      }
    }
  }

  lemma {:induction false} WithoutOutside<T>(xs: seq<T>, dead: set<int>)
    requires forall i: int :: 0 <= i < |xs| ==> i !in dead
    ensures Without(xs, dead) == xs
  {
    if xs != [] {
      WithoutOutside(xs[..|xs| - 1], dead);
    }
  }

  // ---------- descending order ----------

  /** The highest selected position, from which deletion walks down. */
  function Highest(s: Slice, n: nat): int
    requires Step(s) != 0
  {
    if Step(s) > 0 then Position(s, n, 0) + (Count(s, n) - 1) * Step(s) else Start(s, n)
  }

  function Stride(s: Slice): nat { if Step(s) > 0 then Step(s) else 0 - Step(s) }

  /** The j-th position in descending order. */
  function Descending(s: Slice, n: nat, j: nat): int
    requires Step(s) != 0
  {
    Highest(s, n) - j * Stride(s)
  }

  /** Which position the j-th deletion hits. */
  function Ordinal(s: Slice, n: nat, j: nat): int
    requires Step(s) != 0
  {
    if Step(s) > 0 then Count(s, n) - 1 - j else j
  }

  lemma {:induction false} DescendingArith(start: int, c: int, step: int, j: int)
    ensures start + 0 * step + (c - 1) * step - j * step == start + (c - 1 - j) * step
    ensures start - j * (0 - step) == start + j * step
  {
  }

  lemma {:induction false} DescendingPosition(s: Slice, n: nat, j: nat)
    requires Step(s) != 0 && j < Count(s, n)
    ensures Descending(s, n, j) == Position(s, n, Ordinal(s, n, j)) && 0 <= Descending(s, n, j) < n
  {
    PositionInside(s, n, Ordinal(s, n, j));
    DescendingArith(Start(s, n), Count(s, n), Step(s), j);
  }

  /** Walking down visits the same positions. */
  lemma {:induction false} DescendingSet(s: Slice, n: nat)
    requires Step(s) != 0
    ensures RangeSet(Highest(s, n), Count(s, n), 0 - Stride(s)) == Dead(s, n)
  {
    var c := Count(s, n);
    forall i: int
      ensures i in RangeSet(Highest(s, n), c, 0 - Stride(s)) <==> i in Dead(s, n)
    {
      RangeSetAt(Highest(s, n), c, 0 - Stride(s), i);
      RangeSetAt(Start(s, n), c, Step(s), i);
      if i in RangeSet(Highest(s, n), c, 0 - Stride(s)) {
        var j: nat :| j < c && i == Highest(s, n) + j * (0 - Stride(s));
        NegMul(j, Stride(s));
        DescendingPosition(s, n, j);
        var k: nat := Ordinal(s, n, j);
        assert i == Start(s, n) + k * Step(s);
      }
      if i in Dead(s, n) {
        var k: nat :| k < c && i == Start(s, n) + k * Step(s);
        var j: nat := Ordinal(s, n, k);
        DescendingPosition(s, n, j);
        NegMul(j, Stride(s));
        assert i == Highest(s, n) + j * (0 - Stride(s));
      }
    }
  }

  /** The positions already removed lie above the next one. */
  lemma {:induction false} RemovedAbove(s: Slice, n: nat, j: nat, d: int)
    requires Step(s) != 0 && j < Count(s, n) && d in RangeSet(Highest(s, n), j, 0 - Stride(s))
    ensures d > Descending(s, n, j)
  {
    RangeSetAt(Highest(s, n), j, 0 - Stride(s), d);
    var m: nat :| m < j && d == Highest(s, n) + m * (0 - Stride(s));
    NegMul(m, Stride(s));
    MulMono(Stride(s), m + 1, j);
    assert (m + 1) * Stride(s) == m * Stride(s) + Stride(s);
  }

  /** What is left after the first `j` deletions. */
  function Left<T>(xs: seq<T>, s: Slice, j: nat): seq<T>
    requires Step(s) != 0
  {
    Without(xs, RangeSet(Highest(s, |xs|), j, 0 - Stride(s)))
  }

  lemma {:induction false} LeftAll<T>(xs: seq<T>, s: Slice)
    requires Step(s) != 0
    ensures Left(xs, s, 0) == xs
    ensures Left(xs, s, Count(s, |xs|)) == Without(xs, Dead(s, |xs|))
  {
    WithoutNone(xs, {});
    DescendingSet(s, |xs|);
  }

  /** Deleting the j-th position from the top continues the removal. */
  lemma {:induction false} DeleteStep<T>(xs: seq<T>, s: Slice, j: nat)
    requires Step(s) != 0 && j < Count(s, |xs|)
    ensures var i := Descending(s, |xs|, j);
            var before := Left(xs, s, j);
            && 0 <= i < |before| && i < |xs| && before[i] == xs[i]
            && Erase(before, i) == Left(xs, s, j + 1)
  {
    var n := |xs|;
    var dead := RangeSet(Highest(s, n), j, 0 - Stride(s));
    DescendingPosition(s, n, j);
    var i := Descending(s, n, j);
    forall d | d in dead
      ensures d > i
    {
      RemovedAbove(s, n, j, d);
    }
    EraseStep(xs, dead, i);
    NegMul(j, Stride(s));
  }

  /** What deletion leaves and what the slice reads are together the whole list. */
  lemma {:induction false} Conservation<T>(xs: seq<T>, s: Slice)
    requires Step(s) != 0
    ensures multiset(xs) == multiset(Without(xs, Dead(s, |xs|))) + multiset(GetSlice(xs, s))
  {
    LeftAll(xs, s);
    ConservationFrom(xs, s, Count(s, |xs|));
    PickedSame(xs, s);
  }

  /** The elements erased in the first `j` steps. */
  function Erased<T>(xs: seq<T>, s: Slice, j: nat): (r: seq<T>)
    requires Step(s) != 0 && j <= Count(s, |xs|)
    ensures |r| == j
  {
    if j == 0 then []
    else
      DescendingPosition(s, |xs|, j - 1);
      Erased(xs, s, j - 1) + [xs[Descending(s, |xs|, j - 1)]]
  }

  lemma {:induction false} EraseMoves<T>(xs: seq<T>, i: nat, out: seq<T>)
    requires i < |xs|
    ensures multiset(xs) + multiset(out) == multiset(Erase(xs, i)) + multiset(out + [xs[i]])
  {
    assert xs == xs[..i] + [xs[i]] + xs[i + 1..];
  }

  /** One erased element moves from the rest to the erased ones. */
  lemma {:induction false} ConservationNext<T>(
    xs: seq<T>, rest: seq<T>, rest': seq<T>, out: seq<T>, out': seq<T>, i: int)
    requires 0 <= i < |rest| && Conserved(xs, rest, out)
    requires rest' == Erase(rest, i) && out' == out + [rest[i]]
    ensures Conserved(xs, rest', out')
  {
    EraseMoves(rest, i, out);
  }

  lemma {:induction false} ErasedStep<T>(xs: seq<T>, s: Slice, j: nat)
    requires Step(s) != 0 && j < Count(s, |xs|)
    ensures var i := Descending(s, |xs|, j);
            0 <= i < |Left(xs, s, j)| && Erased(xs, s, j + 1) == Erased(xs, s, j) + [Left(xs, s, j)[i]]
            && Left(xs, s, j + 1) == Erase(Left(xs, s, j), i)
  {
    DeleteStep(xs, s, j);
  }

  ghost predicate Conserved<T>(xs: seq<T>, rest: seq<T>, out: seq<T>) {
    multiset(xs) == multiset(rest) + multiset(out)
  }

  lemma {:induction false} ConservationStart<T>(xs: seq<T>, s: Slice)
    requires Step(s) != 0
    ensures Conserved(xs, Left(xs, s, 0), Erased(xs, s, 0))
  {
    LeftAll(xs, s);
  }

  lemma {:induction false} ConservationAt<T>(xs: seq<T>, s: Slice, j: nat)
    requires Step(s) != 0 && j < Count(s, |xs|) && Conserved(xs, Left(xs, s, j), Erased(xs, s, j))
    ensures Conserved(xs, Left(xs, s, j + 1), Erased(xs, s, j + 1))
  {
    ErasedStep(xs, s, j);
    ConservationNext(xs, Left(xs, s, j), Left(xs, s, j + 1), Erased(xs, s, j), Erased(xs, s, j + 1),
                     Descending(s, |xs|, j));
  }

  lemma {:induction false} ConservationFrom<T>(xs: seq<T>, s: Slice, j: nat)
    requires Step(s) != 0 && j <= Count(s, |xs|)
    ensures Conserved(xs, Left(xs, s, j), Erased(xs, s, j))
  {
    if j == 0 {
      ConservationStart(xs, s);
    } else {
      var i: nat := j - 1;
      ConservationFrom(xs, s, i);
      ConservationAt(xs, s, i);
    }
  }

  lemma {:induction false} ErasedAt<T>(xs: seq<T>, s: Slice, j: nat, m: nat)
    requires Step(s) != 0 && m < j <= Count(s, |xs|)
    ensures 0 <= Descending(s, |xs|, m) < |xs| && Erased(xs, s, j)[m] == xs[Descending(s, |xs|, m)]
  {
    DescendingPosition(s, |xs|, m);
    if m < j - 1 {
      ErasedAt(xs, s, j - 1, m);
    }
  }

  lemma {:induction false} ReverseKeeps<T>(xs: seq<T>, ys: seq<T>)
    requires |xs| == |ys| && forall i :: 0 <= i < |xs| ==> ys[i] == xs[|xs| - 1 - i]
    ensures multiset(xs) == multiset(ys)
  {
    if xs != [] {
      var n := |xs| - 1;
      assert xs == xs[..n] + [xs[n]] && ys == [ys[0]] + ys[1..];
      forall i | 0 <= i < n
        ensures ys[1..][i] == xs[..n][n - 1 - i]
      {
      }
      ReverseKeeps(xs[..n], ys[1..]);
    }
  }

  lemma {:induction false} PickedSame<T>(xs: seq<T>, s: Slice)
    requires Step(s) != 0
    ensures multiset(Erased(xs, s, Count(s, |xs|))) == multiset(GetSlice(xs, s))
  {
    var c := Count(s, |xs|);
    var down, up := Erased(xs, s, c), GetSlice(xs, s);
    forall m: nat | m < c
      ensures down[m] == up[Ordinal(s, |xs|, m)]
    {
      ErasedAt(xs, s, c, m);
      DescendingPosition(s, |xs|, m);
      PickedAt(xs, s, c, Ordinal(s, |xs|, m));
    }
    if Step(s) > 0 {
      ReverseKeeps(up, down);
    } else {
      assert down == up;
    }
  }

  // ---------- what the bounds mean ----------

  /** A given bound: negative ones count from the end, and one outside the list means the nearest end. */
  predicate BoundMeans(i: int, n: nat, step: int, p: int) {
    if i < 0 - n then p == if step > 0 then 0 else -1
    else if i < 0 then p == i + n
    else if i < n then p == i
    else p == if step > 0 then n else n - 1
  }

  /** The slice goes from position `a` to, exclusively, position `b`, by `step`. */
  predicate Means(s: Slice, n: nat, a: int, b: int, step: int) {
    && (s.step == Given(step) || (s.step.Omitted? && step == 1))
    && (if s.start.Given? then BoundMeans(s.start.i, n, step, a) else a == if step > 0 then 0 else n - 1)
    && (if s.stop.Given? then BoundMeans(s.stop.i, n, step, b) else b == if step > 0 then n else -1)
  }

  function Nth(a: int, step: int, k: nat): int { a + k * step }

  /** Position `j` lies between the two and a whole number of steps from the first. */
  ghost predicate Hit(a: int, b: int, step: int, j: int) {
    (if step > 0 then a <= j < b else b < j <= a) && exists k: nat :: j == Nth(a, step, k)
  }

  /** Exactly the first `c` steps stay before the end. */
  ghost predicate Visits(a: int, b: int, step: int, c: nat) {
    forall k: nat :: k < c <==> if step > 0 then Nth(a, step, k) < b else b < Nth(a, step, k)
  }

  lemma {:induction false} SliceMeans(s: Slice, n: nat, a: int, b: int, step: int)
    requires Step(s) != 0
    ensures Means(s, n, a, b, step) <==> a == Start(s, n) && b == Stop(s, n) && step == Step(s)
  {
  }

  lemma {:induction false} SelectedIsHit(s: Slice, n: nat, j: int)
    requires Step(s) != 0
    ensures Selected(s, n, j) <==> Hit(Start(s, n), Stop(s, n), Step(s), j)
  {
    var a, step := Start(s, n), Step(s);
    if Selected(s, n, j) {
      NumberNat(s, n, j);
      Member(s, n, j, Number(s, n, j));
      assert j == Nth(a, step, Number(s, n, j));
    }
    if Hit(a, Stop(s, n), step, j) {
      var k: nat :| j == Nth(a, step, k);
      if step > 0 {
        Gap(j - a, step, k);
      } else {
        NegMul(k, 0 - step);
        Gap(a - j, 0 - step, k);
      }
    }
  }

  /** The visited positions, told from the bounds as they are given. */
  lemma {:induction false} DeadIsHit(s: Slice, n: nat, a: int, b: int, step: int, j: int)
    requires Step(s) != 0 && Means(s, n, a, b, step)
    ensures j in Dead(s, n) <==> Hit(a, b, step, j)
    ensures Hit(a, b, step, j) ==> 0 <= j < n
  {
    SliceMeans(s, n, a, b, step);
    DeadIsSelected(s, n, j);
    SelectedIsHit(s, n, j);
  }

  lemma {:induction false} CountVisits(s: Slice, n: nat, k: nat)
    requires Step(s) != 0
    ensures k < Count(s, n) <==>
              if Step(s) > 0 then Nth(Start(s, n), Step(s), k) < Stop(s, n)
              else Stop(s, n) < Nth(Start(s, n), Step(s), k)
  {
    var a, b, step := Start(s, n), Stop(s, n), Step(s);
    if step > 0 {
      assert 0 <= k * step;
      if a < b { QuotientBound(b - a - 1, step, k); }
    } else {
      NegMul(k, 0 - step);
      assert 0 <= k * (0 - step);
      if b < a { QuotientBound(a - b - 1, 0 - step, k); }
    }
  }

  /** How many positions are visited. */
  lemma {:induction false} SliceVisits(s: Slice, n: nat)
    requires Step(s) != 0
    ensures Visits(Start(s, n), Stop(s, n), Step(s), Count(s, n))
  {
    forall k: nat
      ensures k < Count(s, n) <==>
                if Step(s) > 0 then Nth(Start(s, n), Step(s), k) < Stop(s, n)
                else Stop(s, n) < Nth(Start(s, n), Step(s), k)
    {
      CountVisits(s, n, k);
    }
  }

  /** Reading a slice visits its positions in order. */
  lemma {:induction false} GetReads<T>(xs: seq<T>, s: Slice, a: int, b: int, step: int)
    requires Step(s) != 0 && Means(s, |xs|, a, b, step)
    ensures Visits(a, b, step, |GetSlice(xs, s)|)
    ensures forall k: nat :: k < |GetSlice(xs, s)| ==>
              0 <= Nth(a, step, k) < |xs| && GetSlice(xs, s)[k] == xs[Nth(a, step, k)]
  {
    SliceMeans(s, |xs|, a, b, step);
    SliceVisits(s, |xs|);
    forall k: nat | k < |GetSlice(xs, s)|
      ensures 0 <= Nth(a, step, k) < |xs| && GetSlice(xs, s)[k] == xs[Nth(a, step, k)]
    {
      PickedAt(xs, s, Count(s, |xs|), k);
    }
  }

  /** The elements of `ys` are those of `xs` at the ascending positions `ps`. */
  ghost predicate Taken<T>(xs: seq<T>, ys: seq<T>, ps: seq<int>) {
    && |ps| == |ys| && (forall i :: 0 <= i < |ps| ==> 0 <= ps[i] < |xs| && ys[i] == xs[ps[i]])
    && forall i, j :: 0 <= i < j < |ps| ==> ps[i] < ps[j]
  }

  /** Those are the positions the slice does not hit. */
  ghost predicate Spares(n: nat, ps: seq<int>, a: int, b: int, step: int) {
    forall j :: 0 <= j < n ==> (j in ps <==> !Hit(a, b, step, j))
  }

  lemma {:induction false} TakenSnoc<T>(xs: seq<T>, x: T, ys: seq<T>, ps: seq<int>)
    requires Taken(xs, ys, ps)
    ensures Taken(xs + [x], ys, ps) && Taken(xs + [x], ys + [x], ps + [|xs|])
  {
  }

  lemma {:induction false} WithoutTakes<T>(xs: seq<T>, dead: set<int>) returns (ps: seq<int>)
    ensures Taken(xs, Without(xs, dead), ps)
    ensures forall j :: 0 <= j < |xs| ==> (j in ps <==> j !in dead)
  {
    if xs == [] {
      ps := [];
    } else {
      var n := |xs| - 1;
      ps := WithoutTakes(xs[..n], dead);
      assert xs == xs[..n] + [xs[n]];
      TakenSnoc(xs[..n], xs[n], Without(xs[..n], dead), ps);
      assert n !in ps;
      ps := if n in dead then ps else ps + [n];
    }
  }

  /** What deletion leaves: the elements at the positions not hit, in their order. */
  ghost predicate Removes<T>(xs: seq<T>, s: Slice, ys: seq<T>) {
    exists a, b, step, ps :: Means(s, |xs|, a, b, step) && Taken(xs, ys, ps) && Spares(|xs|, ps, a, b, step)
  }

  lemma {:induction false} DeadRemoved<T>(xs: seq<T>, s: Slice)
    requires Step(s) != 0
    ensures Removes(xs, s, Without(xs, Dead(s, |xs|)))
  {
    var a, b, step := Start(s, |xs|), Stop(s, |xs|), Step(s);
    SliceMeans(s, |xs|, a, b, step);
    var ps := WithoutTakes(xs, Dead(s, |xs|));
    forall j | 0 <= j < |xs|
      ensures j in ps <==> !Hit(a, b, step, j)
    {
      DeadIsHit(s, |xs|, a, b, step, j);
    }
  }
}
