/**
  The registry dump: one pass over the table from the highest index down adds up how many
  strict descendants every type has, each type handing its own sum on to its parent.
*/
module TypeDump {
  import opened TypeTable

  /** The registered strict descendants of k. */
  ghost function Descendants(s: State, k: int): set<int> {
    set j | 0 <= j < |s.table| && Registered(s, j) && Descends(s, j, k)
  }

  /** The child of k on the way down to its descendant j. */
  function ChildTowards(s: State, k: int, j: int): int
    requires Registered(s, k) && Registered(s, j) && At(s, k).depth >= 0
  {
    var d, anc := At(s, k).depth, At(s, j).ancestors;
    if d + 1 < |anc| then anc[d + 1] else j
  }

  /** The descendants of k reached through children of index i or more. */
  ghost function Reached(s: State, k: int, i: int): set<int>
    requires Shape(s) && Registered(s, k)
  {
    assert EntryOk(s, k);
    set j | j in Descendants(s, k) && ChildTowards(s, k, j) >= i
  }

  lemma {:induction false} AncestorDepth(s: State, k: int, j: int)
    requires Shape(s) && Registered(s, j) && Descends(s, j, k)
    ensures Registered(s, k) && 0 <= At(s, k).depth < |At(s, j).ancestors|
    ensures At(s, j).ancestors[At(s, k).depth] == k && At(s, k).ancestors == At(s, j).ancestors[..At(s, k).depth]
  {
    var n :| 0 <= n < |At(s, j).ancestors| && At(s, j).ancestors[n] == k;
    AncestorAt(s, j, n);
    assert EntryOk(s, k);
  }

  function ParentIndex(s: State, i: int): int
    requires Registered(s, i) && At(s, i).ancestors != []
  {
    var anc := At(s, i).ancestors;
    anc[|anc| - 1]
  }

  /** A child lies one below its parent. */
  lemma {:induction false} ParentDepth(s: State, i: int)
    requires Shape(s) && Registered(s, i) && At(s, i).ancestors != []
    ensures var p, d := ParentIndex(s, i), |At(s, i).ancestors| - 1;
            p < i && Registered(s, p) && At(s, p).depth == d && At(s, i).depth == d + 1
            && At(s, p).ancestors == At(s, i).ancestors[..d]
  {
    assert EntryOk(s, i);
    assert EntryOk(s, ParentIndex(s, i));
  }

  /** The descendants of a child are reached through it. */
  lemma {:induction false} ReachedThrough(s: State, i: int, j: int)
    requires Shape(s) && Registered(s, i) && At(s, i).ancestors != [] && Registered(s, j) && Descends(s, j, i)
    ensures var p := ParentIndex(s, i);
            Registered(s, p) && At(s, p).depth >= 0 && Descends(s, j, p) && ChildTowards(s, p, j) == i
  {
    var anc, d := At(s, j).ancestors, |At(s, i).ancestors| - 1;
    ParentDepth(s, i);
    AncestorDepth(s, i, j);
    assert anc[d] == anc[..d + 1][d] == ParentIndex(s, i);
  }

  /** Below its parent, a child is reached by itself and by its own descendants only. */
  lemma {:induction false} ThroughChild(s: State, i: int, j: int)
    requires Shape(s) && Registered(s, i) && At(s, i).ancestors != [] && Registered(s, j)
    ensures var p := ParentIndex(s, i);
            Registered(s, p) && At(s, p).depth >= 0 &&
            (Descends(s, j, p) && ChildTowards(s, p, j) == i <==> j == i || Descends(s, j, i))
  {
    ParentDepth(s, i);
    if Descends(s, j, i) {
      ReachedThrough(s, i, j);
    }
  }

  /** The type listed one deeper than k in j's line is a child of k. */
  lemma {:induction false} ListedChild(s: State, k: int, j: int, d: nat)
    requires Shape(s) && Registered(s, j) && d + 1 < |At(s, j).ancestors| && At(s, j).ancestors[d] == k
    ensures var c := At(s, j).ancestors[d + 1];
            k < c < j && Registered(s, c) && At(s, c).ancestors != [] && ParentIndex(s, c) == k
  {
    AncestorAt(s, j, d + 1);
    assert At(s, j).ancestors[..d + 1][d] == k;
    ParentOf(s, At(s, j).ancestors[d + 1]);
  }

  /** And when none is listed deeper, j itself is. */
  lemma {:induction false} LastListed(s: State, k: int, j: int)
    requires Shape(s) && Registered(s, j)
    requires var anc := At(s, j).ancestors; anc != [] && anc[|anc| - 1] == k
    ensures k < j && ParentIndex(s, j) == k
  {
    ParentOf(s, j);
  }

  lemma {:induction false} ChildAt(s: State, k: int, j: int, d: nat)
    requires Shape(s) && Registered(s, j) && Registered(s, k) && d == At(s, k).depth
    requires d < |At(s, j).ancestors| && At(s, j).ancestors[d] == k
    ensures var c := ChildTowards(s, k, j);
            k < c <= j && Registered(s, c) && At(s, c).ancestors != [] && ParentIndex(s, c) == k
  {
    if d + 1 < |At(s, j).ancestors| {
      ListedChild(s, k, j, d);
    } else {
      LastListed(s, k, j);
    }
  }

  /** The child towards a descendant is registered directly below. */
  lemma {:induction false} ChildIsDirect(s: State, k: int, j: int)
    requires Shape(s) && Registered(s, j) && Registered(s, k) && Descends(s, j, k) && At(s, k).depth >= 0
    ensures var c := ChildTowards(s, k, j);
            k < c <= j && Registered(s, c) && At(s, c).ancestors != [] && ParentIndex(s, c) == k
  {
    AncestorDepth(s, k, j);
    ChildAt(s, k, j, At(s, k).depth);
  }

  lemma {:induction false} ReachedAll(s: State, k: int)
    requires Shape(s) && Registered(s, k)
    ensures Reached(s, k, 0) == Descendants(s, k)
    ensures forall i :: i <= k + 1 ==> Reached(s, k, i) == Descendants(s, k)
    ensures Reached(s, k, |s.table|) == {}
  {
    assert EntryOk(s, k);
    forall j | j in Descendants(s, k)
      ensures k < ChildTowards(s, k, j) <= j < |s.table|
    {
      ChildIsDirect(s, k, j);
    }
  }

  /** Counting type i adds it and its descendants to its parent, and changes no one else. */
  lemma {:induction false} ReachedStep(s: State, k: int, i: int)
    requires Shape(s) && Registered(s, k) && 0 <= i < |s.table|
    ensures Reached(s, k, i + 1) <= Reached(s, k, i)
    ensures Registered(s, i) && At(s, i).ancestors != [] && ParentIndex(s, i) == k ==>
              Reached(s, k, i) == Reached(s, k, i + 1) + ({i} + Descendants(s, i)) &&
              Reached(s, k, i + 1) !! {i} + Descendants(s, i) && i !in Descendants(s, i)
    ensures !(Registered(s, i) && At(s, i).ancestors != [] && ParentIndex(s, i) == k) ==>
              Reached(s, k, i) == Reached(s, k, i + 1)
  {
    assert EntryOk(s, k);
    if Registered(s, i) && At(s, i).ancestors != [] && ParentIndex(s, i) == k {
      forall j | Registered(s, j)
        ensures Descends(s, j, k) && ChildTowards(s, k, j) == i <==> j == i || Descends(s, j, i)
      {
        ThroughChild(s, i, j);
      }
      if i in Descendants(s, i) {
        AncestorBelow(s, i, i);
      }
    } else {
      forall j | j in Descendants(s, k)
        ensures ChildTowards(s, k, j) != i
      {
        ChildIsDirect(s, k, j);
      }
    }
  }

  /** What the counts are once the types from i up are processed. */
  ghost predicate Counted(s: State, counts: seq<int>, i: int)
    requires Shape(s)
  {
    |counts| == |s.table| && forall k :: Registered(s, k) ==> counts[k] == |Reached(s, k, i)|
  }

  /** The counts after type i is added to its parent. */
  function Added(s: State, counts: seq<int>, i: int): seq<int>
    requires Shape(s) && 0 <= i < |s.table| == |counts|
  {
    if Registered(s, i) && At(s, i).depth != 0 then
      assert EntryOk(s, i);
      var p := ParentIndex(s, i);
      counts[p := counts[p] + counts[i] + 1]
    else counts
  }

  /** How much type k's share grows when type i is added to its parent. */
  lemma {:induction false} ReachedSize(s: State, k: int, i: int)
    requires Shape(s) && Registered(s, k) && 0 <= i < |s.table|
    ensures |Reached(s, k, i)| == |Reached(s, k, i + 1)| + Gain(s, k, i)
  {
    ReachedStep(s, k, i);
    if Registered(s, i) {
      ReachedAll(s, i);
    }
  }

  ghost function Gain(s: State, k: int, i: int): int
    requires Shape(s) && 0 <= i < |s.table|
  {
    if Registered(s, i) && At(s, i).ancestors != [] && ParentIndex(s, i) == k then |Reached(s, i, i + 1)| + 1
    else 0
  }

  lemma {:induction false} AddedAt(s: State, counts: seq<int>, i: int, k: int)
    requires Shape(s) && 0 <= i < |s.table| && Registered(s, k) && Counted(s, counts, i + 1)
    ensures |Added(s, counts, i)| == |counts| && Added(s, counts, i)[k] == counts[k] + Gain(s, k, i)
  {
    assert Registered(s, i) ==> EntryOk(s, i);
  }

  lemma {:induction false} CountedStep(s: State, counts: seq<int>, i: int)
    requires Shape(s) && 0 <= i < |s.table| && Counted(s, counts, i + 1)
    ensures Counted(s, Added(s, counts, i), i)
  {
    forall k | Registered(s, k)
      ensures |Added(s, counts, i)| == |counts| && Added(s, counts, i)[k] == |Reached(s, k, i)|
    {
      AddedAt(s, counts, i, k);
      ReachedSize(s, k, i);
    }
    assert |Added(s, counts, i)| == |counts|;
  }

  lemma {:induction false} CountedStart(s: State, counts: seq<int>)
    requires Shape(s) && |counts| == |s.table| && forall k :: 0 <= k < |counts| ==> counts[k] == 0
    ensures Counted(s, counts, |s.table|)
  {
    forall k | Registered(s, k)
      ensures Reached(s, k, |s.table|) == {}
    {
      ReachedAll(s, k);
    }
  }

  lemma {:induction false} CountedEnd(s: State, counts: seq<int>)
    requires Shape(s) && Counted(s, counts, 0)
    ensures forall k :: Registered(s, k) ==> counts[k] == |Descendants(s, k)|
  {
    forall k | Registered(s, k)
      ensures Reached(s, k, 0) == Descendants(s, k)
    {
      ReachedAll(s, k);
    }
  }

  /** One turn of the pass: type i and its descendants are added to its parent. */
  method AddToParent(s: State, counts: array<int>, i: int)
    requires Shape(s) && 0 <= i < |s.table| == counts.Length
    modifies counts
    ensures counts[..] == Added(s, old(counts[..]), i)
  {
    if s.table[i].Taken? && s.table[i].e.depth != 0 {
      assert EntryOk(s, i);
      var parent := ParentIndex(s, i);
      counts[parent] := counts[parent] + counts[s.table[i].e.index] + 1;
    }
  }

  method CountType(s: State, counts: array<int>, i: int)
    requires Shape(s) && 0 <= i < |s.table| == counts.Length && Counted(s, counts[..], i + 1)
    modifies counts
    ensures Counted(s, counts[..], i)
  {
    CountedStep(s, counts[..], i);
    AddToParent(s, counts, i);
  }

  method NoCounts(n: nat) returns (counts: array<int>)
    ensures fresh(counts) && counts.Length == n && forall k :: 0 <= k < n ==> counts[..][k] == 0
  {
    counts := new int[n](_ => 0);
  }

  /** The number of strict descendants of every registered type, in one reverse pass. */
  method CountChildren(s: State) returns (counts: array<int>)
    requires Shape(s)
    ensures counts.Length == |s.table|
    ensures forall k :: Registered(s, k) ==> counts[k] == |Descendants(s, k)|
  {
    counts := NoCounts(|s.table|);
    CountedStart(s, counts[..]);
    for i := |s.table| downto 0
      invariant Counted(s, counts[..], i)
    {
      CountType(s, counts, i);
    }
    CountedEnd(s, counts[..]);
    assert forall k :: Registered(s, k) ==> counts[..][k] == counts[k];
  }
}
