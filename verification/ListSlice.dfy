/**
  In-place slice deletion and slice assignment on a list kept in a growable buffer,
  against their meaning on sequences.
*/
module ListSlice {
  import opened Slices

  // ---------- the list ----------

  /** A gap opened at `idx` and filled is an insertion there. */
  lemma {:induction false} Spliced<T>(before: seq<T>, gap: seq<T>, after: seq<T>, items: seq<T>, idx: nat)
    requires idx <= |before| && |gap| == |after| == |before| + |items|
    requires gap[..idx] == before[..idx] && gap[idx + |items|..] == before[idx..]
    requires after[..idx] == gap[..idx] && after[idx..idx + |items|] == items
    requires after[idx + |items|..] == gap[idx + |items|..]
    ensures after == before[..idx] + items + before[idx..]
  {
    assert after == after[..idx] + after[idx..idx + |items|] + after[idx + |items|..];
  }

  class ListObj<T(0)> {
    var data: array<T>
    var size: nat

    ghost predicate Valid()
      reads this
    {
      size <= data.Length
    }

    function Contents(): seq<T>
      reads this, data
      requires Valid()
    {
      data[..size]
    }

    constructor (items: seq<T>)
      ensures Valid() && fresh(data) && Contents() == items
    {
      data := new T[|items|](i requires 0 <= i < |items| => items[i]);
      size := |items|;
    }

    /** Elements from `src` to the end move down to `dst`, first to last. */
    method MoveElementsLeft(dst: nat, src: nat)
      requires Valid() && dst <= src <= size
      modifies data
      ensures data[..dst] == old(data[..dst])
      ensures data[dst..dst + (size - src)] == old(data[src..size])
    {
      for k := 0 to size - src
        invariant data[..dst] == old(data[..dst])
        invariant data[dst..dst + k] == old(data[src..src + k])
        invariant data[dst + k..] == old(data[dst + k..])
      {
        assert old(data[dst + k..])[src - dst] == old(data[src + k]);
        assert data[dst + k..][src - dst] == data[src + k];
        data[dst + k] := data[src + k];
      }
    }

    /** Elements from `src` to the old end move up to `dst`, last to first. */
    method MoveElementsRight(dst: nat, src: nat, end: nat)
      requires src <= dst && src <= end && dst + (end - src) <= data.Length
      modifies data
      ensures data[..src] == old(data[..src])
      ensures data[dst..dst + (end - src)] == old(data[src..end])
    {
      var k := end - src;
      while k > 0
        invariant 0 <= k <= end - src
        invariant forall i :: 0 <= i < dst + k ==> data[i] == old(data[i])
        invariant forall i :: dst + k <= i < dst + (end - src) ==> data[i] == old(data[i - dst + src])
      {
        k := k - 1;
        data[dst + k] := data[src + k];
      }
    }

    method EraseRange(first: int, last: int) returns (ok: bool)
      requires Valid()
      modifies this`size, data
      ensures Valid()
      ensures ok <==> first == last || 0 <= first < last <= old(size)
      ensures Contents() == if ok && first != last then old(Contents())[..first] + old(Contents())[last..]
                            else old(Contents())
    {
      if first == last {
        return true;
      }
      if first < 0 || last > size || first >= last {
        return false;
      }
      MoveElementsLeft(first, last);
      size := size - (last - first);
      ok := true;
      assert Contents() == data[..first] + data[first..size];
    }

    method EraseAt(idx: int) returns (ok: bool)
      requires Valid()
      modifies this`size, data
      ensures Valid()
      ensures ok <==> 0 <= idx < old(size)
      ensures Contents() == if ok then old(Contents())[..idx] + old(Contents())[idx + 1..] else old(Contents())
    {
      if idx < 0 || idx >= size {
        return false;
      }
      MoveElementsLeft(idx, idx + 1);
      size := size - 1;
      ok := true;
      assert Contents() == data[..idx] + data[idx..size];
    }

    method EnsureCapacity(extra: nat)
      requires Valid()
      modifies this`data
      ensures Valid() && data.Length >= size + extra
      ensures data == old(data) || fresh(data)
      ensures Contents() == old(Contents())
    {
      if data.Length < size + extra {
        var cap := if data.Length * 2 >= size + extra then data.Length * 2 else size + extra;
        var grown := new T[cap];
        for i := 0 to size
          invariant data == old(data) && grown[..i] == data[..i]
        {
          grown[i] := data[i];
        }
        data := grown;
      }
    }

    /** Inserts the elements of another list; reading while writing needs the two to be separate. */
    method InsertFrom(idx: int, source: ListObj<T>) returns (ok: bool)
      requires Valid() && source.Valid() && source != this && source.data != data
      modifies this, data
      ensures Valid() && (data == old(data) || fresh(data))
      ensures ok <==> source.size == 0 || 0 <= idx <= old(size)
      ensures Contents() == if ok && source.size != 0
                            then old(Contents())[..idx] + source.Contents() + old(Contents())[idx..]
                            else old(Contents())
    {
      var count := source.size;
      if count == 0 {
        return true;
      }
      EnsureCapacity(count);
      if idx < 0 || idx > size {
        return false;
      }
      Splice(idx, source);
      ok := true;
    }

    /** The insertion itself, once there is room. */
    method Splice(idx: nat, source: ListObj<T>)
      requires Valid() && source.Valid() && source != this && source.data != data
      requires idx <= size && size + source.size <= data.Length
      modifies this`size, data
      ensures Valid()
      ensures Contents() == old(Contents())[..idx] + source.Contents() + old(Contents())[idx..]
    {
      ghost var before := Contents();
      OpenGap(idx, source.size);
      ghost var gap := data[..size];
      CopyInto(idx, source);
      Spliced(before, gap, data[..size], source.Contents(), idx);
    }

    /** Makes room for `count` elements at `idx`. */
    method OpenGap(idx: nat, count: nat)
      requires Valid() && idx <= size && size + count <= data.Length
      modifies this`size, data
      ensures Valid() && size == old(size) + count
      ensures data[..idx] == old(Contents())[..idx] && data[idx + count..size] == old(Contents())[idx..]
    {
      var end := size;
      size := size + count;
      MoveElementsRight(idx + count, idx, end);
    }

    /** Copies another list's elements over the slots from `idx` on. */
    method CopyInto(idx: nat, source: ListObj<T>)
      requires source.Valid() && source.data != data && idx + source.size <= size <= data.Length
      modifies data
      ensures data[..idx] == old(data[..idx])
      ensures data[idx..idx + source.size] == source.Contents()
      ensures data[idx + source.size..size] == old(data[idx + source.size..size])
    {
      for k := 0 to source.size
        invariant data[..idx] == old(data[..idx])
        invariant data[idx..idx + k] == source.data[..k]
        invariant data[idx + source.size..size] == old(data[idx + source.size..size])
      {
        data[idx + k] := source.data[k];
      }
    }

    method SetItem(i: int, x: T) returns (ok: bool)
      requires Valid()
      modifies data
      ensures ok <==> 0 <= i < size
      ensures Contents() == if ok then old(Contents())[i := x] else old(Contents())
    {
      if i < 0 || i >= size {
        return false;
      }
      data[i] := x;
      ok := true;
    }
  }

  /** ffi.ListReplaceSlice: a replacement that is the list itself is copied before the erase. */
  method ListReplaceSlice<T(0)>(n: ListObj<T>, start: int, stop: int, replacement: ListObj<T>) returns (ok: bool)
    requires n.Valid() && replacement.Valid() && (n != replacement ==> n.data != replacement.data)
    modifies n, n.data
    ensures n.Valid()
    ensures ok <==> 0 <= start < stop <= |old(n.Contents())|
                    || (start == stop && (old(replacement.size) == 0 || 0 <= start <= |old(n.Contents())|))
    ensures !ok || start < 0 || start > |old(n.Contents())| ==> n.Contents() == old(n.Contents())
    ensures ok && 0 <= start <= stop <= |old(n.Contents())| ==>
              n.Contents() == old(n.Contents())[..start] + old(replacement.Contents()) + old(n.Contents())[stop..]
  {
    var copy := replacement;
    if n == replacement {
      copy := new ListObj(replacement.Contents());
    }
    ok := n.EraseRange(start, stop);
    if !ok || copy.size == 0 {
      return;
    }
    ok := n.InsertFrom(start, copy);
  }

  // ---------- Python surface ----------

  /** __delitem__ with a slice; a zero step is an error. */
  method DeleteSlice<T(0)>(list: ListObj<T>, s: Slice) returns (ok: bool)
    requires list.Valid()
    modifies list, list.data
    ensures list.Valid() && (ok <==> s.step != Given(0))
    ensures ok ==> Removes(old(list.Contents()), s, list.Contents())
    ensures list.Contents() == if ok then Without(old(list.Contents()), Dead(s, |old(list.Contents())|))
                               else old(list.Contents())
  {
    if Step(s) == 0 {
      return false;
    }
    ghost var xs := list.Contents();
    DeadRemoved(xs, s);
    if Step(s) == 1 {
      DeleteRun(list, s);
    } else {
      DeleteStepwise(list, s);
      LeftAll(xs, s);
    }
    ok := true;
  }

  /** One erase of a contiguous range. */
  method DeleteRun<T(0)>(list: ListObj<T>, s: Slice)
    requires list.Valid() && Step(s) == 1
    modifies list, list.data
    ensures list.Valid()
    ensures list.Contents() == Without(old(list.Contents()), Dead(s, |old(list.Contents())|))
  {
    RunRemoved(list.Contents(), s);
    var length := list.size;
    var start, stop := Start(s, length), Stop(s, length);
    stop := if stop < start then start else stop;
    var ok := list.EraseRange(start, stop);
  }

  /** One erase per selected position, highest first. */
  method DeleteStepwise<T(0)>(list: ListObj<T>, s: Slice)
    requires list.Valid() && Step(s) != 0
    modifies list, list.data
    ensures list.Valid()
    ensures list.Contents() == Left(old(list.Contents()), s, Count(s, old(list.size)))
  {
    ghost var xs := list.Contents();
    var length := list.size;
    LeftAll(xs, s);
    for j := 0 to Count(s, length)
      invariant list.Valid() && list.data == old(list.data)
      invariant list.Contents() == Left(xs, s, j)
    {
      DeleteOne(list, s, length, j, xs);
    }
  }

  method DeleteOne<T(0)>(list: ListObj<T>, s: Slice, length: nat, j: nat, ghost xs: seq<T>)
    requires list.Valid() && Step(s) != 0 && length == |xs| && j < Count(s, length)
    requires list.Contents() == Left(xs, s, j)
    modifies list`size, list.data
    ensures list.Valid() && list.Contents() == Left(xs, s, j + 1)
  {
    DeleteStep(xs, s, j);
    var i := Descending(s, length, j);
    var ok := list.EraseAt(i);
  }

  /** __setitem__ with a slice: a contiguous slice is replaced, an extended one needs equal lengths. */
  method AssignSlice<T(0)>(list: ListObj<T>, s: Slice, replacement: seq<T>) returns (ok: bool)
    requires list.Valid()
    modifies list, list.data
    ensures list.Valid()
    ensures s.step == Given(0) ==> !ok && list.Contents() == old(list.Contents())
    ensures s.step != Given(0) ==> Replaces(old(list.Contents()), s, replacement, ok, list.Contents())
    ensures ok && s.step != Given(0) && s.step != Given(1) && s.step.Given? ==>
              Assigned(old(list.Contents()), s, replacement, |replacement|, list.Contents())
  {
    if Step(s) == 0 {
      return false;
    }
    var length := list.size;
    var start, stop, step := Start(s, length), Stop(s, length), Step(s);
    SliceMeans(s, length, start, stop, step);
    SliceVisits(s, length);
    ghost var xs := list.Contents();
    if step != 1 {
      var count := Count(s, length);
      if |replacement| != count {
        return false;
      }
      for k := 0 to count
        invariant list.Valid() && list.data == old(list.data) && list.size == length
        invariant Assigned(old(list.Contents()), s, replacement, k, list.Contents())
      {
        AssignedStep(old(list.Contents()), s, replacement, k, list.Contents());
        ok := list.SetItem(start + k * step, replacement[k]);
      }
      AssignedReplaces(xs, s, replacement, list.Contents());
      return true;
    }
    stop := if stop < start then start else stop;
    var items := new ListObj(replacement);
    ok := ListReplaceSlice(list, start, stop, items);
  }

  /**
    An assignment with step 1 always succeeds and puts the replacement in place of everything from the
    first position up to the second; with another step it needs as many values as positions, and
    puts the k-th value at the k-th of them.
  */
  ghost predicate Replaces<T>(xs: seq<T>, s: Slice, replacement: seq<T>, ok: bool, ys: seq<T>) {
    exists a, b, step, c: nat ::
      && Means(s, |xs|, a, b, step) && Visits(a, b, step, c) && (ok <==> step == 1 || |replacement| == c)
      && (!ok ==> ys == xs)
      && (ok && step == 1 ==>
            0 <= a <= |xs| && b <= |xs| && ys == xs[..a] + replacement + xs[if b < a then a else b..])
      && (ok && step != 1 ==> Filled(xs, a, b, step, replacement, ys))
  }

  ghost predicate Filled<T>(xs: seq<T>, a: int, b: int, step: int, replacement: seq<T>, ys: seq<T>) {
    && |ys| == |xs|
    && (forall k: nat :: k < |replacement| ==> 0 <= Nth(a, step, k) < |xs| && ys[Nth(a, step, k)] == replacement[k])
    && (forall j :: 0 <= j < |xs| && !Hit(a, b, step, j) ==> ys[j] == xs[j])
  }

  lemma {:induction false} AssignedReplaces<T>(xs: seq<T>, s: Slice, replacement: seq<T>, ys: seq<T>)
    requires Step(s) != 0 && |replacement| == Count(s, |xs|)
    requires Assigned(xs, s, replacement, |replacement|, ys)
    ensures Filled(xs, Start(s, |xs|), Stop(s, |xs|), Step(s), replacement, ys)
  {
    var n, a, b, step := |xs|, Start(s, |xs|), Stop(s, |xs|), Step(s);
    SliceMeans(s, n, a, b, step);
    forall k: nat | k < |replacement|
      ensures 0 <= Nth(a, step, k) < |xs| && ys[Nth(a, step, k)] == replacement[k]
    {
      assert Nth(a, step, k) == Position(s, n, k);
    }
    forall j | 0 <= j < n && !Hit(a, b, step, j)
      ensures ys[j] == xs[j]
    {
      DeadIsHit(s, n, a, b, step, j);
    }
  }

  /** The first `k` selected positions hold the replacement and nothing else changed. */
  ghost predicate Assigned<T>(xs: seq<T>, s: Slice, replacement: seq<T>, k: nat, ys: seq<T>)
    requires Step(s) != 0
  {
    && |ys| == |xs| && k <= Count(s, |xs|) && k <= |replacement|
    && (forall j: nat :: j < k ==> 0 <= Position(s, |xs|, j) < |xs| && ys[Position(s, |xs|, j)] == replacement[j])
    && (forall i :: 0 <= i < |xs| && i !in RangeSet(Start(s, |xs|), k, Step(s)) ==> ys[i] == xs[i])
  }

  lemma {:induction false} AssignedStep<T>(xs: seq<T>, s: Slice, replacement: seq<T>, k: nat, ys: seq<T>)
    requires Step(s) != 0 && Assigned(xs, s, replacement, k, ys) && k < Count(s, |xs|) && k < |replacement|
    ensures 0 <= Position(s, |xs|, k) < |xs|
    ensures Assigned(xs, s, replacement, k + 1, ys[Position(s, |xs|, k) := replacement[k]])
  {
    PositionInside(s, |xs|, k);
    forall j: nat | j < k
      ensures Position(s, |xs|, j) != Position(s, |xs|, k)
    {
      Member(s, |xs|, Position(s, |xs|, j), j);
      Member(s, |xs|, Position(s, |xs|, k), k);
    }
  }

  /** Reading an extended slice back gives what was assigned. */
  lemma {:induction false} AssignThenGet<T>(xs: seq<T>, s: Slice, replacement: seq<T>, ys: seq<T>)
    requires Step(s) != 0 && |replacement| == Count(s, |xs|)
    requires Assigned(xs, s, replacement, |replacement|, ys)
    ensures GetSlice(ys, s) == replacement
  {
    forall j: nat | j < |replacement|
      ensures GetSlice(ys, s)[j] == replacement[j]
    {
      PickedAt(ys, s, |replacement|, j);
    }
  }

  /** extend: assignment to the empty slice at the end. */
  method Extend<T(0)>(list: ListObj<T>, values: seq<T>)
    requires list.Valid()
    modifies list, list.data
    ensures list.Valid() && list.Contents() == old(list.Contents()) + values
  {
    var end := list.size;
    var ok := AssignSlice(list, Slice(Given(end), Given(end), Omitted), values);
  }
}
