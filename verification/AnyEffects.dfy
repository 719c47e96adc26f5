/**
  What every place holds after each operation on value cells, by what the places held before:
  told apart from the counts and from the primitive steps of AnyOwnership that make it so.
*/
module AnyEffects {
  import opened Radix
  import opened Words
  import opened Compare
  import opened StableHash
  import opened AnyOwnership

  /** Every other variable stays as it was, and a field goes only with its object. */
  ghost predicate Elsewhere(s: State, t: State, changed: set<Loc>) {
    Kept(s.store, t.store, changed) && FieldsKept(s.store, s.freed, t.store, t.freed)
  }

  ghost predicate Kept(s: Store, t: Store, changed: set<Loc>) {
    forall l: Loc :: !l.Field? && l !in changed ==> (l in t <==> l in s) && (l in s ==> t[l] == s[l])
  }

  ghost predicate FieldsKept(s: Store, freed: set<nat>, t: Store, freed': set<nat>) {
    && (forall l: Loc :: l.Field? && l in t ==> l in s && t[l] == s[l])
    && (forall l: Loc :: l.Field? && l in s && l !in t ==> l.owner in freed' && l.owner !in freed)
  }

  /** An emptied cell: type index, padding and payload are all zero. */
  predicate Emptied(t: State, l: Loc) { l in t.store && t.store[l] == Raw(0, 0, Word(0)) }

  predicate IsRvalue(view: Raw, slot: nat) { view.index == 10 && view.payload == Address(slot) }

  /** The view is an rvalue reference to a variable that has been emptied. */
  predicate Spent(s: State, view: Raw) {
    view.payload.Address? && IsRvalue(view, view.payload.slot) && Emptied(s, Slot(view.payload.slot))
  }

  /** Raw text of at most seven bytes becomes an inline cell holding them, longer text a new object with them. */
  ghost predicate TextGives(s: State, bytes: seq<byte>, inline: nat, heap: nat, t: State, x: Raw) {
    if |bytes| <= 7 then x.index == inline && x.extra == |bytes| && x.payload.Word? && x.payload.w == Val(256, bytes)
    else x == Raw(heap, 0, Object(s.next)) && s.next in t.objects && t.objects[s.next].bytes == bytes
  }

  /** What a view is turned into; an rvalue reference hands its value over and leaves its variable empty. */
  ghost predicate ViewGives(s: State, view: Raw, t: State, x: Raw) {
    if view.index == 8 then view.payload.Chars? && TextGives(s, view.payload.bytes, 11, 65, t, x)
    else if view.index == 9 then view.payload.Chars? && TextGives(s, view.payload.bytes, 12, 66, t, x)
    else if view.index == 10 then
      && view.payload.Address? && Slot(view.payload.slot) in s.store && x == s.store[Slot(view.payload.slot)]
      && Emptied(t, Slot(view.payload.slot))
    else x == view
  }

  function Source(view: Raw): set<Loc> {
    if view.payload.Address? then {Slot(view.payload.slot)} else {}
  }

  ghost predicate Contents(op: Op, s: State, t: State) {
    match op
    case NewCell(dst, x) => t.store == s.store[dst := x] && t.freed == s.freed
    case CopyCell(dst, src) => src in s.store && t.store == s.store[dst := s.store[src]] && t.freed == s.freed
    case MoveCell(dst, src) =>
      src in s.store && t.store == s.store[dst := s.store[src]][src := Raw(0, 0, Word(0))] && t.freed == s.freed
    case EndCell(l) => l !in t.store && Elsewhere(s, t, {l})
    case ClearCell(l) => Emptied(t, l) && Elsewhere(s, t, {l})
    case SwapOf(a, b) =>
      a in s.store && b in s.store && t.store == s.store[a := s.store[b]][b := s.store[a]] && t.freed == s.freed
    case AssignCopy(dst, src, _) =>
      src in s.store && dst in t.store && t.store[dst] == s.store[src] && Elsewhere(s, t, {dst})
    case AssignMove(dst, src, _) =>
      && src in s.store && dst in t.store && t.store[dst] == s.store[src] && (src != dst ==> Emptied(t, src))
      && Elsewhere(s, t, {dst, src})
    case FromView(dst, view) =>
      if Spent(s, view) then t == s
      else dst in t.store && ViewGives(s, view, t, t.store[dst]) && Elsewhere(s, t, {dst} + Source(view))
    case AssignView(dst, view, _) =>
      if Spent(s, view) then t == s
      else dst in t.store && ViewGives(s, view, t, t.store[dst]) && Elsewhere(s, t, {dst} + Source(view))
    case NewObject(dst, index, elements) => BuiltFrom(s, t, dst, index, elements)
  }

  /** Dropping a value only removes fields of freed objects. */
  lemma {:induction false} DroppedElsewhere(s: State, x: Raw, t: State)
    requires Dropped(s, x, t)
    ensures Kept(s.store, t.store, {}) && FieldsKept(s.store, s.freed, t.store, t.freed)
  {
  }

  ghost predicate FieldsSame(s: Store, m: Store) {
    forall l: Loc :: l.Field? ==> (l in m <==> l in s) && (l in s ==> m[l] == s[l])
  }

  lemma {:induction false} StoresAfter(
    s: Store, m: Store, t: Store, freed: set<nat>, freed': set<nat>, changed: set<Loc>)
    requires Kept(s, m, changed) && FieldsSame(s, m)
    requires Kept(m, t, {}) && FieldsKept(m, freed, t, freed')
    ensures Kept(s, t, changed) && FieldsKept(s, freed, t, freed')
  {
  }

  /** A change of some variables and then a drop. */
  lemma {:induction false} AfterChange(s: State, m: State, x: Raw, t: State, changed: set<Loc>)
    requires Dropped(m, x, t) && m.freed == s.freed && Kept(s.store, m.store, changed) && FieldsSame(s.store, m.store)
    ensures Elsewhere(s, t, changed)
    ensures forall l: Loc :: !l.Field? && l in m.store ==> l in t.store && t.store[l] == m.store[l]
  {
    DroppedElsewhere(m, x, t);
    StoresAfter(s.store, m.store, t.store, s.freed, t.freed, changed);
  }

  lemma {:induction false} OneChange(s: Store, l: Loc, x: Raw)
    requires !l.Field?
    ensures Kept(s, s[l := x], {l}) && FieldsSame(s, s[l := x])
  {
  }

  lemma {:induction false} TwoChanges(s: Store, a: Loc, x: Raw, b: Loc, y: Raw)
    requires !a.Field? && !b.Field?
    ensures Kept(s, s[a := x][b := y], {b, a}) && FieldsSame(s, s[a := x][b := y])
  {
  }

  lemma {:induction false} Removal(s: Store, l: Loc)
    requires !l.Field?
    ensures Kept(s, s - {l}, {l}) && FieldsSame(s, s - {l})
  {
  }

  lemma {:induction false} EndContents(s: State, l: Loc, t: State)
    requires l in s.store && !l.Field? && Dropped(Take(s, l), s.store[l], t)
    ensures l !in t.store && Elsewhere(s, t, {l})
  {
    Removal(s.store, l);
    AfterChange(s, Take(s, l), s.store[l], t, {l});
    DroppedElsewhere(Take(s, l), s.store[l], t);
  }

  lemma {:induction false} ClearContents(s: State, l: Loc, t: State)
    requires l in s.store && !l.Field? && Dropped(Replace(s, l, Empty), s.store[l], t)
    ensures Emptied(t, l) && Elsewhere(s, t, {l})
  {
    OneChange(s.store, l, Empty);
    AfterChange(s, Replace(s, l, Empty), s.store[l], t, {l});
  }

  lemma {:induction false} CopyContents(s: State, dst: Loc, src: Loc, t: State)
    requires dst in s.store && src in s.store && dst.Var? && Owned(s.store[src], s.objects)
    requires Dropped(Replace(Retain(s, s.store[src]), dst, s.store[src]), s.store[dst], t)
    ensures dst in t.store && t.store[dst] == s.store[src] && Elsewhere(s, t, {dst})
  {
    var m := Replace(Retain(s, s.store[src]), dst, s.store[src]);
    OneChange(s.store, dst, s.store[src]);
    AfterChange(s, m, s.store[dst], t, {dst});
    assert dst in m.store && m.store[dst] == s.store[src];
  }

  lemma {:induction false} MoveContents(s: State, dst: Loc, src: Loc, t: State)
    requires dst in s.store && src in s.store && dst.Var? && src.Var? && dst != src
    requires Dropped(Replace(Replace(s, src, Empty), dst, s.store[src]), s.store[dst], t)
    ensures dst in t.store && t.store[dst] == s.store[src] && Emptied(t, src) && Elsewhere(s, t, {dst, src})
  {
    var m := Replace(Replace(s, src, Empty), dst, s.store[src]);
    TwoChanges(s.store, src, Empty, dst, s.store[src]);
    AfterChange(s, m, s.store[dst], t, {dst, src});
    assert dst in m.store && src in m.store && m.store[dst] == s.store[src] && m.store[src] == Empty;
  }

  lemma {:induction false} TextGiven(s: State, bytes: seq<byte>, inline: nat, heap: nat)
    ensures TextGives(s, bytes, inline, heap, TextState(s, heap, bytes), TextValue(s, inline, heap, bytes))
    ensures TextState(s, heap, bytes).freed == s.freed && TextState(s, heap, bytes).store == s.store
  {
    if |bytes| <= 7 {
      InlineRoundTrip(bytes);
    }
  }

  lemma {:induction false} ConvertedGives(s: State, view: Raw)
    requires Viewable(view, s) && !AlreadyMoved(view, s)
    ensures ViewGives(s, view, ConvertedState(s, view), ConvertedValue(s, view))
    ensures var m := ConvertedState(s, view);
            && m.freed == s.freed
            && m.store == if view.index == 10 then s.store[Slot(view.payload.slot) := Empty] else s.store
  {
    if view.index == 8 {
      TextGiven(s, view.payload.bytes, 11, 65);
    } else if view.index == 9 {
      TextGiven(s, view.payload.bytes, 12, 66);
    }
  }

  lemma {:induction false} SpentIsMoved(s: State, view: Raw)
    requires Inv(s) && Viewable(view, s)
    ensures AlreadyMoved(view, s) <==> Spent(s, view)
  {
  }

  lemma {:induction false} FromViewContents(s: State, dst: Loc, view: Raw)
    requires Viewable(view, s) && !AlreadyMoved(view, s) && dst !in s.store && dst.Var?
    ensures var t := Put(ConvertedState(s, view), dst, ConvertedValue(s, view));
            dst in t.store && ViewGives(s, view, t, t.store[dst]) && Elsewhere(s, t, {dst} + Source(view))
  {
    ConvertedGives(s, view);
  }

  /** Putting the value in place leaves what it refers to as it is. */
  lemma {:induction false} PlacedGives(s: State, view: Raw, c: State, x: Raw, dst: Loc)
    requires ViewGives(s, view, c, x) && dst in c.store && dst.Var?
    ensures ViewGives(s, view, Replace(c, dst, x), x)
  {
  }

  /** The value given by a view is still there after another one is dropped. */
  lemma {:induction false} StillGives(s: State, view: Raw, m: State, x: Raw, t: State, dst: Loc)
    requires ViewGives(s, view, m, x) && OnlyFrees(m, t, {}) && Owned(x, t.objects)
    ensures ViewGives(s, view, t, x)
  {
  }

  lemma {:induction false} AssignViewContents(s: State, dst: Loc, view: Raw, t: State)
    requires dst in s.store && dst.Var? && Viewable(view, s) && !AlreadyMoved(view, s) && Clean(t.store, t.objects)
    requires AssignedFrom(s, dst, view, t)
    ensures dst in t.store && ViewGives(s, view, t, t.store[dst]) && Elsewhere(s, t, {dst} + Source(view))
  {
    var c, x := ConvertedState(s, view), ConvertedValue(s, view);
    ConvertedGives(s, view);
    PlacedGives(s, view, c, x, dst);
    ViewKept(s, dst, view);
    AfterChange(s, Replace(c, dst, x), s.store[dst], t, {dst} + Source(view));
    assert dst in Replace(c, dst, x).store && Replace(c, dst, x).store[dst] == x;
    StillGives(s, view, Replace(c, dst, x), x, t, dst);
  }

  lemma {:induction false} ViewKept(s: State, dst: Loc, view: Raw)
    requires dst in s.store && dst.Var? && Viewable(view, s) && !AlreadyMoved(view, s)
    ensures var c, x := ConvertedState(s, view), ConvertedValue(s, view);
            && c.store[dst := x] == Replace(c, dst, x).store && dst in c.store && c.freed == s.freed
            && Kept(s.store, c.store[dst := x], {dst} + Source(view)) && FieldsSame(s.store, c.store[dst := x])
  {
    var x := ConvertedValue(s, view);
    ConvertedGives(s, view);
    OneChange(s.store, dst, x);
    if view.index == 10 {
      TwoChanges(s.store, Slot(view.payload.slot), Empty, dst, x);
    } else {
      KeptMore(s.store, s.store[dst := x], {dst}, {dst} + Source(view));
    }
  }

  lemma {:induction false} KeptMore(s: Store, t: Store, changed: set<Loc>, more: set<Loc>)
    requires Kept(s, t, changed) && changed <= more
    ensures Kept(s, t, more)
  {
  }

  lemma {:induction false} FromViewEffect(s: State, dst: Loc, view: Raw, t: State)
    requires Inv(s) && Viewable(view, s) && dst !in s.store && dst.Var?
    requires t == if AlreadyMoved(view, s) then s else Put(ConvertedState(s, view), dst, ConvertedValue(s, view))
    ensures if Spent(s, view) then t == s
            else dst in t.store && ViewGives(s, view, t, t.store[dst]) && Elsewhere(s, t, {dst} + Source(view))
  {
    SpentIsMoved(s, view);
    if !Spent(s, view) {
      FromViewContents(s, dst, view);
    }
  }

  lemma {:induction false} AssignViewEffect(s: State, dst: Loc, view: Raw, t: State)
    requires Inv(s) && dst in s.store && dst.Var? && Viewable(view, s)
    requires if AlreadyMoved(view, s) then t == s else AssignedFrom(s, dst, view, t)
    ensures if Spent(s, view) then t == s
            else dst in t.store && ViewGives(s, view, t, t.store[dst]) && Elsewhere(s, t, {dst} + Source(view))
  {
    SpentIsMoved(s, view);
    if !Spent(s, view) {
      AssignViewContents(s, dst, view, t);
    }
  }

  /** An operation's effect on counts and ownership leaves exactly these contents. */
  lemma {:induction false} EffectContents(op: Op, s: State, t: State)
    requires Valid(s) && Enabled(op, s) && Effect(op, s, t)
    ensures Contents(op, s, t)
  {
    match op
    case EndCell(l) => EndContents(s, l, t);
    case ClearCell(l) => ClearContents(s, l, t);
    case AssignCopy(dst, src, _) => CopyContents(s, dst, src, t);
    case AssignMove(dst, src, _) =>
      if dst != src {
        MoveContents(s, dst, src, t);
      }
    case FromView(dst, view) => FromViewEffect(s, dst, view, t);
    case AssignView(dst, view, _) => AssignViewEffect(s, dst, view, t);
    case _ =>
  }

  /** Between any two neighbouring states of any run. */
  lemma {:induction false} RunContents(ops: seq<Op>, states: seq<State>, i: nat)
    requires Runs(ops, states) && i < |ops|
    ensures if Enabled(ops[i], states[i]) then Contents(ops[i], states[i], states[i + 1])
            else states[i + 1] == states[i]
  {
    RunAt(ops, states, i);
    if Enabled(ops[i], states[i]) {
      EffectContents(ops[i], states[i], states[i + 1]);
    }
  }
}
