/** The registry that hands out type indices from nested reserved intervals. */
module TypeTable {

  const DYN_OBJECT_BEGIN: int := 128
  const OBJECT_INDEX: int := 64

  /** A registered type; its ancestors are listed by type index, root first. */
  datatype Entry = Entry(index: int, depth: int, key: string, numSlots: int, used: int, canOverflow: bool,
                         ancestors: seq<int>)

  datatype Slot = Empty | Taken(e: Entry)

  datatype State = State(table: seq<Slot>, counter: int, keys: map<string, int>)

  datatype Request = Request(key: string, staticIndex: int, depth: int, childSlots: int, canOverflow: bool, parent: int)

  datatype Outcome = Index(i: int) | Failed

  predicate Registered(s: State, i: int) {
    0 <= i < |s.table| && s.table[i].Taken?
  }

  function At(s: State, i: int): Entry
    requires Registered(s, i)
  {
    s.table[i].e
  }

  // ---------- one registration ----------

  datatype Parent = Missing | OutOfRange | Present(e: Entry)

  function FindParent(s: State, p: int): Parent {
    if p < 0 then Missing
    else if p >= |s.table| then OutOfRange
    else if s.table[p].Empty? then Missing
    else Present(s.table[p].e)
  }

  /** Picks an index; what it reserves stays reserved even when the registration fails later. */
  function Allocate(s: State, r: Request): (State, Outcome)
    requires r.childSlots >= 0
  {
    if r.staticIndex >= 0 then
      if r.staticIndex >= |s.table| || s.table[r.staticIndex].Taken? then (s, Failed)
      else (s, Index(r.staticIndex))
    else if !FindParent(s, r.parent).Present? then (s, Failed)
    else
      var slots := r.childSlots + 1;
      var p := At(s, r.parent);
      if p.used + slots <= p.numSlots then (Bumped(s, r.parent, slots), Index(r.parent + p.used))
      else if !p.canOverflow then (s, Failed)
      else (Grown(s, slots), Index(s.counter))
  }

  function NewEntry(r: Request, i: int, parent: Parent): Entry {
    Entry(i, r.depth, r.key, r.childSlots + 1, 1,
          r.canOverflow && (parent.Present? ==> parent.e.canOverflow),
          if r.depth != 0 && parent.Present? then parent.e.ancestors + [r.parent] else [])
  }

  /** The checks made once an index is chosen, and the entry's constructor. */
  predicate Accepts(r: Request, i: int, parent: Parent) {
    (parent.Present? ==> i > r.parent) &&
    (r.depth != 0 ==> parent.Present? && r.depth == parent.e.depth + 1)
  }

  function Register(s: State, r: Request): (State, Outcome)
    requires r.childSlots >= 0
  {
    if r.key in s.keys then (s, Index(s.keys[r.key]))
    else if r.parent == -2 then (s, Index(-2))
    else
      var parent := FindParent(s, r.parent);
      if parent.OutOfRange? then (s, Failed)
      else
        var (s', got) := Allocate(s, r);
        if got.Failed? || !Accepts(r, got.i, parent) then (s', Failed)
        else (Put(s', NewEntry(r, got.i, parent)), got)
  }

  /** Stores an entry in its slot and under its key. */
  function Put(s: State, e: Entry): State {
    if 0 <= e.index < |s.table| then State(s.table[e.index := Taken(e)], s.counter, s.keys[e.key := e.index]) else s
  }

  /** What registrations are assumed to respect. */
  predicate WellFormed(s: State, r: Request) {
    r.childSlots >= 0 &&
    (r.staticIndex >= 0 ==>
       r.staticIndex < DYN_OBJECT_BEGIN && r.childSlots == 0 &&
       (FindParent(s, r.parent).Present? ==> FindParent(s, r.parent).e.canOverflow)) &&
    (r.staticIndex < 0 ==> r.depth != 0)
  }

  // ---------- the invariant ----------

  ghost predicate EntryOk(s: State, i: int)
    requires Registered(s, i)
  {
    var e := At(s, i);
    e.index == i && 1 <= e.used <= e.numSlots && i + e.numSlots <= |s.table| &&
    (i < DYN_OBJECT_BEGIN ==> e.numSlots == 1) &&
    e.depth == |e.ancestors| &&
    (e.depth > 0 ==> ParentOk(s, i, e))
  }

  ghost predicate ParentOk(s: State, i: int, e: Entry)
    requires |e.ancestors| > 0
  {
    var p := e.ancestors[|e.ancestors| - 1];
    p < i && Registered(s, p) && At(s, p).ancestors == e.ancestors[..|e.ancestors| - 1]
  }

  /** Reserved intervals [i, i + numSlots) are disjoint or nested, nested ones inside the part already handed out. */
  ghost predicate Apart(s: State, i: int, j: int)
    requires Registered(s, i) && Registered(s, j)
  {
    j >= i + At(s, i).numSlots || j + At(s, j).numSlots <= i + At(s, i).used
  }

  predicate Descends(s: State, j: int, i: int)
    requires Registered(s, j)
  {
    i in At(s, j).ancestors
  }

  ghost predicate Shape(s: State) {
    |s.table| == s.counter >= DYN_OBJECT_BEGIN && forall i :: Registered(s, i) ==> EntryOk(s, i)
  }

  ghost predicate Nested(s: State) {
    forall i, j :: Registered(s, i) && Registered(s, j) && i < j ==> Apart(s, i, j)
  }

  /** Every type inside an interval descends from its owner. */
  ghost predicate Inside(s: State) {
    forall i, j :: Registered(s, i) && Registered(s, j) && i < j < i + At(s, i).numSlots ==> Descends(s, j, i)
  }

  /** A type that cannot overflow keeps all its descendants inside its interval. */
  ghost predicate Closed(s: State) {
    forall i, j :: Registered(s, i) && Registered(s, j) && Descends(s, j, i) && !At(s, i).canOverflow ==>
      j < i + At(s, i).numSlots && !At(s, j).canOverflow
  }

  ghost predicate KeysOk(s: State) {
    (forall k :: k in s.keys ==> Registered(s, s.keys[k]) && At(s, s.keys[k]).key == k) &&
    (forall i :: Registered(s, i) ==> At(s, i).key in s.keys && s.keys[At(s, i).key] == i)
  }

  ghost predicate Invariant(s: State) {
    Shape(s) && Nested(s) && Inside(s) && Closed(s) && KeysOk(s)
  }

  lemma {:induction false} PrefixOfPrefix(anc: seq<int>, k: nat)
    requires k < |anc| - 1
    ensures anc[..|anc| - 1][k] == anc[k] && anc[..|anc| - 1][..k] == anc[..k]
  {
  }

  lemma {:induction false} ParentOf(s: State, j: int)
    requires Shape(s) && Registered(s, j) && At(s, j).ancestors != []
    ensures var anc := At(s, j).ancestors;
            var p := anc[|anc| - 1];
            p < j && Registered(s, p) && At(s, p).ancestors == anc[..|anc| - 1]
  {
    assert EntryOk(s, j);
  }

  /** An ancestor is a registered type at its own depth, with the ancestors listed before it. */
  lemma {:induction false} AncestorAt(s: State, j: int, k: nat)
    requires Shape(s) && Registered(s, j) && k < |At(s, j).ancestors|
    ensures var a := At(s, j).ancestors[k];
            a < j && Registered(s, a) && At(s, a).ancestors == At(s, j).ancestors[..k]
  {
    ParentOf(s, j);
    AncestorFrom(s, j, At(s, j).ancestors, k);
  }

  /** The same, with the ancestors at hand and the parent known. */
  lemma {:induction false} AncestorFrom(s: State, j: int, anc: seq<int>, k: nat)
    requires Shape(s) && k < |anc| && anc[|anc| - 1] < j && Registered(s, anc[|anc| - 1])
    requires At(s, anc[|anc| - 1]).ancestors == anc[..|anc| - 1]
    ensures anc[k] < j && Registered(s, anc[k]) && At(s, anc[k]).ancestors == anc[..k]
    decreases |anc|
  {
    if k < |anc| - 1 {
      var p := anc[|anc| - 1];
      ParentOf(s, p);
      AncestorFrom(s, p, anc[..|anc| - 1], k);
      PrefixOfPrefix(anc, k);
    }
  }

  lemma {:induction false} AncestorBelow(s: State, j: int, i: int)
    requires Shape(s) && Registered(s, j) && Descends(s, j, i)
    ensures i < j && Registered(s, i)
  {
    var k :| 0 <= k < |At(s, j).ancestors| && At(s, j).ancestors[k] == i;
    AncestorAt(s, j, k);
  }

  // ---------- placing an entry ----------

  /** A free slot for an entry that is well formed by itself. */
  ghost predicate FitsSlot(s: State, e: Entry) {
    0 <= e.index < |s.table| && s.table[e.index].Empty? && e.used == 1 <= e.numSlots &&
    e.index + e.numSlots <= |s.table| && (e.index < DYN_OBJECT_BEGIN ==> e.numSlots == 1) &&
    e.depth == |e.ancestors| && (e.depth > 0 ==> ParentOk(s, e.index, e)) &&
    e.key !in s.keys
  }

  /** A free interval whose surroundings agree with the new entry's ancestors. */
  ghost predicate FitsAround(s: State, e: Entry) {
    (forall i :: Registered(s, i) && i < e.index ==>
       e.index >= i + At(s, i).numSlots || e.index + e.numSlots <= i + At(s, i).used) &&
    (forall i :: Registered(s, i) && i > e.index ==> i >= e.index + e.numSlots) &&
    (forall i :: Registered(s, i) && i < e.index < i + At(s, i).numSlots ==> i in e.ancestors) &&
    (forall i :: i in e.ancestors && Registered(s, i) && !At(s, i).canOverflow ==>
       e.index < i + At(s, i).numSlots && !e.canOverflow)
  }

  ghost predicate Fits(s: State, e: Entry) {
    FitsSlot(s, e) && FitsAround(s, e)
  }

  lemma {:induction false} ParentStays(s: State, e: Entry, i: int, f: Entry)
    requires FitsSlot(s, e) && |f.ancestors| > 0 && ParentOk(s, i, f)
    ensures ParentOk(Put(s, e), i, f)
  {
  }

  lemma {:induction false} EntryStays(s: State, e: Entry, i: int)
    requires FitsSlot(s, e) && Registered(s, i) && EntryOk(s, i)
    ensures Registered(Put(s, e), i) && EntryOk(Put(s, e), i)
  {
    if At(s, i).depth > 0 {
      ParentStays(s, e, i, At(s, i));
    }
  }

  lemma {:induction false} EntryAdded(s: State, e: Entry)
    requires FitsSlot(s, e)
    ensures Registered(Put(s, e), e.index) && EntryOk(Put(s, e), e.index)
  {
    if e.depth > 0 {
      ParentStays(s, e, e.index, e);
    }
  }

  lemma {:induction false} PlaceEntries(s: State, e: Entry)
    requires Shape(s) && FitsSlot(s, e)
    ensures Shape(Put(s, e))
  {
    forall i | Registered(Put(s, e), i)
      ensures EntryOk(Put(s, e), i)
    {
      if i == e.index {
        EntryAdded(s, e);
      } else {
        EntryStays(s, e, i);
      }
    }
  }

  lemma {:induction false} PlaceKeys(s: State, e: Entry)
    requires KeysOk(s) && FitsSlot(s, e)
    ensures KeysOk(Put(s, e))
  {
    var s' := Put(s, e);
    forall i | Registered(s', i)
      ensures At(s', i).key in s'.keys && s'.keys[At(s', i).key] == i
    {
      assert i != e.index ==> Registered(s, i) && At(s', i) == At(s, i);
    }
    forall k | k in s'.keys
      ensures Registered(s', s'.keys[k]) && At(s', s'.keys[k]).key == k
    {
      assert k != e.key ==> k in s.keys && Registered(s, s.keys[k]) && At(s, s.keys[k]).key == k;
    }
  }

  lemma {:induction false} PlaceShape(s: State, e: Entry)
    requires Invariant(s) && Fits(s, e)
    ensures Shape(Put(s, e)) && KeysOk(Put(s, e))
  {
    PlaceEntries(s, e);
    PlaceKeys(s, e);
  }

  lemma {:induction false} PlaceNested(s: State, e: Entry)
    requires Invariant(s) && Fits(s, e)
    ensures Nested(Put(s, e)) && Inside(Put(s, e))
  {
    var s' := Put(s, e);
    forall i, j | Registered(s', i) && Registered(s', j) && i < j
      ensures Apart(s', i, j)
    {
      assert i != e.index ==> Registered(s, i) && At(s', i) == At(s, i);
      assert j != e.index ==> Registered(s, j) && At(s', j) == At(s, j);
      if i != e.index && j != e.index {
        assert Apart(s, i, j);
      }
    }
    forall i, j | Registered(s', i) && Registered(s', j) && i < j < i + At(s', i).numSlots
      ensures Descends(s', j, i)
    {
      assert i != e.index ==> Registered(s, i) && At(s', i) == At(s, i);
      assert j != e.index ==> Registered(s, j) && At(s', j) == At(s, j);
      if i != e.index && j != e.index {
        assert Descends(s, j, i);
      }
    }
  }

  lemma {:induction false} PlaceClosed(s: State, e: Entry)
    requires Invariant(s) && Fits(s, e)
    ensures Closed(Put(s, e))
  {
    var s' := Put(s, e);
    PlaceShape(s, e);
    forall i, j | Registered(s', i) && Registered(s', j) && Descends(s', j, i) && !At(s', i).canOverflow
      ensures j < i + At(s', i).numSlots && !At(s', j).canOverflow
    {
      AncestorBelow(s', j, i);
      if j != e.index {
        assert Registered(s, j) && At(s', j) == At(s, j) && Descends(s, j, i);
        AncestorBelow(s, j, i);
        assert At(s', i) == At(s, i);
      } else {
        assert Registered(s, i) && At(s', i) == At(s, i) && i in e.ancestors;
      }
    }
  }

  // ---------- allocation keeps the invariant ----------

  /** The same types, with the same entries except that intervals may be handed out further. */
  ghost predicate Extends(s: State, s': State) {
    |s'.table| == s'.counter >= |s.table| && s'.keys == s.keys &&
    (forall i :: Registered(s', i) <==> Registered(s, i)) &&
    (forall i :: Registered(s, i) ==> SameButUsed(At(s, i), At(s', i)))
  }

  ghost predicate SameButUsed(e: Entry, e': Entry) {
    e' == e.(used := e'.used) && e.used <= e'.used <= e.numSlots
  }

  lemma {:induction false} ExtendsShape(s: State, s': State)
    requires Invariant(s) && Extends(s, s')
    ensures Shape(s')
  {
    forall i | Registered(s', i)
      ensures EntryOk(s', i)
    {
      assert Registered(s, i) && EntryOk(s, i);
    }
  }

  lemma {:induction false} ExtendsNested(s: State, s': State)
    requires Invariant(s) && Extends(s, s')
    ensures Nested(s')
  {
    forall i, j | Registered(s', i) && Registered(s', j) && i < j
      ensures Apart(s', i, j)
    {
      assert Registered(s, i) && Registered(s, j) && Apart(s, i, j);
    }
  }

  lemma {:induction false} ExtendsInside(s: State, s': State)
    requires Invariant(s) && Extends(s, s')
    ensures Inside(s')
  {
    forall i, j | Registered(s', i) && Registered(s', j) && i < j < i + At(s', i).numSlots
      ensures Descends(s', j, i)
    {
      assert Registered(s, i) && Registered(s, j) && Descends(s, j, i);
    }
  }

  lemma {:induction false} ExtendsClosed(s: State, s': State)
    requires Invariant(s) && Extends(s, s')
    ensures Closed(s')
  {
    forall i, j | Registered(s', i) && Registered(s', j) && Descends(s', j, i) && !At(s', i).canOverflow
      ensures j < i + At(s', i).numSlots && !At(s', j).canOverflow
    {
      assert Registered(s, i) && Registered(s, j) && Descends(s, j, i);
    }
  }

  lemma {:induction false} ExtendsInvariant(s: State, s': State)
    requires Invariant(s) && Extends(s, s')
    ensures Invariant(s')
  {
    ExtendsShape(s, s');
    ExtendsNested(s, s');
    ExtendsInside(s, s');
    ExtendsClosed(s, s');
    forall k | k in s'.keys
      ensures Registered(s', s'.keys[k]) && At(s', s'.keys[k]).key == k
    {
      assert Registered(s, s.keys[k]) && At(s, s.keys[k]).key == k;
    }
    forall i | Registered(s', i)
      ensures At(s', i).key in s'.keys && s'.keys[At(s', i).key] == i
    {
      assert Registered(s, i);
    }
  }

  lemma {:induction false} Reflexive(s: State)
    requires Invariant(s)
    ensures Extends(s, s)
  {
    forall i | Registered(s, i)
      ensures SameButUsed(At(s, i), At(s, i))
    {
      assert EntryOk(s, i);
    }
  }

  /** The state after p hands out n more slots of its interval. */
  function Bumped(s: State, p: int, n: int): State
    requires Registered(s, p)
  {
    s.(table := s.table[p := Taken(At(s, p).(used := At(s, p).used + n))])
  }

  /** The state after n empty slots are appended. */
  function Grown(s: State, n: nat): State {
    s.(table := s.table + seq(n, _ => Empty), counter := s.counter + n)
  }

  lemma {:induction false} BumpExtends(s: State, p: int, n: int)
    requires Invariant(s) && Registered(s, p) && 0 < n && At(s, p).used + n <= At(s, p).numSlots
    ensures Extends(s, Bumped(s, p, n)) && Invariant(Bumped(s, p, n))
  {
    var s' := Bumped(s, p, n);
    forall i
      ensures Registered(s', i) <==> Registered(s, i)
      ensures Registered(s, i) ==> SameButUsed(At(s, i), At(s', i))
    {
      assert Registered(s, i) ==> EntryOk(s, i);
    }
    ExtendsInvariant(s, s');
  }

  lemma {:induction false} GrowExtends(s: State, n: nat)
    requires Invariant(s)
    ensures Extends(s, Grown(s, n)) && Invariant(Grown(s, n))
  {
    var s' := Grown(s, n);
    forall i
      ensures Registered(s', i) <==> Registered(s, i)
      ensures Registered(s, i) ==> SameButUsed(At(s, i), At(s', i))
    {
      assert Registered(s, i) ==> EntryOk(s, i);
    }
    ExtendsInvariant(s, s');
  }

  // ---------- every registration keeps the invariant ----------

  /** Ancestors of a type that may overflow may overflow too. */
  lemma {:induction false} OverflowInherited(s: State, p: int, i: int)
    requires Invariant(s) && Registered(s, p)
    ensures Descends(s, p, i) && At(s, p).canOverflow ==> Registered(s, i) && At(s, i).canOverflow
  {
    if Descends(s, p, i) && At(s, p).canOverflow {
      AncestorBelow(s, p, i);
    }
  }

  /** Where the free part of p's interval lies relative to every other interval. */
  lemma {:induction false} PoolSurroundings(s: State, p: int, n: int, i: int)
    requires Invariant(s) && Registered(s, p) && Registered(s, i) && 0 < n && At(s, p).used + n <= At(s, p).numSlots
    ensures var x := p + At(s, p).used;
            i != x &&
            (i < p ==> x >= i + At(s, i).numSlots || x + n <= i + At(s, i).used) &&
            (p < i < x ==> x >= i + At(s, i).numSlots) &&
            (i > x ==> i >= x + n) &&
            (i < x < i + At(s, i).numSlots ==> i == p || Descends(s, p, i))
  {
    assert EntryOk(s, p) && EntryOk(s, i);
    assert i < p ==> Apart(s, i, p);
    assert i > p ==> Apart(s, p, i);
    assert i < p < i + At(s, i).numSlots ==> Descends(s, p, i);
  }

  /** What a child of parent p asks for. */
  ghost predicate ChildRequest(s: State, r: Request) {
    Registered(s, r.parent) && r.childSlots >= 0 && r.key !in s.keys && r.depth == At(s, r.parent).depth + 1
  }

  lemma {:induction false} PoolEmpty(s: State, p: int, n: int)
    requires Invariant(s) && Registered(s, p) && 0 < n && At(s, p).used + n <= At(s, p).numSlots
    ensures var x := p + At(s, p).used;
            p < x && DYN_OBJECT_BEGIN <= x && x + n <= |s.table| && s.table[x].Empty?
  {
    var x := p + At(s, p).used;
    assert EntryOk(s, p);
    if Registered(s, x) {
      PoolSurroundings(s, p, n, x);
    }
  }

  /** The child's ancestors end in the parent, which keeps its own. */
  lemma {:induction false} ParentLink(s: State, p: int, n: int, x: int, e: Entry)
    requires Registered(s, p) && p < x && e.ancestors == At(s, p).ancestors + [p]
    ensures ParentOk(Bumped(s, p, n), x, e)
  {
    assert e.ancestors[..|e.ancestors| - 1] == At(s, p).ancestors;
  }

  /** The request can be met from the parent's pool. */
  predicate FromPool(s: State, r: Request) {
    Registered(s, r.parent) && r.childSlots >= 0 &&
    At(s, r.parent).used + r.childSlots + 1 <= At(s, r.parent).numSlots
  }

  /** The entry of a request met from the parent's pool. */
  function PoolEntry(s: State, r: Request): Entry
    requires FromPool(s, r)
  {
    NewEntry(r, r.parent + At(s, r.parent).used, Present(At(s, r.parent)))
  }

  lemma {:induction false} PoolSlot(s: State, r: Request)
    requires Invariant(s) && ChildRequest(s, r) && FromPool(s, r)
    ensures FitsSlot(Bumped(s, r.parent, r.childSlots + 1), PoolEntry(s, r))
  {
    PoolEmpty(s, r.parent, r.childSlots + 1);
    assert EntryOk(s, r.parent);
    PoolSlotFrom(s, r);
  }

  /** The entry of a child is one deeper than its parent and lists it last. */
  lemma {:induction false} ChildEntry(s: State, r: Request, x: int)
    requires ChildRequest(s, r) && EntryOk(s, r.parent)
    ensures var p := At(s, r.parent);
            var e := NewEntry(r, x, Present(p));
            e.index == x && e.used == 1 && e.numSlots == r.childSlots + 1 && e.key == r.key
            && e.ancestors == p.ancestors + [r.parent] && e.depth == |e.ancestors|
  {
  }

  /** What makes a slot fit, fact by fact. */
  lemma {:induction false} SlotFits(t: State, e: Entry, x: int)
    requires e.index == x && DYN_OBJECT_BEGIN <= x < |t.table| && t.table[x].Empty? && e.used == 1 <= e.numSlots
    requires x + e.numSlots <= |t.table| && e.key !in t.keys
    requires e.depth == |e.ancestors| > 0 && ParentOk(t, x, e)
    ensures FitsSlot(t, e)
  {
  }

  lemma {:induction false} PoolSlotFrom(s: State, r: Request)
    requires ChildRequest(s, r) && EntryOk(s, r.parent) && FromPool(s, r)
    requires var x := r.parent + At(s, r.parent).used;
             r.parent < x && x + r.childSlots + 1 <= |s.table| && s.table[x].Empty?
             && DYN_OBJECT_BEGIN <= x
    ensures FitsSlot(Bumped(s, r.parent, r.childSlots + 1), PoolEntry(s, r))
  {
    var p, n := At(s, r.parent), r.childSlots + 1;
    var x := r.parent + p.used;
    var e := NewEntry(r, x, Present(p));
    ChildEntry(s, r, x);
    ParentLink(s, r.parent, n, x, e);
    SlotFits(Bumped(s, r.parent, n), e, x);
  }

  /** The child's interval against that of type i. */
  lemma {:induction false} PoolAgainst(s: State, r: Request, i: int)
    requires Invariant(s) && ChildRequest(s, r) && At(s, r.parent).used + r.childSlots + 1 <= At(s, r.parent).numSlots
    requires Registered(s, i)
    ensures var p, n := At(s, r.parent), r.childSlots + 1;
            var x := r.parent + p.used;
            var e, f := NewEntry(r, x, Present(p)), At(Bumped(s, r.parent, n), i);
            (i < x ==> x >= i + f.numSlots || x + n <= i + f.used) &&
            (i > x ==> i >= x + n) &&
            (i < x < i + f.numSlots ==> i in e.ancestors) &&
            (i in e.ancestors && !f.canOverflow ==> x < i + f.numSlots && !e.canOverflow)
  {
    assert EntryOk(s, r.parent);
    PoolSurroundings(s, r.parent, r.childSlots + 1, i);
    PoolAncestor(s, r.parent, r.childSlots + 1, i);
  }

  lemma {:induction false} PoolAround(s: State, r: Request)
    requires Invariant(s) && ChildRequest(s, r) && FromPool(s, r)
    ensures FitsAround(Bumped(s, r.parent, r.childSlots + 1), PoolEntry(s, r))
  {
    var p, n := At(s, r.parent), r.childSlots + 1;
    var x, s' := r.parent + p.used, Bumped(s, r.parent, n);
    var e := NewEntry(r, x, Present(p));
    forall i | Registered(s', i)
      ensures i < x ==> x >= i + At(s', i).numSlots || x + n <= i + At(s', i).used
      ensures i > x ==> i >= x + n
      ensures i < x < i + At(s', i).numSlots ==> i in e.ancestors
      ensures i in e.ancestors && !At(s', i).canOverflow ==> x < i + At(s', i).numSlots && !e.canOverflow
    {
      PoolAgainst(s, r, i);
    }
  }

  /** An ancestor of p that cannot overflow contains p's whole interval. */
  lemma {:induction false} PoolAncestor(s: State, p: int, n: int, i: int)
    requires Invariant(s) && Registered(s, p) && Registered(s, i) && 0 < n && At(s, p).used + n <= At(s, p).numSlots
    ensures Descends(s, p, i) && !At(s, i).canOverflow ==>
              p + At(s, p).used < i + At(s, i).numSlots && !At(s, p).canOverflow
  {
    if Descends(s, p, i) {
      AncestorBelow(s, p, i);
      assert EntryOk(s, p) && EntryOk(s, i) && Apart(s, i, p);
    }
  }

  /** A fresh interval at the end of the table suits a child of a type that may overflow. */
  lemma {:induction false} OverflowFits(s: State, r: Request)
    requires Invariant(s) && ChildRequest(s, r) && At(s, r.parent).canOverflow
    ensures Fits(Grown(s, r.childSlots + 1), NewEntry(r, s.counter, Present(At(s, r.parent))))
  {
    var p, n := At(s, r.parent), r.childSlots + 1;
    var s' := Grown(s, n);
    var e := NewEntry(r, s.counter, Present(p));
    assert EntryOk(s, r.parent);
    assert e.ancestors[..|e.ancestors| - 1] == p.ancestors;
    GrowExtends(s, n);
    assert Registered(s', r.parent) && At(s', r.parent) == p;
    forall i | Registered(s', i)
      ensures i < s.counter && i + At(s', i).numSlots <= s.counter
      ensures i in e.ancestors ==> At(s', i).canOverflow
    {
      assert Registered(s, i) && EntryOk(s, i);
      if i in p.ancestors {
        OverflowInherited(s, r.parent, i);
      }
    }
  }

  /** A static slot lies outside every interval but its own. */
  lemma {:induction false} StaticFits(s: State, r: Request)
    requires Invariant(s) && WellFormed(s, r) && r.key !in s.keys
    requires 0 <= r.staticIndex < |s.table| && s.table[r.staticIndex].Empty?
    requires Accepts(r, r.staticIndex, FindParent(s, r.parent))
    ensures Fits(s, NewEntry(r, r.staticIndex, FindParent(s, r.parent)))
  {
    var x, parent := r.staticIndex, FindParent(s, r.parent);
    var e := NewEntry(r, x, parent);
    if parent.Present? {
      assert EntryOk(s, r.parent);
      assert r.depth != 0 ==> e.ancestors[..|e.ancestors| - 1] == parent.e.ancestors;
    }
    forall i | Registered(s, i)
      ensures i < x ==> x >= i + At(s, i).numSlots
      ensures i in e.ancestors ==> At(s, i).canOverflow
    {
      assert EntryOk(s, i);
      if r.depth != 0 && i in parent.e.ancestors {
        OverflowInherited(s, r.parent, i);
      }
    }
  }

  /** The request gets as far as choosing an index. */
  predicate Chooses(s: State, r: Request) {
    r.key !in s.keys && r.parent != -2 && !FindParent(s, r.parent).OutOfRange?
  }

  /**
    A registration that chooses an index is a reservation followed, when the checks pass,
    by the placement of one entry that fits.
  */
  ghost predicate Decomposed(s: State, r: Request, base: State, placed: bool, e: Entry)
    requires r.childSlots >= 0
  {
    Extends(s, base) && Invariant(base) &&
    (if placed then
       Fits(base, e) && e.key == r.key && e.depth == r.depth && Register(s, r) == (Put(base, e), Index(e.index))
     else Register(s, r) == (base, Failed))
  }

  lemma {:induction false} RegisterIs(s: State, r: Request)
    requires r.childSlots >= 0 && Chooses(s, r)
    ensures var (base, got) := Allocate(s, r);
            var parent := FindParent(s, r.parent);
            Register(s, r) == if got.Failed? || !Accepts(r, got.i, parent) then (base, Failed)
                              else (Put(base, NewEntry(r, got.i, parent)), got)
  {
  }

  lemma {:induction false} DecomposeStatic(s: State, r: Request) returns (placed: bool, e: Entry)
    requires Invariant(s) && WellFormed(s, r) && Chooses(s, r) && r.staticIndex >= 0
    ensures Decomposed(s, r, s, placed, e)
  {
    var parent := FindParent(s, r.parent);
    e := NewEntry(r, r.staticIndex, parent);
    placed := r.staticIndex < |s.table| && s.table[r.staticIndex].Empty? && Accepts(r, r.staticIndex, parent);
    Reflexive(s);
    RegisterIs(s, r);
    if placed {
      StaticFits(s, r);
    }
  }

  /** A child of the right depth fits the reservation. */
  lemma {:induction false} PoolFits(s: State, r: Request)
    requires Invariant(s) && FromPool(s, r) && r.key !in s.keys && r.depth == At(s, r.parent).depth + 1
    ensures Fits(Bumped(s, r.parent, r.childSlots + 1), PoolEntry(s, r))
  {
    PoolSlot(s, r);
    PoolAround(s, r);
  }

  predicate PoolAccepts(s: State, r: Request)
    requires FromPool(s, r)
  {
    Accepts(r, PoolEntry(s, r).index, Present(At(s, r.parent)))
  }

  /** What a registration from the parent's pool amounts to. */
  lemma {:induction false} PoolCase(s: State, r: Request)
    requires FromPool(s, r) && Chooses(s, r) && r.staticIndex < 0
    ensures var base, e := Bumped(s, r.parent, r.childSlots + 1), PoolEntry(s, r);
            Register(s, r) == if PoolAccepts(s, r) then (Put(base, e), Index(e.index)) else (base, Failed)
    ensures PoolEntry(s, r).key == r.key && PoolEntry(s, r).depth == r.depth
    ensures PoolAccepts(s, r) && r.depth != 0 ==> r.depth == At(s, r.parent).depth + 1
  {
  }

  /** A reservation and an entry that the checks accept or refuse decompose a registration. */
  lemma {:induction false} DecomposedFrom(s: State, r: Request, base: State, placed: bool, e: Entry)
    requires r.childSlots >= 0 && Extends(s, base) && Invariant(base)
    requires placed ==> Fits(base, e) && e.key == r.key && e.depth == r.depth
    requires Register(s, r) == if placed then (Put(base, e), Index(e.index)) else (base, Failed)
    ensures Decomposed(s, r, base, placed, e)
  {
  }

  lemma {:induction false} DecomposedPool(s: State, r: Request)
    requires Invariant(s) && FromPool(s, r) && Chooses(s, r) && r.staticIndex < 0 && r.depth != 0
    ensures Decomposed(s, r, Bumped(s, r.parent, r.childSlots + 1), PoolAccepts(s, r), PoolEntry(s, r))
  {
    PoolCase(s, r);
    BumpExtends(s, r.parent, r.childSlots + 1);
    if PoolAccepts(s, r) {
      PoolFits(s, r);
    }
    DecomposedFrom(s, r, Bumped(s, r.parent, r.childSlots + 1), PoolAccepts(s, r), PoolEntry(s, r));
  }

  lemma {:induction false} DecomposeOverflow(s: State, r: Request) returns (base: State, placed: bool, e: Entry)
    requires Invariant(s) && r.childSlots >= 0 && Chooses(s, r) && r.staticIndex < 0 && Registered(s, r.parent)
    requires At(s, r.parent).used + r.childSlots + 1 > At(s, r.parent).numSlots && At(s, r.parent).canOverflow
    requires r.depth != 0
    ensures Decomposed(s, r, base, placed, e)
  {
    var p, n := At(s, r.parent), r.childSlots + 1;
    base := Grown(s, n);
    e := NewEntry(r, s.counter, Present(p));
    placed := Accepts(r, s.counter, Present(p));
    RegisterIs(s, r);
    GrowExtends(s, n);
    if placed {
      OverflowFits(s, r);
    }
  }

  lemma {:induction false} Decompose(s: State, r: Request) returns (base: State, placed: bool, e: Entry)
    requires Invariant(s) && WellFormed(s, r) && Chooses(s, r)
    ensures Decomposed(s, r, base, placed, e)
  {
    if r.staticIndex >= 0 {
      base := s;
      placed, e := DecomposeStatic(s, r);
    } else if !Registered(s, r.parent) || (At(s, r.parent).used + r.childSlots + 1 > At(s, r.parent).numSlots
                                          && !At(s, r.parent).canOverflow) {
      base, placed, e := s, false, NewEntry(r, 0, Missing);
      RegisterIs(s, r);
      Reflexive(s);
    } else if At(s, r.parent).used + r.childSlots + 1 <= At(s, r.parent).numSlots {
      base, placed, e := Bumped(s, r.parent, r.childSlots + 1), PoolAccepts(s, r), PoolEntry(s, r);
      DecomposedPool(s, r);
    } else {
      base, placed, e := DecomposeOverflow(s, r);
    }
  }

  /** Every well-formed registration, failing or not, keeps the invariant. */
  lemma {:induction false} RegisterInvariant(s: State, r: Request)
    requires Invariant(s) && WellFormed(s, r)
    ensures Invariant(Register(s, r).0)
  {
    if Chooses(s, r) {
      var base, placed, e := Decompose(s, r);
      if placed {
        Placed(base, e);
      }
    }
  }

  lemma {:induction false} Placed(s: State, e: Entry)
    requires Invariant(s) && Fits(s, e)
    ensures Invariant(Put(s, e))
  {
    PlaceShape(s, e);
    PlaceNested(s, e);
    PlaceClosed(s, e);
  }

  // ---------- nothing registered is ever overwritten ----------

  /** Everything registered before is registered after, unchanged but for how far its interval is handed out. */
  ghost predicate Preserves(s: State, s': State) {
    |s.table| <= |s'.table| &&
    (forall i :: Registered(s, i) ==> Registered(s', i) && SameButUsed(At(s, i), At(s', i))) &&
    (forall k :: k in s.keys ==> k in s'.keys && s'.keys[k] == s.keys[k])
  }

  lemma {:induction false} PutPreserves(s: State, s': State, e: Entry)
    requires Preserves(s, s') && FitsSlot(s', e)
    ensures Preserves(s, Put(s', e))
  {
    var t := Put(s', e);
    forall i | Registered(s, i)
      ensures Registered(t, i) && SameButUsed(At(s, i), At(t, i))
    {
      assert Registered(s', i) && i != e.index;
    }
  }

  lemma {:induction false} RegisterPreserves(s: State, r: Request)
    requires Invariant(s) && WellFormed(s, r)
    ensures Preserves(s, Register(s, r).0)
  {
    Reflexive(s);
    if Chooses(s, r) {
      var base, placed, e := Decompose(s, r);
      if placed {
        PutPreserves(s, base, e);
      }
    }
  }

  /** The entry a request leaves at index i: its own data, its parent's line, a fresh interval. */
  ghost predicate NewType(s: State, r: Request, s': State, i: int) {
    Registered(s', i) && (forall j :: i <= j < i + r.childSlots + 1 ==> !Registered(s, j)) &&
    (forall j :: j != i ==> (Registered(s', j) <==> Registered(s, j))) &&
    (if r.staticIndex >= 0 then i == r.staticIndex else Registered(s, r.parent) && r.parent < i) &&
    (r.depth != 0 ==> Registered(s, r.parent)) &&
    var e := At(s', i);
    e.key == r.key && e.depth == r.depth && e.numSlots == r.childSlots + 1 && e.used == 1 &&
    e.ancestors == (if r.depth != 0 then At(s, r.parent).ancestors + [r.parent] else []) &&
    e.canOverflow == (r.canOverflow && (Registered(s, r.parent) ==> At(s, r.parent).canOverflow))
  }

  ghost predicate Stores(s: State, r: Request, s': State, got: Outcome) {
    if got.Index? then NewType(s, r, s', got.i) && s'.keys == s.keys[r.key := got.i]
    else s'.keys == s.keys && forall j :: Registered(s', j) <==> Registered(s, j)
  }

  /** Which entry a registration stored, and where. */
  lemma {:induction false} EntryStored(s: State, r: Request, base: State, e: Entry)
    requires Invariant(s) && WellFormed(s, r) && Chooses(s, r) && Register(s, r) == (Put(base, e), Index(e.index))
    requires 0 <= e.index < |base.table|
    ensures e == NewEntry(r, e.index, FindParent(s, r.parent)) && Accepts(r, e.index, FindParent(s, r.parent))
    ensures if r.staticIndex >= 0 then e.index == r.staticIndex else Registered(s, r.parent)
  {
    RegisterIs(s, r);
    var (base', got) := Allocate(s, r);
    AllocateInRange(s, r);
    assert Put(base, e).table[e.index] == Taken(e);
  }

  lemma {:induction false} NewTypeFrom(s: State, r: Request, base: State, e: Entry)
    requires Extends(s, base) && Fits(base, e)
    requires e == NewEntry(r, e.index, FindParent(s, r.parent)) && Accepts(r, e.index, FindParent(s, r.parent))
    requires FindParent(s, r.parent).Present? <==> Registered(s, r.parent)
    requires r.childSlots >= 0 && if r.staticIndex >= 0 then e.index == r.staticIndex else Registered(s, r.parent)
    ensures NewType(s, r, Put(base, e), e.index)
  {
    var t := Put(base, e);
    assert At(t, e.index) == e;
    forall j | j != e.index
      ensures Registered(t, j) <==> Registered(s, j)
    {
      assert Registered(t, j) <==> Registered(base, j);
    }
  }

  /** A successful new registration stores the type in a fresh interval; a failing one registers nothing. */
  lemma {:induction false} RegisterStores(s: State, r: Request)
    requires Invariant(s) && WellFormed(s, r) && Chooses(s, r)
    ensures Stores(s, r, Register(s, r).0, Register(s, r).1)
  {
    var base, placed, e := Decompose(s, r);
    if placed {
      EntryStored(s, r, base, e);
      NewTypeFrom(s, r, base, e);
      assert Put(base, e).keys == s.keys[r.key := e.index];
      assert Stores(s, r, Put(base, e), Index(e.index));
    } else {
      assert Stores(s, r, base, Failed);
    }
  }

  // ---------- what a registration answers ----------

  /** A known key: nothing changes, and the answer is the index under which the key is stored. */
  ghost predicate AnswersKnown(s: State, r: Request, s': State, got: Outcome) {
    && s' == s && got.Index? && Registered(s, got.i) && s.table[got.i].e.key == r.key
    && forall j :: Registered(s, j) && s.table[j].e.key == r.key ==> j == got.i
  }

  /** Entries stay as they are but for that of `p`, which hands out `n` more slots. */
  ghost predicate HandsOut(s: State, s': State, p: int, n: int) {
    forall j :: Registered(s, j) ==>
      Registered(s', j) && s'.table[j].e == s.table[j].e.(used := s.table[j].e.used + if j == p then n else 0)
  }

  /** A type at a fixed index: that slot, when it is free and the parent lies below it at the right depth. */
  ghost predicate AnswersStatic(s: State, r: Request, s': State, got: Outcome) {
    && (got.Index? <==>
          && r.staticIndex < |s.table| && !Registered(s, r.staticIndex)
          && (Registered(s, r.parent) ==> r.parent < r.staticIndex)
          && (r.depth != 0 ==> Registered(s, r.parent) && r.depth == s.table[r.parent].e.depth + 1))
    && (got.Index? ==> got.i == r.staticIndex)
    && |s'.table| == |s.table| && HandsOut(s, s', r.parent, 0)
  }

  /**
    Any other type: the next free slots of the parent's interval if they suffice, else slots behind the
    table if the parent may overflow.  Slots are handed out even when the depth is then refused.
  */
  ghost predicate AnswersChild(s: State, r: Request, s': State, got: Outcome)
    requires Registered(s, r.parent)
  {
    var p, n := s.table[r.parent].e, r.childSlots + 1;
    var pool := p.used + n <= p.numSlots;
    && (got.Index? <==> (pool || p.canOverflow) && r.depth == p.depth + 1)
    && (got.Index? ==> got.i == if pool then r.parent + p.used else |s.table|)
    && |s'.table| == |s.table| + (if !pool && p.canOverflow then n else 0)
    && HandsOut(s, s', r.parent, if pool then n else 0)
  }

  /** The answer to any request, read off the table before it. */
  ghost predicate Answers(s: State, r: Request, s': State, got: Outcome) {
    if r.key in s.keys then AnswersKnown(s, r, s', got)
    else if r.parent == -2 then s' == s && got == Index(-2)
    else if r.parent >= |s.table| || (r.staticIndex < 0 && !Registered(s, r.parent)) then s' == s && got == Failed
    else if r.staticIndex >= 0 then AnswersStatic(s, r, s', got)
    else AnswersChild(s, r, s', got)
  }

  lemma {:induction false} KnownAnswers(s: State, r: Request)
    requires Invariant(s) && r.childSlots >= 0 && r.key in s.keys
    ensures AnswersKnown(s, r, Register(s, r).0, Register(s, r).1)
  {
    assert Registered(s, s.keys[r.key]) && At(s, s.keys[r.key]).key == r.key;
  }

  /** Placing an entry in a free slot leaves the others as they are. */
  lemma {:induction false} PutHandsOut(s: State, base: State, e: Entry, p: int, n: int)
    requires HandsOut(s, base, p, n) && 0 <= e.index < |base.table| && !Registered(s, e.index)
    ensures HandsOut(s, Put(base, e), p, n) && |Put(base, e).table| == |base.table|
  {
  }

  lemma {:induction false} StaticAnswers(s: State, r: Request)
    requires r.childSlots >= 0 && Chooses(s, r) && r.staticIndex >= 0
    ensures AnswersStatic(s, r, Register(s, r).0, Register(s, r).1)
  {
    RegisterIs(s, r);
    var (s', got) := Register(s, r);
    if got.Index? {
      PutHandsOut(s, s, NewEntry(r, got.i, FindParent(s, r.parent)), r.parent, 0);
    }
  }

  lemma {:induction false} BumpHandsOut(s: State, p: int, n: int)
    requires Registered(s, p)
    ensures HandsOut(s, Bumped(s, p, n), p, n) && |Bumped(s, p, n).table| == |s.table|
  {
  }

  lemma {:induction false} GrowHandsOut(s: State, p: int, n: nat)
    ensures HandsOut(s, Grown(s, n), p, 0) && |Grown(s, n).table| == |s.table| + n
  {
  }

  /** The next free slot lies above the parent, so only the depth can be refused. */
  lemma {:induction false} PoolAcceptsDepth(s: State, r: Request)
    requires FromPool(s, r) && EntryOk(s, r.parent) && r.depth != 0
    ensures PoolEntry(s, r).index == r.parent + At(s, r.parent).used
    ensures PoolAccepts(s, r) <==> r.depth == At(s, r.parent).depth + 1
  {
  }

  lemma {:induction false} PoolAnswersFrom(s: State, r: Request, s': State, got: Outcome)
    requires FromPool(s, r)
    requires |s'.table| == |s.table| && HandsOut(s, s', r.parent, r.childSlots + 1)
    requires got == if r.depth == At(s, r.parent).depth + 1 then Index(r.parent + At(s, r.parent).used) else Failed
    ensures AnswersChild(s, r, s', got)
  {
  }

  lemma {:induction false} PoolAnswersAt(s: State, r: Request)
    requires Chooses(s, r) && r.staticIndex < 0 && r.depth != 0 && FromPool(s, r) && EntryOk(s, r.parent)
    requires !Registered(s, r.parent + At(s, r.parent).used) && r.parent + At(s, r.parent).used < |s.table|
    ensures AnswersChild(s, r, Register(s, r).0, Register(s, r).1)
  {
    var n := r.childSlots + 1;
    var base, e := Bumped(s, r.parent, n), PoolEntry(s, r);
    PoolCase(s, r);
    PoolAcceptsDepth(s, r);
    BumpHandsOut(s, r.parent, n);
    if PoolAccepts(s, r) {
      PoolPlaced(s, r, e);
      PoolAnswersFrom(s, r, Put(base, e), Index(e.index));
    } else {
      PoolAnswersFrom(s, r, base, Failed);
    }
  }

  lemma {:induction false} PoolAnswers(s: State, r: Request)
    requires Invariant(s) && WellFormed(s, r) && Chooses(s, r) && r.staticIndex < 0 && FromPool(s, r)
    ensures AnswersChild(s, r, Register(s, r).0, Register(s, r).1)
  {
    PoolEmpty(s, r.parent, r.childSlots + 1);
    assert EntryOk(s, r.parent);
    PoolAnswersAt(s, r);
  }

  lemma {:induction false} PoolPlaced(s: State, r: Request, e: Entry)
    requires FromPool(s, r) && 0 <= e.index < |s.table| && !Registered(s, e.index)
    ensures var n := r.childSlots + 1;
            var s' := Put(Bumped(s, r.parent, n), e);
            HandsOut(s, s', r.parent, n) && |s'.table| == |s.table|
  {
    var n := r.childSlots + 1;
    BumpHandsOut(s, r.parent, n);
    BumpFree(s, r.parent, n, e.index);
    PutHandsOut(s, Bumped(s, r.parent, n), e, r.parent, n);
  }

  lemma {:induction false} BumpFree(s: State, p: int, n: int, x: int)
    requires Registered(s, p)
    ensures Registered(Bumped(s, p, n), x) <==> Registered(s, x)
  {
  }

  lemma {:induction false} OverflowAnswers(s: State, r: Request)
    requires s.counter == |s.table| && r.childSlots >= 0 && r.depth != 0
    requires Chooses(s, r) && r.staticIndex < 0 && Registered(s, r.parent) && !FromPool(s, r)
    ensures AnswersChild(s, r, Register(s, r).0, Register(s, r).1)
  {
    var p, n := At(s, r.parent), r.childSlots + 1;
    RegisterIs(s, r);
    if p.canOverflow {
      GrowHandsOut(s, r.parent, n);
      PutHandsOut(s, Grown(s, n), NewEntry(r, s.counter, Present(p)), r.parent, 0);
    }
  }

  /** The answer to every request, and the state it leaves. */
  lemma {:induction false} RegisterAnswers(s: State, r: Request)
    requires Invariant(s) && WellFormed(s, r)
    ensures Answers(s, r, Register(s, r).0, Register(s, r).1)
  {
    if r.key in s.keys {
      KnownAnswers(s, r);
    } else if Chooses(s, r) {
      RegisterIs(s, r);
      if r.staticIndex >= 0 {
        StaticAnswers(s, r);
      } else if Registered(s, r.parent) {
        if FromPool(s, r) {
          PoolAnswers(s, r);
        } else {
          OverflowAnswers(s, r);
        }
      }
    }
  }

  // ---------- whole runs ----------

  ghost predicate WellFormedRun(s: State, rs: seq<Request>)
    decreases |rs|
  {
    rs == [] || (WellFormed(s, rs[0]) && WellFormedRun(Register(s, rs[0]).0, rs[1..]))
  }

  function Run(s: State, rs: seq<Request>): State
    requires forall r :: r in rs ==> r.childSlots >= 0
    decreases |rs|
  {
    if rs == [] then s else Run(Register(s, rs[0]).0, rs[1..])
  }

  lemma {:induction false} PreservesTransitive(s: State, t: State, u: State)
    requires Preserves(s, t) && Preserves(t, u)
    ensures Preserves(s, u)
  {
    forall i | Registered(s, i)
      ensures Registered(u, i) && SameButUsed(At(s, i), At(u, i))
    {
      assert Registered(t, i);
    }
  }

  lemma {:induction false} RunSlots(s: State, rs: seq<Request>)
    requires WellFormedRun(s, rs)
    ensures forall r :: r in rs ==> r.childSlots >= 0
    decreases |rs|
  {
    if rs != [] {
      RunSlots(Register(s, rs[0]).0, rs[1..]);
      assert rs == [rs[0]] + rs[1..];
    }
  }

  /** Over every run of registrations the invariant holds and nothing registered is ever overwritten. */
  lemma {:induction false} RunInvariant(s: State, rs: seq<Request>)
    requires Invariant(s) && WellFormedRun(s, rs)
    ensures forall r :: r in rs ==> r.childSlots >= 0
    ensures Invariant(Run(s, rs)) && Preserves(s, Run(s, rs))
    decreases |rs|
  {
    RunSlots(s, rs);
    if rs == [] {
      Reflexive(s);
    } else {
      var t := Register(s, rs[0]).0;
      RegisterInvariant(s, rs[0]);
      RegisterPreserves(s, rs[0]);
      RunInvariant(t, rs[1..]);
      PreservesTransitive(s, t, Run(t, rs[1..]));
    }
  }

  /** A registered type keeps its index for good: whatever is registered in between, its key gives it again. */
  lemma {:induction false} KeyKeepsIndex(s: State, r: Request, rs: seq<Request>, again: Request)
    requires Invariant(s) && WellFormed(s, r) && Register(s, r).1.Index? && (r.key in s.keys || r.parent != -2)
    requires WellFormedRun(Register(s, r).0, rs) && again.childSlots >= 0 && again.key == r.key
    ensures forall q :: q in rs ==> q.childSlots >= 0
    ensures var t := Run(Register(s, r).0, rs);
            Register(t, again) == (t, Register(s, r).1)
  {
    var (s', got) := Register(s, r);
    RegisterInvariant(s, r);
    RunInvariant(s', rs);
    if r.key !in s.keys {
      RegisterStores(s, r);
    }
    assert r.key in s'.keys && s'.keys[r.key] == got.i;
  }

  // ---------- subtype tests ----------

  /** i is j itself or one of its ancestors. */
  predicate IsA(s: State, j: int, i: int)
    requires Registered(s, j)
  {
    j == i || Descends(s, j, i)
  }

  /** The lookup behind the subtype test: the ancestor listed at the target's depth. */
  function LookupInstance(s: State, sub: int, super: int, superDepth: int): bool
    requires Registered(s, sub) && superDepth >= 0
  {
    var e := At(s, sub);
    |e.ancestors| > superDepth && e.ancestors[superDepth] == super
  }

  /** Object_IsInstance of the ABI example. */
  function ObjectIsInstance(s: State, sub: int, super: int, superDepth: int): bool
    requires Registered(s, sub) && superDepth >= 0
  {
    if sub == super then true
    else if sub < super then false
    else LookupInstance(s, sub, super, superDepth)
  }

  /** What a caller compiles in about the type it tests for. */
  datatype Target = Target(index: int, depth: int, childSlots: int, canOverflow: bool, isObject: bool, isFinal: bool)

  /**
    The compiled-in test: always true for Object, equality for a final type, otherwise the reserved
    interval first and then, if the target may overflow, the lookup.
  */
  function IsObjectInstance(s: State, obj: int, t: Target): bool
    requires Registered(s, obj) && t.depth >= 0
  {
    if t.isObject then true
    else if t.isFinal then obj == t.index
    else if (if t.childSlots != 0 then t.index <= obj < t.index + t.childSlots + 1 else obj == t.index) then true
    else if !t.canOverflow then false
    else if obj < t.index then false
    else LookupInstance(s, obj, t.index, t.depth)
  }

  /** The compiled-in constants fit the table; overflow may be compiled in more freely than registered. */
  predicate Agrees(s: State, t: Target) {
    && Registered(s, t.index)
    && t.depth == At(s, t.index).depth && t.childSlots == At(s, t.index).numSlots - 1
    && (At(s, t.index).canOverflow ==> t.canOverflow)
    && (t.isObject ==> t.index == OBJECT_INDEX)
  }

  /** Every root other than Object is alone in its interval and closed. */
  ghost predicate OneRoot(s: State) {
    forall i :: Registered(s, i) && At(s, i).depth == 0 && i != OBJECT_INDEX ==>
      At(s, i).numSlots == 1 && !At(s, i).canOverflow
  }

  lemma {:induction false} LookupExact(s: State, j: int, i: int)
    requires Invariant(s) && Registered(s, j) && Registered(s, i)
    ensures EntryOk(s, i) && At(s, i).depth >= 0
    ensures LookupInstance(s, j, i, At(s, i).depth) <==> Descends(s, j, i)
  {
    assert EntryOk(s, i);
    var anc := At(s, j).ancestors;
    if Descends(s, j, i) {
      var k :| 0 <= k < |anc| && anc[k] == i;
      AncestorAt(s, j, k);
    }
  }

  /** Membership in a type's interval: always descent, and exactly descent for a type that cannot overflow. */
  lemma {:induction false} IntervalMembers(s: State, i: int, j: int)
    requires Invariant(s) && Registered(s, i) && Registered(s, j)
    ensures i <= j < i + At(s, i).numSlots ==> IsA(s, j, i)
    ensures !At(s, i).canOverflow && IsA(s, j, i) ==> i <= j < i + At(s, i).numSlots
  {
    assert EntryOk(s, i);
    if Descends(s, j, i) {
      AncestorBelow(s, j, i);
    }
  }

  /** The lookup decides reflexive descent: its index shortcut loses nothing. */
  lemma {:induction false} InstanceExact(s: State, j: int, i: int)
    requires Invariant(s) && Registered(s, j) && Registered(s, i)
    ensures At(s, i).depth >= 0
    ensures ObjectIsInstance(s, j, i, At(s, i).depth) <==> IsA(s, j, i)
  {
    LookupExact(s, j, i);
    if Descends(s, j, i) {
      AncestorBelow(s, j, i);
    }
  }

  /** With one root, every type that is not itself a root is an Object. */
  lemma {:induction false} RootIsObject(s: State, j: int)
    requires Invariant(s) && OneRoot(s) && Registered(s, j) && At(s, j).depth > 0
    ensures Descends(s, j, OBJECT_INDEX)
  {
    assert EntryOk(s, j);
    var root := At(s, j).ancestors[0];
    AncestorAt(s, j, 0);
    assert EntryOk(s, root);
    if root != OBJECT_INDEX {
      assert Descends(s, j, root);
      assert false;
    }
  }

  /**
    The compiled-in test decides reflexive descent as well, as long as a final type has no
    descendants and Object is tested for among its descendants only.
  */
  lemma {:induction false} CompiledInstanceExact(s: State, j: int, t: Target)
    requires Invariant(s) && Registered(s, j) && Agrees(s, t)
    ensures t.depth >= 0
    ensures !t.isObject && !t.isFinal ==> (IsObjectInstance(s, j, t) <==> IsA(s, j, t.index))
    ensures !t.isObject && t.isFinal ==>
              ((IsObjectInstance(s, j, t) <==> IsA(s, j, t.index)) <==> !Descends(s, j, t.index))
    ensures t.isObject && OneRoot(s) ==>
              ((IsObjectInstance(s, j, t) <==> IsA(s, j, t.index)) <==> j == OBJECT_INDEX || At(s, j).depth > 0)
  {
    LookupExact(s, j, t.index);
    IntervalMembers(s, t.index, j);
    assert EntryOk(s, j);
    if Descends(s, j, t.index) {
      AncestorBelow(s, j, t.index);
    }
    if t.isObject && OneRoot(s) && At(s, j).depth > 0 {
      RootIsObject(s, j);
    }
  }

  /** A final type registered without room and without overflow has no descendants in any reachable table. */
  lemma {:induction false} FinalExact(s: State, j: int, t: Target)
    requires Invariant(s) && Registered(s, j) && Agrees(s, t) && t.isFinal && !t.isObject
    requires t.childSlots == 0 && !At(s, t.index).canOverflow
    ensures t.depth >= 0
    ensures IsObjectInstance(s, j, t) <==> IsA(s, j, t.index)
  {
    LookupExact(s, j, t.index);
    IntervalMembers(s, t.index, j);
  }

  /** A child that asks for no room of its own. */
  function ChildOf(t: Target, key: string): Request { Request(key, -1, t.depth + 1, 0, true, t.index) }

  /** As long as there is room or overflow below a final type, a child can be registered that the test misses. */
  lemma {:induction false} FinalMisses(s: State, t: Target, key: string)
    requires Invariant(s) && Agrees(s, t) && t.isFinal && !t.isObject && key !in s.keys
    requires At(s, t.index).used < At(s, t.index).numSlots || At(s, t.index).canOverflow
    ensures WellFormed(s, ChildOf(t, key)) && t.depth >= 0
    ensures var (s', got) := Register(s, ChildOf(t, key));
            && got.Index? && Invariant(s') && Registered(s', got.i)
            && IsA(s', got.i, t.index) && !IsObjectInstance(s', got.i, t)
  {
    var r := ChildOf(t, key);
    assert EntryOk(s, t.index);
    RegisterStores(s, r);
    RegisterInvariant(s, r);
  }

  /** A registration adds no root that could have children. */
  predicate NoOpenRoot(r: Request) { r.depth == 0 && r.staticIndex != OBJECT_INDEX ==> !r.canOverflow }

  lemma {:induction false} OneRootKept(s: State, r: Request)
    requires Invariant(s) && WellFormed(s, r) && OneRoot(s) && NoOpenRoot(r)
    ensures OneRoot(Register(s, r).0)
  {
    if Chooses(s, r) {
      RegisterStores(s, r);
      RegisterPreserves(s, r);
      var (s', got) := Register(s, r);
      forall i | Registered(s', i) && At(s', i).depth == 0 && i != OBJECT_INDEX
        ensures At(s', i).numSlots == 1 && !At(s', i).canOverflow
      {
        if Registered(s, i) {
          assert SameButUsed(At(s, i), At(s', i));
        }
      }
    }
  }

  lemma {:induction false} OneRootRun(s: State, rs: seq<Request>)
    requires Invariant(s) && WellFormedRun(s, rs) && OneRoot(s) && forall r :: r in rs ==> NoOpenRoot(r)
    ensures forall r :: r in rs ==> r.childSlots >= 0
    ensures OneRoot(Run(s, rs))
    decreases |rs|
  {
    RunSlots(s, rs);
    if rs != [] {
      RegisterInvariant(s, rs[0]);
      OneRootKept(s, rs[0]);
      OneRootRun(Register(s, rs[0]).0, rs[1..]);
    }
  }

  // ---------- the registry object ----------

  function Initial(): State {
    State(seq(DYN_OBJECT_BEGIN, _ => Empty), DYN_OBJECT_BEGIN, map[])
  }

  function ObjectRequest(): Request { Request("ffi.Object", OBJECT_INDEX, 0, 0, true, -1) }

  /** A static type outside the object hierarchy, and one directly below Object. */
  function Builtin(key: string, i: int): Request { Request(key, i, 0, 0, false, -1) }

  function DepthOne(key: string, i: int): Request { Request(key, i, 1, 0, false, OBJECT_INDEX) }

  function Builtins(): seq<Request> {
    [Builtin("None", 0), Builtin("int", 1), Builtin("bool", 2), Builtin("float", 3), Builtin("void*", 4),
     Builtin("DataType", 5), Builtin("Device", 6), Builtin("DLTensor*", 7), Builtin("const char*", 8),
     Builtin("TVMFFIByteArray*", 9), Builtin("ObjectRValueRef", 10), Builtin("ffi.SmallStr", 11),
     Builtin("ffi.SmallBytes", 12), Builtin("ffi.Unchanged", 13),
     DepthOne("ffi.String", 65), DepthOne("ffi.BigInt", 78), DepthOne("ffi.Bytes", 66), DepthOne("ffi.Error", 67),
     DepthOne("ffi.Function", 68), DepthOne("ffi.Shape", 69), DepthOne("ffi.Tensor", 70), DepthOne("ffi.Array", 71),
     DepthOne("ffi.List", 75), DepthOne("ffi.Map", 72), DepthOne("ffi.Dict", 76), DepthOne("ffi.Module", 73),
     DepthOne("ffi.OpaquePyObject", 74)]
  }

  /** Object is registered and accepts children. */
  ghost predicate ObjectReady(s: State) {
    Registered(s, OBJECT_INDEX) && At(s, OBJECT_INDEX).canOverflow
  }

  lemma {:induction false} InitialInvariant()
    ensures Invariant(Initial()) && WellFormed(Initial(), ObjectRequest())
    ensures ObjectReady(Register(Initial(), ObjectRequest()).0)
  {
    assert forall i :: !Registered(Initial(), i);
  }

  predicate StaticBuiltin(r: Request) {
    && 0 <= r.staticIndex < DYN_OBJECT_BEGIN && r.childSlots == 0 && NoOpenRoot(r)
    && (r.parent == -1 || r.parent == OBJECT_INDEX)
  }

  lemma {:induction false} BuiltinsStatic()
    ensures forall i :: 0 <= i < |Builtins()| ==> StaticBuiltin(Builtins()[i])
  {
  }

  class Registry {
    var table: seq<Slot>
    var counter: int
    var keys: map<string, int>

    function Contents(): State
      reads this
    {
      State(table, counter, keys)
    }

    ghost predicate Valid()
      reads this
    {
      Invariant(Contents())
    }

    /** A registry holding the built-in types. */
    constructor ()
      ensures Valid() && ObjectReady(Contents()) && OneRoot(Contents())
    {
      table := seq(DYN_OBJECT_BEGIN, _ => Empty);
      counter := DYN_OBJECT_BEGIN;
      keys := map[];
      new;
      InitialInvariant();
      BuiltinsStatic();
      OneRootKept(Contents(), ObjectRequest());
      var ignored := GetOrAllocTypeIndex(ObjectRequest());
      for i := 0 to |Builtins()|
        invariant Valid() && ObjectReady(Contents()) && OneRoot(Contents())
      {
        assert StaticBuiltin(Builtins()[i]);
        OneRootKept(Contents(), Builtins()[i]);
        ignored := GetOrAllocTypeIndex(Builtins()[i]);
      }
    }

    /** Looks a type up by key, or registers it; a failure can leave slots reserved. */
    method GetOrAllocTypeIndex(r: Request) returns (got: Outcome)
      requires Valid() && WellFormed(Contents(), r)
      modifies this
      ensures (Contents(), got) == Register(old(Contents()), r)
      ensures Valid() && Preserves(old(Contents()), Contents())
      ensures Answers(old(Contents()), r, Contents(), got)
      ensures r.key !in old(keys) && r.parent != -2 && r.parent < |old(table)| ==>
                Stores(old(Contents()), r, Contents(), got)
    {
      RegisterAnswers(Contents(), r);
      if Chooses(Contents(), r) {
        RegisterStores(Contents(), r);
      }
      RegisterInvariant(Contents(), r);
      RegisterPreserves(Contents(), r);
      RegisterSafe(Contents(), r);
      got := Perform(r);
    }

    method Perform(r: Request) returns (got: Outcome)
      requires Safe(Contents(), r)
      modifies this
      ensures (Contents(), got) == Register(old(Contents()), r)
    {
      ghost var s := Contents();
      if r.key in keys {
        return Index(table[keys[r.key]].e.index);
      }
      if r.parent == -2 {
        return Index(-2);
      }
      if r.parent >= |table| {
        return Failed;
      }
      var parent := if r.parent < 0 then Empty else table[r.parent];
      got := AllocateIndex(r, parent);
      if got.Failed? {
        return;
      }
      // A parent that cannot overflow passes that on.
      var canOverflow := r.canOverflow && (parent.Taken? ==> parent.e.canOverflow);
      if parent.Taken? && got.i <= parent.e.index {
        return Failed;
      }
      if r.depth != 0 && (parent.Empty? || r.depth != parent.e.depth + 1) {
        return Failed;
      }
      var ancestors := if r.depth != 0 then parent.e.ancestors + [parent.e.index] else [];
      table := table[got.i := Taken(Entry(got.i, r.depth, r.key, r.childSlots + 1, 1, canOverflow, ancestors))];
      keys := keys[r.key := got.i];
    }

    /** The index choice: static, from the parent's reserved pool, or from the overflow area. */
    method AllocateIndex(r: Request, parent: Slot) returns (got: Outcome)
      requires r.childSlots >= 0 && Safe(Contents(), r)
      requires parent == if Registered(Contents(), r.parent) then Taken(At(Contents(), r.parent)) else Empty
      requires r.parent < |table|
      modifies this
      ensures (Contents(), got) == Allocate(old(Contents()), r)
    {
      if r.staticIndex >= 0 {
        if r.staticIndex >= |table| || table[r.staticIndex].Taken? {
          return Failed;
        }
        return Index(r.staticIndex);
      }
      if parent.Empty? {
        return Failed;
      }
      var numSlots := r.childSlots + 1;
      if parent.e.used + numSlots <= parent.e.numSlots {
        table := table[parent.e.index := Taken(parent.e.(used := parent.e.used + numSlots))];
        return Index(parent.e.index + parent.e.used);
      }
      if !parent.e.canOverflow {
        return Failed;
      }
      got := Index(counter);
      counter := counter + numSlots;
      table := table + seq(numSlots, _ => Empty);
    }
  }

  /** The array accesses of a registration are in bounds. */
  ghost predicate Safe(s: State, r: Request) {
    r.childSlots >= 0 &&
    (r.key in s.keys ==> Registered(s, s.keys[r.key]) && At(s, s.keys[r.key]).index == s.keys[r.key]) &&
    (Registered(s, r.parent) ==> At(s, r.parent).index == r.parent) &&
    (Chooses(s, r) ==>
       var (base, got) := Allocate(s, r);
       got.Index? && Accepts(r, got.i, FindParent(s, r.parent)) ==> 0 <= got.i < |base.table|)
  }

  lemma {:induction false} RegisterSafe(s: State, r: Request)
    requires Invariant(s) && WellFormed(s, r)
    ensures Safe(s, r)
  {
    assert r.key in s.keys ==> EntryOk(s, s.keys[r.key]);
    assert Registered(s, r.parent) ==> EntryOk(s, r.parent);
    if Chooses(s, r) {
      RegisterIs(s, r);
      AllocateInRange(s, r);
    }
  }

  lemma {:induction false} AllocateInRange(s: State, r: Request)
    requires Invariant(s) && WellFormed(s, r)
    ensures var (base, got) := Allocate(s, r);
            got.Index? ==> 0 <= got.i < |base.table|
  {
    if Registered(s, r.parent) {
      assert EntryOk(s, r.parent);
    }
  }
}
