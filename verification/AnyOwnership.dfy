/**
  Ownership of heap objects by value cells and the reference counts that record it: the places
  that hold references, what frees an object, and every operation on cells.
*/
module AnyOwnership {
  import opened Radix
  import opened Words
  import opened Compare
  import opened StableHash
  import opened TypeIndices

  datatype Payload = Word(w: word) | Object(id: nat) | Chars(bytes: seq<byte>) | Address(slot: nat)

  datatype Raw = Raw(index: nat, extra: nat, payload: Payload)

  /**
    Every place that can hold an owned value: an Any variable, a field of a heap object, or
    an ObjectRef variable whose address an rvalue reference may carry.
  */
  datatype Loc = Var(n: nat) | Field(owner: nat, i: nat) | Slot(n: nat)

  /** A live object; its id stands for one lifetime. */
  datatype HeapObject = HeapObject(strong: nat, index: nat, bytes: seq<byte>, arity: nat)

  type Store = map<Loc, Raw>

  type Objects = map<nat, HeapObject>

  const Empty: Raw := Raw(NONE, 0, Word(0))

  // ---------- owners ----------

  predicate Refers(x: Raw, o: nat) { x.payload == Object(o) }

  /** The locations that own object `o`. */
  function Owners(store: Store, o: nat): set<Loc> {
    set l | l in store && Refers(store[l], o)
  }

  /** The reference a value carries. */
  function Reference(x: Raw): multiset<nat> {
    if x.payload.Object? then multiset{x.payload.id} else multiset{}
  }

  lemma {:induction false} OwnersUpdate(store: Store, l: Loc, y: Raw, o: nat)
    requires l in store
    ensures |Owners(store[l := y], o)| == |Owners(store, o)| - Reference(store[l])[o] + Reference(y)[o]
  {
    var rest := Owners(store, o) - {l};
    assert Owners(store, o) == if Refers(store[l], o) then rest + {l} else rest;
    assert Owners(store[l := y], o) == if Refers(y, o) then rest + {l} else rest;
  }

  lemma {:induction false} OwnersAdd(store: Store, l: Loc, y: Raw, o: nat)
    requires l !in store
    ensures |Owners(store[l := y], o)| == |Owners(store, o)| + Reference(y)[o]
  {
    assert Owners(store[l := y], o) == if Refers(y, o) then Owners(store, o) + {l} else Owners(store, o);
  }

  lemma {:induction false} OwnersRemove(store: Store, l: Loc, o: nat)
    requires l in store
    ensures |Owners(store - {l}, o)| == |Owners(store, o)| - Reference(store[l])[o]
  {
    OwnersAdd(store - {l}, l, store[l], o);
    assert (store - {l})[l := store[l]] == store;
  }

  // ---------- the invariant ----------

  /**
    `pending` are the references a running operation holds outside any location and `open`
    the objects it is building or tearing down; between operations both are empty.
  */
  datatype State = State(store: Store, objects: Objects, freed: set<nat>, next: nat,
                         pending: multiset<nat>, open: set<nat>)

  /** A value an owned cell may hold: no raw string, byte-array pointer or rvalue reference. */
  predicate Owned(x: Raw, objects: Objects) {
    && x.index != RAW_STR && x.index != BYTE_ARRAY_PTR && x.index != OBJECT_RVALUE_REF
    && (x.index < STATIC_OBJECT_BEGIN ==> x.payload.Word?)
    && (x.index >= STATIC_OBJECT_BEGIN ==>
          x.payload.Object? && x.payload.id in objects && objects[x.payload.id].index == x.index)
  }

  /** Strong counts: one for every owner and one for every reference in flight. */
  ghost predicate Counted(store: Store, objects: Objects, pending: multiset<nat>) {
    && (forall o :: o in objects ==> objects[o].strong == |Owners(store, o)| + pending[o])
    && (forall o :: o in objects ==> objects[o].strong > 0)
    && (forall o :: o in pending ==> o in objects)
  }

  /** An ObjectRef variable holds an object or nothing. */
  predicate Fits(l: Loc, x: Raw) { l.Slot? ==> x == Empty || x.payload.Object? }

  ghost predicate Clean(store: Store, objects: Objects) {
    forall l :: l in store ==> Owned(store[l], objects) && Fits(l, store[l])
  }

  ghost predicate Shaped(store: Store, objects: Objects, open: set<nat>) {
    && (forall l :: l in store && l.Field? ==>
          l.owner in open || (l.owner in objects && l.i < objects[l.owner].arity))
    && (forall o, i: nat :: o in objects && i < objects[o].arity ==> Field(o, i) in store)
  }

  ghost predicate Known(objects: Objects, freed: set<nat>, next: nat, open: set<nat>) {
    && (forall o :: o in objects ==> o < next && o !in freed && o !in open)
    && (forall o :: o in freed ==> o < next)
    && (forall o :: o in open ==> o < next)
    && (forall o: nat :: o < next ==> o in objects || o in freed || o in open)
  }

  ghost predicate Inv(s: State) {
    && Counted(s.store, s.objects, s.pending)
    && Clean(s.store, s.objects)
    && Shaped(s.store, s.objects, s.open)
    && Known(s.objects, s.freed, s.next, s.open)
  }

  /** No operation is running. */
  ghost predicate Valid(s: State) { Inv(s) && s.pending == multiset{} && s.open == {} }

  // ---------- primitive steps ----------

  function WithStrong(objects: Objects, o: nat, strong: nat): Objects
    requires o in objects
  {
    objects[o := objects[o].(strong := strong)]
  }

  function IncRef(s: State, o: nat): State
    requires o in s.objects
  {
    s.(objects := WithStrong(s.objects, o, s.objects[o].strong + 1), pending := s.pending + multiset{o})
  }

  /** The value at `l` is exchanged for `y`. */
  function Replace(s: State, l: Loc, y: Raw): State
    requires l in s.store
  {
    s.(store := s.store[l := y], pending := s.pending - Reference(y) + Reference(s.store[l]))
  }

  function Put(s: State, l: Loc, y: Raw): State {
    s.(store := s.store[l := y], pending := s.pending - Reference(y))
  }

  function Take(s: State, l: Loc): State
    requires l in s.store
  {
    s.(store := s.store - {l}, pending := s.pending + Reference(s.store[l]))
  }

  function Swap(s: State, a: Loc, b: Loc): State
    requires a in s.store && b in s.store
  {
    s.(store := s.store[a := s.store[b]][b := s.store[a]])
  }

  function Lower(s: State, o: nat): State
    requires o in s.objects && s.objects[o].strong > 0
  {
    s.(objects := WithStrong(s.objects, o, s.objects[o].strong - 1), pending := s.pending - multiset{o})
  }

  /** The last reference goes: the object is freed and its fields are about to be reset. */
  function Open(s: State, o: nat): State {
    s.(objects := s.objects - {o}, freed := s.freed + {o}, pending := s.pending - multiset{o},
       open := s.open + {o})
  }

  lemma {:induction false} StrongKeeps(s: State, o: nat, strong: nat)
    requires Inv(s) && o in s.objects
    ensures Clean(s.store, WithStrong(s.objects, o, strong))
    ensures Shaped(s.store, WithStrong(s.objects, o, strong), s.open)
    ensures Known(WithStrong(s.objects, o, strong), s.freed, s.next, s.open)
  {
  }

  lemma {:induction false} IncRefKeeps(s: State, o: nat)
    requires Inv(s) && o in s.objects
    ensures Inv(IncRef(s, o))
  {
    StrongKeeps(s, o, s.objects[o].strong + 1);
  }

  lemma {:induction false} LowerKeeps(s: State, o: nat)
    requires Inv(s) && o in s.pending && s.objects[o].strong > 1
    ensures Inv(Lower(s, o))
  {
    StrongKeeps(s, o, s.objects[o].strong - 1);
  }

  lemma {:induction false} ReplaceCounted(store: Store, objects: Objects, pending: multiset<nat>, l: Loc, y: Raw)
    requires Counted(store, objects, pending) && l in store && Reference(y) <= pending
    requires Owned(store[l], objects)
    ensures Counted(store[l := y], objects, pending - Reference(y) + Reference(store[l]))
  {
    forall o | o in objects
      ensures |Owners(store[l := y], o)| == |Owners(store, o)| - Reference(store[l])[o] + Reference(y)[o]
    {
      OwnersUpdate(store, l, y, o);
    }
  }

  lemma {:induction false} ReplaceKeeps(s: State, l: Loc, y: Raw)
    requires Inv(s) && l in s.store && Fits(l, y) && Owned(y, s.objects) && Reference(y) <= s.pending
    ensures Inv(Replace(s, l, y))
  {
    ReplaceCounted(s.store, s.objects, s.pending, l, y);
  }

  lemma {:induction false} PutCounted(store: Store, objects: Objects, pending: multiset<nat>, l: Loc, y: Raw)
    requires Counted(store, objects, pending) && l !in store && Reference(y) <= pending
    ensures Counted(store[l := y], objects, pending - Reference(y))
  {
    forall o | o in objects
      ensures |Owners(store[l := y], o)| == |Owners(store, o)| + Reference(y)[o]
    {
      OwnersAdd(store, l, y, o);
    }
  }

  lemma {:induction false} PutKeeps(s: State, l: Loc, y: Raw)
    requires Inv(s) && l !in s.store && (l.Field? ==> l.owner in s.open)
    requires Fits(l, y) && Owned(y, s.objects) && Reference(y) <= s.pending
    ensures Inv(Put(s, l, y))
  {
    PutCounted(s.store, s.objects, s.pending, l, y);
  }

  lemma {:induction false} TakeKeeps(s: State, l: Loc)
    requires Inv(s) && l in s.store && (l.Field? ==> l.owner in s.open)
    ensures Inv(Take(s, l))
  {
    forall o | o in s.objects
      ensures |Owners(s.store - {l}, o)| == |Owners(s.store, o)| - Reference(s.store[l])[o]
    {
      OwnersRemove(s.store, l, o);
    }
  }

  lemma {:induction false} SwapOwners(store: Store, a: Loc, b: Loc, o: nat)
    requires a in store && b in store
    ensures |Owners(store[a := store[b]][b := store[a]], o)| == |Owners(store, o)|
  {
    OwnersUpdate(store, a, store[b], o);
    OwnersUpdate(store[a := store[b]], b, store[a], o);
  }

  lemma {:induction false} SwapKeeps(s: State, a: Loc, b: Loc)
    requires Inv(s) && a in s.store && b in s.store && a.Slot? == b.Slot?
    ensures Inv(Swap(s, a, b))
  {
    forall o | o in s.objects
      ensures |Owners(Swap(s, a, b).store, o)| == |Owners(s.store, o)|
    {
      SwapOwners(s.store, a, b, o);
    }
  }

  lemma {:induction false} NoOwners(s: State, o: nat)
    requires Inv(s) && o in s.pending && s.objects[o].strong == 1
    ensures Owners(s.store, o) == {} && s.pending[o] == 1
    ensures forall l :: l in s.store ==> !Refers(s.store[l], o)
  {
    assert |Owners(s.store, o)| == 0;
    forall l | l in s.store
      ensures !Refers(s.store[l], o)
    {
      assert l !in Owners(s.store, o);
    }
  }

  lemma {:induction false} OpenCounted(s: State, o: nat)
    requires Inv(s) && o in s.pending && s.objects[o].strong == 1
    ensures var t := Open(s, o);
            Counted(t.store, t.objects, t.pending) && Clean(t.store, t.objects)
  {
    NoOwners(s, o);
  }

  /** Giving back the last reference leaves no owner, so the object can go. */
  lemma {:induction false} OpenKeeps(s: State, o: nat)
    requires Inv(s) && o in s.pending && s.objects[o].strong == 1
    ensures Inv(Open(s, o))
  {
    OpenCounted(s, o);
  }

  lemma {:induction false} CloseKeeps(s: State, o: nat)
    requires Inv(s) && o in s.freed && forall i: nat :: Field(o, i) !in s.store
    ensures Inv(s.(open := s.open - {o}))
  {
    forall l | l in s.store && l.Field?
      ensures l.owner != o
    {
      assert l == Field(l.owner, l.i);
    }
  }

  /** Every id handed out is live with exactly its owners counted, or freed with no owner left. */
  lemma {:induction false} Conservation(s: State, o: nat)
    requires Valid(s) && o < s.next
    ensures o in s.freed <==> o !in s.objects
    ensures o in s.objects ==> s.objects[o].strong == |Owners(s.store, o)| > 0
    ensures o in s.freed <==> Owners(s.store, o) == {}
  {
    if o in s.freed {
      forall l | l in s.store
        ensures !Refers(s.store[l], o)
      {
      }
    } else {
      assert |Owners(s.store, o)| > 0;
    }
  }

  // ---------- freeing ----------

  predicate SameObject(a: HeapObject, b: HeapObject) {
    a.index == b.index && a.bytes == b.bytes && a.arity == b.arity
  }

  /** Freed objects, and the already open ones in `torn`, disappear with their fields; nothing else moves. */
  ghost predicate OnlyFrees(s: State, t: State, torn: set<nat>) {
    && s.freed <= t.freed && t.next == s.next && t.open == s.open
    && (forall p :: p in t.objects ==> p in s.objects && SameObject(s.objects[p], t.objects[p]))
    && (forall p :: p in s.objects ==> p in t.objects || p in t.freed)
    && (forall l :: l in t.store ==> l in s.store && t.store[l] == s.store[l])
    && (forall l :: l in s.store ==>
          l in t.store || (l.Field? && l.owner in t.freed && (l.owner in torn || l.owner !in s.freed)))
  }

  lemma {:induction false} OnlyFreesTwice(s: State, t: State, u: State, torn: set<nat>)
    requires OnlyFrees(s, t, torn) && OnlyFrees(t, u, torn)
    ensures OnlyFrees(s, u, torn)
  {
  }

  /** The frame of a free: open the object, tear it down, close it. */
  lemma {:induction false} FreeFrame(s: State, t: State, o: nat)
    requires Inv(s) && o in s.objects && OnlyFrees(Open(s, o), t, {o})
    ensures OnlyFrees(s, t.(open := s.open), {})
  {
  }

  lemma {:induction false} FewerObjects(s: State, t: State, torn: set<nat>)
    requires OnlyFrees(s, t, torn)
    ensures |t.objects| <= |s.objects|
  {
    SubsetSize(t.objects.Keys, s.objects.Keys);
  }

  lemma {:induction false} SubsetSize(a: set<nat>, b: set<nat>)
    requires a <= b
    ensures |a| <= |b|
  {
    assert b == a + (b - a);
  }

  /** Resetting one field of an open object only removes that field and what it frees. */
  lemma {:induction false} FieldFrame(s: State, t: State, o: nat, i: nat)
    requires o in s.freed && Field(o, i) in s.store
    requires OnlyFrees(Take(s, Field(o, i)), t, {})
    ensures OnlyFrees(s, t, {o}) && Field(o, i) !in t.store
  {
  }

  /** The fields of `o` below `i` are gone. */
  ghost predicate Remaining(s: State, o: nat, i: nat, arity: nat) {
    forall j: nat :: Field(o, j) in s.store ==> i <= j < arity
  }

  lemma {:induction false} FieldsOf(s: State, o: nat)
    requires Inv(s) && o in s.objects
    ensures Remaining(Open(s, o), o, 0, s.objects[o].arity)
  {
  }

  lemma {:induction false} RemainingStep(s: State, t: State, o: nat, i: nat, arity: nat)
    requires Remaining(s, o, i, arity) && OnlyFrees(s, t, {o}) && Field(o, i) !in t.store
    ensures Remaining(t, o, i + 1, arity)
  {
  }

  /** Everything a release promises about the state before and after. */
  ghost predicate Released(s: State, t: State, torn: set<nat>) {
    Inv(t) && t.pending == s.pending && OnlyFrees(s, t, torn)
  }

  lemma {:induction false} ReleasedTwice(s: State, t: State, u: State, torn: set<nat>)
    requires Released(s, t, torn) && Released(t, u, torn)
    ensures Released(s, u, torn)
  {
    OnlyFreesTwice(s, t, u, torn);
  }

  // ---------- building ----------

  /** The next id is reserved for an object under construction. */
  function Begin(s: State): State { s.(next := s.next + 1, open := s.open + {s.next}) }

  /** The object exists, with one reference in the builder's hands. */
  function Finish(s: State, o: nat, index: nat, bytes: seq<byte>, arity: nat): State {
    s.(objects := s.objects[o := HeapObject(1, index, bytes, arity)], pending := s.pending + multiset{o},
       open := s.open - {o})
  }

  function Alloc(s: State, index: nat, bytes: seq<byte>): State { Finish(Begin(s), s.next, index, bytes, 0) }

  lemma {:induction false} BeginKeeps(s: State)
    requires Inv(s)
    ensures Inv(Begin(s)) && s.next !in s.open && s.next !in s.freed
    ensures s.open == {} ==> forall l :: l in s.store && l.Field? ==> l.owner != s.next
  {
  }

  /** Every field of `o` up to the arity is in place and nothing refers to `o` yet. */
  ghost predicate Built(s: State, o: nat, arity: nat) {
    && o < s.next && o in s.open && o !in s.freed && o !in s.objects
    && (forall i: nat :: Field(o, i) in s.store <==> i < arity)
  }

  lemma {:induction false} FinishCounted(s: State, o: nat, index: nat, bytes: seq<byte>, arity: nat)
    requires Inv(s) && Built(s, o, arity)
    ensures var t := Finish(s, o, index, bytes, arity);
            Counted(t.store, t.objects, t.pending) && Clean(t.store, t.objects)
  {
    assert Owners(s.store, o) == {};
  }

  lemma {:induction false} FinishKeeps(s: State, o: nat, index: nat, bytes: seq<byte>, arity: nat)
    requires Inv(s) && Built(s, o, arity)
    ensures Inv(Finish(s, o, index, bytes, arity))
  {
    FinishCounted(s, o, index, bytes, arity);
    forall l | l in s.store && l.Field? && l.owner == o
      ensures l.i < arity
    {
      assert l == Field(o, l.i);
    }
  }

  lemma {:induction false} AllocKeeps(s: State, index: nat, bytes: seq<byte>)
    requires Inv(s)
    ensures Inv(Alloc(s, index, bytes))
  {
    BeginKeeps(s);
    FinishKeeps(Begin(s), s.next, index, bytes, 0);
  }

  // ---------- views ----------

  /** What a borrowed cell may hold, with what it points at alive. */
  predicate Viewable(x: Raw, s: State) {
    if x.index >= STATIC_OBJECT_BEGIN then
      x.payload.Object? && x.payload.id in s.objects && s.objects[x.payload.id].index == x.index
    else if x.index == RAW_STR || x.index == BYTE_ARRAY_PTR then x.payload.Chars?
    else if x.index == OBJECT_RVALUE_REF then x.payload.Address? && Slot(x.payload.slot) in s.store
    else x.payload.Word?
  }

  /** The bytes of an owned text cell. */
  function Text(s: State, x: Raw): seq<byte>
    requires Owned(x, s.objects)
    requires x.index == SMALL_STR || x.index == SMALL_BYTES || x.index == STR || x.index == BYTES
  {
    if x.index >= STATIC_OBJECT_BEGIN then s.objects[x.payload.id].bytes
    else InlineBytes(x.payload.w, x.extra)
  }

  /** An rvalue reference whose object is already gone. */
  predicate AlreadyMoved(x: Raw, s: State)
    requires Viewable(x, s)
  {
    x.index == OBJECT_RVALUE_REF && s.store[Slot(x.payload.slot)] == Empty
  }

  /** Giving up the value `x`, whose reference is in flight. */
  ghost predicate Dropped(s: State, x: Raw, t: State) {
    && Inv(t) && t.pending == s.pending - Reference(x) && OnlyFrees(s, t, {})
    && (!x.payload.Object? ==> t == s)
    && (x.payload.Object? ==> x.payload.id in s.objects)
    && (x.payload.Object? && s.objects[x.payload.id].strong > 1 ==> t == Lower(s, x.payload.id))
    && (x.payload.Object? && s.objects[x.payload.id].strong == 1 ==> x.payload.id in t.freed)
  }

  /** The copy's reference: one more for an object, nothing otherwise. */
  function Retain(s: State, x: Raw): State
    requires Owned(x, s.objects)
  {
    if x.index >= STATIC_OBJECT_BEGIN then IncRef(s, x.payload.id) else s
  }

  lemma {:induction false} RetainKeeps(s: State, x: Raw)
    requires Inv(s) && Owned(x, s.objects)
    ensures Inv(Retain(s, x)) && Owned(x, Retain(s, x).objects)
    ensures Retain(s, x).pending == s.pending + Reference(x)
  {
    if x.index >= STATIC_OBJECT_BEGIN {
      IncRefKeeps(s, x.payload.id);
    }
  }

  /** A copy in a fresh place. */
  function Copied(s: State, dst: Loc, x: Raw): State
    requires Owned(x, s.objects)
  {
    Put(Retain(s, x), dst, x)
  }

  lemma {:induction false} CopiedKeeps(s: State, dst: Loc, x: Raw)
    requires Inv(s) && Owned(x, s.objects) && dst !in s.store && (dst.Field? ==> dst.owner in s.open) && Fits(dst, x)
    ensures Inv(Copied(s, dst, x)) && Copied(s, dst, x).pending == s.pending
  {
    RetainKeeps(s, x);
    PutKeeps(Retain(s, x), dst, x);
  }

  function Moved(s: State, dst: Loc, src: Loc): State
    requires src in s.store
  {
    Put(Replace(s, src, Empty), dst, s.store[src])
  }

  lemma {:induction false} MovedKeeps(s: State, dst: Loc, src: Loc)
    requires Inv(s) && src in s.store && dst !in s.store && !dst.Field? && Fits(dst, s.store[src])
    ensures Inv(Moved(s, dst, src)) && Moved(s, dst, src).pending == s.pending
    ensures Moved(s, dst, src).objects == s.objects
  {
    ReplaceKeeps(s, src, Empty);
    PutKeeps(Replace(s, src, Empty), dst, s.store[src]);
  }

  /** The same live objects with the same contents, whatever their counts. */
  ghost predicate SameObjects(s: State, t: State) {
    && t.objects.Keys == s.objects.Keys
    && (forall p :: p in s.objects ==> SameObject(s.objects[p], t.objects[p]))
  }

  /** Nothing in place moves, and the first `n` fields of `o` hold copies of the given places. */
  ghost predicate FieldsCopied(s: Store, t: Store, o: nat, elements: seq<Loc>, n: nat) {
    && (forall l :: l in s ==> l in t && t[l] == s[l])
    && (forall l :: l in t ==> l in s || (l.Field? && l.owner == o && l.i < n))
    && (forall i: nat :: i < n && i < |elements| && elements[i] in s ==>
          Field(o, i) in t && t[Field(o, i)] == s[elements[i]])
  }

  ghost predicate WithFields(s: State, t: State, o: nat, elements: seq<Loc>, n: nat) {
    && t.freed == s.freed && t.next == s.next && t.open == s.open && t.pending == s.pending
    && SameObjects(s, t) && FieldsCopied(s.store, t.store, o, elements, n)
  }

  lemma {:induction false} FieldsCopiedStep(s: Store, t: Store, o: nat, elements: seq<Loc>, n: nat)
    requires FieldsCopied(s, t, o, elements, n) && n < |elements| && elements[n] in s && Field(o, n) !in s
    ensures FieldsCopied(s, t[Field(o, n) := s[elements[n]]], o, elements, n + 1)
  {
    assert Field(o, n) !in t;
  }

  lemma {:induction false} RetainObjects(s: State, x: Raw)
    requires Owned(x, s.objects)
    ensures SameObjects(s, Retain(s, x)) && Retain(s, x).pending == s.pending + Reference(x)
  {
  }

  lemma {:induction false} SameObjectsTwice(s: State, t: State, u: State)
    requires SameObjects(s, t) && SameObjects(t, u)
    ensures SameObjects(s, u)
  {
  }

  lemma {:induction false} WithFieldsStep(s: State, t: State, o: nat, elements: seq<Loc>, n: nat)
    requires WithFields(s, t, o, elements, n) && n < |elements| && elements[n] in s.store
    requires Owned(s.store[elements[n]], t.objects) && Field(o, n) !in s.store
    ensures WithFields(s, Copied(t, Field(o, n), s.store[elements[n]]), o, elements, n + 1)
  {
    var x := s.store[elements[n]];
    RetainObjects(t, x);
    SameObjectsTwice(s, t, Retain(t, x));
    FieldsCopiedStep(s.store, t.store, o, elements, n);
    assert t.pending + Reference(x) - Reference(x) == t.pending;
  }

  // ---------- assignment ----------

  lemma {:induction false} CopySwapStore(store: Store, dst: Loc, temp: Loc, x: Raw)
    requires dst in store && temp !in store
    ensures store[temp := x][temp := store[dst]][dst := x] - {temp} == store[dst := x]
  {
  }

  lemma {:induction false} MoveSwapStore(store: Store, dst: Loc, src: Loc, temp: Loc)
    requires dst in store && src in store && temp !in store
    ensures var moved := store[src := Empty][temp := store[src]];
            moved[temp := moved[dst]][dst := store[src]] - {temp} == store[src := Empty][dst := store[src]]
  {
  }

  /** Construct in a temporary, swap and destroy amount to replacing the value. */
  lemma {:induction false} PutSwapState(s: State, dst: Loc, temp: Loc, x: Raw)
    requires dst in s.store && temp !in s.store
    ensures var t := Swap(Put(s, temp, x), temp, dst);
            Take(t, temp) == Replace(s, dst, x) && t.store[temp] == s.store[dst]
  {
    CopySwapStore(s.store, dst, temp, x);
  }

  lemma {:induction false} MoveSwapState(s: State, dst: Loc, src: Loc, temp: Loc)
    requires dst in s.store && src in s.store && temp !in s.store
    ensures var t := Swap(Moved(s, temp, src), temp, dst);
            && (dst == src ==> Take(t, temp) == s && t.store[temp] == Empty)
            && (dst != src ==> Take(t, temp) == Replace(Replace(s, src, Empty), dst, s.store[src])
                               && t.store[temp] == s.store[dst])
  {
    MoveSwapStore(s.store, dst, src, temp);
    assert s.store[src := Empty][src := s.store[src]] == s.store;
  }

  /** Assigning a cell to itself leaves every count where it was. */
  lemma {:induction false} SelfCopy(s: State, dst: Loc)
    requires dst in s.store && Owned(s.store[dst], s.objects)
    ensures var x := s.store[dst];
            var t := Replace(Retain(s, x), dst, x);
            && (x.payload.Object? ==> t.objects[x.payload.id].strong == s.objects[x.payload.id].strong + 1
                                      && Lower(t, x.payload.id) == s)
            && (!x.payload.Object? ==> t == s)
  {
    var x := s.store[dst];
    assert s.store[dst := x] == s.store;
    if x.payload.Object? {
      var o := x.payload.id;
      assert WithStrong(WithStrong(s.objects, o, s.objects[o].strong + 1), o, s.objects[o].strong) == s.objects;
    }
  }

  // ---------- converting a view ----------

  /** A new text value: inline up to seven bytes, otherwise a new heap object. */
  function TextState(s: State, large: nat, bytes: seq<byte>): State {
    if |bytes| <= 7 then s else Alloc(s, large, bytes)
  }

  function TextValue(s: State, small: nat, large: nat, bytes: seq<byte>): Raw {
    if |bytes| <= 7 then
      InlineRoundTrip(bytes);
      Raw(small, |bytes|, Word(Val(256, bytes)))
    else Raw(large, 0, Object(s.next))
  }

  function ConvertedState(s: State, view: Raw): State
    requires Viewable(view, s) && !AlreadyMoved(view, s)
  {
    if view.index >= STATIC_OBJECT_BEGIN then IncRef(s, view.payload.id)
    else if view.index == RAW_STR then TextState(s, STR, view.payload.bytes)
    else if view.index == BYTE_ARRAY_PTR then TextState(s, BYTES, view.payload.bytes)
    else if view.index == OBJECT_RVALUE_REF then Replace(s, Slot(view.payload.slot), Empty)
    else s
  }

  function ConvertedValue(s: State, view: Raw): Raw
    requires Viewable(view, s) && !AlreadyMoved(view, s)
  {
    if view.index == RAW_STR then TextValue(s, SMALL_STR, STR, view.payload.bytes)
    else if view.index == BYTE_ARRAY_PTR then TextValue(s, SMALL_BYTES, BYTES, view.payload.bytes)
    else if view.index == OBJECT_RVALUE_REF then s.store[Slot(view.payload.slot)]
    else view
  }

  /** A value in flight with its reference. */
  ghost predicate Held(s: State, t: State, x: Raw) {
    && Inv(t) && Owned(x, t.objects) && t.pending == s.pending + Reference(x)
    && t.store.Keys == s.store.Keys && t.open == s.open
  }

  lemma {:induction false} TextHeld(s: State, small: nat, large: nat, bytes: seq<byte>)
    requires Inv(s)
    requires (small == SMALL_STR && large == STR) || (small == SMALL_BYTES && large == BYTES)
    ensures Held(s, TextState(s, large, bytes), TextValue(s, small, large, bytes))
  {
    if |bytes| > 7 {
      AllocKeeps(s, large, bytes);
    }
  }

  lemma {:induction false} TextContent(s: State, small: nat, large: nat, bytes: seq<byte>)
    requires (small == SMALL_STR && large == STR) || (small == SMALL_BYTES && large == BYTES)
    ensures var t, x := TextState(s, large, bytes), TextValue(s, small, large, bytes);
            && Owned(x, t.objects) && Text(t, x) == bytes && x.index == (if |bytes| <= 7 then small else large)
            && t.store == s.store && t.freed == s.freed
  {
    if |bytes| <= 7 {
      InlineRoundTrip(bytes);
    }
  }

  lemma {:induction false} RvalueHeld(s: State, l: Loc)
    requires Inv(s) && l in s.store
    ensures Held(s, Replace(s, l, Empty), s.store[l])
  {
    ReplaceKeeps(s, l, Empty);
  }

  /** The converted value is owned, whatever kind of view it came from. */
  lemma {:induction false} ConvertedHeld(s: State, view: Raw)
    requires Inv(s) && Viewable(view, s) && !AlreadyMoved(view, s)
    ensures Held(s, ConvertedState(s, view), ConvertedValue(s, view))
  {
    if view.index == RAW_STR {
      TextHeld(s, SMALL_STR, STR, view.payload.bytes);
    } else if view.index == BYTE_ARRAY_PTR {
      TextHeld(s, SMALL_BYTES, BYTES, view.payload.bytes);
    } else if view.index == OBJECT_RVALUE_REF {
      RvalueHeld(s, Slot(view.payload.slot));
    } else {
      RetainKeeps(s, view);
    }
  }

  predicate IsText(index: nat) { index in {SMALL_STR, STR, SMALL_BYTES, BYTES} }

  /** What becomes of each kind of view: where its reference comes from and what the value holds. */
  ghost predicate Conversion(s: State, view: Raw, t: State, x: Raw)
    requires Viewable(view, s)
  {
    if view.index >= STATIC_OBJECT_BEGIN then
      var o := view.payload.id;
      x == view && t.store == s.store && t.objects == WithStrong(s.objects, o, s.objects[o].strong + 1)
    else if view.index == RAW_STR || view.index == BYTE_ARRAY_PTR then
      && t.store == s.store && t.freed == s.freed
      && Owned(x, t.objects) && IsText(x.index) && Text(t, x) == view.payload.bytes
      && (view.index == RAW_STR <==> x.index in {SMALL_STR, STR})
    else if view.index == OBJECT_RVALUE_REF then
      && x.payload.Object? && x == s.store[Slot(view.payload.slot)]
      && t.objects == s.objects && Viewable(view, t) && AlreadyMoved(view, t)
    else x == view && t == s
  }

  lemma {:induction false} ConversionMeaning(s: State, view: Raw)
    requires Inv(s) && Viewable(view, s) && !AlreadyMoved(view, s)
    ensures Conversion(s, view, ConvertedState(s, view), ConvertedValue(s, view))
  {
    if view.index == RAW_STR {
      TextContent(s, SMALL_STR, STR, view.payload.bytes);
    } else if view.index == BYTE_ARRAY_PTR {
      TextContent(s, SMALL_BYTES, BYTES, view.payload.bytes);
    } else if view.index == OBJECT_RVALUE_REF {
      assert Fits(Slot(view.payload.slot), s.store[Slot(view.payload.slot)]);
    }
  }

  /** The state after assigning from a view: the new value is in place, the old one dropped. */
  ghost predicate AssignedFrom(s: State, dst: Loc, view: Raw, t: State)
    requires dst in s.store && Viewable(view, s) && !AlreadyMoved(view, s)
  {
    && dst in ConvertedState(s, view).store
    && Dropped(Replace(ConvertedState(s, view), dst, ConvertedValue(s, view)), s.store[dst], t)
  }

  lemma {:induction false} AssignedFromView(s: State, t: State, dst: Loc, view: Raw, temp: Loc, u: State)
    requires Valid(s) && dst in s.store && dst.Var? && temp !in s.store && Viewable(view, s) && !AlreadyMoved(view, s)
    requires t == Put(ConvertedState(s, view), temp, ConvertedValue(s, view))
    requires dst in t.store
    requires Dropped(Take(Swap(t, temp, dst), temp), Swap(t, temp, dst).store[temp], u)
    ensures AssignedFrom(s, dst, view, u)
  {
    var c := ConvertedState(s, view);
    ConvertedStore(s, view);
    PutSwapState(c, dst, temp, ConvertedValue(s, view));
  }

  lemma {:induction false} ConvertedStore(s: State, view: Raw)
    requires Viewable(view, s) && !AlreadyMoved(view, s)
    ensures ConvertedState(s, view).store.Keys == s.store.Keys
    ensures forall l :: l in s.store && !l.Slot? ==> ConvertedState(s, view).store[l] == s.store[l]
  {
  }

  /** One new object with one owner; its fields hold copies, nothing else is added and everything else stays. */
  ghost predicate BuiltFrom(s: State, t: State, dst: Loc, index: nat, elements: seq<Loc>) {
    var o := s.next;
    && t.next == o + 1 && t.freed == s.freed
    && o in t.objects && t.objects[o] == HeapObject(1, index, [], |elements|)
    && dst in t.store && t.store[dst] == Raw(index, 0, Object(o))
    && (forall i: nat :: i < |elements| && elements[i] in s.store ==>
          Field(o, i) in t.store && t.store[Field(o, i)] == s.store[elements[i]])
    && (forall l :: l in s.store ==> l in t.store && t.store[l] == s.store[l])
    && (forall l :: l in t.store ==>
          l in s.store || l == dst || (l.Field? && l.owner == o && l.i < |elements|))
    && t.objects.Keys == s.objects.Keys + {o}
    && (forall p :: p in s.objects && p != o ==> SameObject(s.objects[p], t.objects[p]))
  }

  lemma {:induction false} BuiltFromFields(s: State, t: State, dst: Loc, index: nat, elements: seq<Loc>)
    requires dst !in s.store && dst.Var? && WithFields(Begin(s), t, s.next, elements, |elements|)
    ensures BuiltFrom(s, Put(Finish(t, s.next, index, [], |elements|), dst, Raw(index, 0, Object(s.next))),
                      dst, index, elements)
  {
  }

  /** Freed ids stay freed and handed-out ids stay handed out. */
  predicate Later(s: State, t: State) { s.freed <= t.freed && s.next <= t.next }

  // ---------- runs ----------

  datatype Op =
    | NewCell(dst: Loc, x: Raw)
    | CopyCell(dst: Loc, src: Loc)
    | MoveCell(dst: Loc, src: Loc)
    | EndCell(l: Loc)
    | ClearCell(l: Loc)
    | SwapOf(a: Loc, b: Loc)
    | AssignCopy(dst: Loc, src: Loc, temp: Loc)
    | AssignMove(dst: Loc, src: Loc, temp: Loc)
    | FromView(dst: Loc, view: Raw)
    | AssignView(dst: Loc, view: Raw, temp: Loc)
    | NewObject(dst: Loc, index: nat, elements: seq<Loc>)

  /** The operands exist, targets of constructions do not yet, and views point at live things. */
  predicate Enabled(op: Op, s: State) {
    match op
    case NewCell(dst, x) => dst.Var? && dst !in s.store && x.payload.Word? && Owned(x, s.objects)
    case CopyCell(dst, src) => src in s.store && dst !in s.store && !dst.Field? && Fits(dst, s.store[src])
    case MoveCell(dst, src) => src in s.store && dst !in s.store && !dst.Field? && Fits(dst, s.store[src])
    case EndCell(l) => l in s.store && !l.Field?
    case ClearCell(l) => l in s.store && !l.Field?
    case SwapOf(a, b) => a in s.store && b in s.store && a.Slot? == b.Slot?
    case AssignCopy(dst, src, temp) =>
      dst in s.store && src in s.store && temp !in s.store && dst.Var? && src.Var? && temp.Var?
    case AssignMove(dst, src, temp) =>
      dst in s.store && src in s.store && temp !in s.store && dst.Var? && src.Var? && temp.Var?
    case FromView(dst, view) => dst.Var? && dst !in s.store && Viewable(view, s)
    case AssignView(dst, view, temp) =>
      dst in s.store && temp !in s.store && dst.Var? && temp.Var? && Viewable(view, s)
    case NewObject(dst, index, elements) =>
      && dst.Var? && dst !in s.store && index >= STATIC_OBJECT_BEGIN
      && forall i :: 0 <= i < |elements| ==> elements[i] in s.store && elements[i].Var?
  }

  /** What the operation makes of the state before it. */
  ghost predicate Effect(op: Op, s: State, t: State)
    requires Valid(s) && Enabled(op, s)
  {
    match op
    case NewCell(dst, x) => t == Put(s, dst, x)
    case CopyCell(dst, src) => t == Copied(s, dst, s.store[src])
    case MoveCell(dst, src) => t == Moved(s, dst, src)
    case EndCell(l) => Dropped(Take(s, l), s.store[l], t)
    case ClearCell(l) => Dropped(Replace(s, l, Empty), s.store[l], t)
    case SwapOf(a, b) => t == Swap(s, a, b)
    case AssignCopy(dst, src, _) => CopyAssigned(s, dst, src, t)
    case AssignMove(dst, src, _) => MoveAssigned(s, dst, src, t)
    case FromView(dst, view) =>
      if AlreadyMoved(view, s) then t == s
      else t == Put(ConvertedState(s, view), dst, ConvertedValue(s, view))
    case AssignView(dst, view, _) =>
      if AlreadyMoved(view, s) then t == s else AssignedFrom(s, dst, view, t)
    case NewObject(dst, index, elements) => BuiltFrom(s, t, dst, index, elements)
  }

  ghost predicate CopyAssigned(s: State, dst: Loc, src: Loc, t: State)
    requires dst in s.store && src in s.store && Owned(s.store[src], s.objects)
  {
    && Dropped(Replace(Retain(s, s.store[src]), dst, s.store[src]), s.store[dst], t)
    && (dst == src ==> t == s)
  }

  ghost predicate MoveAssigned(s: State, dst: Loc, src: Loc, t: State)
    requires dst in s.store && src in s.store
  {
    if dst == src then t == s
    else Dropped(Replace(Replace(s, src, Empty), dst, s.store[src]), s.store[dst], t)
  }

  /** One step of a run between two sound states: an enabled operation has its effect, a disabled one none. */
  ghost predicate RunsTo(op: Op, s: State, t: State) {
    && Valid(s) && Sound(s) && Valid(t) && Sound(t)
    && if Enabled(op, s) then Effect(op, s, t) else t == s
  }

  /** Each operation leads from one state to the next. */
  ghost predicate Linked<A, S>(ops: seq<A>, states: seq<S>, step: (A, S, S) -> bool) {
    && |states| == |ops| + 1
    && forall i :: 0 <= i < |ops| ==> step(ops[i], states[i], states[i + 1])
  }

  /** The states between the operations of a run. */
  ghost predicate Runs(ops: seq<Op>, states: seq<State>) {
    Linked(ops, states, (op, s, t) => RunsTo(op, s, t))
  }

  lemma {:induction false} LinkedStep<A, S>(ops: seq<A>, states: seq<S>, step: (A, S, S) -> bool, op: A, t: S)
    requires Linked(ops, states, step) && step(op, states[|ops|], t)
    ensures Linked(ops + [op], states + [t], step)
  {
    var more, after := ops + [op], states + [t];
    forall i | 0 <= i < |more|
      ensures step(more[i], after[i], after[i + 1])
    {
      assert after[i] == states[i];
      assert i < |ops| ==> more[i] == ops[i] && after[i + 1] == states[i + 1];
    }
  }

  lemma {:induction false} RunStep(ops: seq<Op>, states: seq<State>, op: Op, t: State)
    requires Runs(ops, states) && RunsTo(op, states[|ops|], t)
    ensures Runs(ops + [op], states + [t])
  {
    LinkedStep(ops, states, (op, s, t) => RunsTo(op, s, t), op, t);
  }

  /** Every state of a run is sound, and every operation had its effect or was not enabled. */
  lemma {:induction false} RunAt(ops: seq<Op>, states: seq<State>, i: nat)
    requires Runs(ops, states) && i < |ops|
    ensures Valid(states[i]) && Sound(states[i]) && Sound(states[i + 1])
    ensures if Enabled(ops[i], states[i]) then Effect(ops[i], states[i], states[i + 1])
            else states[i + 1] == states[i]
  {
    assert RunsTo(ops[i], states[i], states[i + 1]);
  }

  /** What holds between any two operations. */
  ghost predicate Sound(s: State) {
    && (forall o :: o in s.objects ==> s.objects[o].strong == |Owners(s.store, o)| > 0)
    && (forall o: nat :: o < s.next ==> (o in s.freed <==> Owners(s.store, o) == {}))
    && (forall o: nat :: o < s.next ==> (o in s.freed <==> o !in s.objects))
    && (forall l :: l in s.store ==> Owned(s.store[l], s.objects))
  }

  lemma {:induction false} ValidSound(s: State)
    requires Valid(s)
    ensures Sound(s)
  {
    forall o: nat | o < s.next
      ensures o in s.freed <==> o !in s.objects
      ensures o in s.objects ==> s.objects[o].strong == |Owners(s.store, o)| > 0
      ensures o in s.freed <==> Owners(s.store, o) == {}
    {
      Conservation(s, o);
    }
  }

  /** After its fields are gone the freed object is closed. */
  lemma {:induction false} Closed(s: State, t: State, o: nat, arity: nat)
    requires Inv(s) && o in s.objects && Released(Open(s, o), t, {o}) && Remaining(t, o, arity, arity)
    ensures o in t.freed && t.open - {o} == s.open && Inv(t.(open := t.open - {o}))
  {
    CloseKeeps(t, o);
  }

  class Runtime {
    var s: State

    constructor ()
      ensures Valid(s) && s.store == map[] && s.objects == map[] && s.freed == {}
    {
      s := State(map[], map[], {}, 0, multiset{}, {});
    }

    /** Gives back one reference; at zero the object goes, and with it its fields' references. */
    method DecRef(o: nat)
      requires Inv(s) && o in s.pending
      modifies this
      ensures Inv(s) && s.pending == old(s).pending - multiset{o} && OnlyFrees(old(s), s, {})
      ensures old(s).objects[o].strong > 1 ==> s == Lower(old(s), o)
      ensures old(s).objects[o].strong == 1 ==> o in s.freed
      decreases |s.objects|, 1
    {
      if s.objects[o].strong > 1 {
        LowerKeeps(s, o);
        s := Lower(s, o);
      } else {
        Free(o);
      }
    }

    method Free(o: nat)
      requires Inv(s) && o in s.pending && s.objects[o].strong == 1
      modifies this
      ensures Inv(s) && s.pending == old(s).pending - multiset{o} && OnlyFrees(old(s), s, {})
      ensures o in s.freed
      decreases |s.objects|, 0
    {
      var arity := s.objects[o].arity;
      OpenKeeps(s, o);
      FieldsOf(s, o);
      s := Open(s, o);
      Destruct(o, arity);
      FreeFrame(old(s), s, o);
      Closed(old(s), s, o, arity);
      s := s.(open := s.open - {o});
    }

    /** The destructor of a freed object: every field is reset in turn. */
    method Destruct(o: nat, arity: nat)
      requires Inv(s) && o in s.open && o in s.freed && Remaining(s, o, 0, arity)
      modifies this
      ensures Released(old(s), s, {o}) && Remaining(s, o, arity, arity)
      decreases |s.objects|, 3
    {
      for i := 0 to arity
        invariant Released(old(s), s, {o}) && Remaining(s, o, i, arity)
      {
        ghost var before := s;
        FewerObjects(old(s), s, {o});
        ResetField(o, i);
        ReleasedTwice(old(s), before, s, {o});
        RemainingStep(before, s, o, i, arity);
      }
    }

    method ResetField(o: nat, i: nat)
      requires Inv(s) && o in s.open && o in s.freed
      modifies this
      ensures Released(old(s), s, {o}) && Field(o, i) !in s.store
      decreases |s.objects|, 2
    {
      var l := Field(o, i);
      if l in s.store {
        var x := s.store[l];
        TakeKeeps(s, l);
        s := Take(s, l);
        if x.index >= STATIC_OBJECT_BEGIN {
          DecRef(x.payload.id);
        }
        FieldFrame(old(s), s, o, i);
      }
    }

    method Drop(x: Raw)
      requires Inv(s) && Owned(x, s.objects) && Reference(x) <= s.pending
      modifies this
      ensures Dropped(old(s), x, s)
    {
      if x.index >= STATIC_OBJECT_BEGIN {
        DecRef(x.payload.id);
      }
    }

    // ---------- Any ----------

    /** Any(const Any&). */
    method CopyConstruct(dst: Loc, src: Loc)
      requires Valid(s) && src in s.store && dst !in s.store && !dst.Field? && Fits(dst, s.store[src])
      modifies this
      ensures Later(old(s), s)
      ensures Valid(s) && s == Copied(old(s), dst, old(s).store[src])
    {
      var data := s.store[src];
      CopiedKeeps(s, dst, data);
      if data.index >= STATIC_OBJECT_BEGIN {
        s := IncRef(s, data.payload.id);
      }
      s := Put(s, dst, data);
    }

    /** Any(Any&&): the source is left empty and no count changes. */
    method MoveConstruct(dst: Loc, src: Loc)
      requires Valid(s) && src in s.store && dst !in s.store && !dst.Field? && Fits(dst, s.store[src])
      modifies this
      ensures Later(old(s), s)
      ensures Valid(s) && s == Moved(old(s), dst, src)
    {
      MovedKeeps(s, dst, src);
      s := Moved(s, dst, src);
    }

    method SwapCells(a: Loc, b: Loc)
      requires Valid(s) && a in s.store && b in s.store && a.Slot? == b.Slot?
      modifies this
      ensures Later(old(s), s)
      ensures Valid(s) && s == Swap(old(s), a, b)
    {
      SwapKeeps(s, a, b);
      s := Swap(s, a, b);
    }

    method Reset(l: Loc)
      requires Valid(s) && l in s.store && !l.Field?
      modifies this
      ensures Later(old(s), s)
      ensures Valid(s) && Dropped(Replace(old(s), l, Empty), old(s).store[l], s)
      ensures l in s.store && s.store[l] == Empty
    {
      var x := s.store[l];
      ReplaceKeeps(s, l, Empty);
      s := Replace(s, l, Empty);
      Drop(x);
    }

    /** ~Any(). */
    method Destroy(l: Loc)
      requires Valid(s) && l in s.store && !l.Field?
      modifies this
      ensures Later(old(s), s)
      ensures Valid(s) && Dropped(Take(old(s), l), old(s).store[l], s) && l !in s.store
    {
      var x := s.store[l];
      TakeKeeps(s, l);
      s := Take(s, l);
      Drop(x);
    }

    /** The second half of every assignment: the temporary takes the old value and ends. */
    method SwapDestroy(dst: Loc, temp: Loc)
      requires Valid(s) && dst in s.store && temp in s.store && dst.Var? && temp.Var?
      modifies this
      ensures Later(old(s), s)
      ensures Valid(s) && temp !in s.store
      ensures var t := Swap(old(s), temp, dst);
              Dropped(Take(t, temp), t.store[temp], s)
    {
      SwapCells(temp, dst);
      Destroy(temp);
    }

    /** Copy assignment through a temporary; the old value goes last, so self-assignment is safe. */
    method CopyAssign(dst: Loc, src: Loc, temp: Loc)
      requires Valid(s) && dst in s.store && src in s.store && temp !in s.store
      requires dst.Var? && src.Var? && temp.Var?
      modifies this
      ensures Later(old(s), s)
      ensures Valid(s) && temp !in s.store
      ensures var x := old(s).store[src];
              Dropped(Replace(Retain(old(s), x), dst, x), old(s).store[dst], s)
      ensures dst == src ==> s == old(s)
    {
      PutSwapState(Retain(s, s.store[src]), dst, temp, s.store[src]);
      CopyConstruct(temp, src);
      SwapDestroy(dst, temp);
      if dst == src {
        SelfCopy(old(s), dst);
      }
    }

    method MoveAssign(dst: Loc, src: Loc, temp: Loc)
      requires Valid(s) && dst in s.store && src in s.store && temp !in s.store
      requires dst.Var? && src.Var? && temp.Var?
      modifies this
      ensures Later(old(s), s)
      ensures Valid(s) && temp !in s.store
      ensures dst == src ==> s == old(s)
      ensures dst != src ==>
                Dropped(Replace(Replace(old(s), src, Empty), dst, old(s).store[src]), old(s).store[dst], s)
    {
      MoveSwapState(s, dst, src, temp);
      MoveConstruct(temp, src);
      SwapDestroy(dst, temp);
    }

    /**
      In-place conversion of a view: the result is owned, its reference is in the caller's hands and
      its content is the view's.  An rvalue already moved from is an error.
    */
    method InplaceConvertAnyViewToAny(view: Raw) returns (ok: bool, data: Raw)
      requires Inv(s) && Viewable(view, s)
      modifies this
      ensures ok <==> !AlreadyMoved(view, old(s))
      ensures !ok ==> s == old(s)
      ensures ok ==> s == ConvertedState(old(s), view) && data == ConvertedValue(old(s), view)
      ensures ok ==> Held(old(s), s, data) && Conversion(old(s), view, s, data)
    {
      if !AlreadyMoved(view, s) {
        ConvertedHeld(s, view);
        ConversionMeaning(s, view);
      }
      ok, data := true, view;
      if view.index >= STATIC_OBJECT_BEGIN {
        s := IncRef(s, view.payload.id);
      } else if view.index >= RAW_STR {
        if view.index == RAW_STR {
          data := NewText(SMALL_STR, STR, view.payload.bytes);
        } else if view.index == BYTE_ARRAY_PTR {
          data := NewText(SMALL_BYTES, BYTES, view.payload.bytes);
        } else if view.index == OBJECT_RVALUE_REF {
          var l := Slot(view.payload.slot);
          if s.store[l] == Empty {
            ok := false;
          } else {
            data := s.store[l];
            s := Replace(s, l, Empty);
          }
        }
      }
    }

    method NewText(small: nat, large: nat, bytes: seq<byte>) returns (data: Raw)
      modifies this
      ensures s == TextState(old(s), large, bytes) && data == TextValue(old(s), small, large, bytes)
    {
      data := TextValue(s, small, large, bytes);
      if |bytes| > 7 {
        s := Alloc(s, large, bytes);
      }
    }

    /** Any(const AnyView&). */
    method ConstructFromView(dst: Loc, view: Raw) returns (ok: bool)
      requires Valid(s) && Viewable(view, s) && dst !in s.store && dst.Var?
      modifies this
      ensures Later(old(s), s)
      ensures Valid(s) && (ok <==> !AlreadyMoved(view, old(s)))
      ensures !ok ==> s == old(s)
      ensures ok ==> s == Put(ConvertedState(old(s), view), dst, ConvertedValue(old(s), view))
    {
      var data: Raw;
      ok, data := InplaceConvertAnyViewToAny(view);
      if ok {
        PutKeeps(s, dst, data);
        s := Put(s, dst, data);
      }
    }

    method AssignFromView(dst: Loc, view: Raw, temp: Loc) returns (ok: bool)
      requires Valid(s) && Viewable(view, s) && dst in s.store && dst.Var? && temp !in s.store && temp.Var?
      modifies this
      ensures Later(old(s), s)
      ensures Valid(s) && (ok <==> !AlreadyMoved(view, old(s)))
      ensures !ok ==> s == old(s)
      ensures temp !in s.store
      ensures ok ==> AssignedFrom(old(s), dst, view, s)
    {
      ok := ConstructFromView(temp, view);
      if ok {
        ghost var t := s;
        SwapDestroy(dst, temp);
        AssignedFromView(old(s), t, dst, view, temp, s);
      }
    }

    /** Field by field, a copy of each given cell. */
    method FillFields(o: nat, elements: seq<Loc>)
      requires Inv(s) && o in s.open && forall i: nat :: Field(o, i) !in s.store
      requires forall i :: 0 <= i < |elements| ==> elements[i] in s.store && elements[i].Var?
      modifies this
      ensures Inv(s) && WithFields(old(s), s, o, elements, |elements|)
    {
      for i := 0 to |elements|
        invariant Inv(s) && WithFields(old(s), s, o, elements, i)
      {
        var x := s.store[elements[i]];
        CopiedKeeps(s, Field(o, i), x);
        WithFieldsStep(old(s), s, o, elements, i);
        s := Copied(s, Field(o, i), x);
      }
    }

    /** An object holding copies of the given cells, owned by a new cell. */
    method BuildObject(dst: Loc, index: nat, elements: seq<Loc>) returns (o: nat)
      requires Valid(s) && dst !in s.store && dst.Var? && index >= STATIC_OBJECT_BEGIN
      requires forall i :: 0 <= i < |elements| ==> elements[i] in s.store && elements[i].Var?
      modifies this
      ensures Later(old(s), s)
      ensures Valid(s) && o == old(s).next
      ensures BuiltFrom(old(s), s, dst, index, elements)
    {
      o := s.next;
      BeginKeeps(s);
      s := Begin(s);
      FillFields(o, elements);
      ghost var filled := s;
      FinishKeeps(s, o, index, [], |elements|);
      s := Finish(s, o, index, [], |elements|);
      PutKeeps(s, dst, Raw(index, 0, Object(o)));
      s := Put(s, dst, Raw(index, 0, Object(o)));
      BuiltFromFields(old(s), filled, dst, index, elements);
    }

    /** One operation: it has its effect and keeps everything that holds between operations. */
    method Perform(op: Op)
      requires Valid(s) && Enabled(op, s)
      modifies this
      ensures Valid(s) && Later(old(s), s)
      ensures Effect(op, old(s), s)
    {
      match op
      case NewCell(dst, x) =>
        PutKeeps(s, dst, x);
        s := Put(s, dst, x);
      case CopyCell(dst, src) => CopyConstruct(dst, src);
      case MoveCell(dst, src) => MoveConstruct(dst, src);
      case EndCell(l) => Destroy(l);
      case ClearCell(l) => Reset(l);
      case SwapOf(a, b) => SwapCells(a, b);
      case AssignCopy(dst, src, temp) => CopyAssign(dst, src, temp);
      case AssignMove(dst, src, temp) => MoveAssign(dst, src, temp);
      case FromView(dst, view) =>
        var ok := ConstructFromView(dst, view);
      case AssignView(dst, view, temp) =>
        var ok := AssignFromView(dst, view, temp);
      case NewObject(dst, index, elements) =>
        var o := BuildObject(dst, index, elements);
    }

    /** Performs an operation if its operands allow it. */
    method Attempt(op: Op)
      requires Valid(s)
      modifies this
      ensures Later(old(s), s) && RunsTo(op, old(s), s)
    {
      ValidSound(s);
      if Enabled(op, s) {
        Perform(op);
      }
      ValidSound(s);
    }

    /** Any run of operations, from any valid state, with the state after each of them. */
    method Run(ops: seq<Op>) returns (ghost states: seq<State>)
      requires Valid(s)
      modifies this
      ensures Valid(s) && Sound(s) && Later(old(s), s)
      ensures Runs(ops, states) && states[0] == old(s) && states[|ops|] == s
    {
      ValidSound(s);
      states := [s];
      for i := 0 to |ops|
        invariant Valid(s) && Later(old(s), s)
        invariant Runs(ops[..i], states) && states[0] == old(s) && states[i] == s
      {
        Attempt(ops[i]);
        RunStep(ops[..i], states, ops[i], s);
        assert ops[..i] + [ops[i]] == ops[..i + 1];
        states := states + [s];
      }
      ValidSound(s);
      assert ops[..|ops|] == ops;
    }
  }
}
