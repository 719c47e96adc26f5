/** Hashing and equality of the 16-byte value cells. */
module AnyEquality {
  import opened Words
  import opened Compare
  import opened StableHash
  import opened TypeIndices

  datatype Cell = Cell(index: word, extra: nat, value: word)

  /** What object payloads point at: the bytes of strings, the words of integers. */
  datatype Store = Store(bytes: map<word, seq<byte>>, ints: map<word, seq<word>>)

  /** Per-type hooks for hashing and equality, for the types that register one. */
  datatype Columns = Columns(hashed: set<word>, hash: (word, word) -> word,
                             equaled: set<word>, equal: (word, word, word) -> bool)

  predicate IsInline(index: word) { index == SMALL_STR || index == SMALL_BYTES }

  predicate IsHeapText(index: word) { index == STR || index == BYTES }

  predicate IsText(index: word) { IsInline(index) || IsHeapText(index) }

  /** Inline text is zero-padded; every other cell has zero in the padding word. */
  predicate WellFormed(h: Store, c: Cell) {
    if IsInline(c.index) then InlinePayload(c.value, c.extra)
    else
      && c.extra == 0
      && (IsHeapText(c.index) ==> c.value in h.bytes)
      && (c.index == BIG_INT ==> c.value in h.ints && |h.ints[c.value]| > 1 && CanonicalWords(h.ints[c.value]))
  }

  // ---------- the two functors ----------

  function AnyHash(h: Store, cols: Columns, c: Cell): word
    requires WellFormed(h, c)
  {
    if c.index == SMALL_STR then StableHashCombine(STR, StableHashSmallStrBytes(c.value))
    else if c.index == SMALL_BYTES then StableHashCombine(BYTES, StableHashSmallStrBytes(c.value))
    else if IsHeapText(c.index) then StableHashCombine(c.index, HashBytes(h.bytes[c.value]))
    else if c.index >= STATIC_OBJECT_BEGIN && c.index in cols.hashed then
      StableHashCombine(c.index, cols.hash(c.index, c.value))
    else StableHashCombine(c.index, c.value)
  }

  predicate MemEqual(a: seq<byte>, b: seq<byte>) { |a| == |b| && a == b }

  predicate AnyEqual(h: Store, cols: Columns, a: Cell, b: Cell)
    requires WellFormed(h, a) && WellFormed(h, b)
  {
    if a.index == b.index && a.extra == b.extra && a.value == b.value then true
    else if a.index == b.index then
      if IsHeapText(a.index) then MemEqual(h.bytes[a.value], h.bytes[b.value])
      else a.index >= STATIC_OBJECT_BEGIN && a.index in cols.equaled && cols.equal(a.index, a.value, b.value)
    else if !IsText(a.index) then false
    else if a.index == STR && b.index == SMALL_STR then
      MemEqual(h.bytes[a.value], InlineBytes(b.value, b.extra))
    else if a.index == SMALL_STR && b.index == STR then
      MemEqual(InlineBytes(a.value, a.extra), h.bytes[b.value])
    else if a.index == BYTES && b.index == SMALL_BYTES then
      MemEqual(h.bytes[a.value], InlineBytes(b.value, b.extra))
    else if a.index == SMALL_BYTES && b.index == BYTES then
      MemEqual(InlineBytes(a.value, a.extra), h.bytes[b.value])
    else false
  }

  // ---------- meaning ----------

  function Content(h: Store, c: Cell): seq<byte>
    requires WellFormed(h, c) && IsText(c.index)
  {
    if IsInline(c.index) then InlineBytes(c.value, c.extra) else h.bytes[c.value]
  }

  predicate SameKind(i: word, j: word) {
    (i == STR || i == SMALL_STR) == (j == STR || j == SMALL_STR)
  }

  /** A cell is a valid operand of the hooks of its type. */
  predicate Operand(h: Store, i: word, v: word) { !IsText(i) && WellFormed(h, Cell(i, 0, v)) }

  /** Registered equality is symmetric, transitive and respected by a registered hash. */
  ghost predicate Consistent(h: Store, cols: Columns) {
    && cols.equaled <= cols.hashed
    && (forall i, v, w :: i in cols.equaled && Operand(h, i, v) && Operand(h, i, w) && cols.equal(i, v, w)
         ==> cols.equal(i, w, v) && cols.hash(i, v) == cols.hash(i, w))
    && (forall i, u, v, w :: i in cols.equaled && Operand(h, i, u) && Operand(h, i, v) && Operand(h, i, w)
         ==> cols.equal(i, u, v) && cols.equal(i, v, w) ==> cols.equal(i, u, w))
  }

  /** Text cells are equal exactly when they are of one kind with the same bytes. */
  lemma {:induction false} TextEqual(h: Store, cols: Columns, a: Cell, b: Cell)
    requires WellFormed(h, a) && WellFormed(h, b) && IsText(a.index) && IsText(b.index)
    ensures AnyEqual(h, cols, a, b) <==> SameKind(a.index, b.index) && Content(h, a) == Content(h, b)
    ensures SameKind(a.index, b.index) <==> (a.index in {11, 65} <==> b.index in {11, 65})
  {
    if IsInline(a.index) && a.index == b.index && Content(h, a) == Content(h, b) {
      assert a.extra == |Content(h, a)| == b.extra;
      InlineUnique(a.value, b.value, a.extra);
    }
  }

  /** Text hashes depend only on kind and bytes, not on where the bytes are kept. */
  lemma {:induction false} TextHash(h: Store, cols: Columns, a: Cell)
    requires WellFormed(h, a) && IsText(a.index)
    ensures AnyHash(h, cols, a)
            == StableHashCombine(if SameKind(a.index, STR) then STR else BYTES, HashBytes(Content(h, a)))
  {
    if IsInline(a.index) {
      InlineHashAgrees(a.value, a.extra);
    }
  }

  /** Unless both are text, only identical cells are equal and those an equality registered for their type equates. */
  lemma {:induction false} HookEqual(h: Store, cols: Columns, a: Cell, b: Cell)
    requires WellFormed(h, a) && WellFormed(h, b) && !({a.index, b.index} <= {11, 12, 65, 66})
    ensures AnyEqual(h, cols, a, b) <==>
              a == b || (a.index == b.index && 64 <= a.index && a.index in cols.equaled
                         && cols.equal(a.index, a.value, b.value))
  {
    assert IsText(a.index) ==> a.index in {11, 12, 65, 66};
    assert IsText(b.index) ==> b.index in {11, 12, 65, 66};
  }

  /** Outside text, the registered hash of an object's type decides, and else the payload, under the type index. */
  lemma {:induction false} HookHash(h: Store, cols: Columns, a: Cell)
    requires WellFormed(h, a)
    ensures a.index in {11, 65} ==> AnyHash(h, cols, a) == StableHashCombine(65, HashBytes(Content(h, a)))
    ensures a.index in {12, 66} ==> AnyHash(h, cols, a) == StableHashCombine(66, HashBytes(Content(h, a)))
    ensures a.index !in {11, 12, 65, 66} ==>
              AnyHash(h, cols, a) == StableHashCombine(
                a.index, if 64 <= a.index && a.index in cols.hashed then cols.hash(a.index, a.value) else a.value)
  {
    if IsText(a.index) {
      TextHash(h, cols, a);
    }
  }

  lemma {:induction false} Reflexive(h: Store, cols: Columns, a: Cell)
    requires WellFormed(h, a)
    ensures AnyEqual(h, cols, a, a)
  {
  }

  lemma {:induction false} Symmetric(h: Store, cols: Columns, a: Cell, b: Cell)
    requires WellFormed(h, a) && WellFormed(h, b) && Consistent(h, cols)
    requires AnyEqual(h, cols, a, b)
    ensures AnyEqual(h, cols, b, a)
  {
    if IsText(a.index) && IsText(b.index) {
      TextEqual(h, cols, a, b);
      TextEqual(h, cols, b, a);
    } else if a != b {
      assert Operand(h, a.index, a.value) && Operand(h, a.index, b.value);
    }
  }

  lemma {:induction false} Transitive(h: Store, cols: Columns, a: Cell, b: Cell, c: Cell)
    requires WellFormed(h, a) && WellFormed(h, b) && WellFormed(h, c) && Consistent(h, cols)
    requires AnyEqual(h, cols, a, b) && AnyEqual(h, cols, b, c)
    ensures AnyEqual(h, cols, a, c)
  {
    if IsText(b.index) {
      TextEqual(h, cols, a, b);
      TextEqual(h, cols, b, c);
      TextEqual(h, cols, a, c);
    } else if a != b && b != c {
      assert Operand(h, b.index, a.value) && Operand(h, b.index, b.value) && Operand(h, b.index, c.value);
    }
  }

  /** Equal cells have equal hashes. */
  lemma {:induction false} EqualImpliesHash(h: Store, cols: Columns, a: Cell, b: Cell)
    requires WellFormed(h, a) && WellFormed(h, b) && Consistent(h, cols)
    requires AnyEqual(h, cols, a, b)
    ensures AnyHash(h, cols, a) == AnyHash(h, cols, b)
  {
    if IsText(a.index) && IsText(b.index) {
      TextEqual(h, cols, a, b);
      TextHash(h, cols, a);
      TextHash(h, cols, b);
    } else if a != b {
      assert Operand(h, a.index, a.value) && Operand(h, a.index, b.value);
    }
  }

  // ---------- integers ----------

  /** The hooks registered for heap integers. */
  function BigIntColumns(h: Store): Columns {
    Columns({BIG_INT},
            (i, v) => if v in h.ints then BigIntHash(Heap(h.ints[v])) else 0,
            {BIG_INT},
            (i, v, w) => v in h.ints && w in h.ints && Signed(h.ints[v]) == Signed(h.ints[w]))
  }

  /** The columns hold the integer hooks, whatever other types register. */
  ghost predicate HasIntegerHooks(h: Store, cols: Columns) {
    && BIG_INT in cols.hashed && BIG_INT in cols.equaled
    && (forall v :: v in h.ints ==> cols.hash(BIG_INT, v) == BigIntHash(BigInt.Heap(h.ints[v])))
    && (forall v, w :: v in h.ints && w in h.ints
         ==> (cols.equal(BIG_INT, v, w) <==> Signed(h.ints[v]) == Signed(h.ints[w])))
  }

  predicate IsInteger(index: word) { index == INT || index == BIG_INT }

  function Integer(h: Store, c: Cell): BigInt
    requires WellFormed(h, c) && IsInteger(c.index)
  {
    if c.index == INT then Inline(ToInt64(c.value)) else BigInt.Heap(h.ints[c.value])
  }

  /** Two heap integers of one value have the same words, so the hooks are consistent. */
  lemma {:induction false} IntegerHooksConsistent(h: Store)
    ensures HasIntegerHooks(h, BigIntColumns(h)) && Consistent(h, BigIntColumns(h))
  {
    var cols := BigIntColumns(h);
    forall i, v, w | i in cols.equaled && Operand(h, i, v) && Operand(h, i, w) && cols.equal(i, v, w)
      ensures cols.equal(i, w, v) && cols.hash(i, v) == cols.hash(i, w)
    {
      BigIntHashAgrees(BigInt.Heap(h.ints[v]), BigInt.Heap(h.ints[w]));
    }
  }

  lemma {:induction false} SameFormEqual(h: Store, cols: Columns, a: Cell, b: Cell)
    requires WellFormed(h, a) && WellFormed(h, b) && IsInteger(a.index) && a.index == b.index
    requires HasIntegerHooks(h, cols)
    ensures AnyEqual(h, cols, a, b) <==> Value(Integer(h, a)) == Value(Integer(h, b))
  {
  }

  /** Inline and heap integer cells are equal exactly when they hold the same integer. */
  lemma {:induction false} IntegerEqual(h: Store, cols: Columns, a: Cell, b: Cell)
    requires WellFormed(h, a) && WellFormed(h, b) && IsInteger(a.index) && IsInteger(b.index)
    requires HasIntegerHooks(h, cols)
    ensures Canonical(Integer(h, a)) && Canonical(Integer(h, b))
    ensures AnyEqual(h, cols, a, b) <==> Value(Integer(h, a)) == Value(Integer(h, b))
  {
    if a.index == b.index {
      SameFormEqual(h, cols, a, b);
    } else {
      ViewValue(Integer(h, a));
      ViewValue(Integer(h, b));
    }
  }
}
