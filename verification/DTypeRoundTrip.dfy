/** Which data types their printed text determines. */
module DTypeRoundTrip {
  import opened Radix
  import opened Words
  import opened Decimal
  import opened DType
  import opened DTypePieces

  // ---------- mini-floats ----------

  /** Free of the characters that may follow a name. */
  predicate Plain(name: string) { forall i :: 0 <= i < |name| ==> name[i] != 'x' && name[i] != '_' }

  /** Two plain names never both match, whatever follows them. */
  lemma {:induction false} MatchUnique(s: string, p: string, q: string, underscore: bool)
    requires Plain(p) && Plain(q) && Matches(s, p, underscore) && Matches(s, q, underscore)
    ensures p == q
  {
    assert |p| < |s| ==> s[|p|] == 'x' || s[|p|] == '_';
    assert |q| < |s| ==> s[|q|] == 'x' || s[|q|] == '_';
  }

  /** A table of different plain names. */
  predicate Table(vs: seq<Variant>) {
    && (forall i :: 0 <= i < |vs| ==> Plain(vs[i].name))
    && (forall i, j :: 0 <= i < j < |vs| ==> vs[i].name != vs[j].name)
  }

  /** In such a table the order of the attempts does not matter: the entry that matches decides. */
  lemma {:induction false} AnyOrder(vs: seq<Variant>, k: nat, bits: uint8, s: string, underscore: bool)
    requires Table(vs) && k < |vs| && Matches(s, vs[k].name, underscore)
    ensures ScanVariants(vs, bits, s, underscore)
            == ScanMiniTail(vs[k].code, bits, s[|vs[k].name|..], underscore)
    decreases k
  {
    if k > 0 {
      if Matches(s, vs[0].name, underscore) {
        MatchUnique(s, vs[0].name, vs[k].name, underscore);
        assert false;
      }
      assert vs[1..][k - 1] == vs[k];
      AnyOrder(vs[1..], k - 1, bits, s, underscore);
    }
  }

  /** The table the scanner walks for a code's width. */
  function VariantsOf(code: nat): seq<Variant>
    requires IsMiniFloat(code)
  {
    if code <= 14 then Float8Variants() else if code <= 16 then Float6Variants() else Float4Variants()
  }

  /** Where the table lists a code. */
  function Position(code: nat): nat
    requires IsMiniFloat(code)
  {
    match code
    case 7 => 5 case 8 => 6 case 9 => 0 case 10 => 2 case 11 => 1 case 12 => 7 case 13 => 3 case 14 => 4
    case 15 => 0 case 16 => 1 case _ => 0
  }

  lemma {:induction false} Float8Plain()
    ensures forall i :: 0 <= i < 8 ==> Plain(Float8Variants()[i].name)
  {
  }

  lemma {:induction false} Float8Table()
    ensures Table(Float8Variants())
  {
    Float8Plain();
    var vs := Float8Variants();
    assert vs[5].name[1] == '3' && vs[6].name[1] == '4' && vs[7].name[1] == '5';
    assert vs[1].name[1] == '4' && vs[3].name[1] == '5';
  }

  lemma {:induction false} EveryTable(code: nat)
    requires IsMiniFloat(code)
    ensures Table(VariantsOf(code)) && Position(code) < |VariantsOf(code)|
    ensures VariantsOf(code)[Position(code)] == Variant(MiniName(code), code)
  {
    Float8Table();
    var six := Float6Variants();
    assert six[0].name[1] == '2' && six[1].name[1] == '3';
    assert forall i :: 0 <= i < |six| ==> Plain(six[i].name);
    var four := Float4Variants();
    assert forall i :: 0 <= i < |four| ==> Plain(four[i].name);
  }

  /** A mini-float's name followed by lanes selects its own code. */
  lemma {:induction false} ScanMini(code: nat, t: string, underscore: bool)
    requires IsMiniFloat(code) && (t == "" || t[0] == 'x')
    ensures ScanVariants(VariantsOf(code), MiniWidth(code), MiniName(code) + t, underscore)
            == ScanMiniTail(code, MiniWidth(code), t, underscore)
  {
    EveryTable(code);
    PrefixOf(MiniName(code), t);
    AnyOrder(VariantsOf(code), Position(code), MiniWidth(code), MiniName(code) + t, underscore);
  }

  lemma {:induction false} ScanFloatWidth(code: nat, t: string)
    requires IsMiniFloat(code)
    ensures ScanFloat(WidthText(code) + t)
            == ScanVariants(VariantsOf(code), MiniWidth(code), t, code == 17)
  {
    var w := WidthText(code);
    PrefixOf(w, t);
    assert (w + t)[0] == w[0];
  }

  lemma {:induction false} Assoc(a: string, b: string, c: string)
    ensures (a + b) + c == a + (b + c)
  {
  }

  lemma {:induction false} ScanMiniTag(code: nat, t: string)
    requires IsMiniFloat(code) && (t == "" || t[0] == 'x')
    ensures ScanFloat(MiniTag(code) + t) == ScanMiniTail(code, MiniWidth(code), t, code == 17)
  {
    Assoc(WidthText(code), MiniName(code), t);
    ScanMini(code, t, code == 17);
    ScanFloatWidth(code, MiniName(code) + t);
  }

  lemma {:induction false} ScanMiniLanes(code: nat, lanes: uint16, underscore: bool)
    requires IsMiniFloat(code)
    ensures var n := SignedLanes(lanes);
            ScanMiniTail(code, MiniWidth(code), LanesText(lanes), underscore)
            == if n < -1 then ValueError
               else Ok(DLDataType(code, MiniWidth(code), if n <= 1 then 1 else lanes))
  {
    LanesStop(lanes);
    ScanLanesText(lanes, false);
  }

  // ---------- reading back what was printed ----------

  /** What the scanner makes of the text of `d`. */
  function ReadBack(d: DLDataType): Result
    requires IsKnown(d.code)
  {
    var n := SignedLanes(d.lanes);
    var lanes := if -1 <= n <= 1 then 1 else d.lanes;
    if d.code == OPAQUE_HANDLE then
      if d.bits == 0 && d.lanes == 0 then Ok(d) else Ok(DLDataType(OPAQUE_HANDLE, 64, 1))
    else if IsMiniFloat(d.code) then
      if n < -1 then ValueError else Ok(DLDataType(d.code, MiniWidth(d.code), lanes))
    else Ok(DLDataType(d.code, if d.bits != 0 then d.bits else DefaultBits(d.code), lanes))
  }

  /** The types whose text determines them. */
  predicate InDomain(d: DLDataType)
    requires IsKnown(d.code)
  {
    if d.code == OPAQUE_HANDLE then (d.bits == 0 && d.lanes == 0) || (d.bits == 64 && d.lanes == 1)
    else if IsMiniFloat(d.code) then d.bits == MiniWidth(d.code) && 1 <= d.lanes <= 0x7fff
    else d.bits != 0 && d.lanes != 0 && d.lanes != 0xffff
  }

  lemma {:induction false} FromSpelled(s: string, spelled: string)
    requires s != "" && s[0] != 'v' && SpellOut(s) == spelled
    ensures FromText(s) == ScanSpelled(spelled)
  {
  }

  /** Both forms of a mini-float go through the same scan. */
  lemma {:induction false} FromFloat(u: string)
    requires u != "" && IsDigit(u[0])
    ensures FromText("float" + u) == FromText("f" + u) == ScanFloat(u)
  {
    SpellOutLong(FLOAT, u);
    SpellOutFloat(u);
    ScanFloatName(u);
    assert ("float" + u)[0] == 'f' && ("f" + u)[0] == 'f';
    FromSpelled("float" + u, "float" + u);
    FromSpelled("f" + u, "float" + u);
  }

  lemma {:induction false} MiniTexts(d: DLDataType)
    requires IsMiniFloat(d.code)
    ensures var u := MiniTag(d.code) + LanesText(d.lanes);
            && ToText(d) == Text("float" + u) && Abbrev(d) == Text("f" + u)
            && u != "" && IsDigit(u[0])
  {
    var g, t := MiniTag(d.code), LanesText(d.lanes);
    assert BitsText(d) == "";
    assert "float" + g + "" + t == "float" + (g + t);
    assert "f" + g + "" + t == "f" + (g + t);
  }

  lemma {:induction false} ReadBackMini(d: DLDataType)
    requires IsMiniFloat(d.code)
    ensures ToText(d).Text? && FromText(ToText(d).s) == ReadBack(d)
    ensures Abbrev(d).Text? && FromText(Abbrev(d).s) == ReadBack(d)
  {
    var t := LanesText(d.lanes);
    LanesStop(d.lanes);
    MiniTexts(d);
    FromFloat(MiniTag(d.code) + t);
    ScanMiniTag(d.code, t);
    ScanMiniLanes(d.code, d.lanes, d.code == 17);
  }

  lemma {:induction false} NotVoid(code: nat, t: string)
    requires IsBasic(code)
    ensures LongName(code) + t != "" && (LongName(code) + t)[0] != 'v'
    ensures ShortName(code) + t != "" && (ShortName(code) + t)[0] != 'v'
  {
    assert (LongName(code) + t)[0] == LongName(code)[0] != 'v';
    assert (ShortName(code) + t)[0] == ShortName(code)[0] != 'v';
  }

  /** Both forms of a basic type go through the same scan. */
  lemma {:induction false} FromBasic(code: nat, t: string)
    requires IsBasic(code)
    requires code == FLOAT && |t| >= 2 ==> t[1] != '_'
    requires code == BOOL || (t != "" && IsDigit(t[0]))
    ensures FromText(LongName(code) + t) == FromText(ShortName(code) + t)
            == ScanTail(code, DefaultBits(code), t)
  {
    SpellOutLong(code, t);
    SpellOutShort(code, t);
    ScanBasic(code, t);
    NotVoid(code, t);
    FromSpelled(LongName(code) + t, LongName(code) + t);
    FromSpelled(ShortName(code) + t, LongName(code) + t);
  }

  lemma {:induction false} BoolText()
    ensures FromText("bool") == Ok(DLDataType(BOOL, 8, 1))
  {
    FromBasic(BOOL, "");
    assert LongName(BOOL) + "" == "bool";
    ScanNoDigits("");
  }

  lemma {:induction false} ReadBackBasic(d: DLDataType)
    requires IsBasic(d.code)
    ensures ToText(d).Text? && FromText(ToText(d).s) == ReadBack(d)
    ensures Abbrev(d).Text? && FromText(Abbrev(d).s) == ReadBack(d)
  {
    if d.code == BOOL && d.bits == 8 && d.lanes == 1 {
      BoolText();
    } else {
      var t := BitsText(d) + LanesText(d.lanes);
      BitsThenLanes(d);
      FromBasic(d.code, t);
      ScanTailText(d);
      Assoc(LongName(d.code), BitsText(d), LanesText(d.lanes));
      Assoc(ShortName(d.code), BitsText(d), LanesText(d.lanes));
    }
  }

  lemma {:induction false} ReadBackHandle(d: DLDataType)
    requires d.code == OPAQUE_HANDLE
    ensures ToText(d).Text? && FromText(ToText(d).s) == ReadBack(d)
    ensures Abbrev(d).Text? && FromText(Abbrev(d).s) == ReadBack(d)
  {
    ScanHandleName("");
    var s := "handle";
    assert s + "" == s;
    FirstCharacter(s, 'h');
    FromSpelled(s, s);
    ScanNoDigits("");
  }

  /** Exactly the types in the domain are recovered from either printed form. */
  lemma {:induction false} TextRoundTrip(d: DLDataType)
    requires IsKnown(d.code)
    ensures ToText(d).Text? && Abbrev(d).Text?
    ensures FromText(ToText(d).s) == Ok(d) <==> InDomain(d)
    ensures FromText(Abbrev(d).s) == Ok(d) <==> InDomain(d)
  {
    if d.code == OPAQUE_HANDLE {
      ReadBackHandle(d);
    } else if IsMiniFloat(d.code) {
      ReadBackMini(d);
    } else {
      ReadBackBasic(d);
    }
  }

  /** Both printed forms always read back as the same type or both fail. */
  lemma {:induction false} FormsAgree(d: DLDataType)
    requires IsKnown(d.code)
    ensures ToText(d).Text? && Abbrev(d).Text?
    ensures FromText(ToText(d).s) == FromText(Abbrev(d).s) == ReadBack(d)
  {
    if d.code == OPAQUE_HANDLE {
      ReadBackHandle(d);
    } else if IsMiniFloat(d.code) {
      ReadBackMini(d);
    } else {
      ReadBackBasic(d);
    }
  }

  /**
    A digit run of any length after a basic name wraps: it is accepted exactly when its value
    modulo 2^64 is at most 255, and a value of zero means the default width.
  */
  lemma {:induction false} LongRunsWrap(code: nat, t: string)
    requires IsBasic(code) && AllDigits(t) && t != ""
    ensures FromText(LongName(code) + t) == FromText(ShortName(code) + t)
            == var n := DigitsValue(t) % W;
               if n > 0xff then ValueError else Ok(DLDataType(code, if n == 0 then DefaultBits(code) else n, 1))
  {
    FromBasic(code, t);
    SkipPrefix(t, "", 0);
    assert t + "" == t && t[0..|t|] == t && t[|t|..] == "";
  }

  /** The text of 2^64 + 32 names a 32-bit type, as does every such multiple. */
  lemma {:induction false} WrappedWidth(code: nat, k: nat)
    requires IsBasic(code)
    ensures FromText(LongName(code) + NatText(k * W + 32)) == Ok(DLDataType(code, 32, 1))
  {
    NatTextReads(k * W + 32);
    DivModUnique(k * W + 32, W, k, 32);
    LongRunsWrap(code, NatText(k * W + 32));
  }

  /** A type outside the domain: width 0 comes back as the default width. */
  lemma {:induction false} DefaultedWidth()
    ensures var d := DLDataType(INT, 0, 1);
            ToText(d).Text? && FromText(ToText(d).s) == Ok(DLDataType(INT, 32, 1)) && !InDomain(d)
  {
    FormsAgree(DLDataType(INT, 0, 1));
  }
}
