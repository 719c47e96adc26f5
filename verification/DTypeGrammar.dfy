/** The language of data-type texts, told by what stands in them rather than by how they are scanned. */
module DTypeGrammar {
  import opened Words
  import opened Decimal
  import opened DType
  import opened DTypePieces
  import opened DTypeRoundTrip

  // ---------- the grammar ----------

  /** The basic types with their codes and the widths they have when none is given. */
  predicate BasicName(name: string, code: nat, width: nat) {
    || (name == "int" && code == 0 && width == 32)
    || (name == "uint" && code == 1 && width == 32)
    || (name == "float" && code == 2 && width == 32)
    || (name == "handle" && code == 3 && width == 64)
    || (name == "bfloat" && code == 4 && width == 16)
    || (name == "bool" && code == 6 && width == 8)
  }

  /** Short names, which only count in front of a digit. */
  predicate ShortBasicName(name: string, code: nat, width: nat) {
    || (name == "i" && code == 0 && width == 32)
    || (name == "u" && code == 1 && width == 32)
    || (name == "f" && code == 2 && width == 32)
    || (name == "bf" && code == 4 && width == 16)
  }

  /** The three spellings that introduce a narrow float of a width. */
  predicate FloatIntroducer(p: string, width: nat) {
    || (p in {"float8_", "fp8_", "f8_"} && width == 8)
    || (p in {"float6_", "fp6_", "f6_"} && width == 6)
    || (p in {"float4_", "fp4_", "f4_"} && width == 4)
  }

  predicate NarrowFloat(name: string, code: nat, width: nat) {
    || (name == "e3m4" && code == 7 && width == 8)
    || (name == "e4m3" && code == 8 && width == 8)
    || (name == "e4m3b11fnuz" && code == 9 && width == 8)
    || (name == "e4m3fn" && code == 10 && width == 8)
    || (name == "e4m3fnuz" && code == 11 && width == 8)
    || (name == "e5m2" && code == 12 && width == 8)
    || (name == "e5m2fnuz" && code == 13 && width == 8)
    || (name == "e8m0fnu" && code == 14 && width == 8)
    || (name == "e2m3fn" && code == 15 && width == 6)
    || (name == "e3m2fn" && code == 16 && width == 6)
    || (name == "e2m1fn" && code == 17 && width == 4)
  }

  /** What a run of digits counts for: its value modulo 2^64. */
  function Count(digits: string): nat
    requires AllDigits(digits)
  {
    DigitsValue(digits) % 0x1_0000_0000_0000_0000
  }

  /** A nonempty run of digits for a count that fits 16 bits and is not zero. */
  predicate LaneCount(digits: string, n: nat) {
    AllDigits(digits) && digits != "" && n == Count(digits) && 1 <= n <= 65535
  }

  /** Nothing for one lane, or `x` and a positive count; `xvscale` makes the count scalable, and can stand alone. */
  ghost predicate Lanes(t: string, lanes: nat, scalable: bool) {
    || (t == "" && lanes == 1)
    || (scalable && t == "xvscale" && lanes == 1)
    || (exists digits :: LaneCount(digits, lanes) && t == "x" + digits)
    || (scalable && lanes <= 65536 && exists digits :: LaneCount(digits, 65536 - lanes) && t == "xvscalex" + digits)
  }

  /** A name, the bits if any and the lanes if any; zero bits stand for the default. */
  ghost predicate BasicText(t: string, d: DLDataType, name: string, width: nat, digits: string, lanes: string) {
    && t == name + (digits + lanes) && Lanes(lanes, d.lanes, true)
    && (BasicName(name, d.code, width) || (ShortBasicName(name, d.code, width) && digits != ""))
    && AllDigits(digits) && Count(digits) <= 255 && d.bits == if Count(digits) == 0 then width else Count(digits)
  }

  /** Lanes of a narrow float are not scalable; for width 4 an underscore may precede them. */
  ghost predicate NarrowText(t: string, d: DLDataType, intro: string, name: string, lanes: string) {
    && t == intro + (name + lanes) && FloatIntroducer(intro, d.bits) && NarrowFloat(name, d.code, d.bits)
    && (Lanes(lanes, d.lanes, false)
        || (d.bits == 4 && lanes != "" && lanes[0] == '_' && Lanes(lanes[1..], d.lanes, false)))
  }

  /** The text names the type. */
  ghost predicate Names(t: string, d: DLDataType) {
    || (t in {"", "void"} && d == DLDataType(3, 0, 0))
    || (exists name, width: nat, digits, lanes :: BasicText(t, d, name, width, digits, lanes))
    || (exists intro, name, lanes :: NarrowText(t, d, intro, name, lanes))
  }

  // ---------- digit runs and lanes ----------

  lemma {:induction false} DigitsTaken(digits: string, rest: string)
    requires AllDigits(digits) && StopsDigits(rest)
    ensures ScanDigits(digits + rest)
            == var n := DigitsValue(digits) % W;
               if n > 0xffff_ffff then Bad else Got(n, rest)
  {
    SkipPrefix(digits, rest, 0);
    assert (digits + rest)[0..|digits|] == digits && (digits + rest)[|digits|..] == rest;
  }

  lemma {:induction false} DigitsGot(s: string) returns (digits: string)
    requires ScanDigits(s).Got?
    ensures AllDigits(digits) && Count(digits) == ScanDigits(s).value && s == digits + ScanDigits(s).rest
    ensures digits == "" <==> ScanDigits(s).rest == s
  {
    var k := SkipDigits(s, 0);
    digits := s[0..k];
    assert s == s[0..k] + s[k..];
    assert |s[k..]| == |s| - k;
  }

  lemma {:induction false} CountTaken(digits: string, n: nat, negative: bool)
    requires LaneCount(digits, n)
    ensures ScanCount("x" + digits, negative) == Got(if negative then 65536 - n else n, "")
  {
    var s := "x" + digits;
    assert s[1..] == digits;
    DigitsTaken(digits, "");
    assert digits + "" == digits;
  }

  lemma {:induction false} FixedTaken(digits: string, lanes: nat, scalable: bool)
    requires LaneCount(digits, lanes)
    ensures ScanLanes("x" + digits, scalable) == Got(lanes, "")
  {
    var t := "x" + digits;
    assert t[1] == digits[0];
    NoPrefix(t, "xvscale", 1);
    CountTaken(digits, lanes, false);
  }

  lemma {:induction false} ScalableTaken(digits: string, n: nat)
    requires LaneCount(digits, n)
    ensures ScanLanes("xvscalex" + digits, true) == Got(65536 - n, "")
  {
    var u := "x" + digits;
    assert "xvscalex" + digits == "xvscale" + u;
    PrefixOf("xvscale", u);
    CountTaken(digits, n, true);
  }

  lemma {:induction false} BareScaleTaken()
    ensures ScanLanes("xvscale", true) == Got(1, "")
  {
    PrefixOf("xvscale", "");
    assert "xvscale" + "" == "xvscale";
  }

  lemma {:induction false} LanesTaken(t: string, lanes: nat, scalable: bool)
    requires Lanes(t, lanes, scalable)
    ensures ScanLanes(t, scalable) == Got(lanes, "") && (t != "" ==> t[0] == 'x')
  {
    if t == "" && lanes == 1 {
    } else if scalable && t == "xvscale" && lanes == 1 {
      BareScaleTaken();
    } else if digits :| LaneCount(digits, lanes) && t == "x" + digits {
      FixedTaken(digits, lanes, scalable);
    } else {
      var digits :| LaneCount(digits, 65536 - lanes) && t == "xvscalex" + digits;
      ScalableTaken(digits, 65536 - lanes);
    }
  }

  lemma {:induction false} CountGot(s: string, negative: bool) returns (digits: string)
    requires s != "" && ScanCount(s, negative).Got? && ScanCount(s, negative).rest == ""
    ensures var n := ScanCount(s, negative).value;
            n <= 65535 && LaneCount(digits, if negative then 65536 - n else n) && s == "x" + digits
  {
    digits := DigitsGot(s[1..]);
    assert s == [s[0]] + s[1..];
    assert digits + "" == digits;
  }

  lemma {:induction false} LanesGot(t: string, scalable: bool)
    requires ScanLanes(t, scalable).Got? && ScanLanes(t, scalable).rest == ""
    ensures Lanes(t, ScanLanes(t, scalable).value, scalable)
  {
    if scalable && HasPrefix(t, "xvscale") {
      assert t == "xvscale" + t[7..];
      if t[7..] != "" {
        var digits := CountGot(t[7..], true);
        assert t == "xvscalex" + digits;
      }
    } else if t != "" {
      var digits := CountGot(t, false);
    }
  }

  // ---------- after the name ----------

  lemma {:induction false} TailTaken(code: uint8, width: uint8, digits: string, t: string, lanes: uint16)
    requires AllDigits(digits) && Count(digits) <= 255 && Lanes(t, lanes, true)
    ensures ScanTail(code, width, digits + t)
            == Ok(DLDataType(code, if Count(digits) == 0 then width else Count(digits), lanes))
  {
    LanesTaken(t, lanes, true);
    DigitsTaken(digits, t);
  }

  lemma {:induction false} TailGot(code: uint8, width: uint8, s: string) returns (digits: string, t: string)
    requires ScanTail(code, width, s).Ok?
    ensures var d := ScanTail(code, width, s).d;
            && s == digits + t && Lanes(t, d.lanes, true) && AllDigits(digits) && Count(digits) <= 255
            && d.code == code && d.bits == if Count(digits) == 0 then width else Count(digits)
  {
    digits := DigitsGot(s);
    t := ScanDigits(s).rest;
    LanesGot(t, true);
  }

  lemma {:induction false} MiniTaken(code: uint8, bits: uint8, t: string, lanes: uint16, underscore: bool)
    requires Lanes(t, lanes, false) || (underscore && t != "" && t[0] == '_' && Lanes(t[1..], lanes, false))
    ensures ScanMiniTail(code, bits, t, underscore) == Ok(DLDataType(code, bits, lanes))
    ensures t == "" || t[0] == 'x' || (underscore && t[0] == '_')
  {
    if Lanes(t, lanes, false) {
      LanesTaken(t, lanes, false);
    } else {
      LanesTaken(t[1..], lanes, false);
    }
  }

  lemma {:induction false} MiniGot(code: uint8, bits: uint8, t: string, underscore: bool)
    requires ScanMiniTail(code, bits, t, underscore).Ok?
    ensures var d := ScanMiniTail(code, bits, t, underscore).d;
            && d.code == code && d.bits == bits
            && (Lanes(t, d.lanes, false) || (underscore && t != "" && t[0] == '_' && Lanes(t[1..], d.lanes, false)))
  {
    if underscore && t != "" && t[0] == '_' {
      LanesGot(t[1..], false);
    } else {
      LanesGot(t, false);
    }
  }

  // ---------- narrow floats ----------

  lemma {:induction false} NarrowIsMini(name: string, code: nat, width: nat)
    requires NarrowFloat(name, code, width)
    ensures IsMiniFloat(code) && width == MiniWidth(code) && name == MiniName(code)
    ensures width == 4 <==> code == 17
  {
  }

  lemma {:induction false} MiniIsNarrow(code: nat)
    requires IsMiniFloat(code)
    ensures NarrowFloat(MiniName(code), code, MiniWidth(code))
  {
  }

  lemma {:induction false} VariantTaken(code: nat, t: string, lanes: uint16)
    requires IsMiniFloat(code)
    requires Lanes(t, lanes, false) || (code == 17 && t != "" && t[0] == '_' && Lanes(t[1..], lanes, false))
    ensures ScanVariants(VariantsOf(code), MiniWidth(code), MiniName(code) + t, code == 17)
            == Ok(DLDataType(code, MiniWidth(code), lanes))
  {
    MiniTaken(code, MiniWidth(code), t, lanes, code == 17);
    EveryTable(code);
    PrefixOf(MiniName(code), t);
    AnyOrder(VariantsOf(code), Position(code), MiniWidth(code), MiniName(code) + t, code == 17);
  }

  lemma {:induction false} VariantGot(vs: seq<Variant>, bits: uint8, s: string, underscore: bool)
    returns (v: Variant, t: string)
    requires ScanVariants(vs, bits, s, underscore).Ok?
    ensures v in vs && s == v.name + t
    ensures ScanVariants(vs, bits, s, underscore) == ScanMiniTail(v.code, bits, t, underscore)
    decreases |vs|
  {
    if Matches(s, vs[0].name, underscore) {
      v, t := vs[0], s[|vs[0].name|..];
    } else {
      v, t := VariantGot(vs[1..], bits, s, underscore);
    }
  }

  /** Every table lists what the grammar lists. */
  lemma {:induction false} TablesNarrow(v: Variant)
    ensures v in Float8Variants() ==> NarrowFloat(v.name, v.code, 8)
    ensures v in Float6Variants() ==> NarrowFloat(v.name, v.code, 6)
    ensures v in Float4Variants() ==> NarrowFloat(v.name, v.code, 4)
  {
  }

  lemma {:induction false} NarrowGot(t: string, intro: string, s: string, vs: seq<Variant>, bits: uint8)
    requires t == intro + s && FloatIntroducer(intro, bits) && ScanVariants(vs, bits, s, bits == 4).Ok?
    requires forall v :: v in vs ==> NarrowFloat(v.name, v.code, bits)
    ensures Names(t, ScanVariants(vs, bits, s, bits == 4).d)
  {
    var v, lanes := VariantGot(vs, bits, s, bits == 4);
    MiniGot(v.code, bits, lanes, bits == 4);
    assert NarrowText(t, ScanVariants(vs, bits, s, bits == 4).d, intro, v.name, lanes);
  }

  // ---------- basic types ----------

  lemma {:induction false} BasicWitness(
    t: string, d: DLDataType, name: string, width: nat, digits: string, lanes: string)
    requires BasicText(t, d, name, width, digits, lanes)
    ensures Names(t, d)
  {
  }

  lemma {:induction false} BasicGot(t: string, name: string, s: string, code: uint8, width: uint8)
    requires t == name + s && ScanTail(code, width, s).Ok?
    requires BasicName(name, code, width) || (ShortBasicName(name, code, width) && s != "" && IsDigit(s[0]))
    ensures Names(t, ScanTail(code, width, s).d)
  {
    var d := ScanTail(code, width, s).d;
    var digits, lanes := TailGot(code, width, s);
    LanesTaken(lanes, d.lanes, true);
    BasicWitness(t, d, name, width, digits, lanes);
  }

  // ---------- every accepted text is in the language ----------

  /** What follows "float", or "f" and a digit. */
  lemma {:induction false} FloatGot(t: string, head: string, s: string)
    requires t == head + s && ScanFloat(s).Ok?
    requires head == "float" || (head == "f" && s != "" && IsDigit(s[0]))
    ensures Names(t, ScanFloat(s).d)
  {
    if HasPrefix(s, "8_") || HasPrefix(s, "6_") || HasPrefix(s, "4_") {
      var w := if s[0] == '8' then "8_" else if s[0] == '6' then "6_" else "4_";
      assert s == w + s[2..];
      Assoc(head, w, s[2..]);
      Introduced(head, w);
      NarrowAny(t, head + w, s[2..], if s[0] == '8' then 8 else if s[0] == '6' then 6 else 4);
    } else {
      BasicGot(t, head, s, 2, 32);
    }
  }

  lemma {:induction false} Introduced(head: string, w: string)
    requires head in {"float", "f"} && w in {"8_", "6_", "4_"}
    ensures FloatIntroducer(head + w, if w == "8_" then 8 else if w == "6_" then 6 else 4)
  {
    assert "float" + "8_" == "float8_" && "float" + "6_" == "float6_" && "float" + "4_" == "float4_";
    assert "f" + "8_" == "f8_" && "f" + "6_" == "f6_" && "f" + "4_" == "f4_";
  }

  function ScanNarrow(s: string, width: nat): Result {
    if width == 8 then ScanFloat8(s) else if width == 6 then ScanFloat6(s) else ScanFloat4(s)
  }

  lemma {:induction false} NarrowAny(t: string, intro: string, s: string, width: nat)
    requires t == intro + s && FloatIntroducer(intro, width) && ScanNarrow(s, width).Ok?
    ensures Names(t, ScanNarrow(s, width).d)
  {
    var vs := if width == 8 then Float8Variants() else if width == 6 then Float6Variants() else Float4Variants();
    forall v | v in vs
      ensures NarrowFloat(v.name, v.code, width)
    {
      TablesNarrow(v);
    }
    NarrowGot(t, intro, s, vs, width);
  }

  /** Text is spelled out only if it begins like an abbreviation. */
  lemma {:induction false} SpelledCases(t: string)
    requires SpellOut(t) != t
    ensures !HasPrefix(t, "fp8_") && !HasPrefix(t, "fp6_") && !HasPrefix(t, "fp4_") ==>
              || (t[0] in "iuf" && DigitAt(t, 1))
              || (|t| >= 3 && t[..2] == "bf" && DigitAt(t, 2))
  {
    if HasPrefix(t, "bf") {
      assert t[..2] == "bf";
    }
  }

  lemma {:induction false} SpelledGot(t: string)
    requires t != "" && FromText(t).Ok? && SpellOut(t) != t
    ensures Names(t, FromText(t).d)
  {
    if HasPrefix(t, "fp8_") {
      IntroducedGot(t, "fp8_");
    } else if HasPrefix(t, "fp6_") {
      IntroducedGot(t, "fp6_");
    } else if HasPrefix(t, "fp4_") {
      IntroducedGot(t, "fp4_");
    } else {
      SpelledCases(t);
      if t[0] in "iuf" && DigitAt(t, 1) {
        Cut(t, 1);
        assert t[..1] == (if t[0] == 'i' then "i" else if t[0] == 'u' then "u" else "f");
        AbbreviatedGot(t[..1], t[1..]);
      } else {
        Cut(t, 2);
        AbbreviatedGot("bf", t[2..]);
      }
    }
  }

  lemma {:induction false} AbbreviatedGot(name: string, s: string)
    requires name in {"i", "u", "f", "bf"} && s != "" && IsDigit(s[0]) && FromText(name + s).Ok?
    ensures Names(name + s, FromText(name + s).d)
  {
    if name == "f" {
      FromFloat(s);
      FloatGot(name + s, name, s);
    } else {
      var code := if name == "i" then 0 else if name == "u" then 1 else 4;
      FromBasic(code, s);
      BasicGot(name + s, name, s, code, DefaultBits(code));
    }
  }

  /** Which spelled-out form an abbreviated introducer becomes, and its width. */
  function Spelling(intro: string): (string, nat) {
    if intro == "fp8_" then ("8_", 8) else if intro == "fp6_" then ("6_", 6) else ("4_", 4)
  }

  lemma {:induction false} SpellOutNarrow(intro: string, s: string)
    requires intro in {"fp8_", "fp6_", "fp4_"}
    ensures SpellOut(intro + s) == "float" + (Spelling(intro).0 + s)
  {
    var t := intro + s;
    PrefixOf(intro, s);
    assert t[0] == 'f' && t[1] == 'p' && t[2] == intro[2];
    NoPrefix(t, "i", 0);
    NoPrefix(t, "u", 0);
    NoPrefix(t, "bf", 0);
    if intro != "fp8_" {
      NoPrefix(t, "fp8_", 2);
    }
    if intro == "fp4_" {
      NoPrefix(t, "fp6_", 2);
    }
    assert "float8_" + s == "float" + ("8_" + s);
    assert "float6_" + s == "float" + ("6_" + s);
    assert "float4_" + s == "float" + ("4_" + s);
  }

  lemma {:induction false} SpelledNarrow(intro: string, s: string)
    requires intro in {"fp8_", "fp6_", "fp4_"}
    ensures FromText(intro + s) == ScanNarrow(s, Spelling(intro).1)
  {
    var t, tag, w := intro + s, Spelling(intro).0, Spelling(intro).1;
    SpellOutNarrow(intro, s);
    assert t[0] == 'f';
    FromSpelled(t, "float" + (tag + s));
    ScanFloatName(tag + s);
    PrefixOf(tag, s);
    if w != 8 {
      NoPrefix(tag + s, "8_", 0);
    }
    if w == 4 {
      NoPrefix(tag + s, "6_", 0);
    }
  }

  /** A text with such an introducer. */
  lemma {:induction false} IntroducedGot(t: string, intro: string)
    requires intro in {"fp8_", "fp6_", "fp4_"} && HasPrefix(t, intro) && FromText(t).Ok?
    ensures Names(t, FromText(t).d)
  {
    AfterPrefix(t, intro);
    SpelledNarrow(intro, t[4..]);
    NarrowAny(t, intro, t[4..], Spelling(intro).1);
  }

  lemma {:induction false} Cut(t: string, k: nat)
    requires k <= |t|
    ensures t == t[..k] + t[k..]
  {
  }

  /** Text that does not begin like an abbreviation. */
  predicate Unabbreviated(t: string) {
    && !(HasPrefix(t, "i") && DigitAt(t, 1)) && !(HasPrefix(t, "u") && DigitAt(t, 1))
    && !(HasPrefix(t, "f") && DigitAt(t, 1)) && !(HasPrefix(t, "bf") && DigitAt(t, 2))
    && !HasPrefix(t, "fp8_") && !HasPrefix(t, "fp6_") && !HasPrefix(t, "fp4_")
    && !HasPrefix(t, "f8_") && !HasPrefix(t, "f6_") && !HasPrefix(t, "f4_")
  }

  lemma {:induction false} NotSpelled(t: string)
    requires SpellOut(t) == t
    ensures Unabbreviated(t)
  {
    assert |SpellOut(t)| == |t|;
    assert HasPrefix(t, "f8_") || HasPrefix(t, "f6_") || HasPrefix(t, "f4_") ==> HasPrefix(t, "f") && DigitAt(t, 1);
  }

  lemma {:induction false} SpelledBranches(t: string)
    requires Unabbreviated(t)
    ensures ScanSpelled(t) == if HasPrefix(t, "int") then ScanTail(0, 32, t[3..])
                              else if HasPrefix(t, "uint") then ScanTail(1, 32, t[4..])
                              else if HasPrefix(t, "bool") then ScanTail(6, 8, t[4..])
                              else ScanFloating(t)
  {
  }

  lemma {:induction false} FloatingBranches(t: string)
    requires Unabbreviated(t)
    ensures ScanFloating(t) == if HasPrefix(t, "float") then ScanFloat(t[5..])
                               else if HasPrefix(t, "handle") then ScanTail(3, 64, t[6..])
                               else if HasPrefix(t, "bfloat") then ScanTail(4, 16, t[6..])
                               else if HasPrefix(t, "custom") then Custom
                               else ValueError
  {
  }

  lemma {:induction false} PlainGot(t: string)
    requires Unabbreviated(t) && ScanSpelled(t).Ok?
    ensures Names(t, ScanSpelled(t).d)
  {
    SpelledBranches(t);
    if HasPrefix(t, "int") {
      AfterPrefix(t, "int");
      BasicGot(t, "int", t[3..], 0, 32);
    } else if HasPrefix(t, "uint") {
      AfterPrefix(t, "uint");
      BasicGot(t, "uint", t[4..], 1, 32);
    } else if HasPrefix(t, "bool") {
      AfterPrefix(t, "bool");
      BasicGot(t, "bool", t[4..], 6, 8);
    } else {
      FloatingGot(t);
    }
  }

  lemma {:induction false} AfterPrefix(t: string, p: string)
    requires HasPrefix(t, p)
    ensures t == p + t[|p|..]
  {
  }

  lemma {:induction false} FloatingGot(t: string)
    requires Unabbreviated(t) && ScanFloating(t).Ok?
    ensures Names(t, ScanFloating(t).d)
  {
    FloatingBranches(t);
    if HasPrefix(t, "float") {
      AfterPrefix(t, "float");
      FloatGot(t, "float", t[5..]);
    } else if HasPrefix(t, "handle") {
      AfterPrefix(t, "handle");
      BasicGot(t, "handle", t[6..], 3, 64);
    } else {
      AfterPrefix(t, "bfloat");
      BasicGot(t, "bfloat", t[6..], 4, 16);
    }
  }

  // ---------- every text of the language is accepted ----------

  /** What follows a basic name. */
  lemma {:induction false} AfterName(digits: string, t: string, lanes: nat)
    requires AllDigits(digits) && Lanes(t, lanes, true)
    ensures var u := digits + t;
            && (u == "" || IsDigit(u[0]) || u[0] == 'x') && (|u| >= 2 ==> u[1] != '_')
            && (digits != "" ==> u != "" && IsDigit(u[0]))
  {
    LanesNoUnderscore(t, lanes);
    var u := digits + t;
    if digits == "" {
      assert u == t;
    } else {
      assert u[0] == digits[0];
      if |digits| > 1 {
        assert u[1] == digits[1];
      } else if t != "" {
        assert u[1] == t[0];
      }
    }
  }

  lemma {:induction false} LanesNoUnderscore(t: string, lanes: nat)
    requires Lanes(t, lanes, true)
    ensures (t == "" || t[0] == 'x') && (|t| >= 2 ==> t[1] != '_')
  {
    if digits :| LaneCount(digits, lanes) && t == "x" + digits {
      assert t[1] == digits[0];
    }
  }

  lemma {:induction false} FromLongName(code: nat, u: string)
    requires IsBasic(code) && (code == 2 && |u| >= 2 ==> u[1] != '_')
    ensures FromText(LongName(code) + u) == ScanTail(code, DefaultBits(code), u)
  {
    SpellOutLong(code, u);
    NotVoid(code, u);
    FromSpelled(LongName(code) + u, LongName(code) + u);
    ScanBasic(code, u);
  }

  lemma {:induction false} FromHandle(u: string)
    ensures FromText("handle" + u) == ScanTail(3, 64, u)
  {
    var s := "handle" + u;
    FirstCharacter(s, 'h');
    assert s[0] == 'h';
    NoPrefix(s, "bf", 0);
    FromSpelled(s, s);
    ScanHandleName(u);
  }

  lemma {:induction false} BasicTaken(
    t: string, d: DLDataType, name: string, width: nat, digits: string, lanes: string)
    requires BasicText(t, d, name, width, digits, lanes)
    ensures FromText(t) == Ok(d)
  {
    AfterName(digits, lanes, d.lanes);
    TailTaken(d.code, width, digits, lanes, d.lanes);
    if name == "handle" {
      FromHandle(digits + lanes);
    } else if BasicName(name, d.code, width) {
      assert name == LongName(d.code) && width == DefaultBits(d.code);
      FromLongName(d.code, digits + lanes);
    } else {
      assert name == ShortName(d.code) && width == DefaultBits(d.code);
      FromBasic(d.code, digits + lanes);
    }
  }

  /** The three spellings of a width are read alike. */
  lemma {:induction false} IntroducerTaken(intro: string, code: nat, s: string)
    requires IsMiniFloat(code) && FloatIntroducer(intro, MiniWidth(code))
    ensures FromText(intro + s) == ScanVariants(VariantsOf(code), MiniWidth(code), s, code == 17)
  {
    var w := WidthText(code);
    if intro == "fp8_" || intro == "fp6_" || intro == "fp4_" {
      SpelledNarrow(intro, s);
    } else {
      WidthDigit(w, s);
      FromFloat(w + s);
      ScanFloatWidth(code, s);
      IntroducerSplit(intro, code);
      Assoc("float", w, s);
      Assoc("f", w, s);
    }
  }

  lemma {:induction false} WidthDigit(w: string, s: string)
    requires w != "" && IsDigit(w[0])
    ensures w + s != "" && IsDigit((w + s)[0])
  {
  }

  lemma {:induction false} IntroducerSplit(intro: string, code: nat)
    requires IsMiniFloat(code) && FloatIntroducer(intro, MiniWidth(code))
    ensures intro == "float" + WidthText(code) || intro == "f" + WidthText(code) || intro == "fp" + WidthText(code)
    ensures intro in {"fp8_", "fp6_", "fp4_"} || intro == "float" + WidthText(code) || intro == "f" + WidthText(code)
  {
  }

  lemma {:induction false} NarrowTaken(t: string, d: DLDataType, intro: string, name: string, lanes: string)
    requires NarrowText(t, d, intro, name, lanes)
    ensures FromText(t) == Ok(d)
  {
    NarrowIsMini(name, d.code, d.bits);
    VariantTaken(d.code, lanes, d.lanes);
    IntroducerTaken(intro, d.code, name + lanes);
  }

  // ---------- the language is what is accepted ----------

  /** A text is read as a type exactly when it names it. */
  lemma {:induction false} AcceptedLanguage(t: string, d: DLDataType)
    ensures FromText(t) == Ok(d) <==> Names(t, d)
  {
    if FromText(t) == Ok(d) {
      if t != "" && t != "void" {
        if SpellOut(t) == t {
          NotSpelled(t);
          PlainGot(t);
        } else {
          SpelledGot(t);
        }
      }
    } else if name, width: nat, digits, lanes :| BasicText(t, d, name, width, digits, lanes) {
      BasicTaken(t, d, name, width, digits, lanes);
    } else if intro, name, lanes :| NarrowText(t, d, intro, name, lanes) {
      NarrowTaken(t, d, intro, name, lanes);
    }
  }

  lemma {:induction false} StartsCustom(t: string)
    requires HasPrefix(t, "custom")
    ensures FromText(t) == Custom
  {
    assert t[0] == 'c';
    assert Unabbreviated(t);
    SpelledBranches(t);
    FloatingBranches(t);
    assert SpellOut(t) == t;
  }

  lemma {:induction false} NeverCustom(vs: seq<Variant>, bits: uint8, s: string, underscore: bool)
    ensures ScanVariants(vs, bits, s, underscore) != Custom
    decreases |vs|
  {
    if vs != [] {
      NeverCustom(vs[1..], bits, s, underscore);
    }
  }

  lemma {:induction false} ScannedCustom(s: string)
    requires ScanSpelled(s) == Custom
    ensures HasPrefix(s, "custom")
  {
    assert ScanFloating(s) == Custom;
    forall u: string
      ensures ScanFloat8(u) != Custom && ScanFloat6(u) != Custom && ScanFloat4(u) != Custom
    {
      NeverCustom(Float8Variants(), 8, u, false);
      NeverCustom(Float6Variants(), 6, u, false);
      NeverCustom(Float4Variants(), 4, u, true);
    }
  }

  lemma {:induction false} SpelledCustom(t: string)
    requires HasPrefix(SpellOut(t), "custom")
    ensures |t| >= 6 && t[..6] == "custom"
  {
    assert SpellOut(t)[0] == 'c';
  }

  /** Custom type names are those that begin with the word. */
  lemma {:induction false} CustomLanguage(t: string)
    ensures FromText(t) == Custom <==> |t| >= 6 && t[..6] == "custom"
  {
    if |t| >= 6 && t[..6] == "custom" {
      assert forall i :: 0 <= i < 6 ==> t[i] == t[..6][i];
      StartsCustom(t);
    }
    if FromText(t) == Custom {
      ScannedCustom(SpellOut(t));
      SpelledCustom(t);
    }
  }

  // ---------- the characters that are printed ----------

  /** A lane count above one, or below minus one as a 16-bit two's complement number. */
  predicate LanesShown(lanes: uint16, s: string) {
    if 2 <= lanes <= 32767 then s == "x" + NatText(lanes)
    else if 32768 <= lanes <= 65534 then s == "xvscalex" + NatText(65536 - lanes)
    else s == ""
  }

  /** Basic types show their bits, except an 8-bit bool. */
  predicate BasicShown(d: DLDataType, s: string, long: bool, name: string, width: nat, lanes: string) {
    && (if long || d.code == 6 then BasicName(name, d.code, width) else ShortBasicName(name, d.code, width))
    && LanesShown(d.lanes, lanes)
    && s == name + (if d.code == 6 && d.bits == 8 then "" else NatText(d.bits)) + lanes
  }

  predicate NarrowShown(d: DLDataType, s: string, long: bool, name: string, width: nat, lanes: string) {
    && NarrowFloat(name, d.code, width) && LanesShown(d.lanes, lanes)
    && s == (if long then "float" else "f") + (NatText(width) + "_" + name + lanes)
  }

  /** The characters of the long or the short form. */
  ghost predicate Shown(d: DLDataType, s: string, long: bool) {
    if d.code == 3 then s == if d.bits == 0 && d.lanes == 0 then (if long then "" else "void") else "handle"
    else exists name, width: nat, lanes ::
           BasicShown(d, s, long, name, width, lanes) || NarrowShown(d, s, long, name, width, lanes)
  }

  lemma {:induction false} LanesAre(lanes: uint16)
    ensures LanesShown(lanes, LanesText(lanes))
  {
  }

  lemma {:induction false} NarrowIs(d: DLDataType, long: bool)
    requires IsMiniFloat(d.code)
    ensures Shown(d, (if long then "float" else "f") + (MiniTag(d.code) + LanesText(d.lanes)), long)
  {
    var s := (if long then "float" else "f") + (MiniTag(d.code) + LanesText(d.lanes));
    MiniIsNarrow(d.code);
    LanesAre(d.lanes);
    assert NatText(MiniWidth(d.code)) + "_" == WidthText(d.code);
    assert NarrowShown(d, s, long, MiniName(d.code), MiniWidth(d.code), LanesText(d.lanes));
  }

  lemma {:induction false} BasicIs(d: DLDataType, long: bool)
    requires IsBasic(d.code)
    ensures Shown(d, (if long then LongName(d.code) else ShortName(d.code)) + BitsText(d) + LanesText(d.lanes), long)
  {
    var name := if long then LongName(d.code) else ShortName(d.code);
    LanesAre(d.lanes);
    assert BasicShown(d, name + BitsText(d) + LanesText(d.lanes), long, name, DefaultBits(d.code), LanesText(d.lanes));
  }

  /** Either printer shows its form. */
  lemma {:induction false} PrintedForms(d: DLDataType)
    ensures ToText(d).Text? ==> Shown(d, ToText(d).s, true)
    ensures Abbrev(d).Text? ==> Shown(d, Abbrev(d).s, false)
  {
    if IsMiniFloat(d.code) {
      MiniTexts(d);
      NarrowIs(d, true);
      NarrowIs(d, false);
    } else if IsBasic(d.code) {
      BasicIs(d, true);
      BasicIs(d, false);
      if d.code == BOOL && d.bits == 8 && d.lanes == 1 {
        assert LongName(BOOL) + BitsText(d) + LanesText(d.lanes) == "bool";
      }
    }
  }
}
