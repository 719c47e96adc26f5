/** The scanner and the printers as loops over the text, each tied to its meaning in DType. */
module DTypeParser {
  import opened Radix
  import opened Words
  import opened Decimal
  import opened DType
  import opened DTypePieces
  import opened DTypeRoundTrip
  import opened DTypeGrammar

  lemma {:induction false} WrapStep(v: nat, c: nat)
    ensures (v % W * 10 + c) % W == (10 * v + c) % W
  {
    var q := v / W;
    var x := v % W * 10 + c;
    assert 10 * v + c == x + W * (10 * q);
    DivModUnique(10 * v + c, W, x / W + 10 * q, x % W);
  }

  /** One step of the 64-bit accumulation. */
  function Accumulate(value: nat, c: char): nat
    requires IsDigit(c)
  {
    (value * 10 + CharDigit(c)) % W
  }

  /** The first `k` characters are digits and `value` is what they accumulate to. */
  ghost predicate Accumulated(text: string, k: nat, value: nat) {
    && k <= |text| && AllDigits(text[0..k])
    && SkipDigits(text, 0) == SkipDigits(text, k)
    && value == DigitsValue(text[0..k]) % W
  }

  lemma {:induction false} RunWraps(str: string, ptr: nat, end: nat, value: nat)
    requires ptr <= end < |str| && IsDigit(str[end])
    requires Accumulated(str[ptr..], end - ptr, value)
    ensures Accumulated(str[ptr..], end + 1 - ptr, Accumulate(value, str[end]))
  {
    var text, k := str[ptr..], end - ptr;
    RunGrows(text, 0, k);
    WrapStep(DigitsValue(text[0..k]), CharDigit(text[k]));
  }

  lemma {:induction false} RunStarts(text: string)
    ensures Accumulated(text, 0, 0)
  {
    assert text[0..0] == "";
  }

  lemma {:induction false} RunEnds(str: string, ptr: nat, end: nat, value: nat)
    requires ptr <= end <= |str| && (end < |str| ==> !IsDigit(str[end]))
    requires Accumulated(str[ptr..], end - ptr, value)
    ensures ScanDigits(str[ptr..]) == if value > 0xffff_ffff then Bad else Got(value, str[end..])
    ensures end == ptr <==> StopsDigits(str[ptr..])
  {
    var text, k := str[ptr..], end - ptr;
    assert text[k..] == str[end..];
    assert k > 0 ==> text[0..k][0] == text[0];
    assert text[0..] == text;
  }

  /** Decimal digits accumulate in 64 bits without an overflow test. */
  method ParseDigits(str: string, ptr: nat) returns (ok: bool, value: nat, end: nat)
    requires ptr <= |str|
    ensures ptr <= end <= |str|
    ensures ScanDigits(str[ptr..]) == if ok then Got(value, str[end..]) else Bad
    ensures end == ptr <==> StopsDigits(str[ptr..])
    ensures ok ==> value <= 0xffff_ffff
  {
    RunStarts(str[ptr..]);
    end, value := ptr, 0;
    while end < |str| && IsDigit(str[end])
      invariant ptr <= end <= |str| && Accumulated(str[ptr..], end - ptr, value)
    {
      RunWraps(str, ptr, end, value);
      value := Accumulate(value, str[end]);
      end := end + 1;
    }
    RunEnds(str, ptr, end, value);
    ok := value <= 0xffff_ffff;
  }

  /** Text at an offset has a prefix. */
  predicate At(str: string, offset: nat, p: string) {
    offset <= |str| && HasPrefix(str[offset..], p)
  }

  method ParseLanes(str: string, ptr: nat, scalable: bool) returns (ok: bool, lanes: uint16, end: nat)
    requires ptr <= |str|
    ensures ptr <= end <= |str|
    ensures ScanLanes(str[ptr..], scalable) == if ok then Got(lanes, str[end..]) else Bad
  {
    if scalable && At(str, ptr, "xvscale") {
      assert str[ptr..][7..] == str[ptr + 7..];
      ok, lanes, end := ParseCount(str, ptr + 7, -1);
    } else {
      ok, lanes, end := ParseCount(str, ptr, 1);
    }
  }

  method ParseCount(str: string, ptr: nat, multiplier: int) returns (ok: bool, lanes: uint16, end: nat)
    requires ptr <= |str| && (multiplier == 1 || multiplier == -1)
    ensures ptr <= end <= |str|
    ensures ScanCount(str[ptr..], multiplier == -1) == if ok then Got(lanes, str[end..]) else Bad
  {
    if ptr == |str| || str[ptr] != 'x' {
      return true, 1, ptr;
    }
    var digitsStart := ptr + 1;
    assert str[ptr..][1..] == str[digitsStart..];
    var value: nat;
    ok, value, end := ParseDigits(str, digitsStart);
    NoDigitsTaken(str, digitsStart, end);
    if !ok || end == digitsStart || value == 0 || value > 0xffff {
      return false, 1, end;
    }
    lanes := multiplier * value % 0x1_0000;
  }

  lemma {:induction false} NoDigitsTaken(str: string, start: nat, end: nat)
    requires start <= end <= |str|
    ensures str[end..] == str[start..] <==> end == start
  {
    assert |str[end..]| == |str| - end && |str[start..]| == |str| - start;
  }

  method ParseFloat(str: string, offset: nat, code: uint8, bits: uint8, underscore: bool) returns (r: Result)
    requires offset <= |str|
    ensures r == ScanMiniTail(code, bits, str[offset..], underscore)
  {
    var scan := offset;
    if underscore && scan < |str| && str[scan] == '_' {
      scan := scan + 1;
      assert str[offset..][1..] == str[scan..];
    }
    var ok, lanes, end := ParseLanes(str, scan, false);
    if !ok || end != |str| {
      return ValueError;
    }
    return Ok(DLDataType(code, bits, lanes));
  }

  /** The end of the name, or -1. */
  method MatchFloatVariant(str: string, offset: nat, pattern: string, underscore: bool) returns (end: int)
    requires offset <= |str|
    ensures end == if Matches(str[offset..], pattern, underscore) then offset + |pattern| else -1
  {
    end := offset + |pattern|;
    if !At(str, offset, pattern) {
      return -1;
    }
    if end == |str| || str[end] == 'x' || (underscore && str[end] == '_') {
      return;
    }
    return -1;
  }

  /** The attempts of one width, in the order of the table. */
  method ParseVariants(vs: seq<Variant>, bits: uint8, str: string, offset: nat, underscore: bool)
    returns (r: Result)
    requires offset <= |str|
    ensures r == ScanVariants(vs, bits, str[offset..], underscore)
  {
    var i := 0;
    while i < |vs|
      invariant i <= |vs|
      invariant ScanVariants(vs[i..], bits, str[offset..], underscore)
                == ScanVariants(vs, bits, str[offset..], underscore)
    {
      assert vs[i..][0] == vs[i] && vs[i..][1..] == vs[i + 1..];
      var end := MatchFloatVariant(str, offset, vs[i].name, underscore);
      if end >= 0 {
        assert str[offset..][|vs[i].name|..] == str[end..];
        r := ParseFloat(str, end, vs[i].code, bits, underscore);
        return;
      }
      i := i + 1;
    }
    assert vs[i..] == [];
    return ValueError;
  }

  method ParseFloat8(str: string, offset: nat) returns (r: Result)
    requires offset <= |str|
    ensures r == ScanFloat8(str[offset..])
  {
    r := ParseVariants(Float8Variants(), 8, str, offset, false);
  }

  method ParseFloat6(str: string, offset: nat) returns (r: Result)
    requires offset <= |str|
    ensures r == ScanFloat6(str[offset..])
  {
    r := ParseVariants(Float6Variants(), 6, str, offset, false);
  }

  method ParseFloat4(str: string, offset: nat) returns (r: Result)
    requires offset <= |str|
    ensures r == ScanFloat4(str[offset..])
  {
    r := ParseVariants(Float4Variants(), 4, str, offset, true);
  }

  /** Bits and lanes from `scan` on, for a type whose code and default bits are set. */
  method FinishBasic(str: string, scan: nat, code: uint8, defaultBits: uint8) returns (r: Result)
    requires scan <= |str|
    ensures r == ScanTail(code, defaultBits, str[scan..])
  {
    var ok, bits, xdelim := ParseDigits(str, scan);
    if !ok || bits > 0xff {
      return ValueError;
    }
    var lanesOk, lanes, endpt := ParseLanes(str, xdelim, true);
    if !lanesOk || endpt != |str| {
      return ValueError;
    }
    return Ok(DLDataType(code, if bits != 0 then bits else defaultBits, lanes));
  }

  method NormalizePrefix(str: string) returns (r: string)
    ensures r == SpellOut(str)
  {
    if |str| >= 2 && str[0] == 'i' && IsDigit(str[1]) {
      r := "int" + str[1..];
    } else if |str| >= 2 && str[0] == 'u' && IsDigit(str[1]) {
      r := "uint" + str[1..];
    } else if |str| >= 3 && str[0] == 'b' && str[1] == 'f' && IsDigit(str[2]) {
      r := "bfloat" + str[2..];
    } else if HasPrefix(str, "fp8_") {
      r := "float8_" + str[4..];
    } else if HasPrefix(str, "fp6_") {
      r := "float6_" + str[4..];
    } else if HasPrefix(str, "fp4_") {
      r := "float4_" + str[4..];
    } else if |str| >= 2 && str[0] == 'f' && IsDigit(str[1]) {
      r := "float" + str[1..];
    } else {
      r := str;
    }
  }

  lemma {:induction false} Later(s: string, i: nat, j: nat)
    requires i + j <= |s|
    ensures s[i..][j..] == s[i + j..]
  {
  }

  method ParseAfterFloat(str: string) returns (r: Result)
    requires |str| >= 5
    ensures r == ScanFloat(str[5..])
  {
    if At(str, 5, "8_") {
      Later(str, 5, 2);
      r := ParseFloat8(str, 7);
    } else if At(str, 5, "6_") {
      Later(str, 5, 2);
      r := ParseFloat6(str, 7);
    } else if At(str, 5, "4_") {
      Later(str, 5, 2);
      r := ParseFloat4(str, 7);
    } else {
      r := FinishBasic(str, 5, FLOAT, 32);
    }
  }

  method ParseFloating(str: string) returns (r: Result)
    ensures r == ScanFloating(str)
  {
    if HasPrefix(str, "fp8_") {
      r := ParseFloat8(str, 4);
    } else if HasPrefix(str, "f8_") {
      r := ParseFloat8(str, 3);
    } else if HasPrefix(str, "fp6_") {
      r := ParseFloat6(str, 4);
    } else if HasPrefix(str, "f6_") {
      r := ParseFloat6(str, 3);
    } else if HasPrefix(str, "fp4_") {
      r := ParseFloat4(str, 4);
    } else if HasPrefix(str, "f4_") {
      r := ParseFloat4(str, 3);
    } else if HasPrefix(str, "float") {
      r := ParseAfterFloat(str);
    } else if HasPrefix(str, "f") && DigitAt(str, 1) {
      r := FinishBasic(str, 1, FLOAT, 32);
    } else if HasPrefix(str, "handle") {
      r := FinishBasic(str, 6, OPAQUE_HANDLE, 64);
    } else if HasPrefix(str, "bfloat") {
      r := FinishBasic(str, 6, BFLOAT, 16);
    } else if HasPrefix(str, "bf") && DigitAt(str, 2) {
      r := FinishBasic(str, 2, BFLOAT, 16);
    } else if HasPrefix(str, "custom") {
      r := Custom;
    } else {
      r := ValueError;
    }
  }

  /** Reads exactly the language of Names; a text beginning with the word for custom types is left to its registry. */
  method StringViewToDLDataType(text: string) returns (r: Result)
    ensures r == FromText(text)
    ensures forall d: DLDataType :: r == Ok(d) <==> Names(text, d)
    ensures r == Custom <==> |text| >= 6 && text[..6] == "custom"
    ensures forall d: DLDataType ::
              IsKnown(d.code) && InDomain(d) && Text(text) in {ToText(d), Abbrev(d)} ==> r == Ok(d)
  {
    forall d: DLDataType | IsKnown(d.code) && InDomain(d) && Text(text) in {ToText(d), Abbrev(d)}
      ensures FromText(text) == Ok(d)
    {
      TextRoundTrip(d);
    }
    forall d: DLDataType
      ensures FromText(text) == Ok(d) <==> Names(text, d)
    {
      AcceptedLanguage(text, d);
    }
    CustomLanguage(text);
    if |text| == 0 || text == "void" {
      return Ok(DLDataType(OPAQUE_HANDLE, 0, 0));
    }
    var str := NormalizePrefix(text);
    if HasPrefix(str, "int") {
      r := FinishBasic(str, 3, INT, 32);
    } else if HasPrefix(str, "i") && DigitAt(str, 1) {
      r := FinishBasic(str, 1, INT, 32);
    } else if HasPrefix(str, "uint") {
      r := FinishBasic(str, 4, UINT, 32);
    } else if HasPrefix(str, "u") && DigitAt(str, 1) {
      r := FinishBasic(str, 1, UINT, 32);
    } else if HasPrefix(str, "bool") {
      r := FinishBasic(str, 4, BOOL, 8);
    } else {
      r := ParseFloating(str);
    }
  }

  // ---------- printing ----------

  /** Bits and lanes appended to a name; lanes 1, 0 and -1 add nothing. */
  method AppendBitsAndLanes(name: string, d: DLDataType) returns (os: string)
    ensures os == name + BitsText(d) + LanesText(d.lanes)
  {
    os := name;
    var lanes := SignedLanes(d.lanes);
    if d.code < FLOAT8_E3M4 && (d.code != BOOL || d.bits != 8) {
      os := os + NatText(d.bits);
    }
    if lanes > 1 {
      os := os + "x" + NatText(lanes);
    } else if lanes < -1 {
      os := os + "xvscalex" + NatText(-lanes);
    }
    assert os == name + BitsText(d) + LanesText(d.lanes);
  }

  /** What a caller of either printer can rely on. */
  ghost predicate Prints(d: DLDataType, r: Printed) {
    && (r.Text? <==> IsKnown(d.code)) && (r.CustomCode? <==> d.code >= 129)
    && (r.Text? ==> FromText(r.s) == ReadBack(d) && (FromText(r.s) == Ok(d) <==> InDomain(d)))
  }

  lemma {:induction false} BothPrint(d: DLDataType)
    ensures Prints(d, ToText(d)) && Prints(d, Abbrev(d))
  {
    if IsKnown(d.code) {
      FormsAgree(d);
      TextRoundTrip(d);
    }
  }

  /** Text exactly for the named codes, read back as ReadBack says and as `d` exactly in the domain. */
  method DLDataTypeToString(d: DLDataType) returns (r: Printed)
    ensures r == ToText(d)
    ensures r.Text? ==> Shown(d, r.s, true)
    ensures r.Text? <==> IsKnown(d.code)
    ensures r.CustomCode? <==> d.code >= 129
    ensures r.Text? ==> FromText(r.s) == ReadBack(d) && (FromText(r.s) == Ok(d) <==> InDomain(d))
  {
    BothPrint(d);
    PrintedForms(d);
    if d.bits == 8 && d.lanes == 1 && d.code == BOOL {
      return Text("bool");
    }
    if d.code == OPAQUE_HANDLE && d.lanes == 0 && d.bits == 0 {
      return Text("");
    }
    if d.code >= 129 {
      return CustomCode;
    }
    if !IsKnown(d.code) {
      return UnknownCode;
    }
    if d.code == OPAQUE_HANDLE {
      return Text("handle");
    }
    var os := AppendBitsAndLanes(LongName(d.code), d);
    return Text(os);
  }

  /** The same promises for the abbreviated form. */
  method DTypeAbbrev(d: DLDataType) returns (r: Printed)
    ensures r == Abbrev(d)
    ensures r.Text? ==> Shown(d, r.s, false)
    ensures r.Text? <==> IsKnown(d.code)
    ensures r.CustomCode? <==> d.code >= 129
    ensures r.Text? ==> FromText(r.s) == ReadBack(d) && (FromText(r.s) == Ok(d) <==> InDomain(d))
  {
    BothPrint(d);
    PrintedForms(d);
    if d.bits == 8 && d.lanes == 1 && d.code == BOOL {
      return Text("bool");
    }
    if d.code == OPAQUE_HANDLE && d.lanes == 0 && d.bits == 0 {
      return Text("void");
    }
    if d.code >= 129 {
      return CustomCode;
    }
    if !IsKnown(d.code) {
      return UnknownCode;
    }
    if d.code == OPAQUE_HANDLE {
      return Text("handle");
    }
    var os := AppendBitsAndLanes(ShortName(d.code), d);
    return Text(os);
  }
}
