/**
  Data-type text: one scanner for the long and the abbreviated form, and the two
  printers it is meant to invert.  Positions in the text are represented by the text
  that remains from there on.  This module says what the three compute; the loops that
  compute it are in DTypeParser and what is true of it in DTypeRoundTrip.
*/
module DType {
  import opened Words
  import opened Decimal

  const INT: nat := 0
  const UINT: nat := 1
  const FLOAT: nat := 2
  const OPAQUE_HANDLE: nat := 3
  const BFLOAT: nat := 4
  const BOOL: nat := 6
  const FLOAT8_E3M4: nat := 7

  type uint8 = x: nat | x < 0x100
  type uint16 = x: nat | x < 0x1_0000

  datatype DLDataType = DLDataType(code: uint8, bits: uint8, lanes: uint16)

  /** A parsed type; custom types need a registry that is not part of this model. */
  datatype Result = Ok(d: DLDataType) | ValueError | Custom

  datatype Scanned = Got(value: nat, rest: string) | Bad

  // ---------- type names ----------

  datatype Variant = Variant(name: string, code: uint8)

  /** Mini-float names in the order the scanner tries them. */
  function Float8Variants(): seq<Variant> {
    [Variant("e4m3b11fnuz", 9), Variant("e4m3fnuz", 11), Variant("e4m3fn", 10), Variant("e5m2fnuz", 13),
     Variant("e8m0fnu", 14), Variant("e3m4", 7), Variant("e4m3", 8), Variant("e5m2", 12)]
  }

  function Float6Variants(): seq<Variant> { [Variant("e2m3fn", 15), Variant("e3m2fn", 16)] }

  function Float4Variants(): seq<Variant> { [Variant("e2m1fn", 17)] }

  predicate IsMiniFloat(code: nat) { 7 <= code <= 17 }

  function MiniWidth(code: nat): uint8
    requires IsMiniFloat(code)
  {
    if code <= 14 then 8 else if code <= 16 then 6 else 4
  }

  function MiniName(code: nat): string
    requires IsMiniFloat(code)
  {
    match code
    case 7 => "e3m4" case 8 => "e4m3" case 9 => "e4m3b11fnuz" case 10 => "e4m3fn" case 11 => "e4m3fnuz"
    case 12 => "e5m2" case 13 => "e5m2fnuz" case 14 => "e8m0fnu" case 15 => "e2m3fn" case 16 => "e3m2fn"
    case _ => "e2m1fn"
  }

  function WidthText(code: nat): string
    requires IsMiniFloat(code)
  {
    if code <= 14 then "8_" else if code <= 16 then "6_" else "4_"
  }

  function MiniTag(code: nat): string
    requires IsMiniFloat(code)
  {
    WidthText(code) + MiniName(code)
  }

  predicate IsBasic(code: nat) { code == INT || code == UINT || code == FLOAT || code == BFLOAT || code == BOOL }

  /** Codes below the custom range that have a name. */
  predicate IsKnown(code: nat) { IsBasic(code) || code == OPAQUE_HANDLE || IsMiniFloat(code) }

  function LongName(code: nat): string
    requires IsKnown(code)
  {
    if code == INT then "int"
    else if code == UINT then "uint"
    else if code == FLOAT then "float"
    else if code == OPAQUE_HANDLE then "handle"
    else if code == BFLOAT then "bfloat"
    else if code == BOOL then "bool"
    else "float" + MiniTag(code)
  }

  function ShortName(code: nat): string
    requires IsKnown(code)
  {
    if code == INT then "i"
    else if code == UINT then "u"
    else if code == FLOAT then "f"
    else if code == OPAQUE_HANDLE then "handle"
    else if code == BFLOAT then "bf"
    else if code == BOOL then "bool"
    else "f" + MiniTag(code)
  }

  // ---------- printing ----------

  /** The signed reading of a lane count; negative counts are scalable vectors. */
  function SignedLanes(lanes: uint16): int { if lanes >= 0x8000 then lanes - 0x1_0000 else lanes }

  function LanesText(lanes: uint16): string {
    var n := SignedLanes(lanes);
    if n > 1 then "x" + NatText(n) else if n < -1 then "xvscalex" + NatText(-n) else ""
  }

  function BitsText(d: DLDataType): string {
    if d.code < FLOAT8_E3M4 && (d.code != BOOL || d.bits != 8) then NatText(d.bits) else ""
  }

  datatype Printed = Text(s: string) | UnknownCode | CustomCode

  /** DLDataTypeToString_. */
  function ToText(d: DLDataType): Printed {
    if d.bits == 8 && d.lanes == 1 && d.code == BOOL then Text("bool")
    else if d.code == OPAQUE_HANDLE && d.lanes == 0 && d.bits == 0 then Text("")
    else if d.code >= 129 then CustomCode
    else if !IsKnown(d.code) then UnknownCode
    else if d.code == OPAQUE_HANDLE then Text("handle")
    else Text(LongName(d.code) + BitsText(d) + LanesText(d.lanes))
  }

  /** DTypeAbbrev. */
  function Abbrev(d: DLDataType): Printed {
    if d.bits == 8 && d.lanes == 1 && d.code == BOOL then Text("bool")
    else if d.code == OPAQUE_HANDLE && d.lanes == 0 && d.bits == 0 then Text("void")
    else if d.code >= 129 then CustomCode
    else if !IsKnown(d.code) then UnknownCode
    else if d.code == OPAQUE_HANDLE then Text("handle")
    else Text(ShortName(d.code) + BitsText(d) + LanesText(d.lanes))
  }

  // ---------- scanning ----------

  predicate HasPrefix(s: string, p: string) {
    |p| <= |s| && forall i :: 0 <= i < |p| ==> s[i] == p[i]
  }

  predicate DigitAt(s: string, i: nat) { i < |s| && IsDigit(s[i]) }

  /** Decimal digits, accumulated modulo 2^64 and then checked against 2^32. */
  function ScanDigits(rest: string): Scanned {
    var k := SkipDigits(rest, 0);
    var value := DigitsValue(rest[0..k]) % W;
    if value > 0xffff_ffff then Bad else Got(value, rest[k..])
  }

  function ScanLanes(rest: string, scalable: bool): (r: Scanned)
    ensures r.Got? ==> 1 <= r.value <= 0xffff
  {
    if scalable && HasPrefix(rest, "xvscale") then ScanCount(rest[7..], true) else ScanCount(rest, false)
  }

  /** A lane count; none given means one lane, a scalable count is stored negated. */
  function ScanCount(s: string, negative: bool): (r: Scanned)
    ensures r.Got? ==> 1 <= r.value <= 0xffff
  {
    if s == "" || s[0] != 'x' then Got(1, s)
    else
      var n := ScanDigits(s[1..]);
      if n.Bad? || n.rest == s[1..] || n.value == 0 || n.value > 0xffff then Bad
      else Got(if negative then 0x1_0000 - n.value else n.value, n.rest)
  }

  /** Bits and lanes after a basic name. */
  function ScanTail(code: uint8, defaultBits: uint8, rest: string): Result {
    var n := ScanDigits(rest);
    if n.Bad? || n.value > 0xff then ValueError
    else
      var lanes := ScanLanes(n.rest, true);
      if lanes.Bad? || lanes.rest != "" then ValueError
      else Ok(DLDataType(code, if n.value != 0 then n.value else defaultBits, lanes.value))
  }

  /** Lanes after a mini-float name. */
  function ScanMiniTail(code: uint8, bits: uint8, rest: string, underscore: bool): Result {
    var s := if underscore && rest != "" && rest[0] == '_' then rest[1..] else rest;
    var lanes := ScanLanes(s, false);
    if lanes.Bad? || lanes.rest != "" then ValueError
    else Ok(DLDataType(code, bits, lanes.value))
  }

  /** A name matches when it ends the text or is followed by lanes. */
  predicate Matches(s: string, name: string, underscore: bool) {
    HasPrefix(s, name) && (|s| == |name| || s[|name|] == 'x' || (underscore && s[|name|] == '_'))
  }

  /** The first variant that matches decides. */
  function ScanVariants(vs: seq<Variant>, bits: uint8, s: string, underscore: bool): Result {
    if vs == [] then ValueError
    else if Matches(s, vs[0].name, underscore) then ScanMiniTail(vs[0].code, bits, s[|vs[0].name|..], underscore)
    else ScanVariants(vs[1..], bits, s, underscore)
  }

  function ScanFloat8(s: string): Result { ScanVariants(Float8Variants(), 8, s, false) }

  function ScanFloat6(s: string): Result { ScanVariants(Float6Variants(), 6, s, false) }

  function ScanFloat4(s: string): Result { ScanVariants(Float4Variants(), 4, s, true) }

  /** Abbreviated prefixes are spelled out before scanning. */
  function SpellOut(s: string): string {
    if HasPrefix(s, "i") && DigitAt(s, 1) then "int" + s[1..]
    else if HasPrefix(s, "u") && DigitAt(s, 1) then "uint" + s[1..]
    else if HasPrefix(s, "bf") && DigitAt(s, 2) then "bfloat" + s[2..]
    else if HasPrefix(s, "fp8_") then "float8_" + s[4..]
    else if HasPrefix(s, "fp6_") then "float6_" + s[4..]
    else if HasPrefix(s, "fp4_") then "float4_" + s[4..]
    else if HasPrefix(s, "f") && DigitAt(s, 1) then "float" + s[1..]
    else s
  }

  function ScanSpelled(s: string): Result {
    if HasPrefix(s, "int") then ScanTail(INT, 32, s[3..])
    else if HasPrefix(s, "i") && DigitAt(s, 1) then ScanTail(INT, 32, s[1..])
    else if HasPrefix(s, "uint") then ScanTail(UINT, 32, s[4..])
    else if HasPrefix(s, "u") && DigitAt(s, 1) then ScanTail(UINT, 32, s[1..])
    else if HasPrefix(s, "bool") then ScanTail(BOOL, 8, s[4..])
    else ScanFloating(s)
  }

  /** What follows "float": a width and an underscore make it a mini-float. */
  function ScanFloat(s: string): Result {
    if HasPrefix(s, "8_") then ScanFloat8(s[2..])
    else if HasPrefix(s, "6_") then ScanFloat6(s[2..])
    else if HasPrefix(s, "4_") then ScanFloat4(s[2..])
    else ScanTail(FLOAT, 32, s)
  }

  function ScanFloating(s: string): Result {
    if HasPrefix(s, "fp8_") then ScanFloat8(s[4..])
    else if HasPrefix(s, "f8_") then ScanFloat8(s[3..])
    else if HasPrefix(s, "fp6_") then ScanFloat6(s[4..])
    else if HasPrefix(s, "f6_") then ScanFloat6(s[3..])
    else if HasPrefix(s, "fp4_") then ScanFloat4(s[4..])
    else if HasPrefix(s, "f4_") then ScanFloat4(s[3..])
    else if HasPrefix(s, "float") then ScanFloat(s[5..])
    else if HasPrefix(s, "f") && DigitAt(s, 1) then ScanTail(FLOAT, 32, s[1..])
    else if HasPrefix(s, "handle") then ScanTail(OPAQUE_HANDLE, 64, s[6..])
    else if HasPrefix(s, "bfloat") then ScanTail(BFLOAT, 16, s[6..])
    else if HasPrefix(s, "bf") && DigitAt(s, 2) then ScanTail(BFLOAT, 16, s[2..])
    else if HasPrefix(s, "custom") then Custom
    else ValueError
  }

  /** StringViewToDLDataType_. */
  function FromText(s: string): Result {
    if s == "" || s == "void" then Ok(DLDataType(OPAQUE_HANDLE, 0, 0))
    else ScanSpelled(SpellOut(s))
  }
}
