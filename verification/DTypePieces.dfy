/**
  How the scanner takes back the pieces the printers put together: digit runs, lane
  counts, the names of the basic types and what follows them.  Each lemma is about one
  piece followed by arbitrary text, so that the pieces compose.
*/
module DTypePieces {
  import opened Decimal
  import opened DType

  // ---------- pieces read back ----------

  /** No digit follows. */
  predicate StopsDigits(s: string) { s == "" || !IsDigit(s[0]) }

  lemma {:induction false} SkipPrefix(t: string, rest: string, i: nat)
    requires i <= |t| && AllDigits(t) && StopsDigits(rest)
    ensures SkipDigits(t + rest, i) == |t|
    decreases |t| - i
  {
    if i < |t| {
      assert (t + rest)[i] == t[i];
      SkipPrefix(t, rest, i + 1);
    } else if rest != "" {
      assert (t + rest)[i] == rest[0];
    }
  }

  lemma {:induction false} ScanNumber(n: nat, rest: string)
    requires n <= 0xffff_ffff && StopsDigits(rest)
    ensures ScanDigits(NatText(n) + rest) == Got(n, rest)
  {
    var t := NatText(n);
    NatTextReads(n);
    SkipPrefix(t, rest, 0);
    assert (t + rest)[0..|t|] == t && (t + rest)[|t|..] == rest;
  }

  lemma {:induction false} ScanNoDigits(rest: string)
    requires StopsDigits(rest)
    ensures ScanDigits(rest) == Got(0, rest)
  {
    assert rest[0..0] == "";
    assert rest[0..] == rest;
  }

  lemma {:induction false} LanesStop(lanes: uint16)
    ensures StopsDigits(LanesText(lanes))
    ensures LanesText(lanes) != "" ==> LanesText(lanes)[0] == 'x'
  {
  }

  lemma {:induction false} ScanFixedLanes(n: nat, scalable: bool)
    requires 1 <= n <= 0xffff
    ensures ScanLanes("x" + NatText(n), scalable) == Got(n, "")
  {
    var t := NatText(n);
    NatTextReads(n);
    ScanNumber(n, "");
    assert t + "" == t;
    var s := "x" + t;
    assert s[1..] == t && s[1] == t[0];
    assert !HasPrefix(s, "xvscale");
  }

  lemma {:induction false} ScanScalableLanes(n: nat)
    requires 1 <= n <= 0xffff
    ensures ScanLanes("xvscalex" + NatText(n), true) == Got(0x1_0000 - n, "")
  {
    var t := NatText(n);
    NatTextReads(n);
    ScanNumber(n, "");
    assert t + "" == t;
    var s := "xvscalex" + t;
    var u := "x" + t;
    assert s == "xvscale" + u;
    PrefixOf("xvscale", u);
    assert u[1..] == t;
  }

  lemma {:induction false} ScalableNotAllowed(n: nat)
    ensures ScanLanes("xvscalex" + NatText(n), false) == Bad
  {
    var s := "xvscalex" + NatText(n);
    assert s[0] == 'x' && s[1..][0] == 'v';
    ScanNoDigits(s[1..]);
  }

  /** Lane text reads back unless the count prints nothing or a scalable count is not allowed. */
  lemma {:induction false} ScanLanesText(lanes: uint16, scalable: bool)
    ensures var n := SignedLanes(lanes);
            ScanLanes(LanesText(lanes), scalable)
            == if -1 <= n <= 1 then Got(1, "") else if n < 0 && !scalable then Bad else Got(lanes, "")
  {
    var n := SignedLanes(lanes);
    if n > 1 {
      ScanFixedLanes(n, scalable);
    } else if n < -1 {
      if scalable { ScanScalableLanes(-n); } else { ScalableNotAllowed(-n); }
    }
  }

  // ---------- basic types ----------

  function DefaultBits(code: nat): uint8
    requires IsBasic(code) || code == OPAQUE_HANDLE
  {
    if code == BOOL then 8 else if code == BFLOAT then 16 else if code == OPAQUE_HANDLE then 64 else 32
  }

  lemma {:induction false} BitsThenLanes(d: DLDataType)
    requires IsBasic(d.code)
    ensures var t := BitsText(d) + LanesText(d.lanes);
            && (t == "" || IsDigit(t[0]) || t[0] == 'x')
            && (d.code == FLOAT && |t| >= 2 ==> t[1] != '_')
            && ((d.code == BOOL && d.bits == 8) || (t != "" && IsDigit(t[0])))
  {
    LanesStop(d.lanes);
    if d.code != BOOL || d.bits != 8 {
      var b := NatText(d.bits);
      NatTextReads(d.bits);
      assert (b + LanesText(d.lanes))[0] == b[0];
      if |b| > 1 {
        assert (b + LanesText(d.lanes))[1] == b[1];
      } else if LanesText(d.lanes) != "" {
        assert (b + LanesText(d.lanes))[1] == LanesText(d.lanes)[0];
      }
    }
  }

  lemma {:induction false} ScanBitsText(d: DLDataType, rest: string)
    requires IsBasic(d.code) && StopsDigits(rest)
    ensures ScanDigits(BitsText(d) + rest) == Got(if d.code == BOOL && d.bits == 8 then 0 else d.bits, rest)
  {
    if d.code == BOOL && d.bits == 8 {
      ScanNoDigits(rest);
      assert BitsText(d) + rest == rest;
    } else {
      ScanNumber(d.bits, rest);
    }
  }

  /** Bits 0 read as the default; lane counts 0, 1 and -1 all read as 1. */
  lemma {:induction false} ScanTailText(d: DLDataType)
    requires IsBasic(d.code)
    ensures ScanTail(d.code, DefaultBits(d.code), BitsText(d) + LanesText(d.lanes))
            == Ok(DLDataType(d.code, if d.bits != 0 then d.bits else DefaultBits(d.code),
                             if -1 <= SignedLanes(d.lanes) <= 1 then 1 else d.lanes))
  {
    LanesStop(d.lanes);
    ScanLanesText(d.lanes, true);
    ScanBitsText(d, LanesText(d.lanes));
    assert LanesText(d.lanes) == LanesText(d.lanes) + "";
  }

  /** A name is a prefix of itself followed by anything, and what follows is the rest. */
  lemma {:induction false} PrefixOf(p: string, t: string)
    ensures HasPrefix(p + t, p) && (p + t)[|p|..] == t
  {
  }

  /** One differing character rules a prefix out. */
  lemma {:induction false} NoPrefix(s: string, p: string, i: nat)
    requires i < |s| && i < |p| && s[i] != p[i]
    ensures !HasPrefix(s, p)
  {
  }

  lemma {:induction false} SpellOutLong(code: nat, t: string)
    requires IsBasic(code)
    ensures SpellOut(LongName(code) + t) == LongName(code) + t
  {
    var s := LongName(code) + t;
    if code == FLOAT {
      assert s[1] == 'l';
    } else if code == INT {
      assert s[1] == 'n';
    } else if code == UINT {
      assert s[1] == 'i';
    } else if code == BOOL {
      assert s[1] == 'o';
    } else {
      assert s[1] == 'f' && s[2] == 'l';
    }
  }

  lemma {:induction false} SpellOutInt(t: string)
    requires t != "" && IsDigit(t[0])
    ensures SpellOut("i" + t) == "int" + t
  {
    var s := "i" + t;
    PrefixOf("i", t);
    assert s[1] == t[0];
    assert DigitAt(s, 1);
  }

  lemma {:induction false} SpellOutUint(t: string)
    requires t != "" && IsDigit(t[0])
    ensures SpellOut("u" + t) == "uint" + t
  {
    var s := "u" + t;
    PrefixOf("u", t);
    assert s[0] == 'u' && s[1] == t[0];
    NoPrefix(s, "i", 0);
    assert DigitAt(s, 1);
  }

  lemma {:induction false} SpellOutBfloat(t: string)
    requires t != "" && IsDigit(t[0])
    ensures SpellOut("bf" + t) == "bfloat" + t
  {
    var s := "bf" + t;
    PrefixOf("bf", t);
    assert s[0] == 'b' && s[2] == t[0];
    NoPrefix(s, "i", 0);
    NoPrefix(s, "u", 0);
    assert DigitAt(s, 2);
  }

  lemma {:induction false} SpellOutFloat(t: string)
    requires t != "" && IsDigit(t[0])
    ensures SpellOut("f" + t) == "float" + t
  {
    var s := "f" + t;
    PrefixOf("f", t);
    assert s[0] == 'f' && s[1] == t[0];
    NoPrefix(s, "i", 0);
    NoPrefix(s, "u", 0);
    NoPrefix(s, "bf", 0);
    NoPrefix(s, "fp8_", 1);
    NoPrefix(s, "fp6_", 1);
    NoPrefix(s, "fp4_", 1);
    assert DigitAt(s, 1);
  }

  lemma {:induction false} SpellOutShort(code: nat, t: string)
    requires IsBasic(code)
    requires code == BOOL || (t != "" && IsDigit(t[0]))
    ensures SpellOut(ShortName(code) + t) == LongName(code) + t
  {
    if code == BOOL {
      SpellOutLong(code, t);
    } else {
      SpellOutInt(t);
      SpellOutUint(t);
      SpellOutFloat(t);
      SpellOutBfloat(t);
    }
  }

  /** Text with another first character has none of the tried prefixes. */
  lemma {:induction false} FirstCharacter(s: string, c: char)
    requires s != "" && s[0] == c && c in "bh"
    ensures !HasPrefix(s, "i") && !HasPrefix(s, "int") && !HasPrefix(s, "u") && !HasPrefix(s, "uint")
    ensures !HasPrefix(s, "fp8_") && !HasPrefix(s, "f8_") && !HasPrefix(s, "fp6_") && !HasPrefix(s, "f6_")
    ensures !HasPrefix(s, "fp4_") && !HasPrefix(s, "f4_") && !HasPrefix(s, "float") && !HasPrefix(s, "f")
    ensures c == 'h' ==> !HasPrefix(s, "bool") && !HasPrefix(s, "bf")
  {
  }

  lemma {:induction false} ScanFloatName(t: string)
    ensures ScanSpelled("float" + t) == ScanFloat(t)
  {
    var s := "float" + t;
    PrefixOf("float", t);
    assert s[0] == 'f' && s[1] == 'l';
  }

  lemma {:induction false} ScanBfloatName(t: string)
    ensures ScanSpelled("bfloat" + t) == ScanTail(BFLOAT, 16, t)
  {
    var s := "bfloat" + t;
    PrefixOf("bfloat", t);
    FirstCharacter(s, 'b');
    assert s[1] == 'f' && !HasPrefix(s, "bool");
  }

  lemma {:induction false} ScanIntName(t: string)
    ensures ScanSpelled("int" + t) == ScanTail(INT, 32, t)
  {
    PrefixOf("int", t);
  }

  lemma {:induction false} ScanUintName(t: string)
    ensures ScanSpelled("uint" + t) == ScanTail(UINT, 32, t)
  {
    var s := "uint" + t;
    PrefixOf("uint", t);
    assert s[0] == 'u';
  }

  lemma {:induction false} ScanBoolName(t: string)
    ensures ScanSpelled("bool" + t) == ScanTail(BOOL, 8, t)
  {
    var s := "bool" + t;
    PrefixOf("bool", t);
    assert s[0] == 'b';
  }

  lemma {:induction false} ScanHandleName(t: string)
    ensures ScanSpelled("handle" + t) == ScanTail(OPAQUE_HANDLE, 64, t)
  {
    var s := "handle" + t;
    PrefixOf("handle", t);
    FirstCharacter(s, 'h');
  }

  lemma {:induction false} ScanBasic(code: nat, t: string)
    requires IsBasic(code)
    requires code == FLOAT && |t| >= 2 ==> t[1] != '_'
    ensures ScanSpelled(LongName(code) + t) == ScanTail(code, DefaultBits(code), t)
  {
    ScanIntName(t);
    ScanUintName(t);
    ScanBoolName(t);
    ScanBfloatName(t);
    ScanFloatName(t);
  }
}
