/** Decimal text: printing, reading and the JSON hooks. */
module Decimal {
  import opened Radix
  import opened Words
  import opened Magnitude
  import opened ScalarDivision
  import opened Operators

  // ---------- decimal text of integers ----------

  function DigitChar(d: nat): char
    requires d < 10
  {
    '0' + d as char
  }

  predicate IsDigit(c: char) { '0' <= c <= '9' }

  function CharDigit(c: char): nat
    requires IsDigit(c)
  {
    c as int - '0' as int
  }

  predicate AllDigits(s: string) { forall i :: 0 <= i < |s| ==> IsDigit(s[i]) }

  /** The shortest decimal digits of n. */
  function NatText(n: nat): string {
    if n < 10 then [DigitChar(n)] else NatText(n / 10) + [DigitChar(n % 10)]
  }

  function DecimalText(v: int): string {
    if v < 0 then "-" + NatText(-v) else NatText(v)
  }

  /** The number a digit string writes, most significant digit first. */
  function DigitsValue(s: string): nat
    requires AllDigits(s)
  {
    if s == [] then 0 else 10 * DigitsValue(s[..|s| - 1]) + CharDigit(s[|s| - 1])
  }

  lemma {:induction false} NatTextReads(n: nat)
    ensures AllDigits(NatText(n)) && |NatText(n)| > 0 && DigitsValue(NatText(n)) == n
    ensures NatText(n)[0] == '0' ==> n == 0 && |NatText(n)| == 1
  {
    if n < 10 {
      assert [DigitChar(n)][..0] == [];
    } else {
      NatTextReads(n / 10);
      assert NatText(n)[..|NatText(n)| - 1] == NatText(n / 10);
    }
  }

  /** The ten digits are these characters, with these values, and no others. */
  lemma {:induction false} DigitCharacters(d: nat, c: char)
    requires d < 10
    ensures DigitChar(d) == "0123456789"[d] && IsDigit(DigitChar(d)) && CharDigit(DigitChar(d)) == d
    ensures IsDigit(c) <==> c in "0123456789"
  {
    assert IsDigit(c) ==> c == "0123456789"[CharDigit(c)];
  }

  /** A further digit makes ten times the number and that digit. */
  lemma {:induction false} DigitsSpell(s: string, d: nat)
    requires AllDigits(s) && d < 10
    ensures DigitsValue("") == 0 && AllDigits(s + ["0123456789"[d]])
    ensures DigitsValue(s + ["0123456789"[d]]) == 10 * DigitsValue(s) + d
  {
    var t := s + ["0123456789"[d]];
    assert t[..|t| - 1] == s;
  }

  /** The text is the number's digits without a leading zero, behind a minus sign if it is negative. */
  ghost predicate Spells(text: string, v: int) {
    exists digits ::
      && AllDigits(digits) && digits != "" && (digits[0] == '0' ==> |digits| == 1)
      && DigitsValue(digits) == (if v < 0 then 0 - v else v)
      && text == if v < 0 then "-" + digits else digits
  }

  lemma {:induction false} DecimalSpells(v: int)
    ensures Spells(DecimalText(v), v)
  {
    NatTextReads(if v < 0 then 0 - v else v);
  }

  // ---------- printing ----------

  function Reversed(s: string): (r: string)
    ensures |r| == |s|
  {
    if s == [] then [] else Reversed(s[1..]) + [s[0]]
  }

  lemma {:induction false} ReversedSnoc(s: string, c: char)
    ensures Reversed(s + [c]) == [c] + Reversed(s)
  {
    if s != [] {
      ReversedSnoc(s[1..], c);
      assert (s + [c])[1..] == s[1..] + [c];
    }
  }

  /** One pass of the words from the top leaves the quotient by ten in place. */
  method DivideByTen(data: array<word>, size: nat) returns (rem: nat)
    requires size <= data.Length
    modifies data
    ensures Val(W, old(data[..size])) == 10 * Val(W, data[..size]) + rem && rem < 10
  {
    ghost var s := data[..size];
    var carry: word := 0;
    assert s[size..] == [];
    for i := size downto 0
      invariant carry < 10 && data[..i] == s[..i]
      invariant Val(W, s[i..]) == Val(W, data[i..size]) * 10 + carry
    {
      ghost var above, before := data[i + 1..size], carry;
      assert data[i] == data[..i + 1][i] == s[i];
      var q;
      q, carry := SmallStep(carry, data[i], 10);
      data[i] := q;
      assert data[i..size] == [q] + above && s[i..][1..] == s[i + 1..];
      assert data[i..size][1..] == above;
      LongDivisionStep(Val(W, s[i + 1..]), 10, Val(W, above), q, before, s[i], carry);
    }
    assert s[0..] == s && data[0..size] == data[..size];
    rem := carry;
  }

  /** What has been printed so far, lowest digit first, and the number still to print. */
  ghost predicate Printed(n: nat, rest: nat, result: string) {
    NatText(n) == if rest == 0 then Reversed(result) else NatText(rest) + Reversed(result)
  }

  lemma {:induction false} PrintDigit(n: nat, rest: nat, result: string, d: nat, q: nat)
    requires rest > 0 && rest == 10 * q + d && d < 10
    requires if result == "" then n == rest else Printed(n, rest, result)
    ensures Printed(n, q, result + [DigitChar(d)])
  {
    ReversedSnoc(result, DigitChar(d));
    assert rest / 10 == q && rest % 10 == d;
    if q == 0 {
      assert NatText(rest) == [DigitChar(d)];
    } else {
      assert NatText(rest) == NatText(q) + [DigitChar(d)];
    }
    assert Reversed("") == "";
  }

  method DropZeroWords(data: array<word>, size: nat) returns (trimmed: nat)
    requires size <= data.Length
    ensures trimmed <= size && Val(W, data[..trimmed]) == Val(W, data[..size])
    ensures trimmed == 0 <==> Val(W, data[..size]) == 0
  {
    trimmed := size;
    while trimmed > 0 && data[trimmed - 1] == 0
      invariant trimmed <= size && Val(W, data[..trimmed]) == Val(W, data[..size])
    {
      ValStep(W, data[..], trimmed - 1);
      assert data[..][..trimmed] == data[..trimmed] && data[..][..trimmed - 1] == data[..trimmed - 1];
      trimmed := trimmed - 1;
    }
    if trimmed > 0 {
      TopPositive(data[..trimmed]);
    }
  }

  lemma {:induction false} TopPositive(s: seq<word>)
    requires s != [] && s[|s| - 1] != 0
    ensures Val(W, s) > 0
  {
    TopWord(s);
    MulMono(Pow(W, |s| - 1), 1, s[|s| - 1]);
  }

  /** Prints the digits of a positive number held in construction words, lowest first. */
  method PrintMagnitude(data: array<word>) returns (result: string)
    requires Val(W, data[..]) > 0
    modifies data
    ensures Reversed(result) == NatText(Val(W, old(data[..])))
  {
    ghost var n := Val(W, data[..]);
    var size: nat := data.Length;
    result := "";
    var more := true;
    assert data[..size] == data[..];
    while more
      invariant size <= data.Length && (more <==> Val(W, data[..size]) > 0)
      invariant if result == "" then more && n == Val(W, data[..size]) else Printed(n, Val(W, data[..size]), result)
      decreases Val(W, data[..size])
    {
      ghost var rest := Val(W, data[..size]);
      var rem := DivideByTen(data, size);
      PrintDigit(n, rest, result, rem, Val(W, data[..size]));
      result := result + [DigitChar(rem)];
      size := DropZeroWords(data, size);
      more := size > 0;
    }
  }

  method ToStringFallback(value: BigInt) returns (text: string)
    requires Canonical(value)
    ensures text == DecimalText(Value(value))
    ensures Spells(text, Value(value))
  {
    DecimalSpells(Value(value));
    ViewValue(value);
    if value.Inline? {
      return DecimalText(value.v);  // std::to_string
    }
    var x := View(value);
    SignedRange(x);
    var first := FirstNonzero(x);
    var data := new word[|x|](i requires 0 <= i => AbsWord(x, first, i));
    AbsValue(x, first, |x|);
    assert data[..] == AbsWords(x, first, |x|);
    var digits := PrintMagnitude(data);
    if IsNegative(x) {
      ReversedSnoc(digits, '-');
      digits := digits + ['-'];
    }
    text := Reversed(digits);
  }

  // ---------- reading ----------

  datatype ReadResult = Failed(consumed: nat, eof: bool) | Read(value: BigInt, consumed: nat, eof: bool)

  predicate IsSpace(c: char) { c == ' ' || '\t' <= c <= '\r' }

  function SkipSpaces(text: string, i: nat): (k: nat)
    requires i <= |text|
    ensures i <= k <= |text|
    decreases |text| - i
  {
    if i < |text| && IsSpace(text[i]) then SkipSpaces(text, i + 1) else i
  }

  function SkipDigits(text: string, i: nat): (k: nat)
    requires i <= |text|
    ensures i <= k <= |text| && AllDigits(text[i..k])
    ensures k < |text| ==> !IsDigit(text[k])
    decreases |text| - i
  {
    if i < |text| && IsDigit(text[i]) then
      var k := SkipDigits(text, i + 1);
      assert text[i..k] == [text[i]] + text[i + 1..k];
      k
    else i
  }

  /** Where the sign, the digits and the rest of a decimal integer begin. */
  function SignAt(text: string, skipSpaces: bool): (k: nat)
    ensures k <= |text|
  {
    if skipSpaces then SkipSpaces(text, 0) else 0
  }

  function DigitsAt(text: string, skipSpaces: bool): (k: nat)
    ensures k <= |text|
  {
    var i := SignAt(text, skipSpaces);
    if i < |text| && (text[i] == '+' || text[i] == '-') then i + 1 else i
  }

  function IntegerValue(text: string, skipSpaces: bool): int {
    var i, j := SignAt(text, skipSpaces), DigitsAt(text, skipSpaces);
    var n: int := DigitsValue(text[j..SkipDigits(text, j)]);
    if i < |text| && text[i] == '-' then 0 - n else n
  }

  lemma {:induction false} RunGrows(text: string, i: nat, k: nat)
    requires i <= k < |text| && AllDigits(text[i..k]) && IsDigit(text[k])
    ensures AllDigits(text[i..k + 1])
    ensures DigitsValue(text[i..k + 1]) == 10 * DigitsValue(text[i..k]) + CharDigit(text[k])
    ensures SkipDigits(text, k) == SkipDigits(text, k + 1)
  {
    var s := text[i..k + 1];
    assert s == text[i..k] + [text[k]];
    assert s[..|s| - 1] == text[i..k];
  }

  method AppendDigit(x: BigInt, d: nat) returns (r: BigInt)
    requires Canonical(x) && d < 10
    ensures Canonical(r) && Value(r) == 10 * Value(x) + d
  {
    var scaled := Times(x, Inline(10));
    r := Plus(scaled, Inline(d));
  }

  /** One after the other the four make the text. */
  predicate Joined(text: string, spaces: string, sign: string, digits: string, rest: string) {
    text == spaces + (sign + (digits + rest))
  }

  /**
    The text is white space, if that may be skipped, then a sign or nothing, then digits, then the rest,
    each part as long as it can be.
  */
  predicate Parts(text: string, skipSpaces: bool, spaces: string, sign: string, digits: string, rest: string) {
    && Joined(text, spaces, sign, digits, rest)
    && (forall i :: 0 <= i < |spaces| ==> spaces[i] == ' ' || 9 <= spaces[i] as int <= 13)
    && (!skipSpaces ==> spaces == "")
    && (skipSpaces && |spaces| < |text| ==> text[|spaces|] != ' ' && !(9 <= text[|spaces|] as int <= 13))
    && (sign == "" || sign == "+" || sign == "-")
    && (sign == "" && |spaces| < |text| ==> text[|spaces|] != '+' && text[|spaces|] != '-')
    && AllDigits(digits) && (rest != "" ==> rest[0] !in "0123456789")
  }

  /** What reading those parts gives. */
  ghost predicate ReadsParts(text: string, skipSpaces: bool, r: ReadResult) {
    exists spaces, sign, digits, rest ::
      && Parts(text, skipSpaces, spaces, sign, digits, rest)
      && (r.Failed? <==> digits == "") && r.consumed == |text| - |rest| && (r.eof <==> rest == "")
      && (r.Read? ==> Value(r.value) == if sign == "-" then 0 - DigitsValue(digits) else DigitsValue(digits))
  }

  lemma {:induction false} SpacesSkipped(text: string, i: nat)
    requires i <= |text|
    ensures var k := SkipSpaces(text, i);
            && (forall j :: i <= j < k ==> text[j] == ' ' || 9 <= text[j] as int <= 13)
            && (k < |text| ==> text[k] != ' ' && !(9 <= text[k] as int <= 13))
    decreases |text| - i
  {
    if i < |text| && IsSpace(text[i]) {
      SpacesSkipped(text, i + 1);
    }
  }

  lemma {:induction false} CutParts(text: string, i: nat, j: nat, k: nat)
    returns (spaces: string, sign: string, digits: string, rest: string)
    requires i <= j <= k <= |text|
    ensures Joined(text, spaces, sign, digits, rest)
    ensures spaces == text[..i] && sign == text[i..j] && digits == text[j..k] && rest == text[k..]
  {
    spaces, sign, digits, rest := text[..i], text[i..j], text[j..k], text[k..];
  }

  lemma {:induction false} SpacePart(text: string, skipSpaces: bool, spaces: string)
    requires spaces == text[..SignAt(text, skipSpaces)]
    ensures var i := |spaces|;
            && i == SignAt(text, skipSpaces)
            && (forall j :: 0 <= j < i ==> spaces[j] == ' ' || 9 <= spaces[j] as int <= 13)
            && (!skipSpaces ==> spaces == "")
            && (skipSpaces && i < |text| ==> text[i] != ' ' && !(9 <= text[i] as int <= 13))
  {
    SpacesSkipped(text, 0);
  }

  lemma {:induction false} SignPart(text: string, skipSpaces: bool, sign: string)
    requires SignAt(text, skipSpaces) <= DigitsAt(text, skipSpaces)
    requires sign == text[SignAt(text, skipSpaces)..DigitsAt(text, skipSpaces)]
    ensures var i := SignAt(text, skipSpaces);
            && (sign == "" || sign == "+" || sign == "-")
            && (sign == "" && i < |text| ==> text[i] != '+' && text[i] != '-')
            && (sign == "-" <==> i < |text| && text[i] == '-')
  {
    var i, j := SignAt(text, skipSpaces), DigitsAt(text, skipSpaces);
    assert text[i..j] == if i == j then "" else [text[i]];
  }

  lemma {:induction false} DigitPart(text: string, j: nat, digits: string, rest: string)
    requires j <= |text| && digits == text[j..SkipDigits(text, j)] && rest == text[SkipDigits(text, j)..]
    ensures AllDigits(digits) && (rest != "" ==> rest[0] !in "0123456789")
    ensures var k := SkipDigits(text, j);
            k == |text| - |rest| && (k == j <==> digits == "") && (k == |text| <==> rest == "")
  {
    var k := SkipDigits(text, j);
    if k < |text| {
      DigitCharacters(0, text[k]);
    }
  }

  lemma {:induction false} TextParts(text: string, skipSpaces: bool)
    returns (spaces: string, sign: string, digits: string, rest: string)
    ensures Parts(text, skipSpaces, spaces, sign, digits, rest)
    ensures var j := DigitsAt(text, skipSpaces);
            var k := SkipDigits(text, j);
            k == |text| - |rest| && (k == j <==> digits == "") && (k == |text| <==> rest == "")
            && IntegerValue(text, skipSpaces) == if sign == "-" then 0 - DigitsValue(digits) else DigitsValue(digits)
  {
    var i, j := SignAt(text, skipSpaces), DigitsAt(text, skipSpaces);
    var k := SkipDigits(text, j);
    spaces, sign, digits, rest := CutParts(text, i, j, k);
    SignPart(text, skipSpaces, sign);
    DigitPart(text, j, digits, rest);
    PartsHold(text, skipSpaces, spaces, sign, digits, rest);
    PartsValue(text, skipSpaces, sign, digits);
  }

  lemma {:induction false} PartsHold(
    text: string, skipSpaces: bool, spaces: string, sign: string, digits: string, rest: string)
    requires Joined(text, spaces, sign, digits, rest) && spaces == text[..SignAt(text, skipSpaces)]
    requires var i := SignAt(text, skipSpaces);
             && (sign == "" || sign == "+" || sign == "-")
             && (sign == "" && i < |text| ==> text[i] != '+' && text[i] != '-')
    requires AllDigits(digits) && (rest != "" ==> rest[0] !in "0123456789")
    ensures Parts(text, skipSpaces, spaces, sign, digits, rest)
  {
    SpacePart(text, skipSpaces, spaces);
    PartsFrom(text, skipSpaces, SignAt(text, skipSpaces), spaces, sign, digits, rest);
  }

  lemma {:induction false} PartsValue(text: string, skipSpaces: bool, sign: string, digits: string)
    requires var i, j := SignAt(text, skipSpaces), DigitsAt(text, skipSpaces);
             (sign == "-" <==> i < |text| && text[i] == '-') && digits == text[j..SkipDigits(text, j)]
    ensures AllDigits(digits)
    ensures IntegerValue(text, skipSpaces) == if sign == "-" then 0 - DigitsValue(digits) else DigitsValue(digits)
  {
  }

  lemma {:induction false} PartsFrom(
    text: string, skipSpaces: bool, i: nat, spaces: string, sign: string, digits: string, rest: string)
    requires i == |spaces| && Joined(text, spaces, sign, digits, rest)
    requires forall j :: 0 <= j < i ==> spaces[j] == ' ' || 9 <= spaces[j] as int <= 13
    requires (!skipSpaces ==> spaces == "")
             && (skipSpaces && i < |text| ==> text[i] != ' ' && !(9 <= text[i] as int <= 13))
    requires (sign == "" || sign == "+" || sign == "-")
             && (sign == "" && i < |text| ==> text[i] != '+' && text[i] != '-')
    requires AllDigits(digits) && (rest != "" ==> rest[0] !in "0123456789")
    ensures Parts(text, skipSpaces, spaces, sign, digits, rest)
  {
  }

  /** The same by the positions at which the parts begin. */
  ghost predicate ReadsAt(text: string, skipSpaces: bool, r: ReadResult) {
    var j := DigitsAt(text, skipSpaces);
    var k := SkipDigits(text, j);
    (r.Failed? <==> k == j) && r.consumed == k && (r.eof <==> k == |text|) &&
    (r.Read? ==> Canonical(r.value) && Value(r.value) == IntegerValue(text, skipSpaces))
  }

  lemma {:induction false} PartsRead(text: string, skipSpaces: bool, r: ReadResult)
    requires ReadsAt(text, skipSpaces, r)
    ensures ReadsParts(text, skipSpaces, r)
  {
    var spaces, sign, digits, rest := TextParts(text, skipSpaces);
    PartsOutcome(text, skipSpaces, r, spaces, sign, digits, rest);
  }

  lemma {:induction false} PartsOutcome(
    text: string, skipSpaces: bool, r: ReadResult, spaces: string, sign: string, digits: string, rest: string)
    requires Parts(text, skipSpaces, spaces, sign, digits, rest)
    requires (r.Failed? <==> digits == "") && r.consumed == |text| - |rest| && (r.eof <==> rest == "")
    requires r.Read? ==> Value(r.value) == if sign == "-" then 0 - DigitsValue(digits) else DigitsValue(digits)
    ensures ReadsParts(text, skipSpaces, r)
  {
  }

  /** As many digits as there are after an optional sign; without a digit the sign is consumed all the same. */
  method ReadInteger(text: string, skipSpaces: bool) returns (r: ReadResult)
    ensures ReadsAt(text, skipSpaces, r) && ReadsParts(text, skipSpaces, r)
  {
    r := ReadSigned(text, skipSpaces);
    PartsRead(text, skipSpaces, r);
  }

  method ReadSigned(text: string, skipSpaces: bool) returns (r: ReadResult)
    ensures ReadsAt(text, skipSpaces, r)
  {
    var i := SignAt(text, skipSpaces);
    var negative := false;
    if i < |text| && (text[i] == '+' || text[i] == '-') {
      negative := text[i] == '-';
      i := i + 1;
    }
    var result, k := ReadDigits(text, i);
    if k == i {
      return Failed(k, k == |text|);
    }
    if negative {
      result := Negate(result);
    }
    return Read(result, k, k == |text|);
  }

  /** The number spelled by the digits from position j on, and where they end. */
  method ReadDigits(text: string, j: nat) returns (result: BigInt, i: nat)
    requires j <= |text|
    ensures i == SkipDigits(text, j)
    ensures Canonical(result) && Value(result) == DigitsValue(text[j..i])
  {
    result, i := Inline(0), j;
    while i < |text| && IsDigit(text[i])
      invariant j <= i <= |text| && AllDigits(text[j..i]) && SkipDigits(text, i) == SkipDigits(text, j)
      invariant Canonical(result) && Value(result) == DigitsValue(text[j..i])
    {
      RunGrows(text, j, i);
      result := AppendDigit(result, CharDigit(text[i]));
      i := i + 1;
    }
  }

  // ---------- the JSON hooks ----------

  datatype Loaded = Loaded(value: BigInt) | Invalid

  /** Loads exactly the texts that are a sign or nothing and then digits up to the end. */
  method FromJson(data: string) returns (r: Loaded)
    ensures var j := DigitsAt(data, false);
            r.Loaded? <==> SkipDigits(data, j) > j && SkipDigits(data, j) == |data|
    ensures r.Loaded? ==> Canonical(r.value) && Value(r.value) == IntegerValue(data, false)
    ensures r.Loaded? <==> exists sign, digits :: JsonInteger(data, sign, digits)
    ensures forall sign, digits :: JsonInteger(data, sign, digits) && r.Loaded? ==>
              Value(r.value) == if sign == "-" then 0 - DigitsValue(digits) else DigitsValue(digits)
  {
    JsonLanguage(data);
    var read := ReadInteger(data, false);
    if read.Failed? || !read.eof {
      return Invalid;
    }
    return Loaded(read.value);
  }

  /** A sign or nothing, and at least one digit. */
  predicate JsonInteger(data: string, sign: string, digits: string) {
    (sign == "" || sign == "+" || sign == "-") && AllDigits(digits) && digits != "" && data == sign + digits
  }

  lemma {:induction false} JsonRead(data: string, sign: string, digits: string)
    requires JsonInteger(data, sign, digits)
    ensures var j := DigitsAt(data, false);
            SkipDigits(data, j) == |data| > j
            && IntegerValue(data, false) == if sign == "-" then 0 - DigitsValue(digits) else DigitsValue(digits)
  {
    var j := DigitsAt(data, false);
    assert j == |sign| by {
      if sign == "" {
        assert IsDigit(data[0]);
      }
    }
    assert data[j..] == digits;
    SkipAllDigits(data, j);
    assert data[j..|data|] == digits;
  }

  lemma {:induction false} JsonLanguage(data: string)
    ensures var j := DigitsAt(data, false);
            SkipDigits(data, j) > j && SkipDigits(data, j) == |data|
            <==> exists sign, digits :: JsonInteger(data, sign, digits)
    ensures forall sign, digits :: JsonInteger(data, sign, digits) ==>
              IntegerValue(data, false) == if sign == "-" then 0 - DigitsValue(digits) else DigitsValue(digits)
  {
    forall sign, digits | JsonInteger(data, sign, digits)
      ensures var j := DigitsAt(data, false);
              SkipDigits(data, j) == |data| > j
              && IntegerValue(data, false) == if sign == "-" then 0 - DigitsValue(digits) else DigitsValue(digits)
    {
      JsonRead(data, sign, digits);
    }
    var j := DigitsAt(data, false);
    if SkipDigits(data, j) == |data| > j {
      assert data[..j] == if j == 0 then "" else [data[0]];
      assert data[j..|data|] == data[j..] && data == data[..j] + data[j..];
      assert JsonInteger(data, data[..j], data[j..]);
    }
  }

  lemma {:induction false} SkipAllDigits(text: string, i: nat)
    requires i <= |text| && AllDigits(text[i..])
    ensures SkipDigits(text, i) == |text|
    decreases |text| - i
  {
    if i < |text| {
      assert IsDigit(text[i..][0]);
      assert text[i + 1..] == text[i..][1..];
      SkipAllDigits(text, i + 1);
    }
  }

  /** Text that does not start with white space is read the same way whether or not that is skipped. */
  lemma {:induction false} NothingSkipped(text: string)
    requires text != "" && !IsSpace(text[0])
    ensures DigitsAt(text, true) == DigitsAt(text, false)
    ensures IntegerValue(text, true) == IntegerValue(text, false)
  {
    assert SkipSpaces(text, 0) == 0;
  }

  lemma {:induction false} StartsPrinted(v: int)
    ensures DecimalText(v) != "" && !IsSpace(DecimalText(v)[0])
  {
    NatTextReads(if v < 0 then 0 - v else v);
    assert v >= 0 ==> IsDigit(NatText(v)[0]);
  }

  /** Printed text parses back to the printed integer and is consumed to the end. */
  lemma {:induction false} TextReads(v: int)
    ensures var t := DecimalText(v);
            var j := DigitsAt(t, false);
            SkipDigits(t, j) == |t| > j && IntegerValue(t, false) == v
  {
    var t := DecimalText(v);
    var n := if v < 0 then NatText(-v) else NatText(v);
    NatTextReads(if v < 0 then -v else v);
    var j := DigitsAt(t, false);
    assert t[j..] == n by {
      if v >= 0 {
        assert IsDigit(n[0]);
      }
    }
    SkipAllDigits(t, j);
    assert t[j..|t|] == n;
  }

  /** Also when leading white space is skipped. */
  lemma {:induction false} TextReadsEither(v: int, skipSpaces: bool)
    ensures var t := DecimalText(v);
            var j := DigitsAt(t, skipSpaces);
            SkipDigits(t, j) == |t| > j && IntegerValue(t, skipSpaces) == v
  {
    TextReads(v);
    StartsPrinted(v);
    NothingSkipped(DecimalText(v));
  }

  /** Printing to a stream and reading back, whether or not the stream skips white space. */
  method StreamRoundTrip(x: BigInt, skipSpaces: bool) returns (r: ReadResult)
    requires Canonical(x)
    ensures r == Read(x, |DecimalText(Value(x))|, true)
  {
    var text := ToStringFallback(x);
    r := ReadInteger(text, skipSpaces);
    TextReadsEither(Value(x), skipSpaces);
    CanonicalUnique(r.value, x);
  }

  method JsonRoundTrip(x: BigInt) returns (r: Loaded)
    requires Canonical(x)
    ensures r == Loaded.Loaded(x)
  {
    var text := ToStringFallback(x);
    r := FromJson(text);
    TextReads(Value(x));
    CanonicalUnique(r.value, x);
  }
}
