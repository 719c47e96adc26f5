# A Dafny model of tvm-ffi's core

This project models the parts of tvm-ffi whose correctness is hardest to see from the code and proves what they promise, for all inputs, all runs and all reachable states. `dafny verify dfyconfig.toml` checks everything.

* **Arbitrary-precision integers.** A signed integer is a little-endian array of 64-bit two's-complement words (`Words.Signed`), kept canonical: no redundant sign word, and anything that fits int64 is stored inline. Words are unsigned 64-bit patterns. Where the source relies on wrap-around the model writes `Wrap`; where it relies on there being none, as in the quotient digit estimate and the gathered double significand, the bound is proved. The routines are loops over word arrays, and each is proved to compute exactly the mathematical integer. Modules: `Radix`, `Words`, `Bits`, `Additive`, `Multiply`, `Magnitude`, `Compare`, `Quotients`, `ScalarDivision`, `DigitSteps`, `LongDivision`, `Normalization`, `KnuthDivision`, `RoundedDivision`, `Shifts`, `BitwiseOps`, `Operators`, `Decimal`, `Rounding`, `Doubles`.
* **The type table.** Type indices come from nested reserved intervals with an overflow area at the end. `TypeTable.Registry` changes its table step by step and refines the function `Register`; the invariant is proved over every run of registrations, failing ones included. `TypeDump` is the reverse counting pass.
* **Data-type text.** `DType` says what the scanner and the two printers mean, `DTypeParser` has the pointer-moving loops, `DTypeGrammar` the accepted language and the printed characters as a grammar, `DTypePieces` and `DTypeRoundTrip` the round-trip theorems.
* **Once-initialisation.** `InitOnce` is a step machine: each atomic load, lock, store and exchange of any number of threads on any number of handle addresses is one step. `InitCalls` says what the calls return and do, by the actions their thread took.
* **Value cells.** `StableHash` and `AnyEquality` cover hashing and equality across inline and heap strings and integers. `AnyOwnership` is a runtime of cells, object fields and reference counts in which freeing an object releases what its fields own, recursively; `AnyEffects` tells what every place holds after each operation.
* **List slices.** `Slices` says which positions a slice means; `ListSlice` has the growable buffer with its in-place moves, the native slice replacement with its alias snapshot, and the Python slice operations over them.

Assumptions about the surroundings:

* Type table: static indices are below 128, carry no child slots and have a parent whose child slots may overflow; child-slot counts are not negative; a dynamic type has nonzero depth; `Object` reserves no child slots. The depth check against the parent is the code's own and is part of the model.
* Compiled-in subtype test (`TypeTable.CompiledInstanceExact`): the constants compiled into the caller agree with the table; its overflow flag may be more permissive than the table's. Its Object case assumes that no other root type may have children, which `TypeTable.OneRootRun` keeps.
* Equality hooks: a type that registers custom equality also registers a hash that respects it, and its equality is symmetric and transitive. For the integer hooks this is proved.
* Once-initialisation: the user's `init_func` reports a nonzero code, or code 0 with a null or non-null handle. Nothing else is assumed about what it or `deinit_func` does, except that neither re-enters the two functions on the same thread.

Where the code does not do what its documentation or a reader would expect, the model follows the code and the exact condition is proved:

* A right shift by 2^64 or more returns the bare sign. That is the floor exactly when nothing but the sign is left (`Shifts.RightShiftFallback`, `Operators.ShiftRight`); `Shifts.SignIsNotFloor` is an operand for which it is not.
* The data-type text does not determine every type: `DTypeRoundTrip.TextRoundTrip` gives the exact domain, `DTypeRoundTrip.DefaultedWidth` a type outside it and `DTypeRoundTrip.FormsAgree` what is read back outside it.
* The compiled-in test for a final type does not recognise descendants, while the table accepts them below any final type that was registered with room or overflow (`TypeTable.FinalMisses`); without both the test is exact (`TypeTable.FinalExact`).
* The scanner accumulates digits modulo 2^64 before its range check, so some very long widths are accepted (`DTypeRoundTrip.LongRunsWrap`, `DTypeRoundTrip.WrappedWidth`).

## Model

| member | source | states |
|---|---|---|
| Words.Normalize | include/tvm/ffi/big_int.h:299-308 | pruning redundant sign words keeps the integer and yields the canonical form |
| Words.CanonicalUnique | include/tvm/ffi/big_int.h:299-308 | an integer has exactly one canonical representation |
| Words.CanonicalOutside | include/tvm/ffi/big_int.h:299-308 | an integer stored canonically in n words does not fit n-1 words |
| Additive.AddFallback | include/tvm/ffi/big_int.h:569-588 | the carry loop with one guard word gives the exact signed sum, canonical |
| Additive.SubFallback | include/tvm/ffi/big_int.h:595-615 | the borrow loop gives the exact signed difference, canonical |
| Additive.NegateFallback | include/tvm/ffi/big_int.h:621-637 | exact negation, also for the most negative value of a width |
| Additive.ComplementFallback | include/tvm/ffi/big_int.h:768-773 | bitwise complement is -x-1 |
| Additive.NegateInplace | include/tvm/ffi/big_int.h:882-890 | in-place negation modulo 2^(64n) |
| Multiply.WideMul | include/tvm/ffi/big_int.h:653-670 | four 32x32 products with their wrapped middle sums are the 128-bit product |
| Multiply.MulColumn | include/tvm/ffi/big_int.h:658-682 | product plus existing word plus carry never exceeds 128 bits and is split exactly |
| Multiply.MulRow | include/tvm/ffi/big_int.h:652-685 | one row adds x * b to the window in place and touches nothing below it |
| Multiply.SignCorrection | include/tvm/ffi/big_int.h:686-703 | the two shifted subtractions turn the unsigned product into the signed one |
| Multiply.MulFallback | include/tvm/ffi/big_int.h:644-705 | the exact signed product for all operands |
| Magnitude.AbsValue | include/tvm/ffi/big_int.h:852-876 | the words read through AbsWord with FirstNonzero are exactly those of the absolute value |
| Magnitude.FirstNonzero | include/tvm/ffi/big_int.h:852-856 | the index of the lowest nonzero word |
| Compare.EqualFallback | include/tvm/ffi/big_int.h:539-545 | comparing canonical words decides equality of the integers |
| Compare.CompareFallback | include/tvm/ffi/big_int.h:552-562 | the three-way result is the order of the integers, for any two word arrays |
| Compare.MinFallback | include/tvm/ffi/big_int.h:1186-1191 | the smaller integer |
| Compare.MaxFallback | include/tvm/ffi/big_int.h:1198-1203 | the larger integer |
| Compare.FromByteArray | src/ffi/object.cc:625-644 | importing any padded little-endian byte string gives its integer, canonical; a partial word is refused |
| Compare.ImportExport | src/ffi/object.cc:625-649 | importing any padded content and exporting again gives the bytes of the canonical words of the same integer, the one content all inputs of that integer lead to |
| Compare.ContentNormalForm | src/ffi/object.cc:646-649 | two exported contents are the same bytes exactly when the integers are equal |
| Compare.ContentCanonical | src/ffi/object.cc:625-649 | exporting an integer and importing its bytes gives the same representation back |
| ScalarDivision.SmallStep | include/tvm/ffi/big_int.h:919-927 | two 32-bit half steps divide a 128-bit value exactly by a divisor below 2^32 |
| ScalarDivision.Digit | include/tvm/ffi/big_int.h:932-947 | the lambda returns the true radix-2^32 digit with the remainder below the divisor; its wrapped subtraction is exact |
| ScalarDivision.LargeStep | include/tvm/ffi/big_int.h:928-953 | the normalized 128/64 step is exact and its residual shift loses no bits |
| ScalarDivision.DivideMagnitude | include/tvm/ffi/big_int.h:905-955 | dividing the magnitude word by word, in either branch |
| ScalarDivision.DivRemFallback | include/tvm/ffi/big_int.h:897-961 | a = q*b + r with r zero or of a's sign and below the divisor, for every int64 divisor; zero divisor exactly when reported |
| DigitSteps.Estimate | include/tvm/ffi/big_int.h:1037-1058 | the refined digit fits the three leading window digits and refinement takes at most two steps |
| DigitSteps.EstimateBounds | include/tvm/ffi/big_int.h:1051-1062 | the refined digit is the true one or one too high |
| DigitSteps.SubtractProduct | include/tvm/ffi/big_int.h:1059-1075 | the in-place multiply-and-subtract pass over the window, with its final borrow |
| DigitSteps.QuotientDigit | include/tvm/ffi/big_int.h:1036-1089 | a window below divisor * 2^32 gives the exact digit and leaves the remainder; one add-back suffices |
| LongDivision.LongDivide | include/tvm/ffi/big_int.h:1034-1096 | the whole digit loop with packed quotient words divides exactly |
| KnuthDivision.NormalizeOperands | include/tvm/ffi/big_int.h:993-1030 | both magnitudes are scaled by the same power of two and the first window is below the divisor |
| Normalization.ExtractRemainder | include/tvm/ffi/big_int.h:1097-1106 | shifting the last window back gives the remainder |
| KnuthDivision.DivideMagnitudes | include/tvm/ffi/big_int.h:988-1106 | Algorithm D on magnitudes |
| KnuthDivision.DivRemFallback | include/tvm/ffi/big_int.h:968-1112 | exact truncating division for all a and all canonical b |
| Quotients.NativeTruncates | include/tvm/ffi/big_int.h:396-431 | the native quotient and remainder satisfy a = q*b + r with r zero or of a's sign |
| Quotients.TruncIs | include/tvm/ffi/big_int.h:968-1112 | truncating division is determined by its equation |
| Quotients.NativeFloors | include/tvm/ffi/big_int.h:439-481 | the floor quotient and remainder satisfy a = q*b + r with r zero or of b's sign |
| Quotients.FloorUnique | include/tvm/ffi/big_int.h:1155-1179 | floor division is determined by its equation |
| RoundedDivision.TruncDivFallback | include/tvm/ffi/big_int.h:1119-1121 | the truncating quotient, or division by zero |
| RoundedDivision.TruncModFallback | include/tvm/ffi/big_int.h:1128-1148 | the quotient-free path and the general one give the same remainder |
| RoundedDivision.SmallModulus | include/tvm/ffi/big_int.h:1128-1148 | the half-word remainder loop is the remainder of the magnitude |
| RoundedDivision.FloorDivFallback | include/tvm/ffi/big_int.h:1155-1163 | the floor quotient, or division by zero |
| RoundedDivision.FloorModFallback | include/tvm/ffi/big_int.h:1170-1179 | the floor remainder, zero or of b's sign |
| Shifts.ShiftCount | include/tvm/ffi/big_int.h:780-789 | a count is negative, fits 64 bits with its value, or is too large |
| Shifts.LeftShiftFallback | include/tvm/ffi/big_int.h:796-815 | x * 2^count; an overflowing count is refused exactly when x is not zero |
| Shifts.LeftShiftWords | include/tvm/ffi/big_int.h:796-815 | whole-word and partial-word parts together multiply by 2^shift |
| Shifts.RightShiftWords | include/tvm/ffi/big_int.h:822-843 | dropping words and shifting with sign fill is floor(x / 2^shift) |
| Shifts.RightShiftFallback | include/tvm/ffi/big_int.h:822-843 | floor(x / 2^count) if and only if the count is below 2^64 or only the sign is left, which holds for every operand of at most 2^58 words; for counts of 2^64 and more the result is the bare sign |
| Shifts.SignIsNotFloor | include/tvm/ffi/big_int.h:822-843 | an operand of 2^58 + 1 words for which the sign is not the floor |
| BitwiseOps.BitwiseFallback | include/tvm/ffi/big_int.h:712-762 | and, or and xor agree with the operator at every bit of the infinite sign extensions |
| BitwiseOps.SignedBit | include/tvm/ffi/big_int.h:712-762 | bit k of the integer is bit k mod 64 of word k div 64 of the sign-extended array |
| BitwiseOps.BitsDetermine | include/tvm/ffi/big_int.h:712-762 | an integer is determined by its bits, so the previous contracts fix the result |
| Operators.AddOverflow | include/tvm/ffi/big_int.h:332-344 | the portable test holds exactly when the sum leaves int64, otherwise the sum is exact |
| Operators.SubOverflow | include/tvm/ffi/big_int.h:352-364 | the same for the difference |
| Operators.MulOverflow | include/tvm/ffi/big_int.h:372-388 | the quotient-based test holds exactly when the product leaves int64 |
| Operators.TruncDivOverflow | include/tvm/ffi/big_int.h:396-408 | zero divisor, INT64_MIN / -1 as the only overflow, or the exact quotient |
| Operators.TruncModOverflow | include/tvm/ffi/big_int.h:416-431 | the exact remainder, also for INT64_MIN and -1 |
| Operators.FloorDivOverflow | include/tvm/ffi/big_int.h:439-455 | the exact floor quotient or overflow |
| Operators.FloorModOverflow | include/tvm/ffi/big_int.h:463-481 | the exact floor remainder |
| Operators.LeftShiftOverflow | include/tvm/ffi/big_int.h:506-520 | the inline test holds exactly when the shifted value leaves int64, for every count |
| Operators.RightShift | include/tvm/ffi/big_int.h:528-532 | the inline right shift is floor division by 2^b for every count |
| Operators.Plus | include/tvm/ffi/big_int.h:1471-1473 | fast path and fallback both give the exact canonical sum |
| Operators.Minus | include/tvm/ffi/big_int.h:1474-1476 | the exact canonical difference on both paths |
| Operators.Times | include/tvm/ffi/big_int.h:1477-1479 | the exact canonical product on both paths |
| Operators.TruncDiv | include/tvm/ffi/big_int.h:1480-1482 | the truncating quotient on both paths, error exactly for a zero divisor |
| Operators.TruncMod | include/tvm/ffi/big_int.h:1483-1485 | the truncating remainder on both paths |
| Operators.FloorDiv | include/tvm/ffi/big_int.h:1486-1488 | the floor quotient on both paths |
| Operators.FloorMod | include/tvm/ffi/big_int.h:1489-1491 | the floor remainder on both paths |
| Operators.ShiftLeft | include/tvm/ffi/big_int.h:1498-1500 | a * 2^b on both paths, with both errors exactly characterised |
| Operators.ShiftRight | include/tvm/ffi/big_int.h:1511-1513 | floor(a / 2^b) with the exact condition for counts of 2^64 and more, where the result is the bare sign |
| Operators.BitOperator | include/tvm/ffi/big_int.h:1501-1506 | every bit of the result on both paths |
| Operators.Negate | include/tvm/ffi/big_int.h:1535-1542 | exact negation on both paths, INT64_MIN included |
| Operators.Complement | include/tvm/ffi/big_int.h:1544-1549 | -x-1 on both paths |
| Operators.Min | include/tvm/ffi/big_int.h:1507-1508 | the smaller integer on both paths |
| Operators.Max | include/tvm/ffi/big_int.h:1509-1510 | the larger integer on both paths |
| Operators.Equal | include/tvm/ffi/big_int.h:1514-1515 | equality of integers across inline and heap operands |
| Operators.OrderOf | include/tvm/ffi/big_int.h:1518-1525 | the order of integers across inline and heap operands |
| Operators.FromUint64 | include/tvm/ffi/big_int.h:1303-1317 | an unsigned 64-bit value is kept exactly, in canonical form |
| Operators.AsUint64 | include/tvm/ffi/big_int.h:1319-1343 | present exactly for integers in [0, 2^64), with that value |
| Decimal.DivideByTen | include/tvm/ffi/big_int.h:1271-1299 | one pass divides the magnitude in place by ten and returns the digit |
| Decimal.ToStringFallback | include/tvm/ffi/big_int.h:1271-1299 | prints the digits of the magnitude without a leading zero, behind a minus sign only for negatives; the loop terminates |
| Decimal.NatTextReads | include/tvm/ffi/big_int.h:1271-1299 | that text has no leading zero and its digits spell the number |
| Decimal.DigitCharacters | include/tvm/ffi/big_int.h:1271-1299 | the digits are the characters 0 to 9 with their values, and no others |
| Decimal.DigitsSpell | include/tvm/ffi/big_int.h:1600-1605 | a further digit makes ten times the number and that digit |
| Decimal.ReadInteger | include/tvm/ffi/big_int.h:1589-1610 | the text splits into white space if that may be skipped, a sign + or - or none, digits and the rest, each as long as it can be; reading fails exactly without digits, reports what was consumed and gives the signed value of the digits |
| Decimal.FromJson | src/ffi/container.cc:150-160 | accepts exactly an optional + or - and at least one digit, with nothing around them, and gives that integer |
| Decimal.JsonRoundTrip | src/ffi/container.cc:144-160 | reading back the printed text gives the identical representation, for every integer |
| Decimal.StreamRoundTrip | include/tvm/ffi/big_int.h:1589-1614 | printing to a stream and reading back gives the identical value and consumes everything, whether or not white space is skipped |
| Rounding.NearestDouble | include/tvm/ffi/big_int.h:1237-1265 | the rounded significand is at least as close as any other 53-bit significand at any exponent, fractional ones included |
| Rounding.RoundedClose | include/tvm/ffi/big_int.h:1237-1265 | the error is at most half a unit in the last place, and a tie ends even (section 4.3.1 of IEEE 754-2019) |
| Doubles.ToDoubleFallback | include/tvm/ffi/big_int.h:1237-1265 | overflow exactly when the rounded magnitude reaches 2^1024, otherwise the double is that rounded value; zero gives +0 |
| Doubles.ToDouble | include/tvm/ffi/big_int.h:1355-1360 | the inline cast and the fallback round and overflow by the same rule; zero gives +0 |
| Doubles.FromDoubleFallback | include/tvm/ffi/big_int.h:1209-1231 | truncation toward zero of every finite double; NaN and infinities are the two errors |
| Doubles.RangeExact | include/tvm/ffi/big_int.h:1345-1353 | the test against -2^63 and, exclusively, 2^63 selects exactly the doubles whose truncation fits int64 |
| Doubles.FromDouble | include/tvm/ffi/big_int.h:1345-1353 | the range-tested inline path and the fallback give the one canonical truncation, inline exactly when the test holds |
| Doubles.TruncatedUnique | include/tvm/ffi/big_int.h:1209-1231 | a double truncates to one integer only |
| Doubles.DoubleRoundTrip | include/tvm/ffi/big_int.h:1209-1265 | an integer survives the trip to double and back if and only if it has at most 53 significant bits and is below 2^1024 in magnitude |
| Doubles.IntegralRoundTrip | include/tvm/ffi/big_int.h:1209-1265 | every double that is a nonzero integer survives the trip to integer and back |
| Doubles.DoubleUnique | include/tvm/ffi/big_int.h:1237-1265 | one normalized double stands for a nonzero integer |
| TypeTable.RegisterInvariant | src/ffi/object.cc:123-193 | every well-formed registration, failing or not, keeps intervals nested or disjoint, their members descendants and the key index right |
| TypeTable.RegisterPreserves | src/ffi/object.cc:123-193 | no registered entry is ever overwritten; only the count of handed-out slots changes |
| TypeTable.RegisterStores | src/ffi/object.cc:123-193 | a success fills a wholly free interval with the requested type below its parent's line, a failure registers nothing |
| TypeTable.RegisterAnswers | src/ffi/object.cc:123-193 | for every kind of request, read off the table before it: the answer, when it is a failure, the size of the table after it and how far each interval is handed out |
| TypeTable.KeyKeepsIndex | src/ffi/object.cc:126-129 | a registered key gives the same index again, and changes nothing, after any run of further registrations |
| TypeTable.RunInvariant | src/ffi/object.cc:123-193 | both, over every run of registrations |
| TypeTable.IntervalMembers | src/ffi/object.cc:64-116 | every type inside an interval descends from its owner; for an owner that cannot overflow the interval holds exactly its descendants |
| TypeTable.InstanceExact | examples/abi_overview/example_code.c:135-148 | the subtype lookup is true exactly for reflexive ancestors, so the index shortcut loses nothing |
| TypeTable.CompiledInstanceExact | include/tvm/ffi/object.h:1220-1252 | the compiled-in test is true exactly for reflexive ancestors, by interval and lookup; for a final type as long as the tested type is no descendant, and for Object exactly when it is Object or no root |
| TypeTable.FinalExact | include/tvm/ffi/object.h:1225-1228 | for a final type registered without room and without overflow the equality test is exact in every reachable table |
| TypeTable.FinalMisses | include/tvm/ffi/object.h:1225-1228 | while a final type has room or overflow below it, a well-formed child can be registered that the test misses |
| TypeTable.OneRootRun | src/ffi/object.cc:388-445 | over every run that opens no second root, Object stays the only root with children, which the Object case above rests on |
| TypeTable.Registry.GetOrAllocTypeIndex | src/ffi/object.cc:123-193 | the in-place registration refines Register and keeps the invariant; a known key leaves everything as it is and gives the one index its type is stored under; for a new key the exact success condition, the chosen index (the fixed one, else the parent's next free slots, else behind the table) and which slots are handed out, also by a failing call |
| TypeTable.Registry.constructor | src/ffi/object.cc:388-445 | registering the built-in types establishes the invariant, with Object as the only root that can have children |
| TypeDump.CountChildren | src/ffi/object.cc:343-359 | one reverse pass leaves in each slot the exact number of strict descendants |
| TypeDump.ReachedStep | src/ffi/object.cc:343-359 | what the pass adds at one index is exactly the descendants reached through it |
| DTypeRoundTrip.TextRoundTrip | src/ffi/dtype.cc:163-430 | parsing either printed form gives the type back if and only if it is in the stated domain |
| DTypeRoundTrip.DefaultedWidth | src/ffi/dtype.cc:415-423 | a type outside the domain: an int of width 0 comes back as int32 |
| DTypeRoundTrip.FormsAgree | include/tvm/ffi/dtype.h:188-285 | the long and the abbreviated form of every named type read back alike, and as what |
| DTypeRoundTrip.MatchUnique | src/ffi/dtype.cc:299-309 | no text matches two variant names, whatever follows the name |
| DTypeRoundTrip.AnyOrder | src/ffi/dtype.cc:311-354 | hence the order of the prefix attempts does not matter |
| DTypeRoundTrip.LongRunsWrap | src/ffi/dtype.cc:239-251 | after any basic name in either form, a digit run of any length, leading zeros included, is accepted exactly when its value modulo 2^64 is at most 255 |
| DTypeRoundTrip.WrappedWidth | src/ffi/dtype.cc:239-251 | the text of every k * 2^64 + 32 is read as width 32 |
| DTypeGrammar.AcceptedLanguage | src/ffi/dtype.cc:197-430 | over every text: it is read as a type exactly when it is empty or `void`, or splits wholly into a listed name or alias, a digit run and lane text, with the code, bits and lanes those stand for |
| DTypeGrammar.CustomLanguage | src/ffi/dtype.cc:409-410 | a text is left to the registry of custom types exactly when it begins with that word |
| DTypeGrammar.PrintedForms | src/ffi/dtype.cc:163-190 | the characters of the long and the short form of every named type |
| DTypeParser.ParseDigits | src/ffi/dtype.cc:239-251 | the wrapping loop consumes the maximal digit run and yields its value modulo 2^64, refusing 2^32 and more |
| DTypeParser.ParseLanes | src/ffi/dtype.cc:257-280 | fixed and scalable lane counts, with every rejected form |
| DTypeParser.MatchFloatVariant | src/ffi/dtype.cc:299-309 | the end of the name exactly when the name matches |
| DTypeParser.StringViewToDLDataType | src/ffi/dtype.cc:197-430 | reads exactly the language of DTypeGrammar.Names, leaves texts beginning with `custom` to their registry and refuses every other; inverts both printers on the whole domain |
| DTypeParser.DLDataTypeToString | src/ffi/dtype.cc:163-190 | text exactly for the named codes and a custom exit exactly from 129 on; which characters it has; it reads back as stated and as the type itself exactly in the domain |
| DTypeParser.DTypeAbbrev | include/tvm/ffi/dtype.h:188-285 | the same promises for the abbreviated text |
| InitOnce.StepInvariant | src/ffi/init_once.cc:59-94 | every step of any thread keeps the invariant, and the release store always replaces null |
| InitOnce.EveryRun | src/ffi/init_once.cc:59-94 | over every interleaving: stores minus successful exchanges is 1 for a non-null handle and 0 otherwise, and no stored handle is deinitialised twice or while current |
| InitOnce.QuiescentConservation | src/ffi/init_once.cc:59-94 | with all threads idle each stored handle is current or was deinitialised, never both |
| InitOnce.SingleInitialisation | src/ffi/init_once.cc:59-81 | without deinit init_func hands over at most one handle, at most one is stored, and every call returning 0 saw that handle |
| InitCalls.EveryReturn | src/ffi/init_once.cc:59-81 | in every interleaving an init call that returns has code 0 exactly when it names a handle stored at its address; the code is init_func's own when that failed, -1 when it gave null, and 0 with the very handle it gave otherwise; nothing else is reported |
| InitCalls.EveryReport | src/ffi/init_once.cc:59-81 | the same for every entry of the log of returns, by the call of its thread it belongs to |
| InitCalls.InitRuns | src/ffi/init_once.cc:59-81 | from any state with the mutex free an undisturbed init call reaches its end; its code, the handle it leaves and the log, for every outcome of init_func |
| InitCalls.DeinitTakes | src/ffi/init_once.cc:83-94 | in every interleaving the exchange leaves its own handle null and every other as it was, and a handle that was there is what the thread goes on to deinitialise |
| InitCalls.DeinitFrees | src/ffi/init_once.cc:83-94 | deinit_func is called on exactly what the thread took, a handle stored at the address of its call |
| InitCalls.DeinitRuns | src/ffi/init_once.cc:83-94 | an undisturbed deinit call deinitialises the handle if there is one and leaves null |
| StableHash.StableHashBytes | include/tvm/ffi/base_detail.h:265-344 | aligned and unaligned loops with the 4/2/1 tail: the last of the partial results that start at 0 and take each 8-byte little-endian chunk by multiplying with 1099511628211, adding, wrapping at 64 bits and reducing modulo 2147483647 |
| StableHash.LoadTail | include/tvm/ffi/base_detail.h:317-343 | the byte-union tail is the little-endian value of the last one to seven bytes |
| StableHash.InlineHashAgrees | include/tvm/ffi/base_detail.h:351-358 | the inline string hash equals the hash of the same bytes on the heap |
| StableHash.InlineRoundTrip | include/tvm/ffi/string.h:213-233 | a string of at most seven bytes fits the payload word zero-padded and reads back |
| StableHash.PaddingMatters | include/tvm/ffi/base_detail.h:351-358 | for up to seven bytes the inline hash and the hash of the bytes agree exactly when the payload above the length vanishes modulo the hash modulus, as it does for zero padding |
| StableHash.CombineInjective | include/tvm/ffi/base_detail.h:252-256 | under one key, combining never merges two values |
| StableHash.CombineBits | include/tvm/ffi/base_detail.h:252-256 | bit for bit the key exclusive-or the wrapped sum of the value, the constant, 64 times the key and a quarter of it |
| StableHash.BigIntHashAgrees | include/tvm/ffi/big_int.h:1362-1366 | equal integers have equal hashes |
| AnyEquality.TextEqual | include/tvm/ffi/any.h:818-885 | text cells are equal exactly when of one kind with the same bytes, wherever those are kept |
| AnyEquality.TextHash | include/tvm/ffi/any.h:718-750 | a text hash depends only on kind and bytes |
| AnyEquality.HookEqual | include/tvm/ffi/any.h:818-885 | unless both cells are text, only identical cells are equal and those of one object type whose registered equality equates them |
| AnyEquality.HookHash | include/tvm/ffi/any.h:718-750 | text hashes its bytes under the index of its heap type, an object with a registered hash that hash, and anything else its payload, under the type index |
| AnyEquality.Reflexive | include/tvm/ffi/any.h:818-885 | equality is reflexive |
| AnyEquality.Symmetric | include/tvm/ffi/any.h:818-885 | equality is symmetric |
| AnyEquality.Transitive | include/tvm/ffi/any.h:818-885 | equality is transitive on well-formed cells |
| AnyEquality.EqualImpliesHash | include/tvm/ffi/any.h:711-885 | equal cells have equal hashes |
| AnyEquality.IntegerHooksConsistent | src/ffi/container.cc:109-127 | the hooks registered for heap integers meet the assumption made of hooks |
| AnyEquality.IntegerEqual | src/ffi/container.cc:113-115 | inline and heap integer cells are equal exactly when they hold the same integer |
| AnyOwnership.SwapKeeps | include/tvm/ffi/any.h:281 | swapping keeps every count |
| AnyOwnership.OpenKeeps | include/tvm/ffi/object.h:316-380 | when the count reaches zero nothing refers to the object any more |
| AnyOwnership.PutSwapState | include/tvm/ffi/any.h:318-347 | construct, swap and destroy amount to replacing the value |
| AnyOwnership.SelfCopy | include/tvm/ffi/any.h:318-322 | copying a cell onto itself leaves every count where it was |
| AnyOwnership.Runtime.DecRef | include/tvm/ffi/object.h:316-380 | gives back one reference; frees exactly at the last one, with the fields' references in turn |
| AnyOwnership.Runtime.Reset | include/tvm/ffi/any.h:269-279 | empties a cell and drops its value |
| AnyOwnership.Runtime.CopyConstruct | include/tvm/ffi/any.h:300-304 | one more count, nothing else |
| AnyOwnership.Runtime.MoveConstruct | include/tvm/ffi/any.h:309-313 | the source is left empty and no count changes |
| AnyOwnership.Runtime.CopyAssign | include/tvm/ffi/any.h:318-322 | the copied value is in place, the old value dropped, self-assignment a no-op |
| AnyOwnership.Runtime.MoveAssign | include/tvm/ffi/any.h:327-331 | the same for moves |
| AnyOwnership.Runtime.InplaceConvertAnyViewToAny | include/tvm/ffi/any.h:228-251 | every view becomes an owned value with its reference in hand and the invariant kept: an object gains one count, raw text keeps kind and bytes, a successful rvalue conversion moves the one reference and uses its source up, a second one is refused |
| AnyOwnership.Runtime.AssignFromView | include/tvm/ffi/any.h:343-347 | assignment from a view, also from a view of the target itself |
| AnyOwnership.Runtime.BuildObject | include/tvm/ffi/any.h:300-304 | a new object whose fields are copies of given cells |
| AnyOwnership.Runtime.Perform | include/tvm/ffi/any.h:228-347 | each operation has exactly its effect on cells, counts and objects, and keeps everything that holds between operations |
| AnyOwnership.Runtime.Run | include/tvm/ffi/any.h:228-347 | over any run the states before and after each operation are linked by its effect, and in every one each object ever made is live with its strong count equal to its owners, or freed with none; freed objects stay freed, and no owned cell holds a raw string, byte-array pointer or rvalue reference |
| AnyOwnership.RunAt | include/tvm/ffi/any.h:228-347 | read off at any point of a run: both neighbouring states are sound and the operation had its effect, or was not enabled and changed nothing |
| AnyEffects.EffectContents | include/tvm/ffi/any.h:228-347 | what every place holds after each operation, by the index and payload it had before: copies, moves leaving index, padding and payload zero, swaps, converted views (text of at most seven bytes inline, longer text in a new object), everything else untouched |
| AnyEffects.RunContents | include/tvm/ffi/any.h:228-347 | the same between any two neighbouring states of any run |
| Slices.DeadIsSelected | python/tvm_ffi/container.py:302-321 | the visited positions are exactly those selected by the clamped bounds and the step, for both signs of the step |
| Slices.DeadIsHit | python/tvm_ffi/container.py:302-321 | told from the bounds as given (negative ones from the end, those outside the list as the nearest end, omitted ones as the end the step starts from or runs to): a position is visited exactly when it lies between the two and a whole number of steps from the first |
| Slices.DeadRemoved | python/tvm_ffi/container.py:302-321 | deletion leaves the elements at exactly the other positions, in their order |
| Slices.GetReads | python/tvm_ffi/container.py:119-121 | reading a slice gives the elements at those positions, as many as there are steps before the end |
| Slices.EraseStep | python/tvm_ffi/container.py:311-318 | erasing below everything already erased does not move later targets |
| ListSlice.DeleteSlice | python/tvm_ffi/container.py:302-321 | the list holds the elements at exactly the positions the bounds and step do not hit, in order; only a zero step is an error |
| Slices.Conservation | python/tvm_ffi/container.py:302-321 | what deletion leaves and what the slice reads are together the whole list |
| ListSlice.AssignSlice | python/tvm_ffi/container.py:274-296 | told from the bounds as given: step 1 always succeeds and puts the replacement in place of what lies between them; another step succeeds exactly when there are as many values as positions, and puts the k-th value at the k-th position and nothing else anywhere; a zero step is an error |
| ListSlice.AssignThenGet | python/tvm_ffi/container.py:274-296 | reading an assigned extended slice gives the replacement |
| ListSlice.ListReplaceSlice | src/ffi/container.cc:208-222 | replaces the range also when the replacement is the list itself; which bounds are refused, and that refusal changes nothing |
| ListSlice.ListObj.EraseRange | include/tvm/ffi/container/seq_base.h:188-196 | in-place erase of a range, with the exact error condition |
| ListSlice.ListObj.EraseAt | include/tvm/ffi/container/seq_base.h:175-181 | in-place erase of one element |
| ListSlice.ListObj.InsertFrom | include/tvm/ffi/container/seq_base.h:223-237 | in-place insertion of another list, growing the buffer as needed |
| ListSlice.Extend | python/tvm_ffi/container.py:353-356 | appends the values through an empty slice at the end |

## Left out

- Shifts.RightShiftFallback: exact as it stands, with the failing operand in `Shifts.SignIsNotFloor`; on operands longer than 2^58 words the sign returned for counts of 2^64 and more need not be the floor, as its contract says.
- InitOnce.EveryRun: interleavings of atomic steps only; the visibility that acquire and release ordering gives to other memory is not modelled.
- TypeTable.RegisterInvariant: type indices, counters and slot counts are unbounded integers, so overflow of their 32-bit fields is not modelled.
- TypeDump.CountChildren: the sums of reserved child slots that the same pass prints are not modelled.
- AnyOwnership.Runtime.DecRef: weak counts, the packing of both counts in one word and concurrent counting are not modelled; an object id stands for one lifetime, so reuse of addresses is not either; a freed object's fields are reset in index order.
- AnyOwnership.Runtime.Reset: the cell is emptied before its reference is given back, where the source gives it back first; a destructor looking at the cell meanwhile is not modelled.
- AnyOwnership.Runtime.BuildObject: how arrays, lists and maps convert and store their elements is reduced to copying cells into fields, and fields are not reassigned.
- AnyEquality.AnyEqual: custom hooks are total functions; a hook that throws is not modelled.
- DType.FromText: custom type names need a registry of callbacks; any text starting with `custom` is reported as such and not read further.
- ListSlice.AssignSlice: the replacement is taken as a sequence; iterating a Python iterable that changes the list meanwhile is not modelled.
- KnuthDivision.DivRemFallback: the source's one scratch allocation for dividend, divisor and quotient is three arrays here.
- Operators with a primitive int64 operand: the dispatch is the one of two integers with that operand inline.
- Allocation failure and size overflow of allocations, and the text of error messages: errors are result tags.
- The inline casts between int64 and double appear as truncation and as rounding to nearest, ties to even, which is what the language and the default rounding mode give.
- The library functions frexp, ldexp, std::to_string and the integer extraction of streams appear as their mathematical meaning.
- Big-endian byte order and compiler intrinsics: the portable little-endian branches are modelled.
- Type attributes, fields, methods and metadata of registered types: bookkeeping beside the index allocation.
- Python list insert, pop, append, clear, reverse, iteration and comparison: easy members beside the slices.
- Structural hashing and equality, maps, functions, modules, tensors, devices, backtraces and packaging: not part of this model.
