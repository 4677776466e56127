# Jule compiler core: UTF-16 runtime helpers, type nodes, literal evaluation, error table

This project models four small pieces of the Jule compiler and proves properties of them.

- **`Utf16`** (`utf16.dfy`, with the arithmetic in `bits.dfy`) models the C++ runtime helpers for UTF-16.
  - `decode_rune` combines a high and a low surrogate into one rune. `decode` turns a slice of 16-bit code units into runes.
  - `encode_rune` is meant to split a supplementary rune into a surrogate pair. As written it returns the two ten-bit halves without the surrogate bases (see "## Findings"). `encode` turns runes into code units.
  - The copy loop of `to_utf8_str` is modelled too.
  - `decode` and `encode` allocate a buffer and fill it through a write cursor. Here they are methods over Dafny arrays, proved against index-based specification functions (`DecodeFrom`, `EncodeFrom`).
  - `decode_rune` and `encode_rune` are modelled twice. `DecodeRune` and `EncodeRune` keep the C++ operator grouping exactly as written. `DecodeRuneIntended` and `EncodeRuneIntended` are corrected to section 2 of RFC 2781 (see "## Findings").
  - The stream functions take a `Grouping`. `AsWritten` uses the rune functions as written; the methods `Decode`, `Encode` and `DecodeWide` are proved against this stream. `Rfc` uses the corrected rune functions and is the corrected codec.
  - As written, decode and encode are mutual inverses only on runes in [0, 0xD800) or [0xE000, 0x10000), and on units without surrogates. With `Rfc` they are inverses on all Unicode scalar values and on all well-formed UTF-16.
  - `|`, `&`, `<<` and `>>` on non-negative integers are defined arithmetically in `Bits`, bit by bit, with bridge lemmas to `*`, `/` and `%`.
- **`Ast`** (`ast.dfy`) models the type node of the syntax tree.
  - The node is a token plus an optional kind.
  - It has the primitive-type queries `is_primitive`, `IsI8` … `IsAny` and `IsVoid`.
  - It has the canonical text `As_text` of a type and of its identifier, reference and multi-return kinds.
  - The multi-return text is built by a loop over an accumulator, so it is a method proved against a recursive join.
- **`Sema`** (`sema.dfy`) models the literal evaluator.
  - It covers value data (`Data`), the nil and void tests, and void data.
  - It covers the nil, string and boolean literal constructors and the `eval_lit` / `eval_expr_kind` / `eval` dispatch. An evaluation failure (Go's nil result) is `None`.
- **`X`** (`x_errors.dfy`) models the table of error message templates as a constant map, with lookup facts.

`Wrappers` (`wrappers.dfy`) holds the `Option` type.

## Model

| member | source | states |
|---|---|---|
| Utf16.CastU16 | api/utf16.hpp:76 | the cast to a 16-bit unit keeps every value in [0, 0xFFFF] unchanged (it is reduction modulo 2^16) |
| Utf16.PairBits | api/utf16.hpp:43-44 | for ten-bit a and b, `(a << 10) \| (b + 0x10000)` is a*1024 + b, plus 0x10000 only when bit 6 of a is clear |
| Utf16.PairBitsRange | api/utf16.hpp:43-44 | the as-written pair expression lies in [0x10000, 0xFFFFF] |
| Utf16.DecodeRune | api/utf16.hpp:37-47 | as written: 0xFFFD unless R1 is a high and R2 a low surrogate; for a pair, a value in [0x10000, 0xFFFFF] |
| Utf16.DecodeRuneValue | api/utf16.hpp:43-44 | closed form of the as-written decode_rune on a pair |
| Utf16.DecodeRuneMatchesRfc | api/utf16.hpp:43-44 | the as-written result equals 0x10000 + (R1-0xD800)*1024 + (R2-0xDC00) exactly when bit 6 of R1-0xD800 is clear, in particular whenever R1 < 0xD840 |
| Utf16.EncodeMasks | api/utf16.hpp:88-89 | `(0xD800 + (r >> 10)) & 0x3ff` is r / 1024 and `(0xDC00 + r) & 0x3ff` is r % 1024 |
| Utf16.HighMask | api/utf16.hpp:88 | the first as-written component is r / 1024 |
| Utf16.LowMask | api/utf16.hpp:89 | the second as-written component is r % 1024 |
| Utf16.EncodeRune | api/utf16.hpp:80-91 | as written: (0xFFFD, 0xFFFD) below 0x10000 and above 0x10FFFF; otherwise ((R-0x10000)/1024, (R-0x10000)%1024), both in [0, 0x3FF] |
| Utf16.DecodeRuneIntended | api/utf16.hpp:37-47 | corrected decode_rune: 0xFFFD unless a high/low pair, and 0x10000 + (R1-0xD800)*1024 + (R2-0xDC00) for a pair |
| Utf16.IntendedPairBits | api/utf16.hpp:43-44 | for ten-bit a and b, `(a << 10) \| b` is a*1024 + b |
| Utf16.EncodeRuneIntended | api/utf16.hpp:80-91 | corrected encode_rune: (0xFFFD, 0xFFFD) out of range; otherwise (0xD800 + (R-0x10000)/1024, 0xDC00 + (R-0x10000)%1024) |
| Utf16.IntendedMasks | api/utf16.hpp:88-89 | `(r >> 10) & 0x3ff` is r / 1024 and `r & 0x3ff` is r % 1024, for r up to 0xFFFFF |
| Utf16.IntendedRuneRoundTrip | api/utf16.hpp:80-91 | every supplementary rune encodes to a high/low surrogate pair that decodes back to it |
| Utf16.IntendedPairRoundTrip | api/utf16.hpp:37-47 | every surrogate pair decodes to a supplementary rune that encodes back to the same pair |
| Utf16.PairRune | api/utf16.hpp:37-47 | the rune a pair yields under a grouping: 0xFFFD unless R1 is a high and R2 a low surrogate; for a pair, a supplementary rune, below 0x100000 as written |
| Utf16.StepRune | api/utf16.hpp:53-66 | definition: the rune decode emits at i, namely the unit itself below 0xD800 or from 0xE000 on, the pair's rune under the grouping when a high surrogate is followed by a low one, 0xFFFD otherwise |
| Utf16.StepWidth | api/utf16.hpp:56-63 | decode consumes one unit, or two on a pair, and never runs past the input |
| Utf16.DecodeFrom | api/utf16.hpp:52-68 | decoding s[i..] yields at most \|s\| - i runes |
| Utf16.DecodeSpec | api/utf16.hpp:49-70 | decode yields at most as many runes as there are units |
| Utf16.DecodeAt | api/utf16.hpp:53-66 | the loop body's classification: the unit itself below 0xD800 or from 0xE000 on, as-written decode_rune of a high/low pair (width 2), 0xFFFD otherwise (width 1) |
| Utf16.Decode | api/utf16.hpp:49-70 | filling a buffer of \|S\| runes through the cursor n (never past i) returns exactly the as-written decoding |
| Utf16.DecodeScalars | api/utf16.hpp:54-66 | under either grouping every decoded rune is a Unicode scalar value: never a surrogate, never above 0x10FFFF |
| Utf16.DecodeNonSurrogates | api/utf16.hpp:54-55 | units without surrogates decode to themselves |
| Utf16.LoneSurrogate | api/utf16.hpp:64-66 | a surrogate that does not start a pair (a lone low surrogate, a high surrogate not followed by a low one, also at the end) yields 0xFFFD and consumes one unit |
| Utf16.SurrogatePair | api/utf16.hpp:56-63 | a high surrogate followed by a low one yields one supplementary rune and consumes two units; as written the rune is decode_rune's closed form, at most 0xFFFFF; corrected it is the value of section 2.2 of RFC 2781 |
| Utf16.RuneUnits | api/utf16.hpp:102-121 | the units of one rune: itself for [0, 0xD800) and [0xE000, 0x10000), a single 0xFFFD for other runes outside [0x10000, 0x10FFFF]; for a supplementary rune, as written the two ten-bit values ((R-0x10000)/1024, (R-0x10000)%1024), corrected a surrogate pair |
| Utf16.EncodeFrom | api/utf16.hpp:101-122 | encoding rs[i..] yields one unit per rune plus one per rune in [0x10000, 0x10FFFF] |
| Utf16.EncodeSpec | api/utf16.hpp:93-124 | encode's output length is exactly \|runes\| + #{v in [0x10000, 0x10FFFF]} |
| Utf16.EncodedLength | api/utf16.hpp:94-98 | the first loop counts \|runes\| + #{v >= 0x10000} |
| Utf16.PutRune | api/utf16.hpp:102-121 | one iteration writes exactly the rune's as-written units at the cursor, leaves the units before and after them alone and advances the cursor by their number |
| Utf16.Encode | api/utf16.hpp:93-124 | counting, allocating and then filling through the cursor returns exactly the as-written encoding |
| Utf16.CountSupplementaryBound | api/utf16.hpp:94-98 | runes in [0x10000, 0x10FFFF] are no more than runes >= 0x10000 |
| Utf16.EncodeFitsAllocation | api/utf16.hpp:99-117 | the allocated buffer is large enough for every write at the cursor |
| Utf16.EncodeConcat | api/utf16.hpp:101-122 | encoding works rune by rune: encode(a + b) = encode(a) + encode(b) |
| Utf16.EncodeBmpIdentity | api/utf16.hpp:102-108 | runes in [0, 0xD800) and [0xE000, 0x10000) are copied unchanged |
| Utf16.EncodeIdentityOnlyBmp | api/utf16.hpp:102-121 | encode copies its input unchanged only if every rune is in [0, 0xD800) or [0xE000, 0x10000) |
| Utf16.EncodeNeverSurrogate | api/utf16.hpp:102-121 | as written, no unit encode emits is a surrogate, not even for a supplementary rune |
| Utf16.DecodeOfEncode | api/utf16.hpp:49-124 | as written, decode returns encode's units unchanged, as runes |
| Utf16.RoundTrip | api/utf16.hpp:49-124 | as written, decode(encode(rs)) == rs exactly when every rune of rs is in [0, 0xD800) or [0xE000, 0x10000) |
| Utf16.EncodeOfDecode | api/utf16.hpp:49-124 | as written, encode(decode(s)) == s exactly when s holds no surrogate unit |
| Utf16.EncodeWellFormed | api/utf16.hpp:101-122 | under either grouping, whatever the runes, encode emits well-formed UTF-16 |
| Utf16.RoundTripRfc | api/utf16.hpp:49-124 | corrected codec: decode(encode(rs)) == rs exactly when every rune of rs is a Unicode scalar value |
| Utf16.EncodeOfDecodeRfc | api/utf16.hpp:49-124 | corrected codec: encode(decode(s)) == s exactly when s is well-formed UTF-16 |
| Utf16.CodePage | api/utf16.hpp:74-76 | the copy loop keeps the length and casts each wide character to a code unit modulo 2^16 |
| Utf16.DecodeWide | api/utf16.hpp:72-78 | to_utf8_str decodes, without the string conversion, the truncated copies of the wide characters |
| Utf16.DecodeRuneMisgroupsPair | api/utf16.hpp:43-44 | as written, a pair with high surrogate 0xD840 decodes to 0x10000 + low bits instead of 0x20000 + low bits |
| Utf16.EncodeRuneDropsSurrogateBase | api/utf16.hpp:88-89 | as written, U+10000 encodes to (0, 0) instead of (0xD800, 0xDC00) |
| Utf16.SupplementaryRoundTripFails | api/utf16.hpp:80-91 | as written, encode_rune then decode_rune maps U+10000 to 0xFFFD; corrected, to U+10000 |
| Utf16.DecodeMisgroupsPair | api/utf16.hpp:37-70 | as written, decode turns the units 0xD840 0xDC00 into U+10000; corrected, into U+20000 |
| Utf16.EncodeDropsSurrogateBase | api/utf16.hpp:80-124 | as written, encode writes U+10000 as 0x0000 0x0000, which decode returns as two NUL runes; corrected, as 0xD800 0xDC00, which decodes back to U+10000 |
| Ast.IsPrimitive | src/ast/ast.go:41-46 | definition: `is_primitive`, false for a type with a kind, otherwise a data-type token whose kind text is the keyword |
| Ast.IsPrim | src/ast/ast.go:47-62 | definition: the queries `IsI8` … `IsAny`, each `is_primitive` of its own keyword |
| Ast.Keyword | src/ast/ast.go:47-62 | definition: the keyword text `KND_I8` … `KND_ANY` each query passes |
| Ast.IsVoid | src/ast/ast.go:63 | definition: `IsVoid`, a type without a kind whose token is `ID_NA` |
| Ast.TypeText | src/ast/ast.go:79-84 | definition: `Type.As_text`, "" for a nil kind, otherwise the kind's text |
| Ast.KindText | src/ast/ast.go:85-103 | definition: `As_text` of the identifier, reference and multi-return kinds |
| Ast.KeywordPrimitive | src/ast/ast.go:47-62 | a token text read as a primitive type is spelled as that type's keyword |
| Ast.KeywordRoundTrip | src/ast/ast.go:47-62 | the sixteen keywords are distinct: each reads back as its own type |
| Ast.KindedNotPrimitive | src/ast/ast.go:41-44 | once a kind is attached, `is_primitive` and every `IsI8` … `IsAny` are false |
| Ast.PrimitiveUnresolved | src/ast/ast.go:45 | without a kind, `is_primitive(k)` holds iff the token is a data-type token spelled k |
| Ast.PrimMatchesPrimitiveOf | src/ast/ast.go:47-62 | the query for p holds iff the type is the primitive type p |
| Ast.AtMostOnePrimitive | src/ast/ast.go:47-62 | at most one of `IsI8` … `IsAny` holds |
| Ast.KeywordTokenIsPrimitive | src/ast/ast.go:41-62 | a kind-less data-type token spelled as p's keyword answers p's query and no other |
| Ast.VoidNotPrimitive | src/ast/ast.go:63 | a void type answers no primitive query |
| Ast.Texts | src/ast/ast.go:95-96 | the element texts, one per element, in order |
| Ast.AccumulatedStep | src/ast/ast.go:95-100 | one iteration appends the element's text, and a comma unless it is the last, to the accumulator |
| Ast.MultiRetText | src/ast/ast.go:92-103 | the loop returns "(" + the element texts joined by "," + ")" |
| Ast.TextTransparency | src/ast/ast.go:79-91 | nil kind and nil reference give ""; a reference or a nested type has the text of its element |
| Ast.IdentText | src/ast/ast.go:85 | an identifier kind's text is the identifier |
| Ast.MultiRetShape | src/ast/ast.go:92-103 | the text starts with '(' and ends with ')', and is "()" iff there are no elements or one element with empty text |
| Ast.MultiRetLength | src/ast/ast.go:92-103 | for n >= 1 elements, the length is 2 + (n - 1) + the sum of the element text lengths |
| Ast.MultiRetReadBack | src/ast/ast.go:92-103 | when no element text has a comma, splitting the inner text at commas gives back the element texts, and there are exactly n - 1 commas |
| Ast.MultiRetAmbiguity | src/ast/ast.go:92-103 | the empty list and a single element with empty text both render as "()" |
| Sema.IsNil | src/sema/eval.go:22 | definition: `Is_nil`, the data has no kind |
| Sema.IsVoid | src/sema/eval.go:24 | definition: `Is_void`, the data has a type node whose own kind is nil |
| Sema.NilNotVoid | src/sema/eval.go:22-24 | data is never both nil and void |
| Sema.BuildVoidData | src/sema/eval.go:26-32 | void, not nil, and mutable, lvalue and constant all false |
| Sema.IsUnsafe | src/sema/eval.go:48 | evaluation is never in an unsafe scope |
| Sema.LitNil | src/sema/eval.go:50-59 | nil, not void, constant, neither mutable nor lvalue |
| Sema.LitStr | src/sema/eval.go:61-70 | neither nil nor void, constant, neither mutable nor lvalue, of the primitive type `str` |
| Sema.LitBool | src/sema/eval.go:72-81 | neither nil nor void, constant, neither mutable nor lvalue, of the primitive type `bool` |
| Sema.EvalLit | src/sema/eval.go:83-97 | fails iff the literal is neither nil, nor a string, nor a boolean; a success keeps constant ⇒ ¬mutable ∧ ¬lvalue and is never void |
| Sema.EvalExprKind | src/sema/eval.go:99-108 | every kind other than a literal fails |
| Sema.Eval | src/sema/eval.go:112-114 | a success comes from a literal and is constant, neither mutable nor lvalue |
| Sema.EvalLitOrder | src/sema/eval.go:83-97 | the tie-break order: nil before string before boolean |
| Sema.EvalOutcome | src/sema/eval.go:99-114 | evaluation succeeds iff the expression is a classified literal; the result is nil data exactly for a nil literal, else str or bool constant data |
| Sema.EvalKeepsConstantInvariant | src/sema/eval.go:112-114 | every result keeps constant ⇒ ¬mutable ∧ ¬lvalue and is not the void data |
| X.Errors | pkg/x/errors.go:4-63 | definition: the 58 message templates, key by key |
| X.ErrorText | pkg/x/errors.go:4-63 | a lookup yields the template of a known name and Go's zero value "" for an unknown one |
| X.OperatorNotForString | pkg/x/errors.go:15 | `operator_notfor_string` is in the table with an "operator not defined for" template |
| X.OperatorNotForRune | pkg/x/errors.go:16 | the same for `operator_notfor_rune` |
| X.OperatorNotForNull | pkg/x/errors.go:17 | the same for `operator_notfor_null` |
| X.OperatorNotForBool | pkg/x/errors.go:18 | the same for `operator_notfor_bool` |
| X.OperatorNotForAny | pkg/x/errors.go:19 | the same for `operator_notfor_any` |
| X.OperatorNotForFloat | pkg/x/errors.go:20 | the same for `operator_notfor_float` |
| X.OperatorNotForInt | pkg/x/errors.go:21 | the same for `operator_notfor_int` |
| X.OperatorNotForUint | pkg/x/errors.go:22 | the same for `operator_notfor_uint` |
| X.OperatorNotForPointer | pkg/x/errors.go:23 | the same for `operator_notfor_pointer` |
| X.OperatorNotForPrefix | pkg/x/errors.go:15-23 | all nine `operator_notfor_*` templates start with "this operator is not defined for " and name an operand after it |
| X.NameNotDefined | pkg/x/errors.go:24 | `name_not_defined` maps to "name is not defined" |
| X.NoEntryPoint | pkg/x/errors.go:8 | `no_entry_point` maps to "entry point (main) function is not defined" |
| X.EntryPointReturn | pkg/x/errors.go:28 | `entrypoint_have_return` maps to "entry point is cannot have return type" |
| X.EntryPointParameters | pkg/x/errors.go:29 | `entrypoint_have_parameters` maps to "entry point is cannot have parameter(s)" |
| X.FileNotXSuffix | pkg/x/errors.go:5 | the `file_not_x` template ends in ": ", ready for a file name |

## Left out

- The conversion of the decoded runes to a string at api/utf16.hpp:77 is not modelled, because it is runtime code outside this model. `DecodeWide` stops at the runes.
- `wchar_t` has a platform-dependent width. A wide character is modelled as an unbounded integer that is cast modulo 2^16.
- The `i32` overload of decode declared at api/utf16.hpp:28 has no definition, so it is not modelled.
- `int_julet` counters (`_n`, `_i`) are unbounded integers, so overflow on inputs beyond 2^63 elements is not modelled. Slice indexing is checked by Dafny's array bounds instead of the runtime's.
- Nil pointers are not modelled. A nil `*Type` element of a multi-return list, which would make Go panic, has no model. A nil data pointer also has no model. A nil reference element is modelled as `None`.
- Each literal constructor allocates a fresh `Data`. The model has values, not pointers, so identity and aliasing of `Data` are not modelled.
- The `lex` package is not part of this model. Its `Is_str` and `Is_bool`, and `LitExpr.Is_nil`, are uninterpreted function parameters (`Lexicon`). The kind constants are their keyword texts, and the token ids are distinct named values.
- `build_prim_type` is not part of this model. It becomes the constructor `Prim(name)`.
- The evaluator's `_Sema` and `_Lookup` fields are not modelled, since nothing in the modelled code uses them. The `Value` record (src/sema/eval.go:35-38) is not modelled either, since no modelled operation uses it.
- Two table facts are not stated:
  - that the table has 58 distinct names;
  - that every template is non-empty.
  Both need every key literal compared with every other (1653 string comparisons), which is beyond the verifier's budget. The entries themselves are all in `X.Errors`, listed in reverse order of the table's lines; the order of a map display does not change the map.
- `Errors` is a package-level `var`. Nothing in the modelled code changes it, so it is a constant here.
- pkg/xset/xset.go (`Load`, a wrapper around JSON unmarshalling) and pkg/x/x.go (build-time constants and process-global settings) are not part of this model, since they have no logic of their own.

## Findings

| source | as written | input that shows it | evidently intended | confidence | as-written member | corrected member |
|---|---|---|---|---|---|---|
| api/utf16.hpp:43-44 | `(_R1-0xD800)<<10 \| (_R2-0xDC00) + 0x10000`: `+` binds tighter than `\|`, so 0x10000 is or-ed into the shifted high bits and is lost when bit 6 of R1-0xD800 is set | R1 = 0xD840 with any low surrogate R2: yields 0x10000 + (R2-0xDC00) instead of 0x20000 + (R2-0xDC00) | `(((R1-0xD800)<<10) \| (R2-0xDC00)) + 0x10000`, as in section 2.2 of RFC 2781 | not executed | Utf16.DecodeRuneMisgroupsPair | Utf16.DecodeRuneIntended |
| api/utf16.hpp:88-89 | `0xD800 + (_R>>10)&0x3ff` and `0xDC00 + _R&0x3ff`: `+` binds tighter than `&`, so the surrogate bases are masked away | R = 0x10000: yields (0, 0) instead of (0xD800, 0xDC00), and decoding that gives 0xFFFD | `0xD800 + ((_R>>10)&0x3ff)` and `0xDC00 + (_R&0x3ff)`, as in section 2.1 of RFC 2781 | not executed | Utf16.EncodeRuneDropsSurrogateBase | Utf16.EncodeRuneIntended |

For the corrected decode_rune, `Utf16.IntendedPairRoundTrip` proves the intended property: every pair decodes to a supplementary rune that encodes back to the pair. For the corrected encode_rune, `Utf16.IntendedRuneRoundTrip` proves the converse. `Utf16.SupplementaryRoundTripFails` shows the as-written pair for U+10000 decoding to 0xFFFD. At the level of decode and encode, `Utf16.DecodeMisgroupsPair` and `Utf16.EncodeDropsSurrogateBase` exhibit the two inputs above, and `Utf16.RoundTrip` and `Utf16.EncodeOfDecode` confine the as-written round trips to text without supplementary runes or surrogates. With the corrected rune functions (grouping `Rfc`), `Utf16.RoundTripRfc` and `Utf16.EncodeOfDecodeRfc` prove the round trips in both directions on all scalar values and all well-formed UTF-16.
