# leptjson (tutorial 02) in Dafny

A model of `tutorial02/leptjson.c`, a recursive-descent parser for the JSON
scalars `null`, `true`, `false` and numbers. The parser reads a
NUL-terminated text through a cursor (`lept_context`), writes its result
into a caller-owned record (`lept_value`: a discriminant and a double
payload) and returns one of five status codes: OK, EXPECT_VALUE,
INVALID_VALUE, ROOT_NOT_SINGULAR, NUMBER_TOO_BIG.

Layout:

- `lept_types.dfy`, module `LeptTypes`: the discriminant `LeptType`, the
  `Status` codes, the `Double` payload (a binary64 bit pattern that is never
  interpreted), and the interface of `strtod`: a function `Strtod` from the
  text at the cursor to a `Conversion` (returned double, whether `errno` is
  `ERANGE`, characters consumed). `TooBig` is the overflow test of line 170.
- `number_dfa.dfy`, module `NumberDfa`: the ten states of the number
  validator, its transition function `Step` (the body of the `switch`),
  `Scan`/`Validate` (the loop run to the terminator plus the final
  acceptance test), and the number grammar of section 6 of RFC 8259 written
  independently over digit runs (`JsonNumber`). The lemmas prove, state by
  state and then for the whole validator, exactly which texts give OK,
  which give ROOT_NOT_SINGULAR, and that everything else gives
  INVALID_VALUE.
- `leptjson.dfy`, module `LeptJson`: the classes `Value` (the record, with
  `GetType`/`GetNumber`) and `Context` (the cursor `pos` into the read-only
  text `json`), whose methods are the C functions with their loops and
  in-place updates; the top-level method `Parse`. Each method is proved
  against a specification function of the input and the old state
  (`SkipWs`, `LiteralSpec`, `NumberSpec`, `ValueSpec`, `ParseSpec`), and the
  lemmas state what those functions promise.

The input text is a `seq<char>` whose last element, and only NUL, is the
terminator (`Terminated`). The cursor is an index into it.

How the code behaves, and what the model reproduces:

- The validator scans the whole rest of the input up to the terminator,
  not just a number prefix. So `"1 "` is INVALID_VALUE, and `"0 "` is
  ROOT_NOT_SINGULAR, which the validator returns itself from the
  leading-zero state and the number path passes on.
- INT_DIGIT is not an accepting state. So an integer of two or more digits
  with no fraction and no exponent (`"12"`) is INVALID_VALUE, while
  `"12.5"` and `"12e3"` are OK. `ValidateOk` states this exactly: OK iff
  RFC 8259 number and not a bare multi-digit integer.
- RFC 8259 accepts `12` and, as a document, `1 `; this code rejects both,
  and the model follows the code.
- On NUMBER_TOO_BIG the payload has already been written but the
  discriminant has not; the driver reset it to NULL beforehand, so every
  failure leaves the discriminant NULL (`FailureLeavesNull`).

## Model

| member | source | states |
|---|---|---|
| NumberDfa.Step | tutorial02/leptjson.c:71-154 | One transition of the validator. A missing transition returns ROOT_NOT_SINGULAR in the leading-zero state and INVALID_VALUE in every other state. Only the start and leading-minus states reach the leading-zero state, and only on `'0'`. No transition returns to the start state. |
| NumberDfa.Scan | tutorial02/leptjson.c:69-161 | Running the automaton to the terminator returns only OK, INVALID_VALUE or ROOT_NOT_SINGULAR. At the terminator it is OK exactly in the four accepting states. |
| NumberDfa.NoRootNotSingularLater | tutorial02/leptjson.c:99-151 | Once past the start, leading-minus and leading-zero states, the validator can only return OK or INVALID_VALUE. |
| NumberDfa.ScanExpDigit | tutorial02/leptjson.c:147-151 | From EXP_DIGIT the rest is accepted iff it is all digits. |
| NumberDfa.ScanExp | tutorial02/leptjson.c:133-139 | From EXP the rest is accepted iff it is an optional sign followed by at least one digit. |
| NumberDfa.ScanFracDigit | tutorial02/leptjson.c:125-131 | From FRAC_DIGIT the rest is accepted iff it is a digit run followed by an optional exponent. |
| NumberDfa.ScanDot | tutorial02/leptjson.c:119-123 | From DOT at least one digit is required, then an optional exponent. |
| NumberDfa.ScanIntDigit | tutorial02/leptjson.c:109-117 | From INT_DIGIT the rest is accepted iff its digit run is followed by a non-empty fraction or exponent. The end of input is never accepted here. |
| NumberDfa.ScanLeadingDigit | tutorial02/leptjson.c:99-107 | From LEADING_DIGIT the end of input is accepted directly. After more digits, a fraction or an exponent must follow. |
| NumberDfa.ScanLeadingZero | tutorial02/leptjson.c:91-97 | From LEADING_ZERO the result is OK iff an optional fraction and exponent follow. It is ROOT_NOT_SINGULAR iff the next character is anything but `.`, `e` or `E`. |
| NumberDfa.StartIsUnsigned | tutorial02/leptjson.c:73-89 | The start state behaves like the leading-minus state once one leading `-` is stripped. |
| NumberDfa.UnsignedZero | tutorial02/leptjson.c:83-97 | An unsigned part starting with `0`: OK iff no further digit follows and the fraction and exponent are well formed. ROOT_NOT_SINGULAR iff any other character follows. |
| NumberDfa.UnsignedDigit | tutorial02/leptjson.c:83-117 | An unsigned part starting with `1`-`9`: OK iff the fraction and exponent after the digit run are well formed and the text is not two or more digits alone. Never ROOT_NOT_SINGULAR. |
| NumberDfa.ScanUnsigned | tutorial02/leptjson.c:83-89 | Full characterisation of the validator after an optional minus, for OK and for ROOT_NOT_SINGULAR. |
| NumberDfa.ValidateOk | tutorial02/leptjson.c:65-161 | `validate_number` returns OK iff the rest of the text is one RFC 8259 number and not an integer of two or more digits without fraction or exponent (both directions). |
| NumberDfa.ValidateRootNotSingular | tutorial02/leptjson.c:91-97 | `validate_number` returns ROOT_NOT_SINGULAR iff a possibly negative zero is followed by a character other than `.`, `e`, `E` (both directions). |
| NumberDfa.ValidateInvalid | tutorial02/leptjson.c:65-161 | Every other text gives INVALID_VALUE (both directions). |
| NumberDfa.ValidateExamples | tutorial02/leptjson.c:65-161 | `"12"`, `"1."`, `"1e"`, `"-"`, `".5"`, `"1 "` give INVALID_VALUE. `"0"`, `"5"`, `"1.5"`, `"1e10"`, `"1e400"` give OK. `"0123"` and `"0 "` give ROOT_NOT_SINGULAR. |
| LeptJson.SkipWs | tutorial02/leptjson.c:38-43 | The skipper's landing point never lies before the start. Every character skipped is a space, tab, LF or CR. The character it stops on is not one of them, and it stops on the terminator at the latest. |
| LeptJson.Context.ParseWhitespace | tutorial02/leptjson.c:38-43 | The cursor loop moves the cursor to `SkipWs` of the old cursor and keeps it inside the text. |
| LeptJson.SkipWsToEnd | tutorial02/leptjson.c:38-43 | The skipper lands on the terminator iff everything from the cursor on is whitespace. |
| LeptJson.MatchLen | tutorial02/leptjson.c:48-59 | The number of keyword characters matched before the first mismatch. Those characters agree, the next one differs, and the count stays inside the text. |
| LeptJson.MatchLenIs | tutorial02/leptjson.c:48-59 | Any count with those properties is `MatchLen`: the mismatch point is unique. |
| LeptJson.LiteralOk | tutorial02/leptjson.c:45-62 | The literal matcher returns OK iff the text at the cursor begins with the keyword. Then the cursor has advanced by the keyword's length and the discriminant is the descriptor's. Otherwise the result is INVALID_VALUE, the record is untouched, and the cursor is left inside the keyword's span. |
| LeptJson.Context.ParseLiteral | tutorial02/leptjson.c:45-63 | The character loop produces exactly `LiteralSpec`'s status, cursor and record, and returns OK iff the keyword is present. |
| LeptJson.Context.ValidateNumber | tutorial02/leptjson.c:65-162 | The loop over a local copy of the cursor returns `Validate` of the text up to the terminator. It has no `modifies` clause, so the cursor and the record are unchanged. |
| LeptJson.Context.ParseNumber | tutorial02/leptjson.c:164-177 | The number path produces exactly `NumberSpec`: the validator's error is passed through untouched; the payload is written before the overflow test; NUMBER_TOO_BIG and the zero-length conversion leave the discriminant alone; on success the cursor advances by the consumed count and the discriminant becomes NUMBER. |
| LeptJson.NumberRejected | tutorial02/leptjson.c:166-168 | When the number path is taken and the validator rejects, the parse returns the validator's status and the record keeps a NULL discriminant and its old payload. |
| LeptJson.NumberOverflow | tutorial02/leptjson.c:169-171 | When the validator accepts and the conversion overflows, the parse returns NUMBER_TOO_BIG with the payload written and the discriminant NULL. |
| LeptJson.Context.ParseValue | tutorial02/leptjson.c:179-187 | The dispatcher produces exactly `ValueSpec`'s status, cursor and record. |
| LeptJson.ValueDispatch | tutorial02/leptjson.c:179-187 | EXPECT_VALUE is returned iff the lookahead is the terminator. `t`, `f` and `n` go to the true, false and null descriptors, and every other character goes to the number path. |
| LeptJson.Parse | tutorial02/leptjson.c:189-204 | `lept_parse` produces exactly `ParseSpec`'s status and record. On failure the discriminant is NULL. On an OK number the payload is the conversion of the text after the leading whitespace. |
| LeptJson.FailureLeavesNull | tutorial02/leptjson.c:194-203 | Whenever the parse is not OK, the discriminant is NULL, including on NUMBER_TOO_BIG. |
| LeptJson.ExpectValueIffBlank | tutorial02/leptjson.c:195-196 | The parse returns EXPECT_VALUE iff the text is empty or all whitespace (both directions). |
| LeptJson.LiteralDocument | tutorial02/leptjson.c:196-201 | A keyword after leading whitespace gives OK with the keyword's discriminant iff only whitespace follows it. Otherwise it gives ROOT_NOT_SINGULAR with a NULL discriminant, and the payload is untouched either way. |
| LeptJson.OkNumberIsJsonNumber | tutorial02/leptjson.c:164-204 | A parse that is OK with a NUMBER discriminant was given one RFC 8259 number, not a bare multi-digit integer, after leading whitespace. The conversion did not overflow, and the payload is its result. |
| LeptJson.JsonNumberDocument | tutorial02/leptjson.c:164-204 | Conversely, such a number after leading whitespace parses OK to the conversion's value when the conversion does not overflow and consumes the whole text. |
| LeptJson.BlankExamples | tutorial02/leptjson.c:189-204 | `""` and `" \t\n\r"` give EXPECT_VALUE. |
| LeptJson.KeywordAloneExamples | tutorial02/leptjson.c:21-23 | `"null"`, `"true"`, `"false"` give OK with NULL, TRUE, FALSE. |
| LeptJson.TrailingContentExamples | tutorial02/leptjson.c:196-201 | `"true x"`, `"truex"`, `"true false"` give ROOT_NOT_SINGULAR. |
| LeptJson.MisspeltExample | tutorial02/leptjson.c:50-57 | `"tru"` gives INVALID_VALUE. |
| LeptJson.RejectedNumberText | tutorial02/leptjson.c:166-168 | A candidate number with no leading whitespace that the validator rejects gives the validator's status, with the record's discriminant NULL. |
| LeptJson.LeadingZeroExamples | tutorial02/leptjson.c:91-97 | `"0123"` and `"0 "` give ROOT_NOT_SINGULAR for every conversion routine. |
| LeptJson.InvalidNumberExamples | tutorial02/leptjson.c:65-161 | `"12"`, `"1 "`, `"1e"`, `"1."`, `".5"` give INVALID_VALUE for every conversion routine. |
| LeptJson.OverflowExample | tutorial02/leptjson.c:169-171 | `"1e400"` gives NUMBER_TOO_BIG whenever the conversion reports overflow for it. |
| LeptJson.Value.GetType | tutorial02/leptjson.c:206-209 | `lept_get_type` reads back the stored discriminant. A null record is ruled out by the reference type. |
| LeptJson.Value.GetNumber | tutorial02/leptjson.c:211-214 | `lept_get_number` requires a NUMBER discriminant (the assert at line 212) and reads back the payload. |

## Left out

- `strtod`, `errno` and `HUGE_VAL` are foreign floating-point code. They are a parameter `strtod` of type `Strtod`. It returns the double as an uninterpreted bit pattern, whether `errno` is `ERANGE`, and a consumed count. The count is at most the length of the text before the terminator. The model does not say which double is produced, nor that the conversion of validated text consumes all of it.
- `errno` is never reset before `strtod` in the source. The model takes the `ERANGE` flag from the conversion's result. A stale `ERANGE` could only matter if `strtod` returned plus or minus `HUGE_VAL` without setting `ERANGE` itself. For text that passes the validator it returns plus or minus `HUGE_VAL` only on overflow, and then it sets `ERANGE` itself.
- The `EXPECT` macro (line 8) is defined but never used.
- The `assert` calls at lines 46, 192, 207 and 212 are preconditions, not runtime checks. The non-null checks on `v` (lines 192 and 207) hold because `Value` is a non-null reference type in Dafny. The check at line 46 on the descriptor holds because `ExpectType` is a datatype value, which is never null. `lept_get_number`'s is `GetNumber`'s `requires`.
- The missing `break` after the EXP_DIGIT case (lines 147-153) falls into an empty `default`, so it has no effect and nothing models it.
- `leptjson.h` is not part of this model. The discriminant and the status codes are declared directly in `LeptTypes`.
- Characters after the first NUL of a C string are never read, so the model's text has exactly one terminator, at its end. A keyword descriptor's text is kept without its terminator, and the loop test `*expect_str_temp != '\0'` becomes "characters of the keyword remain".
- Idempotence (parsing the same text twice gives the same status and value) holds because `ParseSpec` is a function. It has no lemma of its own.
- `Value.GetType`, `Value.GetNumber`: their contracts only say that the stored field is returned, because that is all the accessors do.
