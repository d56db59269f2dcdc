/** Shared vocabulary of the parser: the value discriminant, the five parse
    status codes, and the interface of the platform's decimal-to-double
    conversion (`strtod` with `errno`), which the parser calls but which is
    not part of the model. */
module LeptTypes {

  /** The discriminant of a parsed value (`lept_type`). */
  datatype LeptType = Null | False | True | Number

  /** The status codes a parse reports (`LEPT_PARSE_*`). */
  datatype Status = Ok | ExpectValue | InvalidValue | RootNotSingular | NumberTooBig

  /** A C `double`, kept as its IEEE-754 binary64 bit pattern and never
      interpreted: the model says which double is stored, not what it means. */
  type Double = bv64

  /** `HUGE_VAL` and `-HUGE_VAL`, that is +infinity and -infinity. */
  const HugeVal: Double := 0x7FF0_0000_0000_0000
  const NegHugeVal: Double := 0xFFF0_0000_0000_0000

  /** What one call of `strtod` yields: the double it returns, whether it left
      `errno == ERANGE`, and how many characters it consumed (the distance
      from the start pointer to `end`). */
  datatype Conversion = Conversion(value: Double, rangeError: bool, consumed: nat)

  /** `strtod` stops at the terminator: on the NUL-free text `t` it
      consumes at most `|t|` characters. */
  predicate StaysWithin(f: seq<char> -> Conversion, t: seq<char>) {
    f(t).consumed <= |t|
  }

  /** The conversion routine, as a function of the NUL-free text that starts
      at the cursor. */
  type Strtod = f: seq<char> -> Conversion | forall t :: StaysWithin(f, t)
    witness (t: seq<char>) => Conversion(0, false, 0)

  /** The overflow test of `lept_parse_number`: a range error whose result is
      plus or minus `HUGE_VAL`. An underflow (range error with a small result)
      is not an overflow. */
  predicate TooBig(c: Conversion) {
    c.rangeError && (c.value == HugeVal || c.value == NegHugeVal)
  }
}
