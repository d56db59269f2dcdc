/** The number validator of `validate_number`: a ten-state automaton that is
    run over the whole rest of the input, up to the terminator, and the JSON
    number grammar (section 6 of RFC 8259) that it is measured against. */
module NumberDfa {
  import opened LeptTypes

  /** The validator's states (the anonymous `enum` of `LEPT_NUMBER_*_STATE`). */
  datatype NumState =
    | Start | LeadingNegative | LeadingZero | LeadingDigit | IntDigit
    | Dot | FracDigit | Exp | ExpSign | ExpDigit

  /** One step of the automaton: a next state, or an early return. */
  datatype Transition = Next(state: NumState) | Fail(status: Status)

  predicate IsDigit(c: char) { '0' <= c <= '9' }
  predicate IsDigit1To9(c: char) { '1' <= c <= '9' }
  predicate IsExpMark(c: char) { c == 'e' || c == 'E' }

  /** The body of the `switch (cur_state)` for one character. A missing
      transition returns INVALID_VALUE everywhere except in the leading-zero
      state, which returns ROOT_NOT_SINGULAR; only the start and the
      leading-minus states can reach the leading-zero state. */
  function Step(st: NumState, c: char): (t: Transition)
    ensures t.Fail? ==> t.status == (if st == LeadingZero then RootNotSingular else InvalidValue)
    ensures t.Next? && t.state == LeadingZero ==> (st == Start || st == LeadingNegative) && c == '0'
    ensures t.Next? ==> t.state != Start
    ensures t.Next? && t.state == LeadingNegative ==> st == Start && c == '-'
  {
    match st
    case Start =>
      if c == '0' then Next(LeadingZero)
      else if c == '-' then Next(LeadingNegative)
      else if IsDigit1To9(c) then Next(LeadingDigit)
      else Fail(InvalidValue)
    case LeadingNegative =>
      if c == '0' then Next(LeadingZero)
      else if IsDigit1To9(c) then Next(LeadingDigit)
      else Fail(InvalidValue)
    case LeadingZero =>
      if IsExpMark(c) then Next(Exp)
      else if c == '.' then Next(Dot)
      else Fail(RootNotSingular)
    case LeadingDigit =>
      if c == '.' then Next(Dot)
      else if IsDigit(c) then Next(IntDigit)
      else if IsExpMark(c) then Next(Exp)
      else Fail(InvalidValue)
    case IntDigit =>
      if c == '.' then Next(Dot)
      else if IsDigit(c) then Next(IntDigit)
      else if IsExpMark(c) then Next(Exp)
      else Fail(InvalidValue)
    case Dot =>
      if IsDigit(c) then Next(FracDigit) else Fail(InvalidValue)
    case FracDigit =>
      if IsDigit(c) then Next(FracDigit)
      else if IsExpMark(c) then Next(Exp)
      else Fail(InvalidValue)
    case Exp =>
      if IsDigit(c) then Next(ExpDigit)
      else if c == '-' || c == '+' then Next(ExpSign)
      else Fail(InvalidValue)
    case ExpSign =>
      if IsDigit(c) then Next(ExpDigit) else Fail(InvalidValue)
    case ExpDigit =>
      if IsDigit(c) then Next(ExpDigit) else Fail(InvalidValue)
  }

  /** The states in which reaching the terminator is accepted. INT_DIGIT is
      not among them. */
  predicate Accepting(st: NumState) {
    st == LeadingZero || st == LeadingDigit || st == FracDigit || st == ExpDigit
  }

  /** The status the validator returns when it is in state `st` and `s` is
      what is left before the terminator. */
  function Scan(st: NumState, s: seq<char>): (r: Status)
    ensures r == Ok || r == InvalidValue || r == RootNotSingular
    ensures s == [] ==> (r == Ok <==> Accepting(st))
    decreases |s|
  {
    if s == [] then
      (if Accepting(st) then Ok else InvalidValue)
    else
      match Step(st, s[0])
      case Fail(e) => e
      case Next(next) => Scan(next, s[1..])
  }

  /** What `validate_number` returns for the text between the cursor and the
      terminator. */
  function Validate(t: seq<char>): Status {
    Scan(Start, t)
  }

  // ---------------------------------------------------------------------
  // The reference grammar: section 6 of RFC 8259,
  //   number = [ minus ] int [ frac ] [ exp ]
  //   int    = zero / ( digit1-9 *DIGIT )
  //   frac   = decimal-point 1*DIGIT
  //   exp    = e [ minus / plus ] 1*DIGIT
  // written over maximal digit runs rather than over automaton states.
  // ---------------------------------------------------------------------

  predicate AllDigits(s: seq<char>) {
    forall j :: 0 <= j < |s| ==> IsDigit(s[j])
  }

  /** The length of the longest all-digit prefix of `s`. */
  function DigitRun(s: seq<char>): (k: nat)
    ensures k <= |s|
    ensures AllDigits(s[..k])
    ensures k < |s| ==> !IsDigit(s[k])
  {
    if s == [] || !IsDigit(s[0]) then 0
    else
      var k := 1 + DigitRun(s[1..]);
      assert s[..k] == [s[0]] + s[1..][..k - 1];
      k
  }

  /** `exp` without its `e`: an optional sign, then at least one digit. */
  predicate ExpBody(r: seq<char>) {
    var d := if |r| > 0 && (r[0] == '+' || r[0] == '-') then r[1..] else r;
    |d| > 0 && AllDigits(d)
  }

  /** `[ exp ]` spanning all of `r`. */
  predicate ExpOpt(r: seq<char>) {
    r == [] || (IsExpMark(r[0]) && ExpBody(r[1..]))
  }

  /** `[ frac ] [ exp ]` spanning all of `r`. */
  predicate FracExpOpt(r: seq<char>) {
    if |r| > 0 && r[0] == '.' then
      var k := DigitRun(r[1..]);
      k > 0 && ExpOpt(r[1..][k..])
    else
      ExpOpt(r)
  }

  /** The text after an optional leading minus. */
  function Unsigned(t: seq<char>): seq<char> {
    if |t| > 0 && t[0] == '-' then t[1..] else t
  }

  /** `t` is exactly one JSON number. */
  predicate JsonNumber(t: seq<char>) {
    var u := Unsigned(t);
    var k := DigitRun(u);
    k > 0 && (u[0] == '0' ==> k == 1) && FracExpOpt(u[k..])
  }

  /** An integer of two or more digits with neither fraction nor exponent. */
  predicate BareMultiDigitInt(t: seq<char>) {
    var u := Unsigned(t);
    |u| >= 2 && AllDigits(u)
  }

  /** A (possibly negative) zero followed by a character that is neither a
      decimal point nor an exponent mark. */
  predicate ZeroThenOther(t: seq<char>) {
    var u := Unsigned(t);
    |u| >= 2 && u[0] == '0' && u[1] != '.' && !IsExpMark(u[1])
  }

  // ---------------------------------------------------------------------
  // The automaton, state by state, against the grammar.
  // ---------------------------------------------------------------------

  lemma {:induction false} DigitRunAll(s: seq<char>)
    ensures AllDigits(s) <==> DigitRun(s) == |s|
  {
    if DigitRun(s) < |s| {
      assert !IsDigit(s[DigitRun(s)]);
    } else {
      assert s[..DigitRun(s)] == s;
    }
  }

  /** From every state other than start, leading minus and leading zero, the
      validator can only return OK or INVALID_VALUE. */
  lemma {:induction false} NoRootNotSingularLater(st: NumState, s: seq<char>)
    requires st != Start && st != LeadingNegative && st != LeadingZero
    ensures Scan(st, s) != RootNotSingular
    decreases |s|
  {
    if s != [] {
      match Step(st, s[0])
      case Fail(e) =>
      case Next(next) => NoRootNotSingularLater(next, s[1..]);
    }
  }

  /** EXP_DIGIT state (lines 147-151): accepts exactly a run of digits. */
  lemma {:induction false} ScanExpDigit(s: seq<char>)
    ensures Scan(ExpDigit, s) == Ok <==> AllDigits(s)
    decreases |s|
  {
    if s != [] {
      if IsDigit(s[0]) {
        ScanExpDigit(s[1..]);
        assert AllDigits(s) <==> AllDigits(s[1..]) by {
          if AllDigits(s[1..]) {
            forall j | 0 <= j < |s| ensures IsDigit(s[j]) {
              if j > 0 { assert s[j] == s[1..][j - 1]; }
            }
          }
        }
      }
    }
  }

  /** EXP state (lines 133-139): accepts exactly the exponent after `e`. */
  lemma ScanExp(s: seq<char>)
    ensures Scan(Exp, s) == Ok <==> ExpBody(s)
  {
    if s != [] {
      if IsDigit(s[0]) {
        ScanExpDigit(s[1..]);
        ScanExpDigit(s);
      } else if s[0] == '-' || s[0] == '+' {
        if s[1..] != [] && IsDigit(s[1..][0]) {
          ScanExpDigit(s[1..][1..]);
          ScanExpDigit(s[1..]);
        }
      }
    }
  }

  /** FRAC_DIGIT state (lines 125-131): accepts a digit run followed by an
      optional exponent. */
  lemma {:induction false} ScanFracDigit(s: seq<char>)
    ensures Scan(FracDigit, s) == Ok <==> ExpOpt(s[DigitRun(s)..])
    decreases |s|
  {
    if s != [] {
      if IsDigit(s[0]) {
        ScanFracDigit(s[1..]);
        assert s[DigitRun(s)..] == s[1..][DigitRun(s[1..])..];
      } else if IsExpMark(s[0]) {
        ScanExp(s[1..]);
      }
    }
  }

  /** DOT state (lines 119-123): at least one fraction digit is required. */
  lemma ScanDot(s: seq<char>)
    ensures Scan(Dot, s) == Ok <==> DigitRun(s) > 0 && ExpOpt(s[DigitRun(s)..])
  {
    if s != [] && IsDigit(s[0]) {
      ScanFracDigit(s[1..]);
      assert s[DigitRun(s)..] == s[1..][DigitRun(s[1..])..];
    }
  }

  /** INT_DIGIT state (lines 109-117): more digits, and then a fraction or an
      exponent MUST follow, because INT_DIGIT is not an accepting state. */
  lemma {:induction false} ScanIntDigit(s: seq<char>)
    ensures Scan(IntDigit, s) == Ok <==> DigitRun(s) < |s| && FracExpOpt(s[DigitRun(s)..])
    decreases |s|
  {
    if s != [] {
      if s[0] == '.' {
        ScanDot(s[1..]);
      } else if IsDigit(s[0]) {
        ScanIntDigit(s[1..]);
        assert s[DigitRun(s)..] == s[1..][DigitRun(s[1..])..];
      } else if IsExpMark(s[0]) {
        ScanExp(s[1..]);
      }
    }
  }

  /** LEADING_DIGIT state (lines 99-107): the end of input is accepted right
      after the first digit, but not after two or more. */
  lemma ScanLeadingDigit(s: seq<char>)
    ensures Scan(LeadingDigit, s) == Ok <==>
      FracExpOpt(s[DigitRun(s)..]) && (DigitRun(s) > 0 ==> DigitRun(s) < |s|)
  {
    if s != [] {
      if s[0] == '.' {
        ScanDot(s[1..]);
      } else if IsDigit(s[0]) {
        ScanIntDigit(s[1..]);
        assert s[DigitRun(s)..] == s[1..][DigitRun(s[1..])..];
      } else if IsExpMark(s[0]) {
        ScanExp(s[1..]);
      }
    }
  }

  /** LEADING_ZERO state (lines 91-97): OK exactly for an optional fraction
      and exponent; ROOT_NOT_SINGULAR exactly when any other character
      follows. */
  lemma ScanLeadingZero(s: seq<char>)
    ensures Scan(LeadingZero, s) == Ok <==> FracExpOpt(s)
    ensures Scan(LeadingZero, s) == RootNotSingular <==>
      |s| > 0 && s[0] != '.' && !IsExpMark(s[0])
  {
    if s != [] {
      if IsExpMark(s[0]) {
        ScanExp(s[1..]);
        NoRootNotSingularLater(Exp, s[1..]);
      } else if s[0] == '.' {
        ScanDot(s[1..]);
        NoRootNotSingularLater(Dot, s[1..]);
      }
    }
  }

  /** The start state behaves like the leading-minus state once a leading
      minus is stripped. */
  lemma StartIsUnsigned(t: seq<char>)
    ensures Validate(t) == Scan(LeadingNegative, Unsigned(t))
  {
  }

  /** The unsigned part of a number that starts with `0`. */
  lemma UnsignedZero(u: seq<char>)
    requires |u| > 0 && u[0] == '0'
    ensures Scan(LeadingNegative, u) == Scan(LeadingZero, u[1..])
    ensures Scan(LeadingNegative, u) == Ok <==>
      DigitRun(u) == 1 && FracExpOpt(u[1..]) && !(|u| >= 2 && AllDigits(u))
    ensures Scan(LeadingNegative, u) == RootNotSingular <==>
      |u| >= 2 && u[1] != '.' && !IsExpMark(u[1])
  {
    ScanLeadingZero(u[1..]);
    if |u| >= 2 && IsDigit(u[1]) {
      assert DigitRun(u) >= 2 by { assert AllDigits(u[..2]); }
    }
    if DigitRun(u) == 1 && |u| >= 2 {
      assert !IsDigit(u[1]);
    }
  }

  /** The unsigned part of a number that starts with `1`..`9`. */
  lemma UnsignedDigit(u: seq<char>)
    requires |u| > 0 && IsDigit1To9(u[0])
    ensures Scan(LeadingNegative, u) == Scan(LeadingDigit, u[1..])
    ensures Scan(LeadingNegative, u) == Ok <==>
      FracExpOpt(u[DigitRun(u)..]) && !(|u| >= 2 && AllDigits(u))
    ensures Scan(LeadingNegative, u) != RootNotSingular
  {
    var rest := u[1..];
    ScanLeadingDigit(rest);
    NoRootNotSingularLater(LeadingDigit, rest);
    DigitRunAll(u);
    assert DigitRun(u) == 1 + DigitRun(rest);
    assert u[DigitRun(u)..] == rest[DigitRun(rest)..];
  }

  /** LEADING_NEGATIVE state (lines 83-89), the unsigned part of a number. */
  lemma ScanUnsigned(u: seq<char>)
    ensures Scan(LeadingNegative, u) == Ok <==>
      var k := DigitRun(u);
      k > 0 && (u[0] == '0' ==> k == 1) && FracExpOpt(u[k..]) && !(|u| >= 2 && AllDigits(u))
    ensures Scan(LeadingNegative, u) == RootNotSingular <==>
      |u| >= 2 && u[0] == '0' && u[1] != '.' && !IsExpMark(u[1])
  {
    if u != [] {
      if u[0] == '0' {
        UnsignedZero(u);
      } else if IsDigit1To9(u[0]) {
        UnsignedDigit(u);
      }
    }
  }

  /** Text the validator accepts starts with a minus or a digit. */
  lemma AcceptedStart(t: seq<char>)
    requires Validate(t) == Ok
    ensures |t| > 0 && (t[0] == '-' || IsDigit(t[0]))
  {
  }

  /** The validator returns OK exactly for the JSON numbers of RFC 8259
      other than integers of two or more digits without fraction or
      exponent (`"12"` is rejected, `"12.5"` and `"12e3"` are not). */
  lemma ValidateOk(t: seq<char>)
    ensures Validate(t) == Ok <==> JsonNumber(t) && !BareMultiDigitInt(t)
  {
    StartIsUnsigned(t);
    ScanUnsigned(Unsigned(t));
  }

  /** The validator returns ROOT_NOT_SINGULAR exactly when a (possibly
      negative) zero is followed by anything other than `.`, `e` or `E`. */
  lemma ValidateRootNotSingular(t: seq<char>)
    ensures Validate(t) == RootNotSingular <==> ZeroThenOther(t)
  {
    StartIsUnsigned(t);
    ScanUnsigned(Unsigned(t));
  }

  /** Every other text is INVALID_VALUE. */
  lemma ValidateInvalid(t: seq<char>)
    ensures Validate(t) == InvalidValue <==>
      !(JsonNumber(t) && !BareMultiDigitInt(t)) && !ZeroThenOther(t)
  {
    ValidateOk(t);
    ValidateRootNotSingular(t);
  }

  /** The validator's behaviour on inputs that show each documented
      outcome: a multi-digit integer, a missing fraction or exponent, a lone
      minus, a bare dot, trailing whitespace, a leading zero and an
      out-of-range exponent. */
  lemma ValidateExamples()
    ensures Validate("12") == InvalidValue
    ensures Validate("1.") == InvalidValue
    ensures Validate("1e") == InvalidValue
    ensures Validate("-") == InvalidValue
    ensures Validate(".5") == InvalidValue
    ensures Validate("1 ") == InvalidValue
    ensures Validate("0") == Ok
    ensures Validate("5") == Ok
    ensures Validate("1.5") == Ok
    ensures Validate("1e10") == Ok
    ensures Validate("0123") == RootNotSingular
    ensures Validate("0 ") == RootNotSingular
    ensures Validate("1e400") == Ok
  {
  }
}
