/** The parser of `leptjson.c`: the caller-owned value record, the cursor
    over a NUL-terminated text, the whitespace skipper, the literal matcher,
    the number path, the one-character dispatcher and the top-level driver.

    Each method is proved against a function of the input and the old state
    (`LiteralSpec`, `NumberSpec`, `ValueSpec`, `ParseSpec`); what the parser
    promises is proved about those functions as lemmas. */
module LeptJson {
  import opened LeptTypes
  import opened NumberDfa

  // ---------------------------------------------------------------------
  // Input text and literal descriptors
  // ---------------------------------------------------------------------

  /** A C string as the parser sees it: its characters followed by exactly
      one terminating `'\0'`. */
  predicate Terminated(s: seq<char>) {
    |s| > 0 && s[|s| - 1] == '\0' && forall k :: 0 <= k < |s| - 1 ==> s[k] != '\0'
  }

  /** The characters from `i` up to, not including, the terminator: what
      `validate_number` and `strtod` see at a cursor. */
  function RestAt(s: seq<char>, i: nat): (t: seq<char>)
    requires Terminated(s) && i < |s|
    ensures |t| == |s| - 1 - i && '\0' !in t
  {
    s[i..|s| - 1]
  }

  /** The whitespace characters of section 2 of RFC 8259. */
  predicate IsWs(c: char) {
    c == ' ' || c == '\t' || c == '\n' || c == '\r'
  }

  /** A literal descriptor (`lept_expect_type`): the keyword's spelling and
      the discriminant it produces. */
  datatype ExpectType = ExpectType(text: seq<char>, ty: LeptType)

  const NullLit: ExpectType := ExpectType("null", Null)
  const TrueLit: ExpectType := ExpectType("true", True)
  const FalseLit: ExpectType := ExpectType("false", False)

  /** `s` holds `w` starting at position `i`. */
  predicate StartsWith(s: seq<char>, i: nat, w: seq<char>) {
    i + |w| <= |s| && s[i..i + |w|] == w
  }

  // ---------------------------------------------------------------------
  // Specification functions
  // ---------------------------------------------------------------------

  /** Where the whitespace skipper leaves a cursor that starts at `i`: past
      every space, tab, LF and CR, on the first other character (at the
      latest the terminator). */
  function SkipWs(s: seq<char>, i: nat): (j: nat)
    requires Terminated(s) && i < |s|
    ensures i <= j < |s|
    ensures forall k :: i <= k < j ==> IsWs(s[k])
    ensures !IsWs(s[j])
    decreases |s| - i
  {
    if IsWs(s[i]) then SkipWs(s, i + 1) else i
  }

  /** How many characters of `w` the literal matcher accepts at `i` before
      the first mismatch (or all of them). A keyword has no NUL in it, so a
      mismatch happens at the terminator at the latest. */
  function MatchLen(s: seq<char>, i: nat, w: seq<char>): (k: nat)
    requires Terminated(s) && i < |s| && '\0' !in w
    ensures k <= |w| && i + k < |s|
    ensures s[i..i + k] == w[..k]
    ensures k < |w| ==> s[i + k] != w[k]
    decreases |w|
  {
    if w == [] || s[i] != w[0] then 0
    else
      var k := 1 + MatchLen(s, i + 1, w[1..]);
      assert s[i..i + k] == [s[i]] + s[i + 1..i + k];
      k
  }

  /** The caller-owned value record as plain data: discriminant and payload. */
  datatype ValueState = ValueState(ty: LeptType, n: Double)

  /** What one parsing step produces: a status, the new cursor and the new
      contents of the value record. */
  datatype Effect = Effect(status: Status, pos: nat, value: ValueState)

  /** `lept_parse_literal`: on a full match the cursor moves past the
      keyword and the discriminant is set; otherwise INVALID_VALUE, the
      cursor stays at the mismatch and the record is untouched. */
  function LiteralSpec(s: seq<char>, i: nat, lit: ExpectType, v: ValueState): Effect
    requires Terminated(s) && i < |s| && '\0' !in lit.text
  {
    var k := MatchLen(s, i, lit.text);
    if k == |lit.text| then Effect(Ok, i + k, v.(ty := lit.ty))
    else Effect(InvalidValue, i + k, v)
  }

  /** `lept_parse_number`: validate the whole rest of the text, then convert
      it. The payload is written before the overflow test, so it is written
      on the NUMBER_TOO_BIG and the zero-length paths too; the discriminant
      only on success. */
  function NumberSpec(s: seq<char>, i: nat, v: ValueState, strtod: Strtod): Effect
    requires Terminated(s) && i < |s|
  {
    var t := RestAt(s, i);
    var r := Validate(t);
    if r != Ok then Effect(r, i, v)
    else
      var c := strtod(t);
      if TooBig(c) then Effect(NumberTooBig, i, v.(n := c.value))
      else if c.consumed == 0 then Effect(InvalidValue, i, v.(n := c.value))
      else Effect(Ok, i + c.consumed, ValueState(Number, c.value))
  }

  /** `lept_parse_value`: one character of lookahead picks the branch. */
  function ValueSpec(s: seq<char>, i: nat, v: ValueState, strtod: Strtod): Effect
    requires Terminated(s) && i < |s|
  {
    match s[i]
    case 't' => LiteralSpec(s, i, TrueLit, v)
    case 'f' => LiteralSpec(s, i, FalseLit, v)
    case 'n' => LiteralSpec(s, i, NullLit, v)
    case '\0' => Effect(ExpectValue, i, v)
    case _ => NumberSpec(s, i, v, strtod)
  }

  /** The result of `lept_parse`: the status and the value record. */
  datatype Outcome = Outcome(status: Status, value: ValueState)

  /** `lept_parse` on text `s`, for a record whose payload was `n0`
      beforehand (its discriminant is reset first, so only the payload of the
      old record can survive). */
  function ParseSpec(s: seq<char>, n0: Double, strtod: Strtod): Outcome
    requires Terminated(s)
  {
    var e := ValueSpec(s, SkipWs(s, 0), ValueState(Null, n0), strtod);
    if e.status != Ok then Outcome(e.status, e.value)
    else if s[SkipWs(s, e.pos)] != '\0' then Outcome(RootNotSingular, e.value.(ty := Null))
    else Outcome(Ok, e.value)
  }

  // ---------------------------------------------------------------------
  // The value record and the cursor
  // ---------------------------------------------------------------------

  /** `lept_value`: allocated and owned by the caller, written by the parser.
      The C field `type` is `ty` here. */
  class Value {
    var ty: LeptType
    var n: Double

    constructor (ty: LeptType, n: Double)
      ensures this.ty == ty && this.n == n
    {
      this.ty := ty;
      this.n := n;
    }

    function State(): ValueState
      reads this
    {
      ValueState(ty, n)
    }

    /** `lept_get_type`. */
    function GetType(): (t: LeptType)
      reads this
      ensures t == State().ty
    {
      ty
    }

    /** `lept_get_number`: only defined for a record holding a number. */
    function GetNumber(): (d: Double)
      reads this
      requires ty == Number
      ensures d == State().n
    {
      n
    }
  }

  /** `lept_context`: the cursor `c->json`, kept as an index `pos` into the
      borrowed, read-only text `json`. */
  class Context {
    const json: seq<char>
    var pos: nat

    ghost predicate Valid()
      reads this
    {
      Terminated(json) && pos < |json|
    }

    constructor (json: seq<char>)
      requires Terminated(json)
      ensures Valid() && this.json == json && pos == 0
    {
      this.json := json;
      pos := 0;
    }

    /** The text between the cursor and the terminator. */
    function Rest(): seq<char>
      reads this
      requires Valid()
    {
      RestAt(json, pos)
    }

    /** `lept_parse_whitespace`. */
    method ParseWhitespace()
      requires Valid()
      modifies this
      ensures Valid()
      ensures pos == SkipWs(json, old(pos))
    {
      var p := pos;
      while IsWs(json[p])
        invariant old(pos) <= p < |json|
        invariant SkipWs(json, p) == SkipWs(json, old(pos))
        decreases |json| - p
      {
        p := p + 1;
      }
      pos := p;
    }

    /** `lept_parse_literal`. The keyword's terminator test
        `*expect_str_temp != '\0'` is `k < |lit.text|` here. */
    method ParseLiteral(v: Value, lit: ExpectType) returns (ret: Status)
      requires Valid() && '\0' !in lit.text
      modifies this, v
      ensures Valid()
      ensures Effect(ret, pos, v.State()) == LiteralSpec(json, old(pos), lit, old(v.State()))
      ensures ret == Ok <==> StartsWith(json, old(pos), lit.text)
    {
      var k := 0;
      while k < |lit.text|
        invariant k <= |lit.text| && pos == old(pos) + k < |json|
        invariant json[old(pos)..pos] == lit.text[..k]
        modifies this
        decreases |lit.text| - k
      {
        if json[pos] == lit.text[k] {
          assert json[old(pos)..pos + 1] == json[old(pos)..pos] + [json[pos]];
          assert lit.text[..k + 1] == lit.text[..k] + [lit.text[k]];
          pos := pos + 1;
          k := k + 1;
        } else {
          MatchLenIs(json, old(pos), lit.text, k);
          LiteralOk(json, old(pos), lit, old(v.State()));
          return InvalidValue;
        }
      }
      assert lit.text[..k] == lit.text;
      MatchLenIs(json, old(pos), lit.text, k);
      LiteralOk(json, old(pos), lit, old(v.State()));
      v.ty := lit.ty;
      return Ok;
    }

    /** `validate_number`. It scans a local copy `p` of the cursor and has no
        `modifies` clause: the cursor is left where it was. */
    method ValidateNumber() returns (ret: Status)
      requires Valid()
      ensures ret == Validate(Rest())
    {
      var p := pos;
      var state := Start;
      while json[p] != '\0'
        invariant pos <= p < |json|
        invariant Scan(state, json[p..|json| - 1]) == Validate(json[pos..|json| - 1])
        decreases |json| - p
      {
        assert json[p..|json| - 1] == [json[p]] + json[p + 1..|json| - 1];
        match Step(state, json[p])
        case Fail(e) =>
          return e;
        case Next(next) =>
          state := next;
          p := p + 1;
      }
      ret := if Accepting(state) then Ok else InvalidValue;
    }

    /** `lept_parse_number`. */
    method ParseNumber(v: Value, strtod: Strtod) returns (ret: Status)
      requires Valid()
      modifies this, v
      ensures Valid()
      ensures Effect(ret, pos, v.State()) == NumberSpec(json, old(pos), old(v.State()), strtod)
    {
      ret := ValidateNumber();
      if ret != Ok {
        return ret;
      }
      var c := strtod(Rest());
      v.n := c.value;
      if TooBig(c) {
        return NumberTooBig;
      }
      if c.consumed == 0 {
        return InvalidValue;
      }
      pos := pos + c.consumed;
      v.ty := Number;
      return Ok;
    }

    /** `lept_parse_value`. */
    method ParseValue(v: Value, strtod: Strtod) returns (ret: Status)
      requires Valid()
      modifies this, v
      ensures Valid()
      ensures Effect(ret, pos, v.State()) == ValueSpec(json, old(pos), old(v.State()), strtod)
    {
      match json[pos]
      case 't' =>
        ret := ParseLiteral(v, TrueLit);
      case 'f' =>
        ret := ParseLiteral(v, FalseLit);
      case 'n' =>
        ret := ParseLiteral(v, NullLit);
      case '\0' =>
        ret := ExpectValue;
      case _ =>
        ret := ParseNumber(v, strtod);
    }
  }

  /** `lept_parse`: parse one value from `json` into the caller's record. */
  method Parse(v: Value, json: seq<char>, strtod: Strtod) returns (ret: Status)
    requires Terminated(json)
    modifies v
    ensures Outcome(ret, v.State()) == ParseSpec(json, old(v.n), strtod)
    ensures ret != Ok ==> v.GetType() == Null
    ensures ret == Ok && v.GetType() == Number ==>
      v.GetNumber() == strtod(RestAt(json, SkipWs(json, 0))).value
  {
    var c := new Context(json);
    v.ty := Null;
    c.ParseWhitespace();
    ret := c.ParseValue(v, strtod);
    if ret == Ok {
      c.ParseWhitespace();
      if c.json[c.pos] != '\0' {
        v.ty := Null;
        ret := RootNotSingular;
      }
    }
    FailureLeavesNull(json, old(v.n), strtod);
    if ret == Ok && v.ty == Number {
      OkNumberIsJsonNumber(json, old(v.n), strtod);
    }
  }

  // ---------------------------------------------------------------------
  // Properties
  // ---------------------------------------------------------------------

  /** `MatchLen` is the only count that satisfies its own contract. */
  lemma {:induction false} MatchLenIs(s: seq<char>, i: nat, w: seq<char>, k: nat)
    requires Terminated(s) && i < |s| && '\0' !in w
    requires k <= |w| && i + k < |s| && s[i..i + k] == w[..k]
    requires k < |w| ==> s[i + k] != w[k]
    ensures MatchLen(s, i, w) == k
    decreases k
  {
    if k > 0 {
      assert s[i] == w[0] by { assert s[i..i + k][0] == w[..k][0]; }
      assert s[i + 1..i + k] == w[1..][..k - 1] by {
        assert s[i + 1..i + k] == s[i..i + k][1..];
        assert w[1..][..k - 1] == w[..k][1..];
      }
      MatchLenIs(s, i + 1, w[1..], k - 1);
    }
  }

  /** The literal matcher succeeds exactly when the text at the cursor
      begins with the keyword; then the cursor moves past the keyword and
      the discriminant is the descriptor's. On failure the record is
      untouched and the cursor stops at the first mismatch, inside the
      keyword's span. */
  lemma LiteralOk(s: seq<char>, i: nat, lit: ExpectType, v: ValueState)
    requires Terminated(s) && i < |s| && '\0' !in lit.text
    ensures LiteralSpec(s, i, lit, v).status == Ok <==> StartsWith(s, i, lit.text)
    ensures StartsWith(s, i, lit.text) ==>
      LiteralSpec(s, i, lit, v).pos == i + |lit.text| && LiteralSpec(s, i, lit, v).value == v.(ty := lit.ty)
    ensures !StartsWith(s, i, lit.text) ==>
      LiteralSpec(s, i, lit, v).status == InvalidValue && LiteralSpec(s, i, lit, v).value == v &&
      i <= LiteralSpec(s, i, lit, v).pos < i + |lit.text|
  {
  }

  /** The whitespace skipper lands on the terminator exactly when everything
      from the cursor to the end is whitespace. */
  lemma SkipWsToEnd(s: seq<char>, i: nat)
    requires Terminated(s) && i < |s|
    ensures s[SkipWs(s, i)] == '\0' <==> forall k :: i <= k < |s| - 1 ==> IsWs(s[k])
  {
    var j := SkipWs(s, i);
    if j < |s| - 1 {
      assert s[j] != '\0' && !IsWs(s[j]);
    }
  }

  /** The dispatcher returns EXPECT_VALUE exactly when the lookahead is the
      terminator; `t`, `f` and `n` go to the matching keyword, everything
      else to the number path. */
  lemma ValueDispatch(s: seq<char>, i: nat, v: ValueState, strtod: Strtod)
    requires Terminated(s) && i < |s|
    ensures ValueSpec(s, i, v, strtod).status == ExpectValue <==> s[i] == '\0'
    ensures s[i] == 't' ==> ValueSpec(s, i, v, strtod) == LiteralSpec(s, i, TrueLit, v)
    ensures s[i] == 'f' ==> ValueSpec(s, i, v, strtod) == LiteralSpec(s, i, FalseLit, v)
    ensures s[i] == 'n' ==> ValueSpec(s, i, v, strtod) == LiteralSpec(s, i, NullLit, v)
    ensures s[i] !in "tfn\0" ==> ValueSpec(s, i, v, strtod) == NumberSpec(s, i, v, strtod)
  {
    if s[i] !in "tfn\0" {
      assert Validate(RestAt(s, i)) != ExpectValue;
    }
  }

  /** Whenever the parse does not succeed, the record's discriminant is
      NULL, also on the NUMBER_TOO_BIG path that has written the payload. */
  lemma FailureLeavesNull(s: seq<char>, n0: Double, strtod: Strtod)
    requires Terminated(s)
    ensures ParseSpec(s, n0, strtod).status != Ok ==> ParseSpec(s, n0, strtod).value.ty == Null
  {
  }

  /** The parse reports EXPECT_VALUE exactly for empty and all-whitespace
      text. */
  lemma ExpectValueIffBlank(s: seq<char>, n0: Double, strtod: Strtod)
    requires Terminated(s)
    ensures ParseSpec(s, n0, strtod).status == ExpectValue <==>
      forall k :: 0 <= k < |s| - 1 ==> IsWs(s[k])
  {
    var i := SkipWs(s, 0);
    SkipWsToEnd(s, 0);
    ValueDispatch(s, i, ValueState(Null, n0), strtod);
  }

  /** A keyword after leading whitespace parses OK, with the keyword's
      discriminant, exactly when nothing but whitespace follows it; anything
      else after it gives ROOT_NOT_SINGULAR (`"true x"`, `"truex"`). */
  lemma LiteralDocument(s: seq<char>, lit: ExpectType, n0: Double, strtod: Strtod)
    requires Terminated(s) && (lit == NullLit || lit == TrueLit || lit == FalseLit)
    requires StartsWith(s, SkipWs(s, 0), lit.text)
    ensures var j := SkipWs(s, 0) + |lit.text|;
      ParseSpec(s, n0, strtod) ==
        if forall k :: j <= k < |s| - 1 ==> IsWs(s[k])
        then Outcome(Ok, ValueState(lit.ty, n0))
        else Outcome(RootNotSingular, ValueState(Null, n0))
  {
    var i := SkipWs(s, 0);
    var v := ValueState(Null, n0);
    KeywordValue(s, i, lit, v, strtod);
    var e := ValueSpec(s, i, v, strtod);
    assert e == Effect(Ok, i + |lit.text|, v.(ty := lit.ty));
    SkipWsToEnd(s, e.pos);
  }

  /** At a keyword, the dispatcher matches that keyword: OK, the cursor past
      it (still inside the text), the descriptor's discriminant. */
  lemma KeywordValue(s: seq<char>, i: nat, lit: ExpectType, v: ValueState, strtod: Strtod)
    requires Terminated(s) && i < |s| && (lit == NullLit || lit == TrueLit || lit == FalseLit)
    requires StartsWith(s, i, lit.text)
    ensures i + |lit.text| < |s|
    ensures ValueSpec(s, i, v, strtod) == Effect(Ok, i + |lit.text|, v.(ty := lit.ty))
  {
    assert '\0' !in lit.text && |lit.text| > 0;
    assert s[i] == lit.text[0] by { assert s[i..i + |lit.text|][0] == lit.text[0]; }
    assert ValueSpec(s, i, v, strtod) == LiteralSpec(s, i, lit, v) by {
      ValueDispatch(s, i, v, strtod);
    }
    LiteralOk(s, i, lit, v);
    assert s[|s| - 1] !in lit.text;
  }

  /** Any text that parses OK as a number is one JSON number (RFC 8259,
      section 6), apart from leading and trailing whitespace, and not an
      integer of two or more digits; the stored payload is what the
      conversion returned for the text after the leading whitespace, and it
      was not an overflow. */
  lemma OkNumberIsJsonNumber(s: seq<char>, n0: Double, strtod: Strtod)
    requires Terminated(s)
    requires ParseSpec(s, n0, strtod).status == Ok && ParseSpec(s, n0, strtod).value.ty == Number
    ensures var t := RestAt(s, SkipWs(s, 0));
      JsonNumber(t) && !BareMultiDigitInt(t) && !TooBig(strtod(t)) &&
      ParseSpec(s, n0, strtod).value.n == strtod(t).value
  {
    var i := SkipWs(s, 0);
    var t := RestAt(s, i);
    var v := ValueState(Null, n0);
    var e := ValueSpec(s, i, v, strtod);
    assert e.status == Ok && e.value.ty == Number;
    ValueDispatch(s, i, v, strtod);
    assert s[i] !in "tfn\0";
    assert e == NumberSpec(s, i, v, strtod);
    ValidateOk(t);
  }

  /** Conversely, a JSON number that is not a bare multi-digit integer,
      surrounded only by leading whitespace, parses OK as that number when
      the conversion neither overflows nor stops early. */
  lemma JsonNumberDocument(s: seq<char>, n0: Double, strtod: Strtod)
    requires Terminated(s)
    requires var t := RestAt(s, SkipWs(s, 0));
      JsonNumber(t) && !BareMultiDigitInt(t) && !TooBig(strtod(t)) && strtod(t).consumed == |t|
    ensures var t := RestAt(s, SkipWs(s, 0));
      ParseSpec(s, n0, strtod) == Outcome(Ok, ValueState(Number, strtod(t).value))
  {
    var i := SkipWs(s, 0);
    var t := RestAt(s, i);
    var v := ValueState(Null, n0);
    ValidateOk(t);
    AcceptedStart(t);
    assert s[i] == t[0];
    ValueDispatch(s, i, v, strtod);
    var e := ValueSpec(s, i, v, strtod);
    assert e == Effect(Ok, |s| - 1, ValueState(Number, strtod(t).value));
    assert SkipWs(s, |s| - 1) == |s| - 1;
  }

  /** When the lookahead leads to the number path and the validator rejects
      the rest of the text, its status is the parse's status and the record
      is left with a NULL discriminant and its old payload. */
  lemma NumberRejected(s: seq<char>, n0: Double, strtod: Strtod)
    requires Terminated(s)
    requires var i := SkipWs(s, 0); s[i] !in "tfn\0" && Validate(RestAt(s, i)) != Ok
    ensures var t := RestAt(s, SkipWs(s, 0));
      ParseSpec(s, n0, strtod) == Outcome(Validate(t), ValueState(Null, n0))
  {
    ValueDispatch(s, SkipWs(s, 0), ValueState(Null, n0), strtod);
  }

  /** When the validator accepts but the conversion overflows, the parse
      reports NUMBER_TOO_BIG; the payload has been written, the discriminant
      is still NULL. */
  lemma NumberOverflow(s: seq<char>, n0: Double, strtod: Strtod)
    requires Terminated(s)
    requires var i := SkipWs(s, 0);
      s[i] !in "tfn\0" && Validate(RestAt(s, i)) == Ok && TooBig(strtod(RestAt(s, i)))
    ensures var t := RestAt(s, SkipWs(s, 0));
      ParseSpec(s, n0, strtod) == Outcome(NumberTooBig, ValueState(Null, strtod(t).value))
  {
    ValueDispatch(s, SkipWs(s, 0), ValueState(Null, n0), strtod);
  }

  /** The empty and all-whitespace texts. */
  lemma BlankExamples(n0: Double, strtod: Strtod)
    ensures ParseSpec("\0", n0, strtod).status == ExpectValue
    ensures ParseSpec(" \t\n\r\0", n0, strtod).status == ExpectValue
  {
    ExpectValueIffBlank("\0", n0, strtod);
    ExpectValueIffBlank(" \t\n\r\0", n0, strtod);
  }

  /** Each keyword alone parses OK with its own discriminant. */
  lemma KeywordAloneExamples(lit: ExpectType, n0: Double, strtod: Strtod)
    requires lit == NullLit || lit == TrueLit || lit == FalseLit
    ensures ParseSpec(lit.text + "\0", n0, strtod) == Outcome(Ok, ValueState(lit.ty, n0))
  {
    var s := lit.text + "\0";
    assert Terminated(s);
    assert SkipWs(s, 0) == 0;
    assert s[0..|lit.text|] == lit.text;
    LiteralDocument(s, lit, n0, strtod);
  }

  /** A keyword followed by anything but whitespace, directly or after a
      space, is ROOT_NOT_SINGULAR. */
  lemma TrailingContentExamples(t: seq<char>, n0: Double, strtod: Strtod)
    requires t == "true x" || t == "truex" || t == "true false"
    ensures ParseSpec(t + "\0", n0, strtod).status == RootNotSingular
  {
    var s := t + "\0";
    assert Terminated(s);
    assert SkipWs(s, 0) == 0;
    assert s[0..4] == "true";
    LiteralDocument(s, TrueLit, n0, strtod);
    assert !IsWs(s[|t| - 1]);
  }

  /** A misspelt keyword is INVALID_VALUE. */
  lemma MisspeltExample(t: seq<char>, n0: Double, strtod: Strtod)
    requires t == "tru"
    ensures ParseSpec(t + "\0", n0, strtod).status == InvalidValue
  {
    var s := t + "\0";
    assert Terminated(s);
    assert SkipWs(s, 0) == 0;
    ValueDispatch(s, 0, ValueState(Null, n0), strtod);
    LiteralOk(s, 0, TrueLit, ValueState(Null, n0));
  }

  /** A text that is one candidate number, with no whitespace before it,
      that the validator rejects. */
  lemma RejectedNumberText(t: seq<char>, n0: Double, strtod: Strtod)
    requires '\0' !in t && |t| > 0 && t[0] !in " \t\n\rtfn" && Validate(t) != Ok
    ensures ParseSpec(t + "\0", n0, strtod) == Outcome(Validate(t), ValueState(Null, n0))
  {
    var s := t + "\0";
    assert Terminated(s);
    assert SkipWs(s, 0) == 0;
    assert RestAt(s, 0) == t;
    NumberRejected(s, n0, strtod);
  }

  /** A zero followed by more text is ROOT_NOT_SINGULAR. */
  lemma LeadingZeroExamples(t: seq<char>, n0: Double, strtod: Strtod)
    requires t == "0123" || t == "0 "
    ensures ParseSpec(t + "\0", n0, strtod).status == RootNotSingular
  {
    if t == "0123" {
      assert Validate("0123") == RootNotSingular;
      RejectedNumberText("0123", n0, strtod);
    } else {
      assert Validate("0 ") == RootNotSingular;
      RejectedNumberText("0 ", n0, strtod);
    }
  }

  /** A multi-digit integer, a number followed by whitespace, a missing
      exponent or fraction and a bare dot are INVALID_VALUE. */
  lemma InvalidNumberExamples(t: seq<char>, n0: Double, strtod: Strtod)
    requires t == "12" || t == "1 " || t == "1e" || t == "1." || t == ".5"
    ensures ParseSpec(t + "\0", n0, strtod).status == InvalidValue
  {
    if t == "12" {
      assert Validate("12") == InvalidValue;
      RejectedNumberText("12", n0, strtod);
    } else if t == "1 " {
      assert Validate("1 ") == InvalidValue;
      RejectedNumberText("1 ", n0, strtod);
    } else if t == "1e" {
      assert Validate("1e") == InvalidValue;
      RejectedNumberText("1e", n0, strtod);
    } else if t == "1." {
      assert Validate("1.") == InvalidValue;
      RejectedNumberText("1.", n0, strtod);
    } else {
      assert Validate(".5") == InvalidValue;
      RejectedNumberText(".5", n0, strtod);
    }
  }

  /** `"1e400"` overflows a double: whenever the conversion reports that,
      the parse reports NUMBER_TOO_BIG. */
  lemma OverflowExample(t: seq<char>, n0: Double, strtod: Strtod)
    requires t == "1e400" && TooBig(strtod(t))
    ensures ParseSpec(t + "\0", n0, strtod).status == NumberTooBig
  {
    assert Validate("1e400") == Ok;
    var s := t + "\0";
    assert SkipWs(s, 0) == 0 && RestAt(s, 0) == t;
    NumberOverflow(s, n0, strtod);
  }
}
