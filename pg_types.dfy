/** What happens to a query parameter on its way into PostgreSQL: the text
    node-pg sends for a JavaScript value, the `integer` input function that reads
    an id, and the assignment of a text to a `varchar(n)` column. */
module PgTypes {
  import opened Outcomes
  import opened Decimal
  import opened JsValues

  const MinInt4: int := -0x8000_0000
  const MaxInt4: int := 0x7FFF_FFFF

  predicate IsInt4(n: int) {
    MinInt4 <= n <= MaxInt4
  }

  /** The text node-pg sends for a parameter, `None` standing for SQL NULL:
      `undefined` and `null` become NULL, booleans and numbers their printed
      form, strings themselves. */
  function ParamText(v: JsValue): (t: Option<string>)
    ensures t == None <==> v == Undefined || v == Null
    ensures v.Str? ==> t == Some(v.s)
  {
    match v
    case Undefined => None
    case Null => None
    case Bool(b) => Some(if b then "true" else "false")
    case Num(n) => Some(IntToDecimal(n))
    case Str(s) => Some(s)
    case Compound(text) => Some(text)
  }

  /** The white space the C library's `isspace` accepts, which the integer
      input function skips around a number. */
  predicate IsCSpace(c: char) {
    c == ' ' || '\t' <= c <= '\r'
  }

  predicate AllCSpace(s: string) {
    forall i :: 0 <= i < |s| ==> IsCSpace(s[i])
  }

  /** How far the integer input function has got through its text: still in
      the leading white space, just past a sign, inside the digits (with the
      value read so far), in the trailing white space, or off the grammar. */
  datatype Scan =
    | Leading
    | Signed(negative: bool)
    | InDigits(negative: bool, magnitude: nat)
    | Trailing(negative: bool, magnitude: nat)
    | Rejected

  /** One character of the text. */
  function Step(st: Scan, c: char): Scan {
    match st
    case Leading =>
      if IsCSpace(c) then Leading
      else if c == '-' then Signed(true)
      else if c == '+' then Signed(false)
      else if IsDigit(c) then InDigits(false, DigitValue(c))
      else Rejected
    case Signed(neg) =>
      if IsDigit(c) then InDigits(neg, DigitValue(c)) else Rejected
    case InDigits(neg, v) =>
      if IsDigit(c) then InDigits(neg, v * 10 + DigitValue(c))
      else if IsCSpace(c) then Trailing(neg, v)
      else Rejected
    case Trailing(neg, v) =>
      if IsCSpace(c) then Trailing(neg, v) else Rejected
    case Rejected => Rejected
  }

  /** The whole text, left to right. */
  function Run(s: string, st: Scan): Scan
    decreases |s|
  {
    if s == [] then st else Step(Run(s[..|s| - 1], st), s[|s| - 1])
  }

  /** PostgreSQL's `integer` input: optional white space, an optional sign, at
      least one decimal digit, optional white space, nothing else; the value
      must fit in 32 bits. Anything else is rejected with an error. */
  function ParseInt4(text: string): (r: Result<int>)
    ensures r.Ok? ==> IsInt4(r.value)
    ensures r.Err? ==> r.failure == InvalidInteger(text)
  {
    var st := Run(text, Leading);
    if st.InDigits? || st.Trailing? then
      var v := if st.negative then 0 - st.magnitude else st.magnitude;
      if IsInt4(v) then Ok(v) else Err(InvalidInteger(text))
    else Err(InvalidInteger(text))
  }

  /** An integer printed in decimal, with any white space around it, reads
      back as itself when it fits in 32 bits and is rejected otherwise. */
  lemma ParseInt4Padded(pre: string, n: int, post: string)
    requires AllCSpace(pre) && AllCSpace(post)
    ensures ParseInt4(pre + IntToDecimal(n) + post) == if IsInt4(n) then Ok(n) else Err(InvalidInteger(pre + IntToDecimal(n) + post))
  {
    var d := IntToDecimal(n);
    var m: nat := if n < 0 then -n else n;
    RunConcat(pre + d, post, Leading);
    RunConcat(pre, d, Leading);
    RunSpaces(pre);
    if n < 0 {
      RunConcat("-", NatToDecimal(m), Leading);
      assert Run("-", Leading) == Signed(true) by {
        assert "-"[..0] == [];
      }
      assert d == "-" + NatToDecimal(m);
    }
    RunDigits(m, n < 0, if n < 0 then Signed(true) else Leading);
    RunTrailing(post, n < 0, m);
  }

  /** Running over two texts one after the other. */
  lemma {:induction false} RunConcat(a: string, b: string, st: Scan)
    ensures Run(a + b, st) == Run(b, Run(a, st))
    decreases |b|
  {
    if b == [] {
      assert a + b == a;
    } else {
      var b', c := b[..|b| - 1], b[|b| - 1];
      assert (a + b)[..|a + b| - 1] == a + b' && (a + b)[|a + b| - 1] == c;
      calc {
        Run(a + b, st);
        Step(Run(a + b', st), c);
        { RunConcat(a, b', st); }
        Step(Run(b', Run(a, st)), c);
        Run(b, Run(a, st));
      }
    }
  }

  lemma {:induction false} RunSpaces(s: string)
    requires AllCSpace(s)
    ensures Run(s, Leading) == Leading
    decreases |s|
  {
    if s != [] {
      RunSpaces(s[..|s| - 1]);
    }
  }

  /** The digits of `m` read as `m`, from the start of the text or just past a sign. */
  lemma {:induction false} RunDigits(m: nat, negative: bool, st: Scan)
    requires st == Signed(negative) || (st == Leading && !negative)
    ensures Run(NatToDecimal(m), st) == InDigits(negative, m)
    decreases m
  {
    var s := NatToDecimal(m);
    if m < 10 {
      assert s[..0] == [];
    } else {
      assert s[..|s| - 1] == NatToDecimal(m / 10);
      RunDigits(m / 10, negative, st);
    }
  }

  lemma {:induction false} RunTrailing(s: string, negative: bool, m: nat)
    requires AllCSpace(s)
    ensures Run(s, InDigits(negative, m)) == if s == [] then InDigits(negative, m) else Trailing(negative, m)
    decreases |s|
  {
    if s != [] {
      RunTrailing(s[..|s| - 1], negative, m);
    }
  }

  /** Assigning a text to a `varchar(limit)` column: a text that fits is kept;
      a longer one is an error unless everything past the limit is spaces, in
      which case those spaces are cut off. */
  function CoerceVarchar(s: string, limit: nat): (r: Result<string>)
    ensures r.Ok? <==> |s| <= limit || forall i :: limit <= i < |s| ==> s[i] == ' '
    ensures r.Err? ==> r.failure == ValueTooLong
    ensures r.Ok? ==> |r.value| <= limit && |r.value| <= |s|
    ensures r.Ok? ==> r.value == s[..|r.value|] && forall i :: |r.value| <= i < |s| ==> s[i] == ' '
    ensures r.Ok? ==> |r.value| == if |s| <= limit then |s| else limit
  {
    if |s| <= limit then Ok(s)
    else if forall i :: limit <= i < |s| ==> s[i] == ' ' then Ok(s[..limit])
    else Err(ValueTooLong)
  }

  /** Cutting off trailing spaces never makes a non-blank text blank. */
  lemma CoerceKeepsNonBlank(s: string, limit: nat)
    requires !IsBlank(s) && CoerceVarchar(s, limit).Ok?
    ensures !IsBlank(CoerceVarchar(s, limit).value)
  {
    var r := CoerceVarchar(s, limit).value;
    var i :| 0 <= i < |s| && !IsJsSpace(s[i]);
    assert i < |r| && r[i] == s[i];
  }
}
