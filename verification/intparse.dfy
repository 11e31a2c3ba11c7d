/** The integer conversion the validators rely on: `getInt` wraps Python's
    `int(...)` and turns every failure into the sentinel -1. */
module IntParse {
  import opened Results

  /** A request field as decoded from JSON, before any validation.  A field
      the request leaves out is looked up with the default `''`, which is
      `Text("")`.  `Other` stands for null, a list or an object: values on
      which `int(...)` raises. */
  datatype Raw = Num(n: int) | Text(s: string) | Flag(b: bool) | Other

  predicate IsDigit(c: char) { '0' <= c <= '9' }

  predicate AllDigits(s: string) { forall i :: 0 <= i < |s| ==> IsDigit(s[i]) }

  /** A non-empty run of ASCII decimal digits. */
  predicate Numeral(s: string) { |s| > 0 && AllDigits(s) }

  predicate IsSign(c: char) { c == '-' || c == '+' }

  /** The default bound on the number of digits Python's `int(...)` reads
      from a string; a longer numeral raises `ValueError`. */
  const MaxStrDigits: nat := 4300

  /** A numeral `int(...)` reads: non-empty, all digits, within the bound. */
  predicate ReadableNumeral(s: string) { Numeral(s) && |s| <= MaxStrDigits }

  /** The strings `int(...)` accepts in this model: a readable numeral,
      optionally preceded by one sign character. */
  predicate WellFormed(s: string)
  {
    ReadableNumeral(s) || (|s| > 1 && IsSign(s[0]) && ReadableNumeral(s[1..]))
  }

  function DigitValue(c: char): (d: nat)
    requires IsDigit(c)
    ensures d < 10
  {
    c as int - '0' as int
  }

  /** The value of a digit string read most-significant digit first. */
  function DigitsValue(s: string): nat
    requires AllDigits(s)
    decreases |s|
  {
    if |s| == 0 then 0 else DigitsValue(s[..|s| - 1]) * 10 + DigitValue(s[|s| - 1])
  }

  /** Decimal parsing of a string, `None` where `int(s)` raises, for the
      strings described at `WellFormed`. */
  function ParseInt(s: string): (r: Option<int>)
    ensures r.Some? <==> WellFormed(s)
    ensures s == "" ==> r == None
    ensures r.Some? && s[0] != '-' ==> r.value >= 0
  {
    if ReadableNumeral(s) then Some(DigitsValue(s))
    else if |s| > 1 && IsSign(s[0]) && ReadableNumeral(s[1..]) then
      var magnitude: int := DigitsValue(s[1..]);
      Some(if s[0] == '-' then -magnitude else magnitude)
    else None
  }

  /** What `int(v)` returns for a decoded field, or `None` where it raises. */
  function IntValue(v: Raw): (r: Option<int>)
    ensures v == Text("") ==> r == None
    ensures v.Other? ==> r == None
    ensures v.Num? ==> r == Some(v.n)
    ensures v.Text? && r.Some? && v.s[0] != '-' ==> r.value >= 0
  {
    match v
    case Num(n) => Some(n)
    case Text(s) => ParseInt(s)
    case Flag(b) => Some(if b then 1 else 0)
    case Other => None
  }

  /** `getInt`: the parsed integer, or -1 when the conversion fails.  A
      failure cannot be told apart from a genuine -1. */
  function GetInt(v: Raw): (r: int)
    ensures r != -1 ==> IntValue(v) == Some(r)
    ensures r == -1 <==> (IntValue(v) == None || IntValue(v) == Some(-1))
  {
    match IntValue(v)
    case Some(n) => n
    case None => -1
  }

  /** Any lower bound of at least 0 on `getInt` holds exactly when the
      conversion succeeds with a value meeting that bound: a failed parse
      and an out-of-range value fail every such check alike. */
  lemma GetIntAtLeast(v: Raw, lo: int)
    requires lo >= 0
    ensures GetInt(v) >= lo <==> (IntValue(v).Some? && IntValue(v).value >= lo)
  {
  }

  /** The missing field, unparsable text, the text "-1" and the number -1
      all give the same sentinel. */
  lemma GetIntSentinel()
    ensures GetInt(Text("")) == -1
    ensures GetInt(Text("abc")) == -1
    ensures GetInt(Other) == -1
    ensures GetInt(Text("-1")) == GetInt(Num(-1)) == -1
  {
    assert !WellFormed("abc") by { assert !IsDigit("abc"[0]); }
    assert DigitsValue("1") == 1 by { assert "1"[..0] == ""; }
    assert "-1"[1..] == "1";
  }

  // ---- decimal rendering, the inverse partner of ParseInt ----

  function DigitChar(d: nat): (c: char)
    requires d < 10
    ensures IsDigit(c) && DigitValue(c) == d
  {
    ('0' as int + d) as char
  }

  /** The decimal numeral of a natural number, as Python's `str` writes it. */
  function ShowNat(n: nat): (s: string)
    ensures Numeral(s)
    decreases n
  {
    if n < 10 then [DigitChar(n)] else ShowNat(n / 10) + [DigitChar(n % 10)]
  }

  function Abs(n: int): nat
  {
    if n < 0 then -n else n
  }

  function ShowInt(n: int): string
  {
    if n < 0 then "-" + ShowNat(-n) else ShowNat(n)
  }

  lemma {:induction false} ShowNatValue(n: nat)
    ensures DigitsValue(ShowNat(n)) == n
    decreases n
  {
    var s := ShowNat(n);
    if n < 10 {
      assert s[..|s| - 1] == "";
    } else {
      assert s[..|s| - 1] == ShowNat(n / 10);
      ShowNatValue(n / 10);
    }
  }

  /** Parsing inverts decimal rendering: every integer whose decimal
      numeral is within the digit bound is read back as itself, and every
      longer one is refused. */
  lemma ParseShowInt(n: int)
    ensures ParseInt(ShowInt(n)) == if |ShowNat(Abs(n))| <= MaxStrDigits then Some(n) else None
  {
    var s := ShowInt(n);
    if n < 0 {
      assert s[1..] == ShowNat(-n);
      assert !AllDigits(s) by { assert !IsDigit(s[0]); }
      ShowNatValue(-n);
    } else {
      assert !IsSign(s[0]);
      ShowNatValue(n);
    }
  }
}
