/** JavaScript values as the site and CMS code sees them, and the coercions it
    relies on: `Number(v)`, `String(v)`, `parseInt(s, 10)`, `Number.isFinite`,
    `Number.isNaN` and truthiness. Numbers are integers or one of the three
    special values; fractions, exponents and hexadecimal literals are not part
    of the model. */
module JsValues {
  import opened Text
  import opened Wrappers

  datatype Num = Finite(value: int) | PosInf | NegInf | NaN

  datatype JsValue = Undefined | Null | Bool(b: bool) | Number(n: Num) | Str(s: string)

  predicate IsFinite(n: Num) {
    n.Finite?
  }

  /** An optional `+`/`-` sign followed by at least one decimal digit. */
  predicate IsSignedDecimal(t: string) {
    if |t| > 0 && (t[0] == '+' || t[0] == '-') then |t| > 1 && AllDigits(t[1..])
    else |t| > 0 && AllDigits(t)
  }

  function SignedDecimalValue(t: string): int
    requires IsSignedDecimal(t)
  {
    if t[0] == '-' then -(DigitsValue(t[1..]) as int)
    else if t[0] == '+' then DigitsValue(t[1..])
    else DigitsValue(t)
  }

  /** `Number(s)` for a string: surrounding white space is ignored, blank text is
      0, a signed decimal integer is its value, `Infinity` is infinite, and
      anything else is NaN. */
  function StringToNumber(s: string): (n: Num)
    ensures AllJsSpace(s) ==> n == Finite(0)
    ensures n.Finite? && !AllJsSpace(s) ==> IsSignedDecimal(JsTrim(s))
  {
    JsTrimEmptyIff(s);
    var t := JsTrim(s);
    if t == "" then Finite(0)
    else if IsSignedDecimal(t) then Finite(SignedDecimalValue(t))
    else if t == "Infinity" || t == "+Infinity" then PosInf
    else if t == "-Infinity" then NegInf
    else NaN
  }

  /** `Number(v)`. */
  function ToNumber(v: JsValue): Num {
    match v
    case Undefined => NaN
    case Null => Finite(0)
    case Bool(b) => Finite(if b then 1 else 0)
    case Number(n) => n
    case Str(s) => StringToNumber(s)
  }

  function NumToString(n: Num): string {
    match n
    case Finite(i) => IntToString(i)
    case PosInf => "Infinity"
    case NegInf => "-Infinity"
    case NaN => "NaN"
  }

  /** `String(v)`. */
  function ToStr(v: JsValue): string {
    match v
    case Undefined => "undefined"
    case Null => "null"
    case Bool(b) => if b then "true" else "false"
    case Number(n) => NumToString(n)
    case Str(s) => s
  }

  /** JavaScript truthiness (`if (v)`, `v || w`, `Boolean(v)`). */
  predicate Truthy(v: JsValue) {
    match v
    case Undefined => false
    case Null => false
    case Bool(b) => b
    case Number(n) => n != NaN && n != Finite(0)
    case Str(s) => s != ""
  }

  /** A string that may be `undefined`, as a record field read from a parsed row. */
  function OptStr(v: Option<string>): JsValue {
    match v
    case None => Undefined
    case Some(s) => Str(s)
  }

  /** Length of the longest prefix of `s` made of decimal digits. */
  function DigitPrefixLength(s: string): (k: nat)
    ensures k <= |s| && AllDigits(s[..k])
    ensures k < |s| ==> !IsDigit(s[k])
  {
    if |s| > 0 && IsDigit(s[0]) then
      var k := 1 + DigitPrefixLength(s[1..]);
      assert s[..k] == [s[0]] + s[1..][..k - 1];
      k
    else 0
  }

  /** `parseInt(s, 10)`: leading white space and one sign are skipped, then the
      longest run of decimal digits is read; with no digit the result is NaN. */
  function ParseInt10(s: string): (n: Num)
    ensures n.NaN? || n.Finite?
  {
    var t := DropLeading(s, IsJsSpace);
    var neg := |t| > 0 && t[0] == '-';
    var u := if |t| > 0 && (t[0] == '-' || t[0] == '+') then t[1..] else t;
    var k := DigitPrefixLength(u);
    if k == 0 then NaN
    else Finite(if neg then -(DigitsValue(u[..k]) as int) else DigitsValue(u[..k]))
  }

  lemma TrimKeepsSolidEnds(s: string)
    requires s != [] && !IsJsSpace(s[0]) && !IsJsSpace(s[|s| - 1])
    ensures JsTrim(s) == s
  {
    assert DropLeading(s, IsJsSpace) == s;
  }

  /** `String(n)` followed by `Number(...)` gives back every integer. */
  lemma {:induction false} NumberOfIntToString(i: int)
    ensures StringToNumber(IntToString(i)) == Finite(i)
  {
    var r := IntToString(i);
    var m: nat := if i >= 0 then i else -i;
    NatToStringRoundTrip(m);
    TrimKeepsSolidEnds(r);
    assert IsSignedDecimal(r);
    if i < 0 {
      assert r[1..] == NatToString(m);
    }
    assert SignedDecimalValue(r) == i;
  }

  /** `parseInt(String(n), 10)` gives back every integer. */
  lemma {:induction false} ParseIntOfIntToString(i: int)
    ensures ParseInt10(IntToString(i)) == Finite(i)
  {
    var r := IntToString(i);
    var m: nat := if i >= 0 then i else -i;
    NatToStringRoundTrip(m);
    assert !IsJsSpace(r[0]);
    assert DropLeading(r, IsJsSpace) == r;
    var u := if i < 0 then r[1..] else r;
    assert u == NatToString(m);
    assert DigitPrefixLength(u) == |u| by {
      DigitPrefixAll(u);
    }
    assert u[..|u|] == u;
  }

  lemma {:induction false} DigitPrefixAll(u: string)
    requires AllDigits(u)
    ensures DigitPrefixLength(u) == |u|
  {
    if |u| > 0 {
      DigitPrefixAll(u[1..]);
    }
  }
}
