/** The defensive cell coercions of src/lib/safeParse.ts: `toStr`, `toNum`,
    `toBool`, `splitNumList` and `toNumOpt`. A cell value is any JavaScript
    value; the optional fallbacks are explicit parameters. */
module SafeParse {
  import opened Wrappers
  import opened Text
  import opened JsValues
  import opened DataLoader

  predicate Missing(v: JsValue) {
    v.Undefined? || v.Null?
  }

  // ---------------------------------------------------------------------------
  // toStr
  // ---------------------------------------------------------------------------

  /** `toStr(val, fallback)`: missing values give the fallback untouched,
      anything else is rendered with `String` and trimmed. */
  function ToStrOr(val: JsValue, fallback: string): (r: string)
    ensures Missing(val) ==> r == fallback
    ensures !Missing(val) ==> JsTrim(r) == r
    ensures !Missing(val) && r == "" <==> !Missing(val) && AllJsSpace(ToStr(val))
  {
    if Missing(val) then fallback
    else
      JsTrimIdempotent(ToStr(val));
      JsTrimEmptyIff(ToStr(val));
      JsTrim(ToStr(val))
  }

  /** A present value comes back as a piece of its own text: only white space
      is cut, and only from the ends. */
  lemma ToStrIsInnerPiece(val: JsValue, fallback: string)
    requires !Missing(val)
    ensures exists a, b :: (0 <= a <= b <= |ToStr(val)| && ToStrOr(val, fallback) == ToStr(val)[a..b]
                            && AllJsSpace(ToStr(val)[..a]) && AllJsSpace(ToStr(val)[b..]))
  {
    var s := ToStr(val);
    var a, b := JsTrimIsSlice(s);
    assert AllJsSpace(s[..a]) by {
      forall i | 0 <= i < a ensures IsJsSpace(s[..a][i]) {
        assert s[..a][i] == s[i];
      }
    }
    assert AllJsSpace(s[b..]) by {
      forall i | 0 <= i < |s| - b ensures IsJsSpace(s[b..][i]) {
        assert s[b..][i] == s[b + i];
      }
    }
  }

  /** Integers survive the round trip through their decimal text. */
  lemma ToStrOfNumber(i: int, fallback: string)
    ensures ToStrOr(Number(Finite(i)), fallback) == IntToString(i)
    ensures ToNumOr(Str(ToStrOr(Number(Finite(i)), fallback)), NaN) == Finite(i)
  {
    var t := IntToString(i);
    assert !IsJsSpace(t[0]) && !IsJsSpace(t[|t| - 1]) by {
      if i < 0 {
        assert t[|t| - 1] == t[1..][|t| - 2];
      }
    }
    TrimKeepsSolidEnds(t);
    NumberOfIntToString(i);
  }

  // ---------------------------------------------------------------------------
  // toNum and toNumOpt
  // ---------------------------------------------------------------------------

  /** `toNum(val, fallback)`: `Number(val)` when that is finite, the fallback
      otherwise. */
  function ToNumOr(val: JsValue, fallback: Num): (r: Num)
    ensures IsFinite(ToNumber(val)) ==> r == ToNumber(val)
    ensures !IsFinite(ToNumber(val)) ==> r == fallback
    ensures IsFinite(r) || r == fallback
  {
    var n := ToNumber(val);
    if IsFinite(n) then n else fallback
  }

  /** `toNumOpt(val)`: the finite number, or nothing. */
  function ToNumOpt(val: JsValue): (r: Option<int>)
    ensures r.Some? <==> IsFinite(ToNumber(val))
    ensures r.Some? ==> ToNumber(val) == Finite(r.value)
  {
    match ToNumber(val)
    case Finite(i) => Some(i)
    case _ => None
  }

  /** `toNum` and `toNumOpt` agree: the fallback stands exactly where
      `toNumOpt` finds nothing. */
  lemma ToNumAgreesWithOpt(val: JsValue, fallback: Num)
    ensures ToNumOr(val, fallback) == if ToNumOpt(val).Some? then Finite(ToNumOpt(val).value) else fallback
  {
  }

  /** The coercion's edge cases: `null`, booleans and blank text count as
      numbers, `undefined`, `NaN` and the infinities do not. */
  lemma ToNumEdges(fallback: Num, blank: string)
    requires AllJsSpace(blank)
    ensures ToNumOr(Null, fallback) == Finite(0)
    ensures ToNumOr(Bool(true), fallback) == Finite(1) && ToNumOr(Bool(false), fallback) == Finite(0)
    ensures ToNumOr(Str(blank), fallback) == Finite(0)
    ensures ToNumOr(Undefined, fallback) == fallback
    ensures ToNumOr(Number(NaN), fallback) == fallback
    ensures ToNumOr(Number(PosInf), fallback) == fallback && ToNumOr(Number(NegInf), fallback) == fallback
    ensures ToNumOr(Str("Infinity"), fallback) == fallback
  {
    assert !IsSignedDecimal("Infinity") by {
      assert !IsDigit("Infinity"[0]);
    }
    assert JsTrim("Infinity") == "Infinity" by {
      TrimKeepsSolidEnds("Infinity");
    }
  }

  // ---------------------------------------------------------------------------
  // toBool
  // ---------------------------------------------------------------------------

  const TruthyWords: seq<string> := ["true", "1", "yes", "y"]

  /** `toBool(val, fallback)`. */
  function ToBoolOr(val: JsValue, fallback: bool): (r: bool)
    ensures Missing(val) ==> r == fallback
    ensures val.Bool? ==> r == val.b
    ensures val.Number? ==> (r <==> val.n != Finite(0))
    ensures val.Str? ==> (r <==> JsTrim(Lower(val.s)) in TruthyWords)
  {
    match val
    case Undefined => fallback
    case Null => fallback
    case Bool(b) => b
    case Number(n) => n != Finite(0)
    case Str(_) => JsTrim(Lower(ToStr(val))) in TruthyWords
  }

  /** Lower-casing the input first changes nothing: the words are matched
      whatever their case. */
  lemma ToBoolIgnoresCase(s: string, fallback: bool)
    ensures ToBoolOr(Str(Lower(s)), fallback) == ToBoolOr(Str(s), fallback)
  {
    var l := Lower(s);
    assert Lower(l) == l by {
      forall i | 0 <= i < |l| ensures Lower(l)[i] == l[i] {
        assert l[i] == LowerChar(s[i]);
      }
    }
  }

  /** The text `String(b)` of a boolean reads back as that boolean. */
  lemma ToBoolOfBooleanText(b: bool, fallback: bool)
    ensures ToBoolOr(Str(ToStr(Bool(b))), fallback) == b
  {
    var t := ToStr(Bool(b));
    var l := Lower(t);
    assert l == t by {
      forall i | 0 <= i < |t| ensures l[i] == t[i] {
        assert 'a' <= t[i] <= 'z';
      }
    }
    TrimKeepsSolidEnds(t);
    if !b {
      assert t != "true" && t != "1" && t != "yes" && t != "y" by {
        assert |t| == 5;
      }
    }
  }

  /** `NaN` is not 0, so it reads as true, unlike JavaScript truthiness. */
  lemma ToBoolOfNaN(fallback: bool)
    ensures ToBoolOr(Number(NaN), fallback)
    ensures !Truthy(Number(NaN))
  {
  }

  // ---------------------------------------------------------------------------
  // splitNumList
  // ---------------------------------------------------------------------------

  /** The default delimiters `/[|,\s]+/`. */
  predicate IsNumListSep(c: char) {
    c == '|' || c == ',' || IsJsSpace(c)
  }

  /** `str.split(/[|,\s]+/).filter(Boolean)`: the non-empty pieces between
      separators. A run of separators and a single one split alike once the
      empty pieces are dropped. */
  function NumTokens(s: string): (r: seq<string>)
    ensures forall k :: 0 <= k < |r| ==> r[k] != ""
  {
    NonEmpty(Split(CommaFor(s, IsNumListSep), ','))
  }

  /** `.filter((n) => Number.isFinite(n))`. */
  function KeepFinite(ns: seq<Num>): (r: seq<Num>)
    ensures |r| <= |ns|
    ensures forall k :: 0 <= k < |r| ==> IsFinite(r[k])
    ensures forall n :: n in r <==> n in ns && IsFinite(n)
  {
    if |ns| == 0 then []
    else
      var rest := KeepFinite(ns[1..]);
      assert forall n :: n in ns <==> n == ns[0] || n in ns[1..];
      if IsFinite(ns[0]) then [ns[0]] + rest else rest
  }

  lemma {:induction false} KeepFiniteAll(ns: seq<Num>)
    requires forall k :: 0 <= k < |ns| ==> IsFinite(ns[k])
    ensures KeepFinite(ns) == ns
    decreases |ns|
  {
    if |ns| > 0 {
      KeepFiniteAll(ns[1..]);
    }
  }

  /** `.map((v) => toNum(v))` with the default `NaN` fallback. */
  function ToNums(tokens: seq<string>): (r: seq<Num>)
    ensures |r| == |tokens|
    ensures forall k :: 0 <= k < |r| ==> r[k] == ToNumOr(Str(tokens[k]), NaN)
  {
    seq(|tokens|, k requires 0 <= k < |tokens| => ToNumOr(Str(tokens[k]), NaN))
  }

  /** `splitNumList(raw)` with the default delimiters. */
  function SplitNumList(raw: JsValue): (r: seq<Num>)
    ensures Missing(raw) ==> r == []
    ensures |r| <= |NumTokens(ToStr(raw))|
    ensures forall k :: 0 <= k < |r| ==> IsFinite(r[k])
  {
    if Missing(raw) then []
    else KeepFinite(ToNums(NumTokens(ToStr(raw))))
  }

  /** Every number the list holds was written in it: it is the value of one
      of its tokens. */
  lemma SplitNumListFromTokens(raw: JsValue, n: Num)
    requires n in SplitNumList(raw)
    ensures exists t :: t in NumTokens(ToStr(raw)) && StringToNumber(t) == n
  {
    var tokens := NumTokens(ToStr(raw));
    var nums := ToNums(tokens);
    assert n in nums;
    var k :| 0 <= k < |nums| && nums[k] == n;
    assert tokens[k] in tokens;
  }

  /** Blank input has no numbers. */
  lemma SplitNumListBlank(s: string)
    requires AllJsSpace(s)
    ensures SplitNumList(Str(s)) == []
  {
    AllCommas(CommaFor(s, IsNumListSep));
  }

  /** Natural numbers joined by commas are read back in order. */
  lemma SplitNumListRoundTrip(ns: seq<nat>)
    requires |ns| > 0
    ensures SplitNumList(Str(Join(NatStrings(ns), ','))) == Finites(ns)
  {
    var parts := NatStrings(ns);
    var s := Join(parts, ',');
    forall k | 0 <= k < |parts| ensures AllDigits(parts[k]) && ',' !in parts[k] && parts[k] != "" {
      assert parts[k] == NatToString(ns[k]);
    }
    forall k, i | 0 <= k < |parts| && 0 <= i < |parts[k]| ensures !IsNumListSep(parts[k][i]) {
      assert IsDigit(parts[k][i]);
    }
    CommaForJoin(parts, IsNumListSep);
    SplitOfJoin(parts, ',');
    NonEmptyAll(parts);
    assert NumTokens(s) == parts;
    var nums := ToNums(parts);
    forall k | 0 <= k < |ns| ensures nums[k] == Finite(ns[k]) {
      NumberOfIntToString(ns[k]);
    }
    assert nums == Finites(ns);
    KeepFiniteAll(nums);
  }
}
