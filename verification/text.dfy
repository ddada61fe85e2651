/** String helpers shared by the Python scripts and the TypeScript sites:
    whitespace trimming (JavaScript `trim` and Python `str.strip`), ASCII case
    mapping, single-character `split`/`join` and decimal rendering of integers. */
module Text {

  /** The code points JavaScript's `String.prototype.trim` and regex `\s` treat as
      white space (WhiteSpace and LineTerminator of ECMA-262). */
  predicate IsJsSpace(c: char) {
    c == ' ' || c == '\t' || c == '\n' || c == '\r' || c == '\U{000B}' || c == '\U{000C}'
    || c == '\U{00A0}' || c == '\U{1680}' || ('\U{2000}' <= c <= '\U{200A}')
    || c == '\U{2028}' || c == '\U{2029}' || c == '\U{202F}' || c == '\U{205F}'
    || c == '\U{3000}' || c == '\U{FEFF}'
  }

  /** The code points Python's `str.strip()` removes (`str.isspace`). */
  predicate IsPySpace(c: char) {
    c == ' ' || c == '\t' || c == '\n' || c == '\r' || c == '\U{000B}' || c == '\U{000C}'
    || ('\U{001C}' <= c <= '\U{001F}') || c == '\U{0085}' || c == '\U{00A0}'
    || c == '\U{1680}' || ('\U{2000}' <= c <= '\U{200A}') || c == '\U{2028}'
    || c == '\U{2029}' || c == '\U{202F}' || c == '\U{205F}' || c == '\U{3000}'
  }

  /** The length of the longest prefix of `s` made of characters satisfying `sp`. */
  function LeadLen(s: string, sp: char -> bool): (k: nat)
    ensures k <= |s|
    ensures forall i :: 0 <= i < k ==> sp(s[i])
    ensures k < |s| ==> !sp(s[k])
    decreases |s|
  {
    if |s| > 0 && sp(s[0]) then
      var k := 1 + LeadLen(s[1..], sp);
      assert forall i :: 1 <= i < k ==> s[i] == s[1..][i - 1];
      k
    else 0
  }

  /** The length of the longest suffix of `s` made of characters satisfying `sp`. */
  function TrailLen(s: string, sp: char -> bool): (k: nat)
    ensures k <= |s|
    ensures forall i :: |s| - k <= i < |s| ==> sp(s[i])
    ensures k < |s| ==> !sp(s[|s| - k - 1])
    decreases |s|
  {
    if |s| > 0 && sp(s[|s| - 1]) then
      var k := 1 + TrailLen(s[..|s| - 1], sp);
      assert forall i :: |s| - k <= i < |s| - 1 ==> s[i] == s[..|s| - 1][i];
      k
    else 0
  }

  /** Drops the longest prefix of `s` made of characters satisfying `sp`. */
  function DropLeading(s: string, sp: char -> bool): (r: string)
  {
    s[LeadLen(s, sp)..]
  }

  /** Drops the longest suffix of `s` made of characters satisfying `sp`. */
  function DropTrailing(s: string, sp: char -> bool): (r: string)
  {
    s[..|s| - TrailLen(s, sp)]
  }

  /** `s.trim()` in JavaScript. */
  function JsTrim(s: string): string {
    DropTrailing(DropLeading(s, IsJsSpace), IsJsSpace)
  }

  /** `s.strip()` in Python. */
  function PyStrip(s: string): string {
    DropTrailing(DropLeading(s, IsPySpace), IsPySpace)
  }

  /** True when every character of `s` is JavaScript white space. */
  predicate AllJsSpace(s: string) {
    forall i :: 0 <= i < |s| ==> IsJsSpace(s[i])
  }

  /** True when every character of `s` is Python white space. */
  predicate AllPySpace(s: string) {
    forall i :: 0 <= i < |s| ==> IsPySpace(s[i])
  }

  /** Trimming with `sp` keeps the slice `s[a..b]`, removes only characters
      satisfying `sp`, and leaves no such character at either end. */
  lemma TrimWithIsSlice(s: string, sp: char -> bool) returns (a: nat, b: nat)
    ensures a <= b <= |s| && DropTrailing(DropLeading(s, sp), sp) == s[a..b]
    ensures forall i :: 0 <= i < a ==> sp(s[i])
    ensures forall i :: b <= i < |s| ==> sp(s[i])
    ensures a < b ==> !sp(s[a]) && !sp(s[b - 1])
  {
    var l := DropLeading(s, sp);
    a := |s| - |l|;
    var r := DropTrailing(l, sp);
    b := a + |r|;
    forall i | 0 <= i < |r| ensures r[i] == s[a + i] {
      assert r[i] == l[i];
      assert l[i] == s[a + i];
    }
    assert r == s[a..b];
    forall i | b <= i < |s| ensures sp(s[i]) {
      assert s[i] == l[i - a];
    }
  }

  /** The trimmed text is empty exactly when every character satisfies `sp`. */
  lemma TrimWithEmptyIff(s: string, sp: char -> bool)
    ensures DropTrailing(DropLeading(s, sp), sp) == [] <==> forall i :: 0 <= i < |s| ==> sp(s[i])
  {
    var l := DropLeading(s, sp);
    if l != [] {
      assert l[0] == s[|s| - |l|];
      assert !sp(l[0]);
      assert DropTrailing(l, sp) != [];
    } else {
      assert DropTrailing(l, sp) == [];
    }
  }

  /** Trimming twice with `sp` is the same as trimming once. */
  lemma TrimWithIdempotent(s: string, sp: char -> bool)
    ensures var t := DropTrailing(DropLeading(s, sp), sp);
      DropTrailing(DropLeading(t, sp), sp) == t
  {
    var l := DropLeading(s, sp);
    var t := DropTrailing(l, sp);
    if t != [] {
      assert t[0] == l[0];
      assert DropLeading(t, sp) == t;
      assert DropTrailing(t, sp) == t;
    }
  }

  /** `trim()` removes exactly the surrounding JavaScript white space. */
  lemma JsTrimIsSlice(s: string) returns (a: nat, b: nat)
    ensures a <= b <= |s| && JsTrim(s) == s[a..b]
    ensures forall i :: 0 <= i < a ==> IsJsSpace(s[i])
    ensures forall i :: b <= i < |s| ==> IsJsSpace(s[i])
    ensures a < b ==> !IsJsSpace(s[a]) && !IsJsSpace(s[b - 1])
  {
    a, b := TrimWithIsSlice(s, IsJsSpace);
  }

  /** The trimmed text is empty exactly when the input is all white space. */
  lemma JsTrimEmptyIff(s: string)
    ensures JsTrim(s) == [] <==> AllJsSpace(s)
  {
    TrimWithEmptyIff(s, IsJsSpace);
  }

  /** Python's strip gives the empty string exactly on all-white-space input. */
  lemma PyStripEmptyIff(s: string)
    ensures PyStrip(s) == [] <==> AllPySpace(s)
  {
    TrimWithEmptyIff(s, IsPySpace);
  }

  lemma JsTrimIdempotent(s: string)
    ensures JsTrim(JsTrim(s)) == JsTrim(s)
  {
    TrimWithIdempotent(s, IsJsSpace);
  }

  lemma PyStripIdempotent(s: string)
    ensures PyStrip(PyStrip(s)) == PyStrip(s)
  {
    TrimWithIdempotent(s, IsPySpace);
  }

  /** Text that neither starts nor ends with a space is kept as it is. */
  lemma TrimWithSolid(s: string, sp: char -> bool)
    requires |s| > 0 ==> !sp(s[0]) && !sp(s[|s| - 1])
    ensures DropTrailing(DropLeading(s, sp), sp) == s
  {
    assert LeadLen(s, sp) == 0;
    assert DropLeading(s, sp) == s;
    assert TrailLen(s, sp) == 0;
  }

  lemma PyStripSolid(s: string)
    requires |s| > 0 ==> !IsPySpace(s[0]) && !IsPySpace(s[|s| - 1])
    ensures PyStrip(s) == s
  {
    TrimWithSolid(s, IsPySpace);
  }

  /** A non-empty trimmed string starts and ends with a non-space. */
  lemma JsTrimSolidEnds(s: string)
    requires JsTrim(s) != ""
    ensures !IsJsSpace(JsTrim(s)[0]) && !IsJsSpace(JsTrim(s)[|JsTrim(s)| - 1])
  {
    var d := DropLeading(s, IsJsSpace);
    var k := TrailLen(d, IsJsSpace);
    assert JsTrim(s) == d[..|d| - k];
    assert JsTrim(s)[0] == d[0] == s[LeadLen(s, IsJsSpace)];
    assert JsTrim(s)[|JsTrim(s)| - 1] == d[|d| - k - 1];
  }

  /** ASCII upper case letters map to lower case; everything else is kept.
      (`toLowerCase`/`lower` beyond ASCII is not modelled.) */
  function LowerChar(c: char): (r: char)
    ensures 'A' <= c <= 'Z' ==> 'a' <= r <= 'z'
    ensures !('A' <= c <= 'Z') ==> r == c
  {
    if 'A' <= c <= 'Z' then (c as int + 32) as char else c
  }

  function Lower(s: string): (r: string)
    ensures |r| == |s|
    ensures forall i :: 0 <= i < |s| ==> r[i] == LowerChar(s[i])
  {
    seq(|s|, i requires 0 <= i < |s| => LowerChar(s[i]))
  }

  predicate StartsWith(s: string, prefix: string) {
    |prefix| <= |s| && s[..|prefix|] == prefix
  }

  /** `s.split(sep)` with a one-character separator (JavaScript and Python agree). */
  function Split(s: string, sep: char): (parts: seq<string>)
    ensures |parts| >= 1
    decreases |s|
  {
    if |s| == 0 then [""]
    else
      var rest := Split(s[1..], sep);
      if s[0] == sep then [""] + rest else [[s[0]] + rest[0]] + rest[1..]
  }

  /** `parts.join(sep)`. */
  function Join(parts: seq<string>, sep: char): string {
    if |parts| == 0 then ""
    else if |parts| == 1 then parts[0]
    else parts[0] + [sep] + Join(parts[1..], sep)
  }

  function Count(s: string, c: char): nat {
    if |s| == 0 then 0 else (if s[0] == c then 1 else 0) + Count(s[1..], c)
  }

  /** Splitting yields one more piece than there are separators, no piece
      contains the separator, and joining the pieces restores the input. */
  lemma {:induction false} SplitJoin(s: string, sep: char)
    ensures |Split(s, sep)| == Count(s, sep) + 1
    ensures forall k :: 0 <= k < |Split(s, sep)| ==> sep !in Split(s, sep)[k]
    ensures Join(Split(s, sep), sep) == s
    decreases |s|
  {
    if |s| > 0 {
      SplitJoin(s[1..], sep);
      var rest := Split(s[1..], sep);
      if s[0] == sep {
        assert Split(s, sep) == [""] + rest;
        assert Join([""] + rest, sep) == "" + [sep] + Join(rest, sep);
        assert [sep] + s[1..] == s;
      } else {
        var parts := Split(s, sep);
        assert parts == [[s[0]] + rest[0]] + rest[1..];
        forall k | 0 <= k < |parts| ensures sep !in parts[k] {
          if k == 0 {
            assert sep !in rest[0];
          } else {
            assert parts[k] == rest[k];
          }
        }
        if |rest| == 1 {
          assert Join(parts, sep) == [s[0]] + rest[0];
        } else {
          assert Join(parts, sep) == [s[0]] + rest[0] + [sep] + Join(rest[1..], sep);
          assert Join(rest, sep) == rest[0] + [sep] + Join(rest[1..], sep);
        }
        assert [s[0]] + s[1..] == s;
      }
    }
  }

  /** The first piece of a split is the text before the first separator. */
  lemma {:induction false} SplitFirst(s: string, sep: char)
    ensures sep !in s ==> Split(s, sep) == [s]
    ensures forall i :: 0 <= i < |s| && s[i] == sep && sep !in s[..i] ==> Split(s, sep)[0] == s[..i]
    decreases |s|
  {
    if |s| > 0 {
      SplitFirst(s[1..], sep);
      forall i | 0 <= i < |s| && s[i] == sep && sep !in s[..i] ensures Split(s, sep)[0] == s[..i] {
        if i > 0 {
          assert s[1..][i - 1] == sep;
          assert s[1..][..i - 1] == s[1..i];
          assert sep !in s[1..][..i - 1];
          assert [s[0]] + s[1..i] == s[..i];
        }
      }
      if sep !in s {
        assert sep !in s[1..];
        assert [s[0]] + s[1..] == s;
      }
    }
  }

  lemma {:induction false} JoinStartsWith(parts: seq<string>, sep: char)
    requires |parts| > 0
    ensures |parts[0]| <= |Join(parts, sep)| && Join(parts, sep)[..|parts[0]|] == parts[0]
  {
    if |parts| > 1 {
      assert Join(parts, sep) == parts[0] + ([sep] + Join(parts[1..], sep));
    }
  }

  /** Splitting undoes joining when no piece holds the separator. */
  lemma {:induction false} SplitOfJoin(parts: seq<string>, sep: char)
    requires |parts| > 0
    requires forall k :: 0 <= k < |parts| ==> sep !in parts[k]
    ensures Split(Join(parts, sep), sep) == parts
    decreases |parts|
  {
    SplitFirst(parts[0], sep);
    if |parts| > 1 {
      SplitOfJoin(parts[1..], sep);
      SplitAfterPiece(parts[0], sep, Join(parts[1..], sep));
      assert Join(parts, sep) == parts[0] + [sep] + Join(parts[1..], sep);
      assert [parts[0]] + parts[1..] == parts;
    }
  }

  lemma {:induction false} SplitAfterPiece(a: string, sep: char, b: string)
    requires sep !in a
    ensures Split(a + [sep] + b, sep) == [a] + Split(b, sep)
    decreases |a|
  {
    if |a| == 0 {
      assert a + [sep] + b == [sep] + b;
      assert ([sep] + b)[1..] == b;
    } else {
      SplitAfterPiece(a[1..], sep, b);
      var s := a + [sep] + b;
      assert s[0] == a[0] && s[1..] == a[1..] + [sep] + b;
      assert [a[0]] + a[1..] == a;
    }
  }

  /** `s` with every character satisfying `isSep` replaced by a comma, so that
      splitting at commas splits at every separator. */
  function CommaFor(s: string, isSep: char -> bool): (r: string)
    ensures |r| == |s|
  {
    seq(|s|, i requires 0 <= i < |s| => if isSep(s[i]) then ',' else s[i])
  }

  lemma CommaForAppend(a: string, b: string, isSep: char -> bool)
    ensures CommaFor(a + b, isSep) == CommaFor(a, isSep) + CommaFor(b, isSep)
  {
    var l := CommaFor(a + b, isSep);
    var r := CommaFor(a, isSep) + CommaFor(b, isSep);
    forall i | 0 <= i < |l| ensures l[i] == r[i] {
      if i < |a| {
        assert (a + b)[i] == a[i];
      } else {
        assert (a + b)[i] == b[i - |a|];
      }
    }
  }

  /** Pieces without separators joined by commas are left as they are. */
  lemma {:induction false} CommaForJoin(parts: seq<string>, isSep: char -> bool)
    requires forall k, i :: 0 <= k < |parts| && 0 <= i < |parts[k]| ==> !isSep(parts[k][i])
    ensures CommaFor(Join(parts, ','), isSep) == Join(parts, ',')
    decreases |parts|
  {
    if |parts| == 1 {
      assert CommaFor(parts[0], isSep) == parts[0];
    } else if |parts| > 1 {
      CommaForJoin(parts[1..], isSep);
      assert CommaFor(parts[0], isSep) == parts[0];
      CommaForAppend(parts[0] + [','], Join(parts[1..], ','), isSep);
      CommaForAppend(parts[0], [','], isSep);
    }
  }

  /** `.filter((s) => s)`: the non-empty strings, in order. */
  function NonEmpty(parts: seq<string>): (r: seq<string>)
    ensures |r| <= |parts|
    ensures forall k :: 0 <= k < |r| ==> r[k] != ""
  {
    if |parts| == 0 then []
    else if parts[0] == "" then NonEmpty(parts[1..])
    else [parts[0]] + NonEmpty(parts[1..])
  }

  lemma {:induction false} NonEmptyAll(parts: seq<string>)
    requires forall k :: 0 <= k < |parts| ==> parts[k] != ""
    ensures NonEmpty(parts) == parts
  {
    if |parts| > 0 {
      NonEmptyAll(parts[1..]);
    }
  }

  /** A string made only of commas splits into empty pieces. */
  lemma {:induction false} AllCommas(n: string)
    requires forall i :: 0 <= i < |n| ==> n[i] == ','
    ensures NonEmpty(Split(n, ',')) == []
    decreases |n|
  {
    if |n| > 0 {
      AllCommas(n[1..]);
      assert Split(n, ',') == [""] + Split(n[1..], ',');
      assert ([""] + Split(n[1..], ','))[1..] == Split(n[1..], ',');
    }
  }

  predicate IsDigit(c: char) {
    '0' <= c <= '9'
  }

  predicate AllDigits(s: string) {
    forall i :: 0 <= i < |s| ==> IsDigit(s[i])
  }

  function DigitChar(d: nat): (c: char)
    requires d < 10
    ensures IsDigit(c) && c as int - '0' as int == d
  {
    ('0' as int + d) as char
  }

  /** The value of a string of decimal digits, most significant first. */
  function DigitsValue(s: string): nat
    requires AllDigits(s)
  {
    if |s| == 0 then 0 else 10 * DigitsValue(s[..|s| - 1]) + (s[|s| - 1] as int - '0' as int)
  }

  /** `String(n)` for a natural number: its decimal digits without leading zeros. */
  function NatToString(n: nat): (r: string)
    ensures |r| >= 1 && AllDigits(r)
    ensures r[0] == '0' ==> n == 0
  {
    if n < 10 then [DigitChar(n)] else NatToString(n / 10) + [DigitChar(n % 10)]
  }

  /** `String(i)` for an integer. */
  function IntToString(i: int): (r: string)
    ensures |r| >= 1
    ensures i >= 0 ==> AllDigits(r)
    ensures i < 0 ==> r[0] == '-' && AllDigits(r[1..])
  {
    if i >= 0 then NatToString(i) else "-" + NatToString(-i)
  }

  /** Reading the rendered digits back gives the number. */
  lemma {:induction false} NatToStringRoundTrip(n: nat)
    ensures DigitsValue(NatToString(n)) == n
  {
    if n >= 10 {
      NatToStringRoundTrip(n / 10);
      var p := NatToString(n / 10);
      var r := p + [DigitChar(n % 10)];
      assert r[..|r| - 1] == p;
    }
  }

  /** Rendering is injective: different numbers never share a decimal string. */
  lemma NatToStringInjective(m: nat, n: nat)
    requires NatToString(m) == NatToString(n)
    ensures m == n
  {
    NatToStringRoundTrip(m);
    NatToStringRoundTrip(n);
  }
}
