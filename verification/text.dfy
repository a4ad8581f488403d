/**
 * String helpers with JavaScript semantics: `trim`, ASCII `toLowerCase`,
 * `startsWith`/`includes`, `split`, and the decimal rendering of numbers
 * that `String(n)` and template literals produce.
 */
module Text {

  // ---------------------------------------------------------------------------
  // Whitespace and trimming
  // ---------------------------------------------------------------------------

  /** The characters that `String.prototype.trim` strips and `/\s/` matches:
      WhiteSpace and LineTerminator of ECMAScript. */
  predicate IsSpace(c: char) {
    || c == '\t' || c == '\n' || c == '\U{000B}' || c == '\U{000C}' || c == '\r'
    || c == ' ' || c == '\U{00A0}' || c == '\U{1680}'
    || ('\U{2000}' <= c <= '\U{200A}')
    || c == '\U{2028}' || c == '\U{2029}' || c == '\U{202F}' || c == '\U{205F}'
    || c == '\U{3000}' || c == '\U{FEFF}'
  }

  /** True when some character of `s` is whitespace (`/\s/.test(s)`). */
  predicate HasSpace(s: string) {
    exists i | 0 <= i < |s| :: IsSpace(s[i])
  }

  /** Number of whitespace characters at the front of `s`. */
  function LeadingSpaces(s: string): (k: nat)
    ensures k <= |s|
    ensures forall i | 0 <= i < k :: IsSpace(s[i])
    ensures k < |s| ==> !IsSpace(s[k])
  {
    if |s| == 0 || !IsSpace(s[0]) then 0 else 1 + LeadingSpaces(s[1..])
  }

  /** Number of whitespace characters at the end of `s`. */
  function TrailingSpaces(s: string): (k: nat)
    ensures k <= |s|
    ensures forall i | |s| - k <= i < |s| :: IsSpace(s[i])
    ensures k < |s| ==> !IsSpace(s[|s| - 1 - k])
  {
    if |s| == 0 || !IsSpace(s[|s| - 1]) then 0 else 1 + TrailingSpaces(s[..|s| - 1])
  }

  /** `s.trim()`: the longest infix of `s` that neither starts nor ends with whitespace. */
  function Trim(s: string): (r: string)
    ensures |r| <= |s|
    ensures LeadingSpaces(s) + |r| <= |s| && r == s[LeadingSpaces(s)..LeadingSpaces(s) + |r|]
    ensures r == [] || (!IsSpace(r[0]) && !IsSpace(r[|r| - 1]))
    ensures r == [] <==> forall i | 0 <= i < |s| :: IsSpace(s[i])
    ensures !HasSpace(s) ==> r == s
  {
    var a := LeadingSpaces(s);
    if a == |s| then []
    else
      var b := TrailingSpaces(s);
      assert !IsSpace(s[a]);
      s[a..|s| - b]
  }

  /** A string that neither starts nor ends with whitespace is its own trim. */
  lemma {:induction false} TrimUnpadded(s: string)
    requires s != [] && !IsSpace(s[0]) && !IsSpace(s[|s| - 1])
    ensures Trim(s) == s
  {
    assert LeadingSpaces(s) == 0 && TrailingSpaces(s) == 0;
  }

  /** Trimming twice is trimming once. */
  lemma {:induction false} TrimIdempotent(s: string)
    ensures Trim(Trim(s)) == Trim(s)
  {
    var r := Trim(s);
    if r != [] {
      assert !HasSpace(r) || IsSpace(r[0]) || LeadingSpaces(r) == 0;
      assert LeadingSpaces(r) == 0;
      assert TrailingSpaces(r) == 0;
    }
  }

  // ---------------------------------------------------------------------------
  // Length as validator.js's `isLength` counts it
  // ---------------------------------------------------------------------------

  /** The variation selectors U+FE0E and U+FE0F, which `isLength` leaves out of its count. */
  predicate PresentationSelector(c: char) {
    c == '\U{FE0E}' || c == '\U{FE0F}'
  }

  /** The length `isLength` compares with its bounds: one per code point (a
      surrogate pair counts once), the presentation selectors not at all. */
  function IsLengthCount(s: string): (n: nat)
    ensures n <= |s|
    ensures (forall i | 0 <= i < |s| :: !PresentationSelector(s[i])) ==> n == |s|
  {
    if s == [] then 0
    else (if PresentationSelector(s[0]) then 0 else 1) + IsLengthCount(s[1..])
  }

  /** The count of a concatenation is the sum of the counts. */
  lemma {:induction false} IsLengthCountAppend(a: string, b: string)
    ensures IsLengthCount(a + b) == IsLengthCount(a) + IsLengthCount(b)
  {
    if a == [] {
      assert a + b == b;
    } else {
      assert (a + b)[1..] == a[1..] + b;
      IsLengthCountAppend(a[1..], b);
    }
  }

  /** A presentation selector inserted anywhere leaves the count unchanged, so
      padding with selectors does not help a value reach a minimum length. */
  lemma {:induction false} SelectorNotCounted(a: string, sel: char, b: string)
    requires PresentationSelector(sel)
    ensures IsLengthCount(a + [sel] + b) == IsLengthCount(a + b)
  {
    IsLengthCountAppend(a + [sel], b);
    IsLengthCountAppend(a, [sel]);
    IsLengthCountAppend(a, b);
    assert IsLengthCount([sel]) == 0 by {
      assert [sel][1..] == [];
    }
  }

  // ---------------------------------------------------------------------------
  // Case
  // ---------------------------------------------------------------------------

  /** An upper-case letter of Basic Latin or Latin-1 (`A`–`Z`, `À`–`Þ` but `×`). */
  predicate IsUpperLatin1(c: char) {
    'A' <= c <= 'Z' || ('\U{00C0}' <= c <= '\U{00DE}' && c != '\U{00D7}')
  }

  /** `toLowerCase` of one character, on the Basic Latin and Latin-1 letters:
      each capital is 32 code points below its small letter. */
  function LowerChar(c: char): char {
    if IsUpperLatin1(c) then (c as int + 32) as char else c
  }

  /** `toLowerCase` of a string. */
  function Lower(s: string): (r: string)
    ensures |r| == |s|
    ensures forall i | 0 <= i < |s| :: r[i] == LowerChar(s[i])
  {
    if s == [] then [] else [LowerChar(s[0])] + Lower(s[1..])
  }

  /** Characters equal once both are lower-cased (regular-expression flag `i`). */
  predicate SameIgnoringCase(a: char, b: char) {
    LowerChar(a) == LowerChar(b)
  }

  /** Comparing a lower-cased string with a lower-case literal is comparing
      position by position ignoring case. */
  lemma {:induction false} LowerEquals(m: string, t: string)
    requires forall i | 0 <= i < |t| :: LowerChar(t[i]) == t[i]
    ensures Lower(m) == t <==> |m| == |t| && forall i | 0 <= i < |t| :: SameIgnoringCase(m[i], t[i])
  {
    if |m| == |t| && forall i | 0 <= i < |t| :: SameIgnoringCase(m[i], t[i]) {
      assert forall i | 0 <= i < |t| :: Lower(m)[i] == t[i];
    }
  }

  // ---------------------------------------------------------------------------
  // Prefixes and infixes
  // ---------------------------------------------------------------------------

  predicate StartsWith(s: string, p: string) {
    |p| <= |s| && s[..|p|] == p
  }

  predicate EndsWith(s: string, p: string) {
    |p| <= |s| && s[|s| - |p|..] == p
  }

  /** `s.includes(sub)`. */
  predicate Contains(s: string, sub: string)
    decreases |s|
  {
    StartsWith(s, sub) || (|s| > 0 && Contains(s[1..], sub))
  }

  /** A string holding `a + b` holds `a`. */
  lemma {:induction false} ContainsExtended(s: string, a: string, b: string)
    requires Contains(s, a + b)
    ensures Contains(s, a)
    decreases |s|
  {
    if StartsWith(s, a + b) {
      assert s[..|a|] == (a + b)[..|a|] == a;
    } else {
      ContainsExtended(s[1..], a, b);
    }
  }

  /** `/sub/i.test(s)` for a literal `sub`: some infix equals `sub` ignoring case. */
  predicate ContainsIgnoringCase(s: string, sub: string)
    decreases |s|
  {
    StartsWith(Lower(s), Lower(sub)) || (|s| > 0 && ContainsIgnoringCase(s[1..], sub))
  }

  /** `s.replace(from, to)` with a string pattern: only the first occurrence is replaced. */
  function ReplaceFirst(s: string, from: string, to: string): (r: string)
    requires |from| > 0
    ensures !Contains(s, from) ==> r == s
    decreases |s|
  {
    if StartsWith(s, from) then to + s[|from|..]
    else if |s| == 0 then s
    else [s[0]] + ReplaceFirst(s[1..], from, to)
  }

  /** Lower-casing keeps a lower-case prefix. */
  lemma {:induction false} LowerPrefix(t: string, p: string)
    requires StartsWith(t, p) && forall i | 0 <= i < |p| :: !IsUpperLatin1(p[i])
    ensures StartsWith(Lower(t), p)
  {
    forall i | 0 <= i < |p|
      ensures Lower(t)[i] == p[i]
    {
      assert t[i] == p[i];
    }
    assert Lower(t)[..|p|] == p;
  }

  // ---------------------------------------------------------------------------
  // Splitting on a separator
  // ---------------------------------------------------------------------------

  /** Index of the first `c` in `s`. */
  function IndexOf(s: string, c: char): (i: nat)
    requires c in s
    ensures i < |s| && s[i] == c && c !in s[..i]
  {
    if s[0] == c then 0 else 1 + IndexOf(s[1..], c)
  }

  /** Concatenation of `parts` with `sep` between neighbours (`Array.prototype.join`). */
  function Join(parts: seq<string>, sep: char): string
    requires |parts| >= 1
  {
    if |parts| == 1 then parts[0] else parts[0] + [sep] + Join(parts[1..], sep)
  }

  /** `s.split(sep)` for a one-character separator. */
  function Split(s: string, sep: char): (parts: seq<string>)
    ensures |parts| >= 1
    ensures forall k | 0 <= k < |parts| :: sep !in parts[k]
    ensures Join(parts, sep) == s
    decreases |s|
  {
    if sep !in s then [s]
    else
      var i := IndexOf(s, sep);
      var rest := Split(s[i + 1..], sep);
      assert s == s[..i] + [sep] + s[i + 1..];
      [s[..i]] + rest
  }

  // ---------------------------------------------------------------------------
  // Decimal rendering of numbers
  // ---------------------------------------------------------------------------

  predicate IsDigit(c: char) {
    '0' <= c <= '9'
  }

  predicate AllDigits(s: string) {
    forall i | 0 <= i < |s| :: IsDigit(s[i])
  }

  function DigitChar(d: nat): (c: char)
    requires d < 10
    ensures IsDigit(c) && c as int - '0' as int == d
  {
    ('0' as int + d) as char
  }

  /** The number a string of decimal digits denotes. */
  function DecimalValue(s: string): nat
    requires AllDigits(s)
  {
    if s == [] then 0 else 10 * DecimalValue(s[..|s| - 1]) + (s[|s| - 1] as int - '0' as int)
  }

  /** `String(n)` for a non-negative integer: the canonical decimal digits of `n`. */
  function NatToDecimal(n: nat): (r: string)
    ensures |r| >= 1 && AllDigits(r)
    ensures DecimalValue(r) == n
    ensures |r| == 1 || r[0] != '0'
  {
    if n < 10 then [DigitChar(n)]
    else
      var r := NatToDecimal(n / 10) + [DigitChar(n % 10)];
      assert r[..|r| - 1] == NatToDecimal(n / 10);
      r
  }

  /** `String(i)` for any integer: a minus sign before the digits of `|i|` when negative. */
  function IntToString(i: int): (r: string)
    ensures |r| >= 1
    ensures i >= 0 ==> r == NatToDecimal(i)
    ensures i < 0 ==> r == "-" + NatToDecimal(-i)
  {
    if i < 0 then "-" + NatToDecimal(-i) else NatToDecimal(i)
  }

  /** Distinct integers render as distinct strings. */
  lemma {:induction false} IntToStringInjective(a: int, b: int)
    ensures IntToString(a) == IntToString(b) ==> a == b
  {
    if a < 0 && b < 0 {
      if IntToString(a) == IntToString(b) {
        assert NatToDecimal(-a) == IntToString(a)[1..] == NatToDecimal(-b);
      }
    } else if a < 0 && b >= 0 {
      assert IntToString(a)[0] != IntToString(b)[0];
    } else if a >= 0 && b < 0 {
      assert IntToString(a)[0] != IntToString(b)[0];
    }
  }

  function Pow10(k: nat): (p: nat)
    ensures p >= 1
  {
    if k == 0 then 1 else 10 * Pow10(k - 1)
  }

  /** A number below 10^k needs at most k digits. */
  lemma {:induction false} NatToDecimalLength(n: nat, k: nat)
    requires 1 <= k && n < Pow10(k)
    ensures |NatToDecimal(n)| <= k
  {
    if n >= 10 {
      assert Pow10(1) == 10;
      assert k >= 2;
      assert n / 10 < Pow10(k - 1);
      NatToDecimalLength(n / 10, k - 1);
    }
  }

  /** `c` repeated `n` times. */
  function Repeat(c: char, n: nat): (r: string)
    ensures |r| == n && forall i | 0 <= i < n :: r[i] == c
  {
    if n == 0 then [] else [c] + Repeat(c, n - 1)
  }

  /** `s.padStart(width, c)`. */
  function PadStart(s: string, width: nat, c: char): (r: string)
    ensures |s| >= width ==> r == s
    ensures |s| < width ==> |r| == width && r == Repeat(c, width - |s|) + s
  {
    if |s| >= width then s else Repeat(c, width - |s|) + s
  }

  /** Leading zeros do not change the value of a decimal string. */
  lemma {:induction false} LeadingZerosValue(z: nat, s: string)
    requires AllDigits(s)
    ensures AllDigits(Repeat('0', z) + s)
    ensures DecimalValue(Repeat('0', z) + s) == DecimalValue(s)
    decreases |s|
  {
    var t := Repeat('0', z) + s;
    if s == [] {
      assert t == Repeat('0', z);
      ZerosValue(z);
    } else {
      var s' := s[..|s| - 1];
      assert t[..|t| - 1] == Repeat('0', z) + s';
      LeadingZerosValue(z, s');
    }
  }

  lemma {:induction false} ZerosValue(z: nat)
    ensures DecimalValue(Repeat('0', z)) == 0
  {
    if z > 0 {
      var t := Repeat('0', z);
      assert t[..|t| - 1] == Repeat('0', z - 1);
      ZerosValue(z - 1);
    }
  }

  // ---------------------------------------------------------------------------
  // express-validator's `escape`
  // ---------------------------------------------------------------------------

  /** The characters `escape()` replaces by an entity, other than `&`. */
  const EscapedChars := "<>\"'/\\`"

  /** The entity `escape()` puts in place of one character. */
  function EscapeChar(c: char): (e: string)
    ensures |e| >= 1
    ensures forall x | x in e :: x !in EscapedChars
  {
    if c == '&' then "&amp;"
    else if c == '"' then "&quot;"
    else if c == '\'' then "&#x27;"
    else if c == '<' then "&lt;"
    else if c == '>' then "&gt;"
    else if c == '/' then "&#x2F;"
    else if c == '\\' then "&#x5C;"
    else if c == '`' then "&#96;"
    else [c]
  }

  /** express-validator's `escape()`: its replacements, `&` first, amount to one entity per character. */
  function ValidatorEscape(s: string): (r: string)
    ensures |r| >= |s|
    ensures forall x | x in r :: x !in EscapedChars
  {
    if s == [] then [] else EscapeChar(s[0]) + ValidatorEscape(s[1..])
  }
}
