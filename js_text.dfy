/**
 * The JavaScript string built-ins the construction code relies on:
 * `trim`, `split` with a one-character separator, the lower-case test for
 * `"null"`, `Number(s)` / `isNaN(s)` and the `localeCompare` fallback.
 */
module JsText {
  import opened Wrappers

  /** WhiteSpace and LineTerminator code points: what `trim` removes. */
  predicate IsJsSpace(c: char) {
    c == ' ' || c == '\t' || c == '\n' || c == '\r' || c == '\U{000B}' || c == '\U{000C}'
    || c == '\U{00A0}' || c == '\U{1680}' || ('\U{2000}' <= c <= '\U{200A}')
    || c == '\U{2028}' || c == '\U{2029}' || c == '\U{202F}' || c == '\U{205F}'
    || c == '\U{3000}' || c == '\U{FEFF}'
  }

  /** Every character of `s` is white space (true of the empty string). */
  predicate IsBlank(s: string) {
    forall i | 0 <= i < |s| :: IsJsSpace(s[i])
  }

  function TrimStart(s: string): (r: string)
    ensures r == [] || !IsJsSpace(r[0])
  {
    if |s| > 0 && IsJsSpace(s[0]) then TrimStart(s[1..]) else s
  }

  function TrimEnd(s: string): (r: string)
    ensures r == [] || !IsJsSpace(r[|r| - 1])
  {
    if |s| > 0 && IsJsSpace(s[|s| - 1]) then TrimEnd(s[..|s| - 1]) else s
  }

  lemma {:induction false} TrimStartBlank(s: string)
    ensures TrimStart(s) == [] <==> IsBlank(s)
    ensures IsBlank(TrimStart(s)) <==> IsBlank(s)
  {
    if |s| > 0 && IsJsSpace(s[0]) {
      TrimStartBlank(s[1..]);
      assert IsBlank(s) <==> IsBlank(s[1..]) by {
        if IsBlank(s[1..]) {
          forall i | 0 <= i < |s| ensures IsJsSpace(s[i]) {
            if i > 0 { assert s[1..][i - 1] == s[i]; }
          }
        }
      }
    } else if |s| > 0 {
      assert !IsJsSpace(s[0]);
    }
  }

  lemma {:induction false} TrimEndBlank(s: string)
    ensures TrimEnd(s) == [] <==> IsBlank(s)
  {
    if |s| > 0 && IsJsSpace(s[|s| - 1]) {
      var init := s[..|s| - 1];
      TrimEndBlank(init);
      assert IsBlank(s) <==> IsBlank(init) by {
        if IsBlank(init) {
          forall i | 0 <= i < |s| ensures IsJsSpace(s[i]) {
            if i < |s| - 1 { assert init[i] == s[i]; }
          }
        }
      }
    } else if |s| > 0 {
      assert !IsJsSpace(s[|s| - 1]);
    }
  }

  /** `s.trim()`: `s` without its leading and trailing white space. */
  function Trim(s: string): (r: string)
    ensures r == [] <==> IsBlank(s)
    ensures r == [] || (!IsJsSpace(r[0]) && !IsJsSpace(r[|r| - 1]))
  {
    var t := TrimStart(s);
    TrimStartBlank(s);
    TrimEndBlank(t);
    var r := TrimEnd(t);
    assert r != [] ==> !IsJsSpace(r[0]) by {
      TrimEndPrefix(t);
    }
    r
  }

  lemma {:induction false} TrimEndPrefix(s: string)
    ensures |TrimEnd(s)| <= |s| && TrimEnd(s) == s[..|TrimEnd(s)|]
  {
    if |s| > 0 && IsJsSpace(s[|s| - 1]) {
      TrimEndPrefix(s[..|s| - 1]);
    }
  }

  lemma {:induction false} TrimStartSuffix(s: string)
    ensures |TrimStart(s)| <= |s| && TrimStart(s) == s[|s| - |TrimStart(s)|..]
  {
    if |s| > 0 && IsJsSpace(s[0]) {
      TrimStartSuffix(s[1..]);
    }
  }

  /** Trimming only removes characters: what is left was in the string. */
  lemma TrimWithin(s: string)
    ensures forall c | c in Trim(s) :: c in s
  {
    var t := TrimStart(s);
    TrimStartSuffix(s);
    TrimEndPrefix(t);
    forall c | c in Trim(s) ensures c in s {
      assert c in t;
      assert c in s[|s| - |t|..];
    }
  }

  /** Number of occurrences of `c` in `s`. */
  function Count(s: string, c: char): nat {
    if |s| == 0 then 0 else (if s[0] == c then 1 else 0) + Count(s[1..], c)
  }

  /** `parts.join(sep)`. */
  function Join(parts: seq<string>, sep: char): string
    requires |parts| >= 1
  {
    if |parts| == 1 then parts[0] else parts[0] + [sep] + Join(parts[1..], sep)
  }

  /** `s.split(sep)` for a one-character separator. */
  function Split(s: string, sep: char): (parts: seq<string>)
    ensures |parts| == Count(s, sep) + 1
    ensures forall k | 0 <= k < |parts| :: sep !in parts[k]
  {
    if |s| == 0 then [""]
    else
      var rest := Split(s[1..], sep);
      if s[0] == sep then [""] + rest else [[s[0]] + rest[0]] + rest[1..]
  }

  /** Splitting loses nothing: joining the pieces again gives back the string. */
  lemma {:induction false} JoinSplit(s: string, sep: char)
    ensures Join(Split(s, sep), sep) == s
  {
    if |s| > 0 {
      JoinSplit(s[1..], sep);
      var rest := Split(s[1..], sep);
      if s[0] != sep && |rest| > 1 {
        assert Join(rest, sep) == rest[0] + [sep] + Join(rest[1..], sep);
      }
    }
  }

  lemma {:induction false} CountPositive(s: string, c: char)
    requires c in s
    ensures Count(s, c) >= 1
  {
    if s[0] != c {
      CountPositive(s[1..], c);
    }
  }

  /** A string that contains the separator splits into at least two pieces. */
  lemma SplitAtLeastTwo(s: string, sep: char)
    requires sep in s
    ensures |Split(s, sep)| >= 2
  {
    CountPositive(s, sep);
  }

  function LowerAscii(c: char): char {
    if 'A' <= c <= 'Z' then (c as int + 32) as char else c
  }

  /**
   * `s.toLowerCase() === "null"`. Only the letters N, U and L lower-case to
   * n, u and l, so folding ASCII letters decides this comparison.
   */
  predicate IsNullWord(s: string) {
    |s| == 4 && LowerAscii(s[0]) == 'n' && LowerAscii(s[1]) == 'u'
    && LowerAscii(s[2]) == 'l' && LowerAscii(s[3]) == 'l'
  }

  function DigitValue(c: char): nat {
    if '0' <= c <= '9' then c as int - '0' as int
    else if 'a' <= c <= 'f' then c as int - 'a' as int + 10
    else if 'A' <= c <= 'F' then c as int - 'A' as int + 10
    else 16
  }

  predicate AllDigits(s: string, base: nat) {
    forall i | 0 <= i < |s| :: DigitValue(s[i]) < base
  }

  /** The value of a digit string in the given base, most significant digit first. */
  function DigitsValue(s: string, base: nat): nat {
    if |s| == 0 then 0 else DigitsValue(s[..|s| - 1], base) * base + DigitValue(s[|s| - 1]) % 16
  }

  function Pow10(n: nat): (r: nat)
    ensures r >= 1
  {
    if n == 0 then 1 else 10 * Pow10(n - 1)
  }

  function IndexOf(s: string, c: char): (r: Option<nat>)
    ensures r.Some? ==> r.value < |s| && s[r.value] == c && c !in s[..r.value]
    ensures r.None? ==> c !in s
  {
    if |s| == 0 then None
    else if s[0] == c then Some(0)
    else match IndexOf(s[1..], c)
      case None => None
      case Some(k) => Some(k + 1)
  }

  /** `[+-]? digits` as an exponent. */
  function ParseExponent(s: string): Option<int> {
    if |s| > 0 && (s[0] == '+' || s[0] == '-') then
      if |s| > 1 && AllDigits(s[1..], 10) then
        Some(if s[0] == '-' then -(DigitsValue(s[1..], 10) as int) else DigitsValue(s[1..], 10))
      else None
    else if |s| > 0 && AllDigits(s, 10) then Some(DigitsValue(s, 10))
    else None
  }

  /** `digits [. digits]` or `. digits`, the mantissa of a decimal literal. */
  function ParseMantissa(s: string): Option<real> {
    match IndexOf(s, '.')
    case None =>
      if |s| > 0 && AllDigits(s, 10) then Some(DigitsValue(s, 10) as real) else None
    case Some(p) =>
      var whole, frac := s[..p], s[p + 1..];
      if (|whole| > 0 || |frac| > 0) && AllDigits(whole, 10) && AllDigits(frac, 10) then
        Some(DigitsValue(whole, 10) as real + DigitsValue(frac, 10) as real / Pow10(|frac|) as real)
      else None
  }

  function Scale(m: real, e: int): real {
    if e >= 0 then m * Pow10(e) as real else m / Pow10(-e) as real
  }

  /** An unsigned decimal literal with an optional exponent. */
  function ParseUnsignedDecimal(s: string): Option<real> {
    var e := IndexOf(s, 'e');
    var cut := if e.Some? then e else IndexOf(s, 'E');
    match cut
    case None => ParseMantissa(s)
    case Some(p) =>
      match (ParseMantissa(s[..p]), ParseExponent(s[p + 1..]))
      case (Some(m), Some(x)) => Some(Scale(m, x))
      case _ => None
  }

  /** `0x`, `0o` or `0b` followed by digits of that base. */
  function ParseRadixLiteral(s: string): Option<real>
    requires |s| >= 2
  {
    var base := if s[1] == 'x' || s[1] == 'X' then 16 else if s[1] == 'o' || s[1] == 'O' then 8 else 2;
    var digits := s[2..];
    if |digits| > 0 && AllDigits(digits, base) then Some(DigitsValue(digits, base) as real) else None
  }

  function ParseTrimmedNumber(t: string): Option<real> {
    if |t| == 0 then Some(0.0)
    else if |t| >= 2 && t[0] == '0' && t[1] in "xXoObB" then ParseRadixLiteral(t)
    else if t[0] == '-' then
      match ParseUnsignedDecimal(t[1..])
      case Some(v) => Some(-v)
      case None => None
    else if t[0] == '+' then ParseUnsignedDecimal(t[1..])
    else ParseUnsignedDecimal(t)
  }

  /** `Number(s)`, with `None` standing for `NaN`. */
  function ToNumber(s: string): Option<real> {
    ParseTrimmedNumber(Trim(s))
  }

  /** `!isNaN(s)`. */
  predicate IsNumeric(s: string) {
    ToNumber(s).Some?
  }

  function NumVal(s: string): real
    requires IsNumeric(s)
  {
    ToNumber(s).value
  }

  /** The word `null`, in any letter case, is not a number. */
  lemma NullWordNotNumeric(s: string)
    requires IsNullWord(s)
    ensures !IsNumeric(s)
  {
    assert !IsJsSpace(s[0]) && !IsJsSpace(s[3]);
    assert TrimStart(s) == s;
    assert TrimEnd(s) == s;
    assert Trim(s) == s;
    var t := s;
    assert IndexOf(t, '.') == None by {
      assert '.' !in t;
    }
    assert t[0] != '-' && t[0] != '+' && t[0] != '0';
    assert IndexOf(t, 'e') == None && IndexOf(t, 'E') == None;
    assert !AllDigits(t, 10) by { assert DigitValue(t[0]) >= 10; }
  }

  /**
   * Stand-in for `a.localeCompare(b)`: the sign of the comparison of the
   * code-unit sequences in lexicographic order.
   */
  function CompareText(a: string, b: string): (r: int)
    ensures -1 <= r <= 1
    ensures r == 0 <==> a == b
  {
    if |a| == 0 && |b| == 0 then 0
    else if |a| == 0 then -1
    else if |b| == 0 then 1
    else if a[0] < b[0] then -1
    else if a[0] > b[0] then 1
    else
      var r := CompareText(a[1..], b[1..]);
      assert r == 0 ==> a == [a[0]] + a[1..] == [b[0]] + b[1..] == b;
      r
  }
}
