/**
 * String primitives the JavaScript code relies on: ASCII case mapping,
 * `String.prototype.trim`, substring search, and decimal and hexadecimal
 * renderings of numbers together with their parsers.
 */
module Text {

  // ---------------------------------------------------------------------
  // Characters

  /** `\d` in a JavaScript regular expression without the `u` flag. */
  predicate IsDigit(c: char) { '0' <= c <= '9' }

  predicate IsUpper(c: char) { 'A' <= c <= 'Z' }

  predicate IsLower(c: char) { 'a' <= c <= 'z' }

  predicate IsLetter(c: char) { IsUpper(c) || IsLower(c) }

  predicate IsHexChar(c: char) { IsDigit(c) || 'a' <= c <= 'f' || 'A' <= c <= 'F' }

  /** The characters `String.prototype.trim` removes (WhiteSpace and LineTerminator). */
  predicate IsJsSpace(c: char) {
    c == '\t' || c == '\n' || c == '\U{0B}' || c == '\U{0C}' || c == '\r' || c == ' '
    || c == '\U{A0}' || c == '\U{1680}' || ('\U{2000}' <= c <= '\U{200A}')
    || c == '\U{2028}' || c == '\U{2029}' || c == '\U{202F}' || c == '\U{205F}'
    || c == '\U{3000}' || c == '\U{FEFF}'
  }

  function ToLower(c: char): (r: char)
    ensures !IsUpper(r)
    ensures IsJsSpace(r) <==> IsJsSpace(c)
  {
    if IsUpper(c) then (c as int + 32) as char else c
  }

  function ToUpper(c: char): (r: char)
    ensures !IsLower(r)
    ensures IsJsSpace(r) <==> IsJsSpace(c)
  {
    if IsLower(c) then (c as int - 32) as char else c
  }

  // ---------------------------------------------------------------------
  // Case mapping over strings

  function LowerCase(s: string): (r: string)
    ensures |r| == |s|
    ensures forall i :: 0 <= i < |s| ==> r[i] == ToLower(s[i])
  {
    seq(|s|, i requires 0 <= i < |s| => ToLower(s[i]))
  }

  function UpperCase(s: string): (r: string)
    ensures |r| == |s|
    ensures forall i :: 0 <= i < |s| ==> r[i] == ToUpper(s[i])
  {
    seq(|s|, i requires 0 <= i < |s| => ToUpper(s[i]))
  }

  predicate HasNoUpper(s: string) { forall i :: 0 <= i < |s| ==> !IsUpper(s[i]) }

  predicate HasNoLower(s: string) { forall i :: 0 <= i < |s| ==> !IsLower(s[i]) }

  /** Lower-casing is the identity exactly on strings without an upper-case letter. */
  lemma LowerCaseFixed(s: string)
    ensures LowerCase(s) == s <==> HasNoUpper(s)
  {
    if HasNoUpper(s) {
      assert forall i :: 0 <= i < |s| ==> LowerCase(s)[i] == s[i];
    } else {
      var i :| 0 <= i < |s| && IsUpper(s[i]);
      assert LowerCase(s)[i] != s[i];
    }
  }

  lemma UpperCaseFixed(s: string)
    ensures UpperCase(s) == s <==> HasNoLower(s)
  {
    if HasNoLower(s) {
      assert forall i :: 0 <= i < |s| ==> UpperCase(s)[i] == s[i];
    } else {
      var i :| 0 <= i < |s| && IsLower(s[i]);
      assert UpperCase(s)[i] != s[i];
    }
  }

  // ---------------------------------------------------------------------
  // String.prototype.trim

  /** The first position at or after `i` that does not hold white space (or `|s|`). */
  function SkipSpaceFrom(s: string, i: nat): (n: nat)
    requires i <= |s|
    ensures i <= n <= |s|
    ensures forall k :: i <= k < n ==> IsJsSpace(s[k])
    ensures n < |s| ==> !IsJsSpace(s[n])
    decreases |s| - i
  {
    if i < |s| && IsJsSpace(s[i]) then SkipSpaceFrom(s, i + 1) else i
  }

  /** The position just after the last non-space before `j`, not going below `lo`. */
  function SkipSpaceBack(s: string, lo: nat, j: nat): (n: nat)
    requires lo <= j <= |s|
    ensures lo <= n <= j
    ensures forall k :: n <= k < j ==> IsJsSpace(s[k])
    ensures n > lo ==> !IsJsSpace(s[n - 1])
  {
    if j > lo && IsJsSpace(s[j - 1]) then SkipSpaceBack(s, lo, j - 1) else j
  }

  predicate IsTrimmed(s: string) {
    |s| == 0 || (!IsJsSpace(s[0]) && !IsJsSpace(s[|s| - 1]))
  }

  /**
   * `t` is what `s.trim()` should give: `t` sits in `s` at some offset `a`,
   * only white space lies before and after it, and `t` itself neither starts
   * nor ends with white space.
   */
  predicate IsTrimOf(s: string, t: string) {
    IsTrimmed(t) && exists a :: 0 <= a <= |s| && TrimmedAt(s, t, a)
  }

  predicate TrimmedAt(s: string, t: string, a: int) {
    && 0 <= a <= |s| - |t| && s[a..a + |t|] == t
    && (forall k :: 0 <= k < a ==> IsJsSpace(s[k]))
    && (forall k :: a + |t| <= k < |s| ==> IsJsSpace(s[k]))
  }

  /** `s.trim()`: the white space at both ends removed and nothing else. */
  function Trim(s: string): (r: string)
    ensures IsTrimOf(s, r)
  {
    var a := SkipSpaceFrom(s, 0);
    var b := SkipSpaceBack(s, a, |s|);
    var r := s[a..b];
    assert TrimmedAt(s, r, a);
    assert |r| > 0 ==> r[0] == s[a] && r[|r| - 1] == s[b - 1];
    r
  }

  /** The trimmed form is unique: whatever satisfies the description is `Trim(s)`. */
  lemma TrimOfUnique(s: string, t: string)
    requires IsTrimOf(s, t)
    ensures t == Trim(s)
  {
    var r := Trim(s);
    var a :| 0 <= a <= |s| && TrimmedAt(s, t, a);
    var b :| 0 <= b <= |s| && TrimmedAt(s, r, b);
    assert IsTrimmed(t) && IsTrimmed(r);
    if |t| > 0 {
      assert s[a] == s[a..a + |t|][0] == t[0];
      assert s[a + |t| - 1] == s[a..a + |t|][|t| - 1] == t[|t| - 1];
    }
    if |r| > 0 {
      assert s[b] == s[b..b + |r|][0] == r[0];
      assert s[b + |r| - 1] == s[b..b + |r|][|r| - 1] == r[|r| - 1];
    }
    if |t| > 0 && |r| > 0 {
      assert a == b;
      assert a + |t| == b + |r|;
    }
  }

  /** Trimming changes nothing exactly when there is nothing to trim. */
  lemma TrimFixed(s: string)
    ensures Trim(s) == s <==> IsTrimmed(s)
  {
    if IsTrimmed(s) {
      assert TrimmedAt(s, s, 0);
      TrimOfUnique(s, s);
    }
  }

  lemma LowerCaseKeepsTrimmed(s: string)
    requires IsTrimmed(s)
    ensures IsTrimmed(LowerCase(s))
  {
  }

  lemma UpperCaseKeepsTrimmed(s: string)
    requires IsTrimmed(s)
    ensures IsTrimmed(UpperCase(s))
  {
  }

  // ---------------------------------------------------------------------
  // Substrings

  predicate OccursAt(s: string, sub: string, i: int) {
    0 <= i <= |s| - |sub| && s[i..i + |sub|] == sub
  }

  /** `sub` occurs somewhere in `s` (a literal, case-sensitive match). */
  predicate Contains(s: string, sub: string) {
    exists i :: 0 <= i <= |s| - |sub| && OccursAt(s, sub, i)
  }

  /** Case-insensitive occurrence, as a regular expression with the `i` flag matches a literal. */
  predicate ContainsIgnoringCase(s: string, sub: string) {
    Contains(LowerCase(s), LowerCase(sub))
  }

  // ---------------------------------------------------------------------
  // Decimal numbers

  function Pow(base: nat, k: nat): (r: nat)
    ensures base > 0 ==> r > 0
  {
    if k == 0 then 1 else base * Pow(base, k - 1)
  }

  function DigitChar(d: nat): (c: char)
    requires d < 10
    ensures IsDigit(c)
  {
    ('0' as int + d) as char
  }

  function DigitValue(c: char): (d: nat)
    requires IsDigit(c)
    ensures d < 10 && DigitChar(d) == c
  {
    c as int - '0' as int
  }

  predicate AllDigits(s: string) { forall i :: 0 <= i < |s| ==> IsDigit(s[i]) }

  /** `n.toString()` for a non-negative integer: decimal digits, no leading zero. */
  function Decimal(n: nat): (r: string)
    ensures |r| >= 1 && AllDigits(r)
    ensures |r| > 1 ==> r[0] != '0'
    decreases n
  {
    if n < 10 then [DigitChar(n)] else Decimal(n / 10) + [DigitChar(n % 10)]
  }

  /** The value of a string of decimal digits. */
  function DecimalValue(s: string): nat
    requires AllDigits(s)
  {
    if s == [] then 0 else DecimalValue(s[..|s| - 1]) * 10 + DigitValue(s[|s| - 1])
  }

  /** Reading back a rendered number gives the number. */
  lemma {:induction false} DecimalRoundTrip(n: nat)
    ensures DecimalValue(Decimal(n)) == n
    decreases n
  {
    if n >= 10 {
      var s := Decimal(n);
      assert s[..|s| - 1] == Decimal(n / 10);
      DecimalRoundTrip(n / 10);
    }
  }

  /** Digit strings of one length with one value are the same string. */
  lemma {:induction false} DecimalValueInjective(a: string, b: string)
    requires AllDigits(a) && AllDigits(b) && |a| == |b|
    requires DecimalValue(a) == DecimalValue(b)
    ensures a == b
  {
    if a != [] {
      var n := |a| - 1;
      DivModUnique(DecimalValue(a), 10, DecimalValue(a[..n]), DigitValue(a[n]));
      DivModUnique(DecimalValue(b), 10, DecimalValue(b[..n]), DigitValue(b[n]));
      DecimalValueInjective(a[..n], b[..n]);
      assert a == a[..n] + [a[n]] && b == b[..n] + [b[n]];
    }
  }

  /** A number with `k` digits renders as exactly `k` characters. */
  lemma {:induction false} DecimalLength(n: nat, k: nat)
    requires k >= 1 && Pow(10, k - 1) <= n < Pow(10, k)
    ensures |Decimal(n)| == k
    decreases k
  {
    if k > 1 {
      DecimalLength(n / 10, k - 1);
    }
  }

  // ---------------------------------------------------------------------
  // Hexadecimal numbers of a fixed width

  function HexChar(d: nat): (c: char)
    requires d < 16
    ensures IsHexChar(c) && !IsUpper(c)
  {
    if d < 10 then DigitChar(d) else ('a' as int + d - 10) as char
  }

  function HexCharValue(c: char): (d: nat)
    requires IsHexChar(c)
    ensures d < 16
  {
    if IsDigit(c) then DigitValue(c)
    else if 'a' <= c <= 'f' then c as int - 'a' as int + 10
    else c as int - 'A' as int + 10
  }

  predicate AllHex(s: string) { forall i :: 0 <= i < |s| ==> IsHexChar(s[i]) }

  /** The low `width` hexadecimal digits of `n`, lower case, most significant first. */
  function Hex(n: nat, width: nat): (r: string)
    ensures |r| == width && AllHex(r) && HasNoUpper(r)
  {
    if width == 0 then [] else Hex(n / 16, width - 1) + [HexChar(n % 16)]
  }

  function HexValue(s: string): (v: nat)
    requires AllHex(s)
    ensures v < Pow(16, |s|)
  {
    if s == [] then 0 else HexValue(s[..|s| - 1]) * 16 + HexCharValue(s[|s| - 1])
  }

  /** Reading back `width` hexadecimal digits gives `n` modulo 16^width. */
  lemma {:induction false} HexRoundTrip(n: nat, width: nat)
    ensures HexValue(Hex(n, width)) == n % Pow(16, width)
    decreases width
  {
    if width > 0 {
      var s := Hex(n, width);
      assert s[..|s| - 1] == Hex(n / 16, width - 1);
      HexRoundTrip(n / 16, width - 1);
      ModOfQuotient(n, 16, Pow(16, width - 1));
    }
  }

  /** n % (b * p) == (n / b % p) * b + n % b, for positive b and p. */
  lemma ModOfQuotient(n: nat, b: nat, p: nat)
    requires b > 0 && p > 0
    ensures n % (b * p) == (n / b % p) * b + n % b
  {
    var q, r := n / b, n % b;
    var q2, r2 := q / p, q % p;
    var low := r2 * b + r;
    assert n == q2 * (b * p) + low by {
      assert q * b == (q2 * p + r2) * b;
      assert (q2 * p + r2) * b == q2 * (b * p) + r2 * b;
    }
    assert low < b * p by {
      assert r2 * b <= (p - 1) * b;
      assert (p - 1) * b == b * p - b;
    }
    DivModUnique(n, b * p, q2, low);
  }

  /** Euclidean division has a single quotient and remainder. */
  lemma DivModUnique(n: int, d: int, q: int, r: int)
    requires d > 0 && 0 <= r < d && n == q * d + r
    ensures n / d == q && n % d == r
  {
    var q0, r0 := n / d, n % d;
    assert q0 * d + r0 == q * d + r;
    if q > q0 {
      assert (q - q0) * d == r0 - r;
      MulAtLeast(q - q0, d);
    } else if q < q0 {
      assert (q0 - q) * d == r - r0;
      MulAtLeast(q0 - q, d);
    }
  }

  lemma MulAtLeast(k: int, d: int)
    requires k >= 1 && d >= 0
    ensures k * d >= d
  {
  }
}
