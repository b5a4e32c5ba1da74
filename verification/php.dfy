/** The few PHP built-in semantics the modelled code relies on: string
    truthiness, prefix tests, `explode`/`implode` on one character and the
    `(int)` cast of a string on a 64-bit build. */
module Php {
  import opened Wrappers

  /** PHP_INT_MAX and PHP_INT_MIN on a 64-bit build. */
  const IntMax: int := 0x7fff_ffff_ffff_ffff
  const IntMin: int := -0x8000_0000_0000_0000

  predicate IsDigit(c: char) {
    '0' <= c <= '9'
  }

  /** A string is falsy in PHP exactly when it is "" or "0". */
  predicate Truthy(s: string) {
    s != "" && s != "0"
  }

  /** Truthiness of a nullable string: null is falsy. */
  predicate TruthyOpt(s: Option<string>) {
    s.Some? && Truthy(s.value)
  }

  /** `0 === strpos($s, $prefix)` for a non-empty prefix. */
  predicate StartsWith(s: string, prefix: string) {
    |prefix| <= |s| && s[..|prefix|] == prefix
  }

  /** `substr($s, $start)` for a non-negative start, with PHP 8's empty
      string when the start lies past the end. */
  function Substr(s: string, start: nat): (t: string)
    ensures start <= |s| ==> s == s[..start] + t
    ensures start > |s| ==> t == ""
  {
    if start <= |s| then s[start..] else ""
  }

  /** `needle` occurs in `haystack` at position `j`. */
  predicate OccursAt(haystack: string, needle: string, j: nat) {
    j + |needle| <= |haystack| && haystack[j..j + |needle|] == needle
  }

  lemma OccursShift(haystack: string, needle: string)
    requires |haystack| > 0
    ensures forall j: nat :: OccursAt(haystack, needle, j + 1) <==> OccursAt(haystack[1..], needle, j)
  {
    forall j: nat
      ensures OccursAt(haystack, needle, j + 1) <==> OccursAt(haystack[1..], needle, j)
    {
      if j + 1 + |needle| <= |haystack| {
        var a := haystack[j + 1..j + 1 + |needle|];
        var b := haystack[1..][j..j + |needle|];
        assert |a| == |b|;
        assert forall i :: 0 <= i < |a| ==> a[i] == haystack[j + 1 + i] == b[i];
        assert a == b;
      }
    }
  }

  /** `strpos($haystack, $needle)` for a non-empty needle: the first
      position where the needle occurs. */
  function Strpos(haystack: string, needle: string): (r: Option<nat>)
    requires |needle| > 0
    ensures r.Some? ==> OccursAt(haystack, needle, r.value)
    ensures r.Some? ==> forall j: nat :: j < r.value ==> !OccursAt(haystack, needle, j)
    ensures r.None? ==> forall j: nat :: !OccursAt(haystack, needle, j)
    decreases |haystack|
  {
    if |haystack| < |needle| then None
    else if haystack[..|needle|] == needle then Some(0)
    else
      OccursShift(haystack, needle);
      assert !OccursAt(haystack, needle, 0);
      assert forall j: nat :: j > 0 ==> (OccursAt(haystack, needle, j) <==> OccursAt(haystack[1..], needle, j - 1));
      match Strpos(haystack[1..], needle)
      case None => None
      case Some(k) => Some(k + 1)
  }

  /** `0 === strpos($s, $prefix)` is a prefix test. */
  lemma StrposZero(s: string, prefix: string)
    requires |prefix| > 0
    ensures Strpos(s, prefix) == Some(0) <==> StartsWith(s, prefix)
  {
  }

  /** `explode($sep, $s)`: the pieces between occurrences of `sep`. Even the
      empty string yields one (empty) piece. */
  function Explode(s: string, sep: char): (parts: seq<string>)
    ensures |parts| >= 1
    ensures forall i :: 0 <= i < |parts| ==> sep !in parts[i]
    decreases |s|
  {
    if |s| == 0 then [""]
    else
      var rest := Explode(s[1..], sep);
      if s[0] == sep then [""] + rest
      else [[s[0]] + rest[0]] + rest[1..]
  }

  /** `implode($sep, $parts)` for a non-empty list. */
  function Implode(parts: seq<string>, sep: char): string
    requires |parts| >= 1
    decreases |parts|
  {
    if |parts| == 1 then parts[0] else parts[0] + [sep] + Implode(parts[1..], sep)
  }

  /** Joining the pieces back with the separator restores the string. */
  lemma {:induction false} ImplodeExplode(s: string, sep: char)
    ensures Implode(Explode(s, sep), sep) == s
    decreases |s|
  {
    if |s| > 0 {
      ImplodeExplode(s[1..], sep);
      var rest := Explode(s[1..], sep);
      if s[0] != sep {
        if |rest| == 1 {
          assert Implode(Explode(s, sep), sep) == [s[0]] + rest[0];
        } else {
          assert Explode(s, sep)[1..] == rest[1..];
          assert Implode(rest, sep) == rest[0] + [sep] + Implode(rest[1..], sep);
        }
      }
    }
  }

  /** Splitting a join of separator-free pieces gives the pieces back. */
  lemma {:induction false} ExplodeImplode(parts: seq<string>, sep: char)
    requires |parts| >= 1
    requires forall i :: 0 <= i < |parts| ==> sep !in parts[i]
    ensures Explode(Implode(parts, sep), sep) == parts
    decreases |parts|
  {
    if |parts| == 1 {
      ExplodeNoSep(parts[0], sep);
    } else {
      ExplodeImplode(parts[1..], sep);
      ExplodeConcat(parts[0], Implode(parts[1..], sep), sep);
      assert Implode(parts, sep) == parts[0] + ([sep] + Implode(parts[1..], sep));
      assert parts == [parts[0]] + parts[1..];
    }
  }

  lemma {:induction false} ExplodeNoSep(w: string, sep: char)
    requires sep !in w
    ensures Explode(w, sep) == [w]
    decreases |w|
  {
    if |w| > 0 {
      ExplodeNoSep(w[1..], sep);
      assert [w[0]] + w[1..] == w;
    }
  }

  /** A separator-free word in front of a separator becomes the first piece. */
  lemma {:induction false} ExplodeConcat(w: string, rest: string, sep: char)
    requires sep !in w
    ensures Explode(w + ([sep] + rest), sep) == [w] + Explode(rest, sep)
    decreases |w|
  {
    if |w| == 0 {
      assert w + ([sep] + rest) == [sep] + rest;
      assert ([sep] + rest)[1..] == rest;
    } else {
      var s := w + ([sep] + rest);
      assert s[1..] == w[1..] + ([sep] + rest);
      ExplodeConcat(w[1..], rest, sep);
      assert [w[0]] + w[1..] == w;
    }
  }

  /** The longest prefix of `s` made of decimal digits. */
  function LeadingDigits(s: string): (d: string)
    ensures |d| <= |s| && d == s[..|d|]
    ensures forall i :: 0 <= i < |d| ==> IsDigit(d[i])
    ensures |d| < |s| ==> !IsDigit(s[|d|])
  {
    if |s| == 0 || !IsDigit(s[0]) then "" else [s[0]] + LeadingDigits(s[1..])
  }

  /** The value of a digit string read in base ten. */
  function DigitsValue(d: string): nat
    requires forall i :: 0 <= i < |d| ==> IsDigit(d[i])
  {
    if |d| == 0 then 0
    else
      var last := d[|d| - 1];
      assert IsDigit(last);
      10 * DigitsValue(d[..|d| - 1]) + (last as int - '0' as int)
  }

  predicate IsWhitespace(c: char) {
    c == ' ' || c == '\t' || c == '\n' || c == '\r' || c == '\U{0B}' || c == '\U{0C}'
  }

  function SkipWhitespace(s: string): (t: string)
    ensures |t| <= |s| && t == s[|s| - |t|..]
    ensures |t| > 0 ==> !IsWhitespace(t[0])
  {
    if |s| > 0 && IsWhitespace(s[0]) then SkipWhitespace(s[1..]) else s
  }

  /** Clamps a mathematical integer to the 64-bit range, as PHP does when a
      numeric string overflows. */
  function Saturate(n: int): (r: int)
    ensures IntMin <= r <= IntMax
    ensures IntMin <= n <= IntMax ==> r == n
    ensures n > IntMax ==> r == IntMax
    ensures n < IntMin ==> r == IntMin
  {
    if n > IntMax then IntMax else if n < IntMin then IntMin else n
  }

  /** `(int) $s`: leading whitespace, an optional sign and the leading
      digits; anything after them is ignored, no digits give 0. */
  function IntCast(s: string): (r: int)
    ensures IntMin <= r <= IntMax
    ensures (forall i :: 0 <= i < |s| ==> !IsDigit(s[i])) ==> r == 0
    ensures var t := SkipWhitespace(s); if |t| > 0 && t[0] == '-' then r <= 0 else r >= 0
  {
    var t := SkipWhitespace(s);
    if |t| > 0 && t[0] == '-' then Saturate(-(DigitsValue(LeadingDigits(t[1..])) as int))
    else if |t| > 0 && t[0] == '+' then Saturate(DigitsValue(LeadingDigits(t[1..])))
    else Saturate(DigitsValue(LeadingDigits(t)))
  }

  function DigitChar(d: nat): (c: char)
    requires d < 10
    ensures IsDigit(c)
  {
    ('0' as int + d) as char
  }

  /** The decimal representation of a natural number, as PHP prints it. */
  function DecimalString(n: nat): (s: string)
    ensures |s| >= 1
    ensures forall i :: 0 <= i < |s| ==> IsDigit(s[i])
  {
    if n < 10 then [DigitChar(n)] else DecimalString(n / 10) + [DigitChar(n % 10)]
  }

  lemma {:induction false} DigitsValueOfDecimal(n: nat)
    ensures DigitsValue(DecimalString(n)) == n
  {
    var s := DecimalString(n);
    if n >= 10 {
      DigitsValueOfDecimal(n / 10);
      assert s[..|s| - 1] == DecimalString(n / 10);
    }
  }

  lemma {:induction false} LeadingDigitsOfDigits(s: string)
    requires forall i :: 0 <= i < |s| ==> IsDigit(s[i])
    ensures LeadingDigits(s) == s
    decreases |s|
  {
    if |s| > 0 {
      LeadingDigitsOfDigits(s[1..]);
      assert [s[0]] + s[1..] == s;
    }
  }

  /** The digits of `d` are read up to the first character that is not a digit. */
  lemma {:induction false} LeadingDigitsAppend(d: string, rest: string)
    requires forall i :: 0 <= i < |d| ==> IsDigit(d[i])
    requires rest == "" || !IsDigit(rest[0])
    ensures LeadingDigits(d + rest) == d
    decreases |d|
  {
    if |d| > 0 {
      LeadingDigitsAppend(d[1..], rest);
      assert (d + rest)[1..] == d[1..] + rest;
      assert [d[0]] + d[1..] == d;
    }
  }

  /** A number followed by anything that does not start with a digit casts
      to that number: the cast stops at the first non-digit. */
  lemma IntCastStopsAtNonDigit(n: nat, rest: string)
    requires n <= IntMax
    requires rest == "" || !IsDigit(rest[0])
    ensures IntCast(DecimalString(n) + rest) == n
  {
    var s := DecimalString(n) + rest;
    assert s[0] == DecimalString(n)[0];
    UnsignedCast(s);
    LeadingDigitsAppend(DecimalString(n), rest);
    DigitsValueOfDecimal(n);
  }

  /** The cast reads back every in-range natural number PHP prints. */
  lemma IntCastOfDecimal(n: nat)
    requires n <= IntMax
    ensures IntCast(DecimalString(n)) == n
  {
    var s := DecimalString(n);
    UnsignedCast(s);
    LeadingDigitsOfDigits(s);
    DigitsValueOfDecimal(n);
  }

  lemma UnsignedCast(s: string)
    requires |s| > 0 && IsDigit(s[0])
    ensures IntCast(s) == Saturate(DigitsValue(LeadingDigits(s)))
  {
    assert !IsWhitespace(s[0]);
    assert SkipWhitespace(s) == s;
    assert s[0] != '-' && s[0] != '+';
  }

  /** Same for negative numbers, down to PHP_INT_MIN. */
  lemma IntCastOfNegativeDecimal(n: nat)
    requires 0 < n <= -IntMin
    ensures IntCast("-" + DecimalString(n)) == -(n as int)
  {
    var s := "-" + DecimalString(n);
    NegativeCast(s);
    assert s[1..] == DecimalString(n);
    LeadingDigitsOfDigits(DecimalString(n));
    DigitsValueOfDecimal(n);
  }

  lemma NegativeCast(s: string)
    requires |s| > 0 && s[0] == '-'
    ensures IntCast(s) == Saturate(-(DigitsValue(LeadingDigits(s[1..])) as int))
  {
    assert !IsWhitespace(s[0]);
    assert SkipWhitespace(s) == s;
  }
}
