/**
 * Text helpers shared by every decoder: character classes, Rust's
 * `str::replace`, `str::trim`, `"\t".repeat(n)`, `join`, and decimal
 * rendering and parsing of integers (`to_string` / `str::parse`).
 */
module Text {
  import opened Wrappers

  predicate IsDigit(c: char) { '0' <= c <= '9' }

  predicate IsHexDigit(c: char) { '0' <= c <= '9' || 'a' <= c <= 'f' || 'A' <= c <= 'F' }

  predicate IsAsciiLetter(c: char) { 'a' <= c <= 'z' || 'A' <= c <= 'Z' }

  /** Rust's `char::is_whitespace` (the Unicode White_Space property). */
  predicate IsRustWhitespace(c: char) {
    var n := c as int;
    (9 <= n <= 13) || n == 32 || n == 0x85 || n == 0xA0 || n == 0x1680 ||
    (0x2000 <= n <= 0x200A) || n == 0x2028 || n == 0x2029 || n == 0x202F ||
    n == 0x205F || n == 0x3000
  }

  predicate AllDigits(s: string) { forall k :: 0 <= k < |s| ==> IsDigit(s[k]) }

  /** The end of the longest run of characters satisfying `p` that starts at `i`. */
  function Span(s: string, i: nat, p: char -> bool): (j: nat)
    requires i <= |s|
    ensures i <= j <= |s|
    ensures j == |s| || !p(s[j])
    decreases |s| - i
  {
    if i < |s| && p(s[i]) then Span(s, i + 1, p) else i
  }

  /** Inside the run that `Span` reads, every character satisfies `p`. */
  lemma {:induction false} SpanAt(s: string, i: nat, p: char -> bool, k: nat)
    requires i <= k <= |s|
    ensures k < Span(s, i, p) ==> p(s[k])
    decreases k - i
  {
    if i < k && i < |s| && p(s[i]) {
      SpanAt(s, i + 1, p, k);
    }
  }

  /** Every character of the run that `Span` reads satisfies `p`. */
  lemma SpanAll(s: string, i: nat, p: char -> bool)
    requires i <= |s|
    ensures forall k {:trigger p(s[k])} :: i <= k < Span(s, i, p) ==> p(s[k])
  {
    forall k | i <= k < Span(s, i, p) ensures p(s[k]) {
      SpanAt(s, i, p, k);
    }
  }

  /** The start of the longest run of characters satisfying `p` that ends at `j`, not going below `lo`. */
  function SpanBack(s: string, lo: nat, j: nat, p: char -> bool): (i: nat)
    requires lo <= j <= |s|
    ensures lo <= i <= j
    ensures forall k {:trigger p(s[k])} :: i <= k < j ==> p(s[k])
    ensures i == lo || !p(s[i - 1])
    decreases j - lo
  {
    if lo < j && p(s[j - 1]) then SpanBack(s, lo, j - 1, p) else j
  }

  /** `t` is the slice of `s` at `a` with nothing but whitespace around it. */
  predicate TrimmedSlice(s: string, a: nat, t: string) {
    a + |t| <= |s| && s[a..a + |t|] == t &&
    (forall k :: 0 <= k < a ==> IsRustWhitespace(s[k])) &&
    (forall k :: a + |t| <= k < |s| ==> IsRustWhitespace(s[k]))
  }

  /** Rust's `str::trim`: drop leading and trailing whitespace. */
  function Trim(s: string): (r: string)
    ensures |r| <= |s|
    ensures TrimmedSlice(s, Span(s, 0, IsRustWhitespace), r)
    ensures r == [] || (!IsRustWhitespace(r[0]) && !IsRustWhitespace(r[|r| - 1]))
    ensures r == [] <==> forall k :: 0 <= k < |s| ==> IsRustWhitespace(s[k])
    ensures |s| > 0 && !IsRustWhitespace(s[0]) && !IsRustWhitespace(s[|s| - 1]) ==> r == s
  {
    var a := Span(s, 0, IsRustWhitespace);
    var b := SpanBack(s, a, |s|, IsRustWhitespace);
    SpanAll(s, 0, IsRustWhitespace);
    s[a..b]
  }

  /** Trimming twice trims no more than trimming once. */
  lemma TrimIdempotent(s: string)
    ensures Trim(Trim(s)) == Trim(s)
  {
    var r := Trim(s);
    if r == [] {
      assert Span(r, 0, IsRustWhitespace) == 0;
    }
  }

  function StartsWith(s: string, i: nat, t: string): bool
    requires i <= |s|
  {
    i + |t| <= |s| && s[i..i + |t|] == t
  }

  /** Whether `t` ends with `u`. */
  predicate EndsWith(t: string, u: string) {
    |u| <= |t| && t[|t| - |u|..] == u
  }

  lemma AppendAssoc(a: string, b: string, c: string)
    ensures (a + b) + c == a + (b + c)
  {
  }

  /** `b` is found right after `a` in `a + b + c`, and `a + b` ends with `b`. */
  lemma FoundAfter(a: string, b: string, c: string)
    ensures StartsWith(a + b + c, |a|, b) && StartsWith(a + b, 0, a) && EndsWith(a + b, b)
  {
    assert (a + b + c)[|a|..|a| + |b|] == b;
    assert (a + b)[..|a|] == a;
  }

  /** What occurs at `i` in `s` occurs at `|pre| + i` in `pre + s + post`. */
  lemma StartsWithWithin(pre: string, s: string, post: string, i: nat, t: string)
    requires i <= |s| && StartsWith(s, i, t)
    ensures StartsWith(pre + s + post, |pre| + i, t)
  {
    assert (pre + s + post)[|pre| + i..|pre| + i + |t|] == s[i..i + |t|];
  }

  /** A text that starts with `a + b` starts with `a`, and `b` follows it. */
  lemma StartsWithConcat(s: string, i: nat, a: string, b: string)
    requires i <= |s| && StartsWith(s, i, a + b)
    ensures StartsWith(s, i, a) && StartsWith(s, i + |a|, b)
  {
    assert s[i..i + |a|] == s[i..i + |a| + |b|][..|a|];
    assert s[i + |a|..i + |a| + |b|] == s[i..i + |a| + |b|][|a|..];
  }

  /**
   * Rust's `str::replace(pat, rep)`: every non-overlapping occurrence of
   * `pat`, scanned from left to right, is replaced by `rep`.
   */
  function Replace(s: string, pat: string, rep: string): (r: string)
    requires |pat| > 0
    ensures |s| < |pat| ==> r == s
    decreases |s|
  {
    if |s| < |pat| then s
    else if s[..|pat|] == pat then rep + Replace(s[|pat|..], pat, rep)
    else [s[0]] + Replace(s[1..], pat, rep)
  }

  /**
   * The first occurrence is replaced: when `pat` starts right after a text
   * that holds no character `pat` starts with, that text is kept, `pat`
   * becomes `rep`, and the scan goes on after it.
   */
  lemma {:induction false} ReplaceOccurrence(a: string, pat: string, rep: string, b: string)
    requires |pat| > 0
    requires forall k :: 0 <= k < |a| ==> a[k] != pat[0]
    ensures Replace(a + pat + b, pat, rep) == a + rep + Replace(b, pat, rep)
    decreases |a|
  {
    var s := a + pat + b;
    if a == [] {
      assert s == pat + b && s[..|pat|] == pat && s[|pat|..] == b;
    } else {
      assert s[0] == a[0] && s[..|pat|][0] == a[0] && s[..|pat|] != pat;
      assert s[1..] == a[1..] + pat + b;
      var t := Replace(a[1..] + pat + b, pat, rep);
      assert Replace(s, pat, rep) == [a[0]] + t;
      ReplaceOccurrence(a[1..], pat, rep, b);
      assert t == a[1..] + rep + Replace(b, pat, rep);
      assert [a[0]] + a[1..] == a;
    }
  }

  /** A pattern whose first character never occurs is never replaced. */
  lemma {:induction false} ReplaceAbsent(s: string, pat: string, rep: string)
    requires |pat| > 0
    requires forall k :: 0 <= k < |s| ==> s[k] != pat[0]
    ensures Replace(s, pat, rep) == s
    decreases |s|
  {
    if |s| >= |pat| {
      assert s[..|pat|][0] == s[0];
      ReplaceAbsent(s[1..], pat, rep);
      assert [s[0]] + s[1..] == s;
    }
  }

  /** Removing a suffix whose first character does not occur before it leaves what precedes it. */
  lemma ReplaceDropsSuffix(m: string, pat: string)
    requires |pat| > 0
    requires forall k :: 0 <= k < |m| ==> m[k] != pat[0]
    ensures Replace(m + pat, pat, "") == m
  {
    ReplaceOccurrence(m, pat, "", []);
    assert m + pat + [] == m + pat && m + "" == m;
  }

  function Repeat(c: char, n: nat): (r: string)
    ensures |r| == n
    ensures forall k :: 0 <= k < n ==> r[k] == c
  {
    seq(n, _ => c)
  }

  /** `parts.join(sep)`. */
  function Join(parts: seq<string>, sep: string): string
    decreases |parts|
  {
    if parts == [] then []
    else if |parts| == 1 then parts[0]
    else parts[0] + sep + Join(parts[1..], sep)
  }

  /** The parts written one after another, as repeated `push_str` calls leave them. */
  function Concat(parts: seq<string>): string
    decreases |parts|
  {
    if parts == [] then "" else Concat(parts[..|parts| - 1]) + parts[|parts| - 1]
  }

  lemma {:induction false} ConcatAppend(a: seq<string>, b: seq<string>)
    ensures Concat(a + b) == Concat(a) + Concat(b)
    decreases |b|
  {
    if b == [] {
      assert a + b == a;
    } else {
      var n := |b| - 1;
      assert (a + b)[..|a + b| - 1] == a + b[..n];
      assert (a + b)[|a + b| - 1] == b[n];
      ConcatAppend(a, b[..n]);
      AppendAssoc(Concat(a), Concat(b[..n]), b[n]);
    }
  }

  lemma ConcatSingle(x: string)
    ensures Concat([x]) == x
  {
    assert [x][..0] == [];
  }

  /** The `k`-th part sits between the parts before it and the parts after it. */
  lemma ConcatSplit(parts: seq<string>, k: nat)
    requires k < |parts|
    ensures Concat(parts) == Concat(parts[..k]) + parts[k] + Concat(parts[k + 1..])
  {
    assert parts == parts[..k + 1] + parts[k + 1..];
    ConcatAppend(parts[..k + 1], parts[k + 1..]);
    ConcatPrefixSnoc(parts, k);
  }

  /** `ConcatSplit` for a part known to be `x`. */
  lemma ConcatSplitAt(parts: seq<string>, k: nat, x: string)
    requires k < |parts| && parts[k] == x
    ensures Concat(parts) == Concat(parts[..k]) + x + Concat(parts[k + 1..])
  {
    ConcatSplit(parts, k);
  }

  /** One more part is written at the end. */
  lemma ConcatSnoc(parts: seq<string>, x: string)
    ensures Concat(parts + [x]) == Concat(parts) + x
  {
    assert (parts + [x])[..|parts|] == parts;
  }

  /** Writing the first `k + 1` parts is writing the first `k`, then part `k`. */
  lemma ConcatPrefixSnoc(parts: seq<string>, k: nat)
    requires k < |parts|
    ensures Concat(parts[..k + 1]) == Concat(parts[..k]) + parts[k]
  {
    assert parts[..k + 1][..k] == parts[..k];
  }

  /** A header part, the parts of a body and a closing part, in that order. */
  lemma ConcatFramed(h: string, bs: seq<string>, c: string)
    ensures Concat([h] + bs + [c]) == h + Concat(bs) + c
  {
    ConcatAppend([h], bs);
    ConcatSingle(h);
    ConcatSnoc([h] + bs, c);
  }

  /** Writing part `k` after the first `k` parts gives the first `k + 1`. */
  lemma ConcatStep(parts: seq<string>, k: nat, done: string, x: string)
    requires k < |parts| && done == Concat(parts[..k]) && parts[k] == x
    ensures done + x == Concat(parts[..k + 1])
  {
    ConcatPrefixSnoc(parts, k);
  }

  /** Part `k` starts right after the parts before it. */
  lemma ConcatPartAt(parts: seq<string>, k: nat)
    requires k < |parts|
    ensures |Concat(parts[..k])| + |parts[k]| <= |Concat(parts)|
    ensures StartsWith(Concat(parts), |Concat(parts[..k])|, parts[k])
  {
    ConcatSplit(parts, k);
    FoundAfter(Concat(parts[..k]), parts[k], Concat(parts[k + 1..]));
  }

  /** The digit character for `d`. */
  function DigitChar(d: nat): (c: char)
    requires d < 10
    ensures IsDigit(c) && c as int - '0' as int == d
  {
    ('0' as int + d) as char
  }

  /** Decimal rendering of a natural number, as `itoa` and `to_string` produce it. */
  function NatToString(n: nat): (r: string)
    ensures |r| > 0 && AllDigits(r)
    ensures |r| > 1 ==> r[0] != '0'
    decreases n
  {
    if n < 10 then [DigitChar(n)] else NatToString(n / 10) + [DigitChar(n % 10)]
  }

  /** Decimal rendering of an integer, with a leading `-` when negative. */
  function IntToString(n: int): (r: string)
    ensures |r| > 0
    ensures n >= 0 ==> AllDigits(r)
    ensures n < 0 ==> r[0] == '-' && AllDigits(r[1..])
  {
    if n < 0 then "-" + NatToString(-n) else NatToString(n)
  }

  /** The value of a string of decimal digits. */
  function DigitsValue(s: string): nat
    requires AllDigits(s)
    decreases |s|
  {
    if s == [] then 0 else DigitsValue(s[..|s| - 1]) * 10 + (s[|s| - 1] as int - '0' as int)
  }

  lemma {:induction false} DigitsValueOfNatToString(n: nat)
    ensures DigitsValue(NatToString(n)) == n
    decreases n
  {
    if n >= 10 {
      var r := NatToString(n);
      assert r[..|r| - 1] == NatToString(n / 10);
      DigitsValueOfNatToString(n / 10);
    }
  }

  /** A digit string without a leading zero is the rendering of its value. */
  lemma {:induction false} NatToStringOfDigitsValue(t: string)
    requires |t| > 0 && AllDigits(t) && (|t| > 1 ==> t[0] != '0')
    ensures NatToString(DigitsValue(t)) == t
    decreases |t|
  {
    var k := |t| - 1;
    if k > 0 {
      var p := t[..k];
      assert AllDigits(p) by { assert forall j :: 0 <= j < k ==> p[j] == t[j]; }
      LeadingDigitPositive(p);
      NatToStringOfDigitsValue(p);
      assert t == p + [t[k]];
    }
  }

  lemma {:induction false} LeadingDigitPositive(t: string)
    requires |t| > 0 && AllDigits(t) && t[0] != '0'
    ensures DigitsValue(t) >= 1
    decreases |t|
  {
    if |t| > 1 {
      var p := t[..|t| - 1];
      assert AllDigits(p) by { assert forall j :: 0 <= j < |p| ==> p[j] == t[j]; }
      LeadingDigitPositive(p);
    }
  }

  /**
   * Rust's `str::parse` for an unsigned integer type whose values are
   * below `bound`: an optional `+`, then one or more ASCII digits, and a
   * value that fits.
   */
  function ParseUnsigned(s: string, bound: nat): (r: Option<nat>)
    ensures r.Some? ==> r.value < bound
  {
    if |s| == 0 then None
    else if (s[0] == '+' || s[0] == '-') && |s| == 1 then None
    else
      var d := if s[0] == '+' then s[1..] else s;
      if AllDigits(d) && DigitsValue(d) < bound then Some(DigitsValue(d)) else None
  }

  /**
   * Rust's `str::parse` for a signed integer type with range `lo..=hi`: an
   * optional `+` or `-`, then one or more ASCII digits, and a value in range.
   */
  function ParseSigned(s: string, lo: int, hi: int): (r: Option<int>)
    ensures r.Some? ==> lo <= r.value <= hi
  {
    if |s| == 0 then None
    else if (s[0] == '+' || s[0] == '-') && |s| == 1 then None
    else
      var neg := s[0] == '-';
      var d := if s[0] == '+' || s[0] == '-' then s[1..] else s;
      if !AllDigits(d) then None
      else
        var v: int := if neg then 0 - DigitsValue(d) else DigitsValue(d);
        if lo <= v <= hi then Some(v) else None
  }

  /** Decimal rendering and unsigned parsing are inverse on every value that fits. */
  lemma ParseUnsignedOfNatToString(n: nat, bound: nat)
    requires n < bound
    ensures ParseUnsigned(NatToString(n), bound) == Some(n)
  {
    DigitsValueOfNatToString(n);
  }

  /** Decimal rendering and signed parsing are inverse on every value in range. */
  lemma ParseSignedOfIntToString(n: int, lo: int, hi: int)
    requires lo <= n <= hi
    ensures ParseSigned(IntToString(n), lo, hi) == Some(n)
  {
    if n < 0 {
      ParseSignedNegative(-n, lo, hi);
    } else {
      ParseSignedNonNegative(n, lo, hi);
    }
  }

  lemma ParseSignedNonNegative(n: nat, lo: int, hi: int)
    requires lo <= n <= hi
    ensures ParseSigned(NatToString(n), lo, hi) == Some(n)
  {
    var t := NatToString(n);
    assert IsDigit(t[0]);
    DigitsValueOfNatToString(n);
  }

  lemma ParseSignedNegative(m: nat, lo: int, hi: int)
    requires m > 0 && lo <= -(m as int) <= hi
    ensures ParseSigned("-" + NatToString(m), lo, hi) == Some(-(m as int))
  {
    var t := "-" + NatToString(m);
    assert t[1..] == NatToString(m);
    DigitsValueOfNatToString(m);
  }
}
