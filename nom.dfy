/**
 * The parts of the `nom` combinator library that the grammars use, over
 * a cursor `(s, i)`: the whole input and the current position.
 *
 * A recognizer answers with the position where its match ends (`None`
 * for nom's recoverable `Err::Error`). A parser that produces a value
 * answers with a `PResult`: `Done(value, pos)`, `Backtrack` for
 * `Err::Error` (an `alt` then tries its next branch) or `Fatal` for
 * `Err::Failure`, which `cut` raises and nothing recovers from.
 */
module Nom {
  import opened Wrappers
  import opened Text

  datatype PResult<T> = Done(value: T, pos: nat) | Backtrack | Fatal

  /** `char(' ')` or `char('\t')`: the space set of `space0` and `space1`. */
  predicate IsSpace(c: char) { c == ' ' || c == '\t' }

  /** The set of `multispace0` and `multispace1`. */
  predicate IsMultispace(c: char) { c == ' ' || c == '\t' || c == '\r' || c == '\n' }

  predicate IsAlphanumeric(c: char) { IsDigit(c) || IsAsciiLetter(c) }

  /** `tag(t)`. */
  function Tag(s: string, i: nat, t: string): (r: Option<nat>)
    requires i <= |s|
    ensures r.Some? <==> StartsWith(s, i, t)
    ensures r.Some? ==> r.value == i + |t|
  {
    if StartsWith(s, i, t) then Some(i + |t|) else None
  }

  /** `char(c)`. */
  function Char(s: string, i: nat, c: char): (r: Option<nat>)
    requires i <= |s|
    ensures r.Some? <==> i < |s| && s[i] == c
    ensures r.Some? ==> r.value == i + 1
  {
    if i < |s| && s[i] == c then Some(i + 1) else None
  }

  /** A `take_while1` style run: at least one character satisfying `p`, as many as there are. */
  function Span1(s: string, i: nat, p: char -> bool): (r: Option<nat>)
    requires i <= |s|
    ensures r.Some? <==> i < |s| && p(s[i])
    ensures r.Some? ==> i < r.value <= |s| && (forall k {:trigger p(s[k])} :: i <= k < r.value ==> p(s[k])) &&
                        (r.value == |s| || !p(s[r.value]))
  {
    var j := Span(s, i, p);
    SpanAll(s, i, p);
    if j > i then Some(j) else None
  }

  /** `space0`: the longest run of spaces and tabs. */
  function Space0(s: string, i: nat): (j: nat)
    requires i <= |s|
    ensures i <= j <= |s| && (j == |s| || !IsSpace(s[j]))
  {
    Span(s, i, IsSpace)
  }

  /** Everything `space0` reads is a space or a tab. */
  lemma Space0All(s: string, i: nat)
    requires i <= |s|
    ensures forall k {:trigger IsSpace(s[k])} :: i <= k < Space0(s, i) ==> IsSpace(s[k])
  {
    SpanAll(s, i, IsSpace);
  }

  /** `space1`: a non-empty run of spaces and tabs. */
  function Space1(s: string, i: nat): (r: Option<nat>)
    requires i <= |s|
    ensures r.Some? <==> i < |s| && IsSpace(s[i])
    ensures r.Some? ==> i < r.value <= |s| && r.value == Space0(s, i)
  {
    if i < |s| && IsSpace(s[i]) then Some(Space0(s, i)) else None
  }

  /** A run of spaces and tabs that is known to end at `j` is the one `space0` reads. */
  lemma Space0On(s: string, i: nat, j: nat)
    requires i <= j <= |s| && (forall k :: i <= k < j ==> IsSpace(s[k])) && (j == |s| || !IsSpace(s[j]))
    ensures Space0(s, i) == j
  {
    Space0All(s, i);
    assert j < |s| ==> !IsSpace(s[j]);
  }

  /** `multispace0`: the longest run of spaces, tabs, CRs and LFs. */
  function Multispace0(s: string, i: nat): (j: nat)
    requires i <= |s|
    ensures i <= j <= |s| && (j == |s| || !IsMultispace(s[j]))
  {
    Span(s, i, IsMultispace)
  }

  /** Everything `multispace0` reads is whitespace. */
  lemma Multispace0All(s: string, i: nat)
    requires i <= |s|
    ensures forall k {:trigger IsMultispace(s[k])} :: i <= k < Multispace0(s, i) ==> IsMultispace(s[k])
  {
    SpanAll(s, i, IsMultispace);
  }

  /** `multispace1`: a non-empty run of spaces, tabs, CRs and LFs. */
  function Multispace1(s: string, i: nat): (r: Option<nat>)
    requires i <= |s|
    ensures r.Some? <==> i < |s| && IsMultispace(s[i])
    ensures r.Some? ==> r.value == Multispace0(s, i)
  {
    if i < |s| && IsMultispace(s[i]) then Some(Multispace0(s, i)) else None
  }

  /** A run of whitespace that is known to end at `j` is the one `multispace0` reads. */
  lemma Multispace0On(s: string, i: nat, j: nat)
    requires i <= j <= |s| && (forall k :: i <= k < j ==> IsMultispace(s[k])) && (j == |s| || !IsMultispace(s[j]))
    ensures Multispace0(s, i) == j
    ensures i < j ==> Multispace1(s, i) == Some(j)
  {
    Multispace0All(s, i);
    assert j < |s| ==> !IsMultispace(s[j]);
  }

  /** `line_ending`: `"\n"` or `"\r\n"`. */
  function LineEnding(s: string, i: nat): (r: Option<nat>)
    requires i <= |s|
    ensures r.Some? <==> StartsWith(s, i, "\n") || StartsWith(s, i, "\r\n")
    ensures r.Some? ==> i < r.value <= |s|
  {
    if i < |s| && s[i] == '\n' then Some(i + 1)
    else if i + 1 < |s| && s[i] == '\r' && s[i + 1] == '\n' then Some(i + 2)
    else
      assert !StartsWith(s, i, "\r\n") by {
        if i + 2 <= |s| {
          assert s[i..i + 2][0] == s[i] && s[i..i + 2][1] == s[i + 1];
        }
      }
      None
  }

  /**
   * `not_line_ending`: everything up to the first `"\n"` or `"\r\n"`, or
   * to the end. A `'\r'` that is not followed by `'\n'` is an error.
   */
  function NotLineEnding(s: string, i: nat): (r: Option<nat>)
    requires i <= |s|
    ensures r.Some? ==> i <= r.value <= |s| &&
                        (forall k {:trigger NotLineBreak(s[k])} :: i <= k < r.value ==> NotLineBreak(s[k])) &&
                        (r.value == |s| || s[r.value] == '\n' || StartsWith(s, r.value, "\r\n"))
  {
    var k := LineEnd(s, i);
    if k < |s| && s[k] == '\r' && !(k + 1 < |s| && s[k + 1] == '\n') then None
    else
      assert k == |s| || s[k] == '\n' || StartsWith(s, k, "\r\n") by {
        if k < |s| && s[k] == '\r' {
          assert s[k..k + 2] == "\r\n";
        }
      }
      Some(k)
  }

  /** `not_line_ending` fails exactly when the line is ended by a CR that no LF follows. */
  lemma NotLineEndingRead(s: string, i: nat)
    requires i <= |s|
    ensures NotLineEnding(s, i).None? <==> LoneCrEndsLine(s, i)
  {
    var k := LineEnd(s, i);
    if k < |s| && s[k] == '\r' && !(k + 1 < |s| && s[k + 1] == '\n') {
      assert LoneCrAt(s, i, k);
    } else {
      assert NotLineEnding(s, i) == Some(k);
      assert k == |s| || s[k] == '\n' || StartsWith(s, k, "\r\n") by {
        if k < |s| && s[k] == '\r' {
          assert s[k..k + 2] == "\r\n";
        }
      }
      forall k' | i <= k' < |s| && s[k'] == '\r' && !StartsWith(s, k', "\r\n")
        ensures exists m :: i <= m < k' && !NotLineBreak(s[m])
      {
        assert !NotLineBreak(s[k']);
        assert k != k';
        assert k < k' && !NotLineBreak(s[k]);
      }
    }
  }

  predicate NotLineBreak(c: char) { c != '\n' && c != '\r' }

  /** The end of the run of characters other than CR and LF from `i`. */
  function LineEnd(s: string, i: nat): (j: nat)
    requires i <= |s|
    ensures i <= j <= |s| && (forall k {:trigger NotLineBreak(s[k])} :: i <= k < j ==> NotLineBreak(s[k])) && (j == |s| || !NotLineBreak(s[j]))
    decreases |s| - i
  {
    if i < |s| && NotLineBreak(s[i]) then LineEnd(s, i + 1) else i
  }

  /** The first CR or LF from `i` is the CR at `k`, and no LF follows it. */
  predicate LoneCrAt(s: string, i: nat, k: nat)
    requires i <= |s|
  {
    i <= k < |s| && s[k] == '\r' && !StartsWith(s, k, "\r\n") && forall m :: i <= m < k ==> NotLineBreak(s[m])
  }

  /** The line from `i` ends in a CR that is not followed by LF. */
  ghost predicate LoneCrEndsLine(s: string, i: nat)
    requires i <= |s|
  {
    exists k :: LoneCrAt(s, i, k)
  }

  /** A line without `'\n'` or `'\r'`, followed by the end or `'\n'`, is read whole. */
  lemma NotLineEndingOn(s: string, i: nat, e: nat)
    requires i <= e <= |s| && (forall k :: i <= k < e ==> NotLineBreak(s[k])) && (e == |s| || s[e] == '\n')
    ensures NotLineEnding(s, i) == Some(e)
  {
    assert e < |s| ==> !NotLineBreak(s[e]);
  }

  /** `digit1`. */
  function Digit1(s: string, i: nat): (r: Option<nat>)
    requires i <= |s|
    ensures r.Some? ==> var j := r.value; i < j <= |s| && AllDigits(s[i..j])
  {
    var r := Span1(s, i, IsDigit);
    if r.Some? then assert forall k :: 0 <= k < r.value - i ==> s[i..r.value][k] == s[i + k]; r else r
  }

  /** A run of `p` that is known to end at `j` is the one `Span` finds. */
  lemma {:induction false} SpanOn(s: string, i: nat, j: nat, p: char -> bool)
    requires i <= j <= |s| && (forall k :: i <= k < j ==> p(s[k])) && (j == |s| || !p(s[j]))
    ensures Span(s, i, p) == j
    ensures i < j ==> Span1(s, i, p) == Some(j)
    decreases j - i
  {
    if i < j {
      SpanOn(s, i + 1, j, p);
    }
  }
}
