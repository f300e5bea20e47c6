/**
 * The character-cursor tokenizer of the `steamkit-vdf` crate.
 *
 * The scanners take the whole input `s` and the cursor position `i`, and
 * return the token together with the position the cursor has reached.
 * Every scanner is a loop, proved against a specification function that
 * says what the scan consumes and what text the token carries.
 */
module VdfToken {
  import opened Wrappers
  import opened Text

  datatype Token =
    | String(text: string)
    | QuotedString(text: string)
    | GroupStart
    | GroupEnd
    | Whitespace(text: string)
    | Comment(text: string)
    | Condition(text: string)
    | NewLine(text: string)

  /** The crate's error variants (declared here; the crate's own error type has them commented out). */
  datatype Error =
    | EndOfFile
    | BadEscape(c: char)
    | UnclosedQuote
    | UnclosedCondition
    | Syntax(c: char)
    | UnexpectedToken(token: Token)
    | Lookup
    | InvalidConversion(variant: string, outputType: string)

  /** The characters of a whitespace token. */
  predicate IsBlank(c: char) { c == '\t' || c == ' ' }

  /** The characters of an unquoted string token: `[A-Za-z0-9_-]`. */
  predicate IsWordChar(c: char) { IsAsciiLetter(c) || IsDigit(c) || c == '_' || c == '-' }

  predicate IsNotLineFeed(c: char) { c != '\n' }

  predicate IsNotBracketClose(c: char) { c != ']' }

  /** The character a backslash escape stands for, if it is one of the four accepted escapes. */
  function Unescaped(c: char): (r: Option<char>)
    ensures r.Some? <==> c == '\\' || c == 'n' || c == 't' || c == '"'
  {
    if c == '\\' then Some('\\')
    else if c == 'n' then Some('\n')
    else if c == 't' then Some('\t')
    else if c == '"' then Some('"')
    else None
  }

  /** Whether a token of kind `t` is the one the dispatch picks for a leading `c`. */
  predicate StartsWithChar(t: Token, c: char) {
    match t
    case GroupStart => c == '{'
    case GroupEnd => c == '}'
    case NewLine(_) => c == '\r' || c == '\n'
    case Whitespace(_) => IsBlank(c)
    case String(_) => IsWordChar(c)
    case QuotedString(_) => c == '"'
    case Condition(_) => c == '['
    case Comment(_) => c == '/'
  }

  /** A character that starts some token of this tokenizer. */
  predicate IsTokenStart(c: char) {
    c == '{' || c == '}' || c == '\r' || c == '\n' || IsBlank(c) || IsWordChar(c) ||
    c == '"' || c == '[' || c == '/'
  }

  // ---------------------------------------------------------------------
  // Specification of the scanners

  /** Where `use_new_line` stops: after an optional `'\r'` and then an optional `'\n'`. */
  function NewLineEnd(s: string, i: nat): (j: nat)
    requires i <= |s|
    ensures i <= j <= |s| && j <= i + 2
    ensures i < |s| && (s[i] == '\r' || s[i] == '\n') ==> j > i
    ensures StartsWith(s, i, "\r\n") ==> j == i + 2
    ensures i < |s| && s[i] == '\n' ==> j == i + 1
    ensures forall k :: i <= k < j ==> s[k] == '\r' || s[k] == '\n'
    ensures j == i + 2 ==> s[i] == '\r' && s[i + 1] == '\n'
  {
    var a := if i < |s| && s[i] == '\r' then i + 1 else i;
    if a < |s| && s[a] == '\n' then a + 1 else a
  }

  /**
   * Where `use_comment` stops and the comment text: everything up to the
   * next `'\n'` (not included) or the end of the input. When the scan
   * stops at a `'\n'`, a `'\r'` just before it is dropped from the text.
   */
  function CommentToken(s: string, i: nat): (r: (Token, nat))
    requires i <= |s|
    ensures r.0.Comment? && i <= r.1 <= |s|
    ensures r.1 == |s| || s[r.1] == '\n'
    ensures forall k :: i <= k < r.1 ==> s[k] != '\n'
    ensures r.1 == |s| ==> r.0.text == s[i..]
    ensures var e := r.1; e < |s| && e > i && s[e - 1] == '\r' ==> r.0.text == s[i..e - 1]
    ensures var e := r.1; e < |s| && !(e > i && s[e - 1] == '\r') ==> r.0.text == s[i..e]
  {
    var j := Span(s, i, IsNotLineFeed);
    assert forall k :: i <= k < j ==> s[k] != '\n' by {
      forall k | i <= k < j ensures s[k] != '\n' { SpanAt(s, i, IsNotLineFeed, k); }
    }
    if j < |s| && j > i && s[j - 1] == '\r' then (Comment(s[i..j - 1]), j) else (Comment(s[i..j]), j)
  }

  /**
   * The body of a quoted string from position `k`, with `acc` decoded so
   * far: the decoded text and the position after the closing quote.
   */
  function QuotedFrom(s: string, k: nat, acc: string): (r: Result<(string, nat), Error>)
    requires k <= |s|
    ensures r.Ok? ==> k < r.value.1 <= |s| && s[r.value.1 - 1] == '"'
    ensures r.Err? ==> r.error == UnclosedQuote || (r.error.BadEscape? && Unescaped(r.error.c).None?)
    decreases |s| - k
  {
    if k == |s| then Err(UnclosedQuote)
    else if s[k] == '\\' then
      if k + 1 == |s| then Err(UnclosedQuote)
      else match Unescaped(s[k + 1])
        case None => Err(BadEscape(s[k + 1]))
        case Some(c) => QuotedFrom(s, k + 2, acc + [c])
    else if s[k] == '"' then Ok((acc, k + 1))
    else QuotedFrom(s, k + 1, acc + [s[k]])
  }

  /** `use_quoted_string` from the opening quote at `i`. */
  function QuotedToken(s: string, i: nat): (r: Result<(Token, nat), Error>)
    requires i < |s| && s[i] == '"'
    ensures r.Ok? ==> r.value.0.QuotedString? && i + 2 <= r.value.1 <= |s|
    ensures r.Err? ==> r.error == UnclosedQuote || r.error.BadEscape?
  {
    match QuotedFrom(s, i + 1, [])
    case Ok((t, j)) => Ok((QuotedString(t), j))
    case Err(e) => Err(e)
  }

  /** `use_condition` from the `[` at `i`: everything up to the next `]`, without the brackets. */
  function ConditionToken(s: string, i: nat): (r: Result<(Token, nat), Error>)
    requires i < |s|
    ensures r.Ok? <==> exists k :: i < k < |s| && s[k] == ']'
    ensures r.Err? ==> r.error == UnclosedCondition
    ensures r.Ok? ==>
          var e := r.value.1;
          i + 2 <= e <= |s| && s[e - 1] == ']' &&
          r.value.0 == Condition(s[i + 1..e - 1]) &&
          forall k :: i < k < e - 1 ==> s[k] != ']'
  {
    var k := Span(s, i + 1, IsNotBracketClose);
    assert forall m :: i < m < k ==> s[m] != ']' by {
      forall m | i < m < k ensures s[m] != ']' { SpanAt(s, i + 1, IsNotBracketClose, m); }
    }
    if k == |s| then Err(UnclosedCondition) else Ok((Condition(s[i + 1..k]), k + 1))
  }

  /** One step of `Tokens::parse`: the token that starts at `i`, dispatched on its first character. */
  function NextToken(s: string, i: nat): (r: Result<(Token, nat), Error>)
    requires i < |s|
    ensures r.Ok? ==> i < r.value.1 <= |s| && StartsWithChar(r.value.0, s[i])
    ensures r == Err(Syntax(s[i])) <==> !IsTokenStart(s[i])
    ensures r.Ok? && r.value.0.Whitespace? ==> r.value.1 == |s| || !IsBlank(s[r.value.1])
    ensures r.Ok? && r.value.0.String? ==> r.value.1 == |s| || !IsWordChar(s[r.value.1])
  {
    var c := s[i];
    if c == '{' then Ok((GroupStart, i + 1))
    else if c == '}' then Ok((GroupEnd, i + 1))
    else if c == '\r' || c == '\n' then
      var j := NewLineEnd(s, i); Ok((NewLine(s[i..j]), j))
    else if IsBlank(c) then
      var j := Span(s, i, IsBlank); Ok((Whitespace(s[i..j]), j))
    else if IsWordChar(c) then
      var j := Span(s, i, IsWordChar); Ok((String(s[i..j]), j))
    else if c == '"' then QuotedToken(s, i)
    else if c == '[' then ConditionToken(s, i)
    else if c == '/' then Ok(CommentToken(s, i))
    else Err(Syntax(c))
  }

  /** The tokens from position `i` on, after the tokens `acc` already produced. */
  function TokensFrom(s: string, i: nat, acc: seq<Token>): (r: Result<seq<Token>, Error>)
    requires i <= |s|
    ensures r.Ok? ==> |acc| <= |r.value| <= |acc| + (|s| - i) && r.value[..|acc|] == acc
    decreases |s| - i
  {
    if i == |s| then Ok(acc)
    else match NextToken(s, i)
      case Err(e) => Err(e)
      case Ok((t, j)) => TokensFrom(s, j, acc + [t])
  }

  /** `Tokens::parse`. */
  function Tokenize(s: string): (r: Result<seq<Token>, Error>)
    ensures r.Ok? ==> |r.value| <= |s|
  {
    TokensFrom(s, 0, [])
  }

  // ---------------------------------------------------------------------
  // The scanners

  method UseNewLine(s: string, i: nat) returns (t: Token, j: nat)
    requires i < |s| && (s[i] == '\r' || s[i] == '\n')
    ensures j == NewLineEnd(s, i) && t == NewLine(s[i..NewLineEnd(s, i)])
  {
    var text := "";
    j := i;
    var expected := ['\r', '\n'];
    for n := 0 to 2
      invariant i <= j <= |s| && text == s[i..j]
      invariant n == 0 ==> j == i
      invariant n == 1 ==> j == (if s[i] == '\r' then i + 1 else i)
      invariant n == 2 ==> j == NewLineEnd(s, i)
    {
      if j < |s| && s[j] == expected[n] {
        text := text + [expected[n]];
        j := j + 1;
      }
    }
    t := NewLine(text);
  }

  method UseWhitespace(s: string, i: nat) returns (t: Token, j: nat)
    requires i <= |s|
    ensures j == Span(s, i, IsBlank) && t == Whitespace(s[i..Span(s, i, IsBlank)])
  {
    var text := "";
    j := i;
    while j < |s| && IsBlank(s[j])
      invariant i <= j <= |s| && text == s[i..j]
      invariant Span(s, j, IsBlank) == Span(s, i, IsBlank)
    {
      text := text + [s[j]];
      j := j + 1;
    }
    t := Whitespace(text);
  }

  method UseString(s: string, i: nat) returns (t: Token, j: nat)
    requires i <= |s|
    ensures j == Span(s, i, IsWordChar) && t == String(s[i..Span(s, i, IsWordChar)])
  {
    var text := "";
    j := i;
    while j < |s| && IsWordChar(s[j])
      invariant i <= j <= |s| && text == s[i..j]
      invariant Span(s, j, IsWordChar) == Span(s, i, IsWordChar)
    {
      text := text + [s[j]];
      j := j + 1;
    }
    t := String(text);
  }

  method UseComment(s: string, i: nat) returns (t: Token, j: nat)
    requires i <= |s|
    ensures (t, j) == CommentToken(s, i)
  {
    var text := "";
    j := i;
    while j < |s|
      invariant i <= j <= |s| && text == s[i..j]
      invariant Span(s, j, IsNotLineFeed) == Span(s, i, IsNotLineFeed)
    {
      if s[j] == '\n' {
        assert Span(s, j, IsNotLineFeed) == j;
        if |text| > 0 && text[|text| - 1] == '\r' {
          text := text[..|text| - 1];
          assert text == s[i..j - 1];
        }
        return Comment(text), j;
      }
      assert Span(s, j, IsNotLineFeed) == Span(s, j + 1, IsNotLineFeed);
      text := text + [s[j]];
      j := j + 1;
    }
    t := Comment(text);
  }

  method UseQuotedString(s: string, i: nat) returns (r: Result<(Token, nat), Error>)
    requires i < |s| && s[i] == '"'
    ensures r == QuotedToken(s, i)
  {
    var text := "";
    var k := i + 1;
    while true
      invariant i < k <= |s|
      invariant QuotedFrom(s, k, text) == QuotedFrom(s, i + 1, [])
      decreases |s| - k
    {
      if k == |s| {
        return Err(UnclosedQuote);
      }
      var chr := s[k];
      if chr == '\\' {
        k := k + 1;
        if k == |s| {
          return Err(UnclosedQuote);
        }
        var escaped := s[k];
        k := k + 1;
        if escaped == '\\' {
          text := text + ['\\'];
        } else if escaped == 'n' {
          text := text + ['\n'];
        } else if escaped == 't' {
          text := text + ['\t'];
        } else if escaped == '"' {
          text := text + ['"'];
        } else {
          return Err(BadEscape(escaped));
        }
      } else if chr == '"' {
        break;
      } else {
        text := text + [chr];
        k := k + 1;
      }
    }
    r := Ok((QuotedString(text), k + 1));
  }

  method UseCondition(s: string, i: nat) returns (r: Result<(Token, nat), Error>)
    requires i < |s|
    ensures r == ConditionToken(s, i)
  {
    var text := "";
    var k := i + 1;
    while true
      invariant i < k <= |s| && text == s[i + 1..k]
      invariant Span(s, k, IsNotBracketClose) == Span(s, i + 1, IsNotBracketClose)
      decreases |s| - k
    {
      if k == |s| {
        return Err(UnclosedCondition);
      }
      if s[k] == ']' {
        break;
      }
      text := text + [s[k]];
      k := k + 1;
    }
    r := Ok((Condition(text), k + 1));
  }

  /** `Tokens::parse`: scan tokens until the input is used up or a scanner fails. */
  method Parse(s: string) returns (r: Result<seq<Token>, Error>)
    ensures r == Tokenize(s)
  {
    var tokens: seq<Token> := [];
    var i := 0;
    while i < |s|
      invariant i <= |s|
      invariant TokensFrom(s, i, tokens) == Tokenize(s)
      decreases |s| - i
    {
      var chr := s[i];
      var token: Token;
      var j: nat;
      if chr == '{' {
        token, j := GroupStart, i + 1;
      } else if chr == '}' {
        token, j := GroupEnd, i + 1;
      } else if chr == '\r' || chr == '\n' {
        token, j := UseNewLine(s, i);
      } else if chr == '\t' || chr == ' ' {
        token, j := UseWhitespace(s, i);
      } else if IsWordChar(chr) {
        token, j := UseString(s, i);
      } else if chr == '"' {
        var q := UseQuotedString(s, i);
        if q.Err? {
          return Err(q.error);
        }
        token, j := q.value.0, q.value.1;
      } else if chr == '[' {
        var c := UseCondition(s, i);
        if c.Err? {
          return Err(c.error);
        }
        token, j := c.value.0, c.value.1;
      } else if chr == '/' {
        token, j := UseComment(s, i);
      } else {
        return Err(Syntax(chr));
      }
      assert NextToken(s, i) == Ok((token, j));
      tokens := tokens + [token];
      i := j;
    }
    r := Ok(tokens);
  }

  // ---------------------------------------------------------------------
  // Properties

  /** No two whitespace tokens and no two unquoted-string tokens are adjacent. */
  predicate NoAdjacentRuns(ts: seq<Token>) {
    forall k :: 0 <= k < |ts| - 1 ==>
      !(ts[k].Whitespace? && ts[k + 1].Whitespace?) && !(ts[k].String? && ts[k + 1].String?)
  }

  lemma {:induction false} TokensFromNoAdjacentRuns(s: string, i: nat, acc: seq<Token>)
    requires i <= |s| && NoAdjacentRuns(acc)
    requires |acc| > 0 && acc[|acc| - 1].Whitespace? ==> i == |s| || !IsBlank(s[i])
    requires |acc| > 0 && acc[|acc| - 1].String? ==> i == |s| || !IsWordChar(s[i])
    ensures TokensFrom(s, i, acc).Ok? ==> NoAdjacentRuns(TokensFrom(s, i, acc).value)
    decreases |s| - i
  {
    if i < |s| {
      match NextToken(s, i)
      case Err(_) =>
      case Ok((t, j)) =>
        var acc' := acc + [t];
        assert NoAdjacentRuns(acc') by {
          if |acc| > 0 {
            assert StartsWithChar(t, s[i]);
          }
        }
        TokensFromNoAdjacentRuns(s, j, acc');
    }
  }

  /** Whitespace and unquoted-string tokens are maximal runs: two of the same kind never follow each other. */
  lemma TokenizeNoAdjacentRuns(s: string)
    ensures Tokenize(s).Ok? ==> NoAdjacentRuns(Tokenize(s).value)
  {
    TokensFromNoAdjacentRuns(s, 0, []);
  }

  /** A quoted body without backslashes or quotes is taken verbatim, raw line breaks included. */
  lemma {:induction false} QuotedFromPlain(s: string, k: nat, e: nat, acc: string)
    requires k <= e < |s| && s[e] == '"'
    requires forall m :: k <= m < e ==> s[m] != '\\' && s[m] != '"'
    ensures QuotedFrom(s, k, acc) == Ok((acc + s[k..e], e + 1))
    decreases e - k
  {
    if k == e {
      assert acc + s[k..e] == acc;
    } else {
      QuotedFromPlain(s, k + 1, e, acc + [s[k]]);
      assert acc + [s[k]] + s[k + 1..e] == acc + s[k..e];
    }
  }

  /** `"\r\n"` is one newline token. */
  lemma CrLfIsOneToken()
    ensures Tokenize("\r\n") == Ok([NewLine("\r\n")])
  {
    var s := "\r\n";
    assert NewLineEnd(s, 0) == 2;
    assert s[0..2] == "\r\n";
  }

  /** `"\n\r"` is two newline tokens. */
  lemma LfCrIsTwoTokens()
    ensures Tokenize("\n\r") == Ok([NewLine("\n"), NewLine("\r")])
  {
    var s := "\n\r";
    assert NewLineEnd(s, 0) == 1 && s[0..1] == "\n";
    assert NextToken(s, 0) == Ok((NewLine("\n"), 1));
    assert [] + [NewLine("\n")] == [NewLine("\n")];
    assert NewLineEnd(s, 1) == 2 && s[1..2] == "\r";
    assert NextToken(s, 1) == Ok((NewLine("\r"), 2));
    assert [NewLine("\n")] + [NewLine("\r")] == [NewLine("\n"), NewLine("\r")];
    assert TokensFrom(s, 1, [NewLine("\n")]) == Ok([NewLine("\n"), NewLine("\r")]);
  }

  /** A comment ended by `"\r\n"` loses the `'\r'`; a comment ended by the end of input keeps it. */
  lemma CommentCarriageReturn()
    ensures Tokenize("/a\r\n") == Ok([Comment("/a"), NewLine("\n")])
    ensures Tokenize("/a\r") == Ok([Comment("/a\r")])
  {
    var s := "/a\r\n";
    assert Span(s, 0, IsNotLineFeed) == 3;
    assert s[0..2] == "/a";
    assert NextToken(s, 0) == Ok((Comment("/a"), 3));
    assert [] + [Comment("/a")] == [Comment("/a")];
    assert NewLineEnd(s, 3) == 4 && s[3..4] == "\n";
    assert NextToken(s, 3) == Ok((NewLine("\n"), 4));
    assert [Comment("/a")] + [NewLine("\n")] == [Comment("/a"), NewLine("\n")];
    assert TokensFrom(s, 3, [Comment("/a")]) == Ok([Comment("/a"), NewLine("\n")]);
    var u := "/a\r";
    assert Span(u, 0, IsNotLineFeed) == 3;
    assert u[0..3] == "/a\r";
  }

  /** An unknown escape fails with `BadEscape`; end of input inside the quotes, even right after a backslash, with `UnclosedQuote`. */
  lemma QuotedErrors()
    ensures Tokenize("\"a\\qb\"") == Err(BadEscape('q'))
    ensures Tokenize("\"ab") == Err(UnclosedQuote)
    ensures Tokenize("\"a\\") == Err(UnclosedQuote)
  {
    var s1 := "\"a\\qb\"";
    assert QuotedFrom(s1, 1, []) == QuotedFrom(s1, 2, "a");
    var s2 := "\"ab";
    assert QuotedFrom(s2, 1, []) == QuotedFrom(s2, 3, "ab");
    var s3 := "\"a\\";
    assert QuotedFrom(s3, 1, []) == QuotedFrom(s3, 2, "a");
  }

  /** Any character outside the token starts, such as `=`, is a syntax error. */
  lemma SyntaxError()
    ensures Tokenize("a=b") == Err(Syntax('='))
  {
    var s := "a=b";
    assert Span(s, 0, IsWordChar) == 1;
  }
}
