/**
 * The older tokenizer of `src/vdf/parser.rs` and its `KeyValues`
 * wrapper. Its scanners are the same character-cursor loops as those of
 * the `steamkit-vdf` tokenizer and are shared with it; the dispatch has
 * no `[` branch, so conditions are not recognised, and the error type has
 * only four variants. `KeyValues::parse` tokenizes and then only clears
 * the root node.
 */
module LegacyParser {
  import opened Wrappers
  import opened Text
  import V = VdfToken

  datatype Error = EndOfFile | BadEscape(c: char) | UnclosedQuote | Syntax(c: char)

  /** The errors the two tokenizers have in common. */
  predicate IsShared(e: V.Error) {
    e.Syntax? || e.BadEscape? || e.UnclosedQuote? || e.EndOfFile?
  }

  /** A shared error under its name in this module. */
  function FromShared(e: V.Error): (r: Error)
    requires IsShared(e)
  {
    match e
    case Syntax(c) => Syntax(c)
    case BadEscape(c) => BadEscape(c)
    case UnclosedQuote => UnclosedQuote
    case EndOfFile => EndOfFile
  }

  /** A result of the other tokenizer, with its error renamed. */
  function Lift<T>(r: Result<T, V.Error>): Result<T, Error>
    requires r.Err? ==> IsShared(r.error)
  {
    match r
    case Ok(v) => Ok(v)
    case Err(e) => Err(FromShared(e))
  }

  /** A character that starts a token here: those of the other tokenizer except `[`. */
  predicate IsTokenStart(c: char) {
    c == '{' || c == '}' || c == '\r' || c == '\n' || V.IsBlank(c) || V.IsWordChar(c) || c == '"' || c == '/'
  }

  /** One step of `Tokens::parse`. */
  function NextToken(s: string, i: nat): (r: Result<(V.Token, nat), Error>)
    requires i < |s|
    ensures r.Ok? ==> i < r.value.1 <= |s| && V.StartsWithChar(r.value.0, s[i]) && !r.value.0.Condition?
    ensures r == Err(Syntax(s[i])) <==> !IsTokenStart(s[i])
  {
    var c := s[i];
    if c == '{' then Ok((V.GroupStart, i + 1))
    else if c == '}' then Ok((V.GroupEnd, i + 1))
    else if c == '\r' || c == '\n' then
      var j := V.NewLineEnd(s, i); Ok((V.NewLine(s[i..j]), j))
    else if V.IsBlank(c) then
      var j := Span(s, i, V.IsBlank); Ok((V.Whitespace(s[i..j]), j))
    else if V.IsWordChar(c) then
      var j := Span(s, i, V.IsWordChar); Ok((V.String(s[i..j]), j))
    else if c == '"' then Lift(V.QuotedToken(s, i))
    else if c == '/' then Ok(V.CommentToken(s, i))
    else Err(Syntax(c))
  }

  function TokensFrom(s: string, i: nat, acc: seq<V.Token>): (r: Result<seq<V.Token>, Error>)
    requires i <= |s|
    ensures r.Ok? ==> |acc| <= |r.value| <= |acc| + (|s| - i) && r.value[..|acc|] == acc
    decreases |s| - i
  {
    if i == |s| then Ok(acc)
    else match NextToken(s, i)
      case Err(e) => Err(e)
      case Ok((t, j)) => TokensFrom(s, j, acc + [t])
  }

  function Tokenize(s: string): (r: Result<seq<V.Token>, Error>)
    ensures r.Ok? ==> |r.value| <= |s|
  {
    TokensFrom(s, 0, [])
  }

  /** `Tokens::parse`, with the shared scanners. */
  method Parse(s: string) returns (r: Result<seq<V.Token>, Error>)
    ensures r == Tokenize(s)
  {
    var tokens: seq<V.Token> := [];
    var i := 0;
    while i < |s|
      invariant i <= |s|
      invariant TokensFrom(s, i, tokens) == Tokenize(s)
      decreases |s| - i
    {
      var chr := s[i];
      var token: V.Token;
      var j: nat;
      if chr == '{' {
        token, j := V.GroupStart, i + 1;
      } else if chr == '}' {
        token, j := V.GroupEnd, i + 1;
      } else if chr == '\r' || chr == '\n' {
        token, j := V.UseNewLine(s, i);
      } else if chr == '\t' || chr == ' ' {
        token, j := V.UseWhitespace(s, i);
      } else if V.IsWordChar(chr) {
        token, j := V.UseString(s, i);
      } else if chr == '"' {
        var q := V.UseQuotedString(s, i);
        if q.Err? {
          return Err(FromShared(q.error));
        }
        token, j := q.value.0, q.value.1;
      } else if chr == '/' {
        token, j := V.UseComment(s, i);
      } else {
        return Err(Syntax(chr));
      }
      assert NextToken(s, i) == Ok((token, j));
      tokens := tokens + [token];
      i := j;
    }
    r := Ok(tokens);
  }

  /** No `[` from position `i` on. */
  predicate NoBracket(s: string, i: nat)
    requires i <= |s|
  {
    forall k :: i <= k < |s| ==> s[k] != '['
  }

  lemma {:induction false} TokensFromAgree(s: string, i: nat, acc: seq<V.Token>)
    requires i <= |s| && NoBracket(s, i)
    ensures V.TokensFrom(s, i, acc).Err? ==> IsShared(V.TokensFrom(s, i, acc).error)
    ensures TokensFrom(s, i, acc) == Lift(V.TokensFrom(s, i, acc))
    decreases |s| - i
  {
    if i < |s| {
      match V.NextToken(s, i)
      case Err(e) =>
      case Ok((t, j)) =>
        TokensFromAgree(s, j, acc + [t]);
    }
  }

  /** On input without `[` the two tokenizers produce the same tokens and the same errors. */
  lemma TokenizeAgrees(s: string)
    requires NoBracket(s, 0)
    ensures V.Tokenize(s).Err? ==> IsShared(V.Tokenize(s).error)
    ensures Tokenize(s) == Lift(V.Tokenize(s))
  {
    TokensFromAgree(s, 0, []);
  }

  /** A `[` is a syntax error here, where the other tokenizer reads a condition. */
  lemma BracketIsSyntaxError()
    ensures Tokenize("[a]") == Err(Syntax('['))
    ensures V.Tokenize("[a]") == Ok([V.Condition("a")])
  {
    var s := "[a]";
    assert V.NextToken(s, 0) == Ok((V.Condition("a"), 3)) by {
      assert Span(s, 2, V.IsNotBracketClose) == 2;
      assert s[1..2] == "a";
    }
    assert [] + [V.Condition("a")] == [V.Condition("a")];
  }

  // ---------------------------------------------------------------------
  // KeyValues

  /** The tree node of this version (never built: `decode_tokens` only clears the root). */
  datatype Node =
    | Entry(key: V.Token, value: V.Token, conditional: Option<V.Token>)
    | Array(items: seq<Node>)
    | Map(entries: seq<(string, Node)>)

  /** `Node::clear`: an array or map loses its children, an entry is left as it is. */
  function Cleared(n: Node): (r: Node)
    ensures n.Entry? ==> r == n
    ensures n.Array? ==> r == Array([])
    ensures n.Map? ==> r == Map([])
  {
    match n
    case Entry(_, _, _) => n
    case Array(_) => Array([])
    case Map(_) => Map([])
  }

  class KeyValues {
    var tokens: seq<V.Token>
    var root: Node

    /** `KeyValues::new`: no tokens and an empty map as root. */
    constructor ()
      ensures tokens == [] && root == Map([])
    {
      tokens := [];
      root := Map([]);
    }

    /** `KeyValues::decode_tokens`: clears the root and reads nothing from the tokens. */
    method DecodeTokens() returns (r: Result<(), Error>)
      modifies this
      ensures r.Ok?
      ensures root == Cleared(old(root)) && tokens == old(tokens)
    {
      root := Cleared(root);
      r := Ok(());
    }
  }

  /**
   * `KeyValues::parse`: a tokenizer error is returned as it is; otherwise
   * the result holds the tokens and an empty map as root.
   */
  method ParseKeyValues(s: string) returns (r: Result<KeyValues, Error>)
    ensures Tokenize(s).Err? <==> r.Err?
    ensures r.Err? ==> r.error == Tokenize(s).error
    ensures r.Ok? ==> r.value.tokens == Tokenize(s).value && r.value.root == Map([])
  {
    var tokens := Parse(s);
    if tokens.Err? {
      return Err(tokens.error);
    }
    var kv := new KeyValues();
    kv.tokens := tokens.value;
    kv.root := Map([]);
    var d := kv.DecodeTokens();
    r := Ok(kv);
  }
}
