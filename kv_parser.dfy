/**
 * The KeyValues grammar of `steamkit-kv/src/parser.rs`: a recursive
 * descent that turns text into a raw tree of entries. An entry is a
 * block (`key`, a line break, `{`, children separated by line breaks,
 * `}`) or a scalar (`key`, spaces, `value`), each with an optional
 * `[macro]` tag. Strings are quoted (with the escapes `\"`, `\n`, `\t`,
 * `\\`) or unquoted, and `/` starts a comment that runs to the end of
 * the line.
 */
module KvParser {
  import opened Wrappers
  import opened Text
  import opened Nom

  datatype Entry = Entry(key: string, value: Value, macro: Option<string>)

  datatype Value = String(text: string) | Map(entries: seq<Entry>)

  /** `comment`: a `/` and the rest of the line. */
  function Comment(s: string, i: nat): (r: Option<nat>)
    requires i <= |s|
    ensures r.Some? ==> i < r.value <= |s| && s[i] == '/'
  {
    if i < |s| && s[i] == '/' then NotLineEnding(s, i + 1) else None
  }

  /**
   * A comment is read exactly when a `/` stands at `i` and the line it
   * starts is not ended by a lone CR; it runs over no CR or LF and stops
   * at the end of the input, at an LF or at a CR LF.
   */
  lemma CommentRead(s: string, i: nat)
    requires i <= |s|
    ensures var r := Comment(s, i); r.Some? <==> i < |s| && s[i] == '/' && !LoneCrEndsLine(s, i + 1)
    ensures var r := Comment(s, i); r.Some? ==> forall k {:trigger NotLineBreak(s[k])} :: i < k < r.value ==> NotLineBreak(s[k])
    ensures var r := Comment(s, i); r.Some? ==> r.value == |s| || s[r.value] == '\n' || StartsWith(s, r.value, "\r\n")
  {
    if i < |s| {
      NotLineEndingRead(s, i + 1);
    }
  }

  /** The characters an unquoted string may hold: anything but a quote, a brace, CR, LF, tab or space. */
  predicate IsUnquotedChar(c: char) {
    c != '"' && c != '{' && c != '}' && c != '\n' && c != '\r' && c != '\t' && c != ' '
  }

  /** `unquoted_string`: the longest non-empty run of unquoted characters. */
  function Unquoted(s: string, i: nat): (r: Option<nat>)
    requires i <= |s|
    ensures r.Some? <==> i < |s| && IsUnquotedChar(s[i])
    ensures r.Some? ==> i < r.value <= |s| && (forall k {:trigger IsUnquotedChar(s[k])} :: i <= k < r.value ==> IsUnquotedChar(s[k])) &&
                        (r.value == |s| || !IsUnquotedChar(s[r.value]))
  {
    var j := UnquotedEnd(s, i);
    if i < j then Some(j) else None
  }

  /** The end of the run of unquoted characters from `i`. */
  function UnquotedEnd(s: string, i: nat): (j: nat)
    requires i <= |s|
    ensures i <= j <= |s| && (forall k {:trigger IsUnquotedChar(s[k])} :: i <= k < j ==> IsUnquotedChar(s[k])) && (j == |s| || !IsUnquotedChar(s[j]))
    decreases |s| - i
  {
    if i < |s| && IsUnquotedChar(s[i]) then UnquotedEnd(s, i + 1) else i
  }

  /** The characters that may follow a backslash inside a quoted string. */
  predicate IsEscapable(c: char) { c == '"' || c == 'n' || c == 't' || c == '\\' }

  /**
   * A quoted-string body: no raw quote, and every backslash followed by
   * one of the escapable characters.
   */
  predicate WellEscaped(b: string)
    decreases |b|
  {
    b == [] ||
    (b[0] != '"' && b[0] != '\\' && WellEscaped(b[1..])) ||
    (|b| >= 2 && b[0] == '\\' && IsEscapable(b[1]) && WellEscaped(b[2..]))
  }

  /**
   * nom's `escaped(none_of("\"\\"), '\\', one_of("\"nt\\"))` started at
   * `start`, now at `k`: it stops before a raw quote (an error if nothing
   * was read), fails on a bad escape or a backslash at the end, and
   * otherwise reads to the end of the input.
   */
  function EscapedEnd(s: string, start: nat, k: nat): (r: Option<nat>)
    requires start <= k <= |s|
    ensures r.Some? ==> k <= r.value <= |s|
    decreases |s| - k
  {
    if k == |s| then Some(k)
    else if s[k] != '"' && s[k] != '\\' then EscapedEnd(s, start, k + 1)
    else if s[k] == '\\' then
      if k + 1 == |s| then None
      else if IsEscapable(s[k + 1]) then EscapedEnd(s, start, k + 2)
      else None
    else if k == start then None
    else Some(k)
  }

  /** `quoted_string`: a well-escaped body between quotes, or `""` for the empty string. */
  function Quoted(s: string, i: nat): (r: PResult<string>)
    requires i <= |s|
    ensures !r.Fatal?
    ensures r.Done? ==> i + 2 <= r.pos <= |s|
  {
    if i < |s| && s[i] == '"' then
      var e := EscapedEnd(s, i + 1, i + 1);
      if e.Some? && e.value < |s| && s[e.value] == '"' then Done(s[i + 1..e.value], e.value + 1)
      else if StartsWith(s, i, "\"\"") then Done("", i + 2)
      else Backtrack
    else Backtrack
  }

  /** `string`: quoted, or else unquoted. */
  function Str(s: string, i: nat): (r: PResult<string>)
    requires i <= |s|
    ensures !r.Fatal?
    ensures r.Done? ==> i < r.pos <= |s| && (s[i] == '"' || IsUnquotedChar(s[i]))
  {
    match Quoted(s, i)
    case Done(v, j) => Done(v, j)
    case Fatal => Fatal
    case Backtrack =>
      match Unquoted(s, i)
      case Some(j) => Done(s[i..j], j)
      case None => Backtrack
  }

  predicate IsMacroChar(c: char) { c != '[' && c != ']' && c != '\n' }

  /** `s[i..k + 1]` is a bracketed tag: `[`, one or more tag characters, and the `]` at `k`. */
  predicate MacroClosesAt(s: string, i: nat, k: nat) {
    i + 1 < k < |s| && s[i] == '[' && s[k] == ']' && forall m :: i < m < k ==> IsMacroChar(s[m])
  }

  /** `parse_macro`: `[`, one or more characters other than brackets and LF, `]`; the text without the brackets. */
  function ParseMacro(s: string, i: nat): (r: PResult<string>)
    requires i <= |s|
    ensures !r.Fatal?
    ensures r.Done? ==> var e := r.pos; i + 3 <= e <= |s| && r.value == s[i + 1..e - 1] && s[e - 1] == ']'
  {
    if i < |s| && s[i] == '[' then
      var k := MacroEnd(s, i + 1);
      if i + 1 < k < |s| && s[k] == ']' then Done(s[i + 1..k], k + 1) else Backtrack
    else Backtrack
  }

  /** The end of the run of tag characters from `i`. */
  function MacroEnd(s: string, i: nat): (j: nat)
    requires i <= |s|
    ensures i <= j <= |s| && (forall k {:trigger IsMacroChar(s[k])} :: i <= k < j ==> IsMacroChar(s[k])) && (j == |s| || !IsMacroChar(s[j]))
    decreases |s| - i
  {
    if i < |s| && IsMacroChar(s[i]) then MacroEnd(s, i + 1) else i
  }

  /** A tag is read exactly when a bracketed tag starts at `i`. */
  lemma ParseMacroRead(s: string, i: nat)
    requires i <= |s|
    ensures ParseMacro(s, i).Done? <==> exists k :: MacroClosesAt(s, i, k)
  {
    if i < |s| && s[i] == '[' {
      var k := MacroEnd(s, i + 1);
      if i + 1 < k < |s| && s[k] == ']' {
        assert MacroClosesAt(s, i, k);
      } else {
        forall k': nat | MacroClosesAt(s, i, k') ensures k' == k {
          assert !IsMacroChar(s[k']);
          assert k < |s| ==> !IsMacroChar(s[k]);
        }
      }
    }
  }

  /** `opt(preceded(space1, parse_macro))`: the tag and the position after it, or nothing consumed. */
  function OptMacro(s: string, i: nat): (r: (Option<string>, nat))
    requires i <= |s|
    ensures r.0.None? ==> r.1 == i
    ensures i <= r.1 <= |s|
  {
    match Space1(s, i)
    case Some(j) =>
      (match ParseMacro(s, j)
       case Done(m, k) => (Some(m), k)
       case Backtrack => (None, i)
       case Fatal => (None, i))
    case None => (None, i)
  }

  /**
   * A tag is read exactly when at least one space or tab is followed by
   * a bracketed tag; it is that tag's text and ends after its `]`.
   */
  lemma OptMacroRead(s: string, i: nat)
    requires i <= |s|
    ensures var r := OptMacro(s, i); r.0.Some? <==> Space1(s, i).Some? && ParseMacro(s, Space1(s, i).value).Done?
    ensures var r := OptMacro(s, i); r.0.Some? ==> var t := ParseMacro(s, Space0(s, i)); r.0.value == t.value && r.1 == t.pos
  {
  }

  /**
   * The replace chain applied to scalar values: `\n`, then `\t`, then
   * `\"`, then `\\`, each over the whole string.
   */
  function Unescape(v: string): string {
    Replace(Replace(Replace(Replace(v, "\\n", "\n"), "\\t", "\t"), "\\\"", "\""), "\\\\", "\\")
  }

  /** `key_value_string`: key, at least one space or tab, value, and an optional tag after more spaces. */
  function KeyValueString(s: string, i: nat): (r: PResult<Entry>)
    requires i <= |s|
    ensures !r.Fatal?
    ensures r.Done? ==> i < r.pos <= |s| && r.value.value.String?
  {
    match Str(s, i)
    case Done(key, j) =>
      (match Space1(s, j)
       case Some(j1) =>
         (match Str(s, j1)
          case Done(v, j2) =>
            var (m, j3) := OptMacro(s, j2);
            Done(Entry(key, String(Unescape(v)), m), j3)
          case Backtrack => Backtrack
          case Fatal => Fatal)
       case None => Backtrack)
    case Backtrack => Backtrack
    case Fatal => Fatal
  }

  /**
   * A scalar entry is read exactly when a key, at least one space or
   * tab, and a value are read; it holds the key, the unescaped value and
   * the optional tag after the value, and ends where that tag ends.
   */
  lemma KeyValueStringRead(s: string, i: nat)
    requires i <= |s|
    ensures var r := KeyValueString(s, i);
            r.Done? <==> var key := Str(s, i);
                         key.Done? && key.pos < |s| && IsSpace(s[key.pos]) && Str(s, Space0(s, key.pos)).Done?
    ensures var r := KeyValueString(s, i);
            r.Done? ==> var key := Str(s, i); var v := Str(s, Space0(s, key.pos)); var t := OptMacro(s, v.pos);
                        r.value == Entry(key.value, String(Unescape(v.value)), t.0) && r.pos == t.1
  {
  }

  /** The only line feed in `s[i..j]` is at `k`. */
  predicate OnlyLineFeedAt(s: string, i: nat, j: nat, k: nat)
    requires i <= j <= |s|
  {
    i <= k < j && s[k] == '\n' && forall m :: i <= m < j && m != k ==> s[m] != '\n'
  }

  /** `s[i..j]` holds exactly one line feed. */
  ghost predicate OneLineFeed(s: string, i: nat, j: nat)
    requires i <= j <= |s|
  {
    exists k :: OnlyLineFeedAt(s, i, j, k)
  }

  /** `whitespace_newline`: spaces, an optional comment, one line ending, spaces. */
  function WhitespaceNewline(s: string, i: nat): (r: Option<nat>)
    requires i <= |s|
    ensures r.Some? ==> i < r.value <= |s|
  {
    var a := Space0(s, i);
    var b := match Comment(s, a) case Some(c) => c case None => a;
    match LineEnding(s, b)
    case Some(c) => Some(Space0(s, c))
    case None => None
  }

  /** A line break holds exactly one line feed. */
  lemma WhitespaceNewlineRead(s: string, i: nat)
    requires i <= |s|
    ensures WhitespaceNewline(s, i).Some? ==> OneLineFeed(s, i, WhitespaceNewline(s, i).value)
  {
    var a := Space0(s, i);
    var b := match Comment(s, a) case Some(c) => c case None => a;
    match LineEnding(s, b)
    case Some(c) =>
      CommentRead(s, a);
      Space0All(s, i);
      forall m | i <= m < b ensures s[m] != '\n' {
        if m < a {
          assert IsSpace(s[m]);
        } else if a < m {
          assert NotLineBreak(s[m]);
        }
      }
      LineFeedThenSpaces(s, i, b, c);
    case None =>
  }

  /** A line ending after a stretch without line feeds, and the spaces after it, hold exactly one line feed. */
  lemma LineFeedThenSpaces(s: string, i: nat, b: nat, c: nat)
    requires i <= b <= |s| && LineEnding(s, b) == Some(c)
    requires forall m :: i <= m < b ==> s[m] != '\n'
    ensures OneLineFeed(s, i, Space0(s, c))
  {
    var k := c - 1;
    var e := Space0(s, c);
    Space0All(s, c);
    assert s[k] == '\n' && (k == b || s[b] == '\r');
    forall m | c <= m < e ensures s[m] != '\n' {
      assert IsSpace(s[m]);
    }
    assert OnlyLineFeedAt(s, i, e, k);
  }

  /** `many0(whitespace_newline)`. */
  function ManyNewlines(s: string, i: nat): (j: nat)
    requires i <= |s|
    ensures i <= j <= |s|
    ensures WhitespaceNewline(s, j).None?
    decreases |s| - i
  {
    match WhitespaceNewline(s, i)
    case Some(j) => ManyNewlines(s, j)
    case None => i
  }

  /** `many1(whitespace_newline)`. */
  function SomeNewlines(s: string, i: nat): (r: Option<nat>)
    requires i <= |s|
    ensures r.Some? <==> WhitespaceNewline(s, i).Some?
    ensures r.Some? ==> i < r.value <= |s| && r.value == ManyNewlines(s, i)
  {
    match WhitespaceNewline(s, i)
    case Some(j) => Some(ManyNewlines(s, j))
    case None => None
  }

  /**
   * `key_value_map`: key, optional tag, one line break, `{`, one line
   * break, the body, any number of line breaks, `}`.
   */
  function KeyValueMap(s: string, i: nat): (r: PResult<Entry>)
    requires i <= |s|
    ensures !r.Fatal?
    ensures r.Done? ==> i < r.pos <= |s| && r.value.value.Map?
    decreases |s| - i, 1
  {
    match Str(s, i)
    case Done(key, j) =>
      var (m, j2) := OptMacro(s, j);
      (match Braces(s, j2)
       case Done(entries, k) => Done(Entry(key, Map(entries), m), k)
       case Backtrack => Backtrack
       case Fatal => Fatal)
    case Backtrack => Backtrack
    case Fatal => Fatal
  }

  /** The part of `key_value_map` after the key and tag: the line break, the braces and the body between them. */
  function Braces(s: string, i: nat): (r: PResult<seq<Entry>>)
    requires 0 < i <= |s|
    ensures !r.Fatal?
    ensures r.Done? ==> i < r.pos <= |s|
    decreases |s| - i, 0
  {
    match WhitespaceNewline(s, i)
    case Some(j) =>
      if j < |s| && s[j] == '{' then
        match WhitespaceNewline(s, j + 1)
        case Some(k) =>
          (match Body(s, k)
           case Done(entries, k2) =>
             var k3 := ManyNewlines(s, k2);
             if k3 < |s| && s[k3] == '}' then Done(entries, k3 + 1) else Backtrack
           case Backtrack => Backtrack
           case Fatal => Fatal)
        case None => Backtrack
      else Backtrack
    case None => Backtrack
  }

  /** `key_value_map_body`: `separated_list0(many1(whitespace_newline), key_value)`. */
  function Body(s: string, i: nat): (r: PResult<seq<Entry>>)
    requires i <= |s|
    ensures r.Done? && r.pos == i ==> r.value == []
    ensures r.Done? ==> i <= r.pos <= |s|
    ensures r.Done?
    decreases |s| - i, 3
  {
    match KeyValue(s, i)
    case Done(e, j) =>
      (match BodyRest(s, j)
       case Done(es, k) => Done([e] + es, k)
       case Backtrack => Backtrack
       case Fatal => Fatal)
    case Backtrack => Done([], i)
    case Fatal => Fatal
  }

  /**
   * The rest of a `separated_list0`: while a separator and then an entry
   * both parse, take the entry; otherwise stop before the separator.
   */
  function BodyRest(s: string, i: nat): (r: PResult<seq<Entry>>)
    requires i <= |s|
    ensures r.Done? ==> i <= r.pos <= |s|
    ensures r.Done? && r.pos == i ==> r.value == []
    ensures r.Done?
    decreases |s| - i, 3
  {
    match SomeNewlines(s, i)
    case Some(j) =>
      (match KeyValue(s, j)
       case Done(e, k) =>
         (match BodyRest(s, k)
          case Done(es, m) => Done([e] + es, m)
          case Backtrack => Backtrack
          case Fatal => Fatal)
       case Backtrack => Done([], i)
       case Fatal => Fatal)
    case None => Done([], i)
  }

  /** `key_value`: a block entry if one parses, otherwise a scalar entry. */
  function KeyValue(s: string, i: nat): (r: PResult<Entry>)
    requires i <= |s|
    ensures !r.Fatal?
    ensures r.Done? ==> i < r.pos <= |s|
    decreases |s| - i, 2
  {
    match KeyValueMap(s, i)
    case Done(e, j) => Done(e, j)
    case Backtrack => KeyValueString(s, i)
    case Fatal => Fatal
  }

  // ---------------------------------------------------------------------
  // Blocks, bodies and entries in general

  /** `key_value` tries the block first and falls back to the scalar only when the block does not parse. */
  lemma KeyValueAlt(s: string, i: nat)
    requires i <= |s|
    ensures KeyValue(s, i) == if KeyValueMap(s, i).Done? then KeyValueMap(s, i) else KeyValueString(s, i)
  {
  }

  /** A block entry is a key, an optional tag and the braces part; it holds the key, the braces' entries and the tag. */
  lemma KeyValueMapParts(s: string, i: nat)
    requires i <= |s|
    ensures var r := KeyValueMap(s, i); var key := Str(s, i);
            r.Done? <==> key.Done? && Braces(s, OptMacro(s, key.pos).1).Done?
    ensures var r := KeyValueMap(s, i);
            r.Done? ==>
              var t := OptMacro(s, Str(s, i).pos); var b := Braces(s, t.1);
              r.value == Entry(Str(s, i).value, Map(b.value), t.0) && r.pos == b.pos
  {
  }

  /** The opening of a block after its key and tag: one line break, `{`, one line break. */
  predicate OpensBlock(s: string, i: nat)
    requires i <= |s|
  {
    var nl := WhitespaceNewline(s, i);
    nl.Some? && nl.value < |s| && s[nl.value] == '{' && WhitespaceNewline(s, nl.value + 1).Some?
  }

  /** Where the body of a block that opens at `i` starts. */
  function BodyStart(s: string, i: nat): (k: nat)
    requires i <= |s| && OpensBlock(s, i)
    ensures k <= |s|
  {
    WhitespaceNewline(s, WhitespaceNewline(s, i).value + 1).value
  }

  /** The opening of a block is one line break, `{` and one line break, each holding exactly one line feed. */
  lemma OpensBlockRead(s: string, i: nat)
    requires i <= |s| && OpensBlock(s, i)
    ensures var o := WhitespaceNewline(s, i).value;
            OneLineFeed(s, i, o) && s[o] == '{' && OneLineFeed(s, o + 1, BodyStart(s, i))
  {
    WhitespaceNewlineRead(s, i);
    WhitespaceNewlineRead(s, WhitespaceNewline(s, i).value + 1);
  }

  /**
   * The braces part is the opening (one line break, `{`, one line
   * break), the body, any number of line breaks, and `}`; it holds the
   * body's entries and ends after the `}`.
   */
  lemma BracesShape(s: string, i: nat)
    requires 0 < i <= |s|
    ensures !OpensBlock(s, i) ==> Braces(s, i) == Backtrack
    ensures OpensBlock(s, i) ==>
              var b := Body(s, BodyStart(s, i));
              var c := ManyNewlines(s, b.pos);
              (Braces(s, i).Done? <==> c < |s| && s[c] == '}') &&
              (Braces(s, i).Done? ==> Braces(s, i).value == b.value && Braces(s, i).pos == c + 1)
  {
  }

  /**
   * A block entry is exactly: a key, an optional tag, one line break,
   * `{`, one line break, the body, any number of line breaks, and `}`;
   * the entry holds the key, the body's entries and the tag, and ends
   * just after the `}`.
   */
  lemma KeyValueMapRead(s: string, i: nat)
    requires i <= |s|
    ensures Str(s, i).Backtrack? ==> KeyValueMap(s, i) == Backtrack
    ensures Str(s, i).Done? && !OpensBlock(s, OptMacro(s, Str(s, i).pos).1) ==> KeyValueMap(s, i) == Backtrack
    ensures Str(s, i).Done? && OpensBlock(s, OptMacro(s, Str(s, i).pos).1) ==>
              var key := Str(s, i);
              var t := OptMacro(s, key.pos);
              var b := Body(s, BodyStart(s, t.1));
              var c := ManyNewlines(s, b.pos);
              var r := KeyValueMap(s, i);
              (r.Done? <==> c < |s| && s[c] == '}') &&
              (r.Done? ==> r.value == Entry(key.value, Map(b.value), t.0) && r.pos == c + 1)
  {
    KeyValueMapParts(s, i);
    if Str(s, i).Done? {
      BracesShape(s, OptMacro(s, Str(s, i).pos).1);
    }
  }

  /** The rest of a body: each further entry is read after one or more line breaks. */
  ghost predicate RestRead(s: string, i: nat, es: seq<Entry>, e: nat)
    requires i <= |s|
    decreases |es|
  {
    if es == [] then e == i
    else
      var sep := SomeNewlines(s, i);
      sep.Some? &&
      var kv := KeyValue(s, sep.value);
      kv.Done? && kv.value == es[0] && RestRead(s, kv.pos, es[1..], e)
  }

  /** Where `separated_list0` stops: no line break follows, or no entry follows the line breaks. */
  predicate RestStops(s: string, e: nat)
    requires e <= |s|
  {
    var sep := SomeNewlines(s, e);
    sep.None? || KeyValue(s, sep.value).Backtrack?
  }

  /** A body from `i`: no entry at all, or a first entry and the rest, up to where the list stops. */
  ghost predicate EntriesRead(s: string, i: nat, es: seq<Entry>, e: nat)
    requires i <= |s|
  {
    if es == [] then e == i && KeyValue(s, i).Backtrack?
    else
      var kv := KeyValue(s, i);
      kv.Done? && kv.value == es[0] && RestRead(s, kv.pos, es[1..], e) && e <= |s| && RestStops(s, e)
  }

  /** The rest of a body is exactly the chain of entries after line breaks, stopping before a separator whose entry fails. */
  lemma {:induction false} BodyRestRead(s: string, i: nat, es: seq<Entry>, e: nat)
    requires i <= |s|
    ensures BodyRest(s, i) == Done(es, e) <==> RestRead(s, i, es, e) && e <= |s| && RestStops(s, e)
    decreases |s| - i
  {
    match SomeNewlines(s, i)
    case None =>
    case Some(j) =>
      match KeyValue(s, j)
      case Done(x, k) =>
        if es != [] {
          BodyRestRead(s, k, es[1..], e);
          assert [es[0]] + es[1..] == es;
        }
        var rest := BodyRest(s, k);
        BodyRestRead(s, k, rest.value, rest.pos);
      case Backtrack =>
      case Fatal =>
  }

  /**
   * `key_value_map_body`: the entries are read one after another,
   * separated by one or more line breaks, and the list stops before a
   * separator that no entry follows; with no first entry it is empty.
   */
  lemma BodyRead(s: string, i: nat, es: seq<Entry>, e: nat)
    requires i <= |s|
    ensures Body(s, i) == Done(es, e) <==> EntriesRead(s, i, es, e)
  {
    match KeyValue(s, i)
    case Done(x, k) =>
      var rest := BodyRest(s, k);
      BodyRestRead(s, k, rest.value, rest.pos);
      if es != [] {
        BodyRestRead(s, k, es[1..], e);
        assert [es[0]] + es[1..] == es;
      }
    case Backtrack =>
    case Fatal =>
  }

  /** No entry starts at the end, or at a character that no string starts with. */
  lemma NoEntryAt(s: string, p: nat)
    requires p <= |s| && (p == |s| || (s[p] != '"' && !IsUnquotedChar(s[p])))
    ensures KeyValue(s, p) == Backtrack
  {
    assert Str(s, p) == Backtrack;
  }

  /** No line break starts at a character that begins a string, unless it is the `/` of a comment. */
  lemma NoLineBreakAt(s: string, p: nat)
    requires p < |s| && (s[p] == '"' || IsUnquotedChar(s[p])) && s[p] != '/'
    ensures WhitespaceNewline(s, p).None?
  {
    assert Space0(s, p) == p;
    assert Comment(s, p).None?;
    assert !StartsWith(s, p, "\n") && !StartsWith(s, p, "\r\n") by {
      if p + 1 <= |s| {
        assert s[p..p + 1][0] == s[p];
      }
      if p + 2 <= |s| {
        assert s[p..p + 2][0] == s[p];
      }
    }
  }

  /**
   * Children laid out one per line from `p`: each is an entry read where
   * it stands, each but the last followed by a single line feed and a
   * next child that does not start with `/`; `q` is where the last ends.
   */
  ghost predicate LinesLaid(s: string, p: nat, es: seq<Entry>, q: nat)
    requires p <= |s|
    decreases |es|
  {
    if es == [] then q == p
    else
      var kv := KeyValue(s, p);
      kv.Done? && kv.value == es[0] &&
      if |es| == 1 then q == kv.pos
      else kv.pos + 1 < |s| && s[kv.pos] == '\n' && s[kv.pos + 1] != '/' && LinesLaid(s, kv.pos + 1, es[1..], q)
  }

  /** `LinesLaid` from `p`, as a hypothesis of the lemmas about whole blocks. */
  ghost predicate ChildLines(s: string, p: nat, es: seq<Entry>, q: nat)
    requires p <= |s|
  {
    LinesLaid(s, p, es, q)
  }

  /** Children laid out one per line are the first entry and the rest of a body. */
  lemma {:induction false} LinesRest(s: string, p: nat, es: seq<Entry>, q: nat)
    requires p <= |s| && es != [] && LinesLaid(s, p, es, q)
    ensures KeyValue(s, p).Done? && KeyValue(s, p).value == es[0] && RestRead(s, KeyValue(s, p).pos, es[1..], q)
    decreases |es|
  {
    if |es| > 1 {
      LinesLaidNext(s, p, es, q);
      var p1 := KeyValue(s, p).pos;
      LinesRest(s, p1 + 1, es[1..], q);
      RestFromNext(s, p1, es[1..], q);
    }
  }

  /** A line feed and then a child that starts the rest: the rest is read after that separator. */
  lemma RestFromNext(s: string, p1: nat, es: seq<Entry>, q: nat)
    requires p1 + 1 < |s| && s[p1] == '\n' && s[p1 + 1] != '/' && es != []
    requires var kv := KeyValue(s, p1 + 1); kv.Done? && kv.value == es[0] && RestRead(s, kv.pos, es[1..], q)
    ensures RestRead(s, p1, es, q)
  {
    EntryStart(s, p1 + 1);
    SeparatorAt(s, p1);
    RestReadStep(s, p1, es, q);
  }

  /** The layout after a child that is not the last: a line feed, then the next child, not starting with `/`. */
  lemma LinesLaidNext(s: string, p: nat, es: seq<Entry>, q: nat)
    requires p <= |s| && |es| > 1 && LinesLaid(s, p, es, q)
    ensures var p1 := KeyValue(s, p).pos;
            KeyValue(s, p).Done? && p1 + 1 < |s| && s[p1] == '\n' && s[p1 + 1] != '/' && LinesLaid(s, p1 + 1, es[1..], q)
  {
  }

  /** An entry starts with a quote or an unquoted character. */
  lemma EntryStart(s: string, p: nat)
    requires p <= |s| && KeyValue(s, p).Done?
    ensures Str(s, p).Done? && p < |s| && (s[p] == '"' || IsUnquotedChar(s[p]))
  {
    KeyValueMapParts(s, p);
    KeyValueStringRead(s, p);
  }

  /** A single line feed before a string that is not a comment is one separator. */
  lemma SeparatorAt(s: string, p: nat)
    requires p + 1 < |s| && s[p] == '\n' && (s[p + 1] == '"' || IsUnquotedChar(s[p + 1])) && s[p + 1] != '/'
    ensures SomeNewlines(s, p) == Some(p + 1)
  {
    LineFeedAt(s, p);
    NoLineBreakAt(s, p + 1);
  }

  /** One step of `RestRead`: a separator, an entry, and the rest after it. */
  lemma RestReadStep(s: string, i: nat, es: seq<Entry>, e: nat)
    requires i <= |s| && es != [] && SomeNewlines(s, i).Some?
    requires var kv := KeyValue(s, SomeNewlines(s, i).value);
             kv.Done? && kv.value == es[0] && RestRead(s, kv.pos, es[1..], e)
    ensures RestRead(s, i, es, e)
  {
  }

  /** After the last child: a line feed and `}` end the list and the block. */
  lemma BlockCloses(s: string, q: nat)
    requires q + 1 < |s| && s[q] == '\n' && s[q + 1] == '}'
    ensures RestStops(s, q) && ManyNewlines(s, q) == q + 1
  {
    LineFeedAt(s, q);
    CloseBraceNoNewline(s, q + 1);
    NoEntryAt(s, q + 1);
  }

  /**
   * Read-back of the braces of a block laid out as LF, `{`, LF, the
   * children one per line, LF, `}`: whatever the children are, as long
   * as each is an entry where it stands, no tag is read before them and
   * the braces hold exactly them, in order, ending after the `}`.
   */
  lemma BracesLaid(s: string, j: nat, es: seq<Entry>, q: nat)
    requires 0 < j && j + 3 <= |s| && s[j] == '\n' && s[j + 1] == '{' && s[j + 2] == '\n'
    requires ChildLines(s, j + 3, es, q) && q + 1 < |s| && s[q] == '\n' && s[q + 1] == '}'
    ensures OptMacro(s, j) == (None, j) && Braces(s, j) == Done(es, q + 2)
  {
    BodyLaid(s, j + 3, es, q);
    BracesAfterOpen(s, j, es, q, q + 1, q + 2);
  }

  /** Braces opened by LF, `{`, LF, whose body ends at `q` and whose line breaks then stop at a `}` at `c`, end at `e`, right after that `}`. */
  lemma BracesAfterOpen(s: string, j: nat, es: seq<Entry>, q: nat, c: nat, e: nat)
    requires 0 < j && j + 3 < |s| && s[j] == '\n' && s[j + 1] == '{' && s[j + 2] == '\n'
    requires s[j + 3] == '\n' || s[j + 3] == '"' || IsUnquotedChar(s[j + 3])
    requires Body(s, j + 3) == Done(es, q) && ManyNewlines(s, q) == c && c < |s| && s[c] == '}' && e == c + 1
    ensures OptMacro(s, j) == (None, j) && Braces(s, j) == Done(es, e)
  {
    BlockOpens(s, j);
    BracesDone(s, j, es, q, e);
  }

  /**
   * Read-back of a block from its key and braces: a key with no tag
   * followed by braces is the block entry holding the braces' entries,
   * and `key_value` takes it as that block.
   */
  lemma BlockFromBraces(s: string, i: nat, es: seq<Entry>, e: nat)
    requires i <= |s| && Str(s, i).Done?
    requires var j := Str(s, i).pos; OptMacro(s, j) == (None, j) && Braces(s, j) == Done(es, e)
    ensures KeyValueMap(s, i) == Done(Entry(Str(s, i).value, Map(es), None), e)
    ensures KeyValue(s, i) == KeyValueMap(s, i)
  {
    KeyValueMapParts(s, i);
    KeyValueAlt(s, i);
  }

  /**
   * Braces whose body, read from where the block opens, ends at `q`,
   * followed by line breaks up to a `}`, hold the body's entries and end
   * at `e`, right after that `}`.
   */
  lemma BracesDone(s: string, j: nat, es: seq<Entry>, q: nat, e: nat)
    requires 0 < j <= |s| && OpensBlock(s, j) && Body(s, BodyStart(s, j)) == Done(es, q)
    requires var c := ManyNewlines(s, q); c < |s| && s[c] == '}' && e == c + 1
    ensures Braces(s, j) == Done(es, e)
  {
  }

  /** Children laid out one per line and then a line feed and `}`: the body holds exactly them and the block closes. */
  lemma BodyLaid(s: string, c: nat, es: seq<Entry>, q: nat)
    requires c <= |s| && ChildLines(s, c, es, q) && q + 1 < |s| && s[q] == '\n' && s[q + 1] == '}'
    ensures Body(s, c) == Done(es, q) && ManyNewlines(s, q) == q + 1
    ensures c < |s| && (s[c] == '\n' || s[c] == '"' || IsUnquotedChar(s[c]))
  {
    if es == [] {
      NoEntryAt(s, c);
    } else {
      LinesRest(s, c, es, q);
      EntryStart(s, c);
    }
    BlockCloses(s, q);
    BodyRead(s, c, es, q);
  }

  /** After a key: LF, `{`, LF and then a line feed or a string open a block with no tag, whose body starts after them. */
  lemma BlockOpens(s: string, j: nat)
    requires j + 3 < |s| && s[j] == '\n' && s[j + 1] == '{' && s[j + 2] == '\n'
    requires s[j + 3] == '\n' || s[j + 3] == '"' || IsUnquotedChar(s[j + 3])
    ensures OptMacro(s, j) == (None, j) && OpensBlock(s, j) && BodyStart(s, j) == j + 3
  {
    LineFeedAt(s, j);
    LineFeedAt(s, j + 2);
  }

  /** What `escaped` accepts is a well-escaped body, ending at a quote or at the end of the input. */
  lemma {:induction false} EscapedEndSound(s: string, start: nat, k: nat)
    requires start <= k <= |s| && EscapedEnd(s, start, k).Some?
    ensures var e := EscapedEnd(s, start, k).value;
            WellEscaped(s[k..e]) && (e == |s| || (s[e] == '"' && start < e))
    decreases |s| - k
  {
    var e := EscapedEnd(s, start, k).value;
    if k == |s| {
    } else if s[k] != '"' && s[k] != '\\' {
      EscapedEndSound(s, start, k + 1);
      assert s[k..e][1..] == s[k + 1..e];
    } else if s[k] == '\\' {
      EscapedEndSound(s, start, k + 2);
      assert s[k..e][2..] == s[k + 2..e];
    }
  }

  /** Every well-escaped body that is followed by a quote (or reaches the end) is read whole by `escaped`. */
  lemma {:induction false} EscapedEndComplete(s: string, start: nat, k: nat, e: nat)
    requires start <= k <= e <= |s| && WellEscaped(s[k..e])
    requires e == |s| || (s[e] == '"' && start < e)
    ensures EscapedEnd(s, start, k) == Some(e)
    decreases e - k
  {
    if k < e {
      var b := s[k..e];
      assert b[0] == s[k];
      if b[0] != '"' && b[0] != '\\' && WellEscaped(b[1..]) {
        assert b[1..] == s[k + 1..e];
        EscapedEndComplete(s, start, k + 1, e);
      } else {
        assert b[1] == s[k + 1] && b[2..] == s[k + 2..e];
        EscapedEndComplete(s, start, k + 2, e);
      }
    }
  }

  /**
   * A quoted string is exactly a quote, a well-escaped body, and a
   * quote: any escape other than `\"`, `\n`, `\t`, `\\` is rejected, raw
   * line breaks are part of the body, and `""` is the empty string.
   */
  lemma QuotedSpec(s: string, i: nat, b: string, j: nat)
    requires i <= |s|
    ensures Quoted(s, i) == Done(b, j) <==>
            i < |s| && s[i] == '"' && j == i + |b| + 2 && j <= |s| &&
            s[i + 1..j - 1] == b && s[j - 1] == '"' && WellEscaped(b)
  {
    if Quoted(s, i) == Done(b, j) {
      QuotedSound(s, i, b, j);
    }
    if i < |s| && s[i] == '"' && j == i + |b| + 2 && j <= |s| &&
       s[i + 1..j - 1] == b && s[j - 1] == '"' && WellEscaped(b) {
      QuotedComplete(s, i, b, j);
    }
  }

  /** What `Quoted` reads is a well-escaped body between two quotes. */
  lemma QuotedSound(s: string, i: nat, b: string, j: nat)
    requires i <= |s| && Quoted(s, i) == Done(b, j)
    ensures i < |s| && s[i] == '"' && j == i + |b| + 2 && j <= |s| &&
            s[i + 1..j - 1] == b && s[j - 1] == '"' && WellEscaped(b)
  {
    var e := EscapedEnd(s, i + 1, i + 1);
    if e.Some? && e.value < |s| && s[e.value] == '"' {
      EscapedEndSound(s, i + 1, i + 1);
    } else {
      assert s[i..i + 2][1] == s[i + 1];
    }
  }

  /** A well-escaped body between two quotes is read by `Quoted`. */
  lemma QuotedComplete(s: string, i: nat, b: string, j: nat)
    requires i < |s| && s[i] == '"' && j == i + |b| + 2 && j <= |s|
    requires s[i + 1..j - 1] == b && s[j - 1] == '"' && WellEscaped(b)
    ensures Quoted(s, i) == Done(b, j)
  {
    if b == [] {
      assert s[i..i + 2] == "\"\"";
    } else {
      EscapedEndComplete(s, i + 1, i + 1, j - 1);
    }
  }

  /** A value without backslashes is not changed by the unescape chain. */
  lemma UnescapeNoBackslash(v: string)
    requires forall k :: 0 <= k < |v| ==> v[k] != '\\'
    ensures Unescape(v) == v
  {
    ReplaceAbsent(v, "\\n", "\n");
    ReplaceAbsent(v, "\\t", "\t");
    ReplaceAbsent(v, "\\\"", "\"");
    ReplaceAbsent(v, "\\\\", "\\");
  }

  /**
   * The chain replaces `\n` before `\\`, so the raw text `\\n` (an
   * escaped backslash followed by `n`) decodes to a backslash and a line
   * feed.
   */
  lemma UnescapeEscapedBackslashThenN()
    ensures Unescape("\\\\n") == "\\\n"
  {
    var v := "\\\\n";
    assert v[..2] != "\\n" && v[1..] == "\\n";
    assert Replace("\\n", "\\n", "\n") == "\n" + Replace("", "\\n", "\n");
    var r := "\\\n";
    assert Replace(v, "\\n", "\n") == r;
    assert r[..2] != "\\t" && r[..2] != "\\\"" && r[..2] != "\\\\" && r[1..] == "\n";
  }

  /** `k [m]` alone reads as a scalar whose value is the unquoted string `[m]`. */
  lemma TagLikeScalar()
    ensures KeyValueString("k [m]\n{\n}", 0) == Done(Entry("k", String("[m]"), None), 5)
  {
    var s := "k [m]\n{\n}";
    assert Unquoted(s, 0) == Some(1);
    assert s[0..1] == "k";
    assert Str(s, 0) == Done("k", 1);
    assert Space1(s, 1) == Some(2);
    assert Unquoted(s, 2) == Some(5);
    assert s[2..5] == "[m]";
    assert Str(s, 2) == Done("[m]", 5);
    assert OptMacro(s, 5) == (None, 5);
    UnescapeNoBackslash("[m]");
  }

  /** A line feed not followed by a space or tab is one `whitespace_newline`. */
  lemma LineFeedAt(s: string, i: nat)
    requires i < |s| && s[i] == '\n' && (i + 1 == |s| || !IsSpace(s[i + 1]))
    ensures WhitespaceNewline(s, i) == Some(i + 1)
  {
    assert Space0(s, i) == i;
    assert Comment(s, i).None?;
    assert LineEnding(s, i) == Some(i + 1);
    assert Space0(s, i + 1) == i + 1;
  }

  /** A closing brace starts no entry and no line break. */
  lemma CloseBraceStops(s: string, i: nat)
    requires i < |s| && s[i] == '}'
    ensures Body(s, i) == Done([], i) && ManyNewlines(s, i) == i
  {
    assert KeyValue(s, i) == Backtrack by {
      assert Str(s, i) == Backtrack;
    }
    CloseBraceNoNewline(s, i);
  }

  /** A closing brace starts no line break. */
  lemma CloseBraceNoNewline(s: string, i: nat)
    requires i < |s| && s[i] == '}'
    ensures WhitespaceNewline(s, i).None?
  {
    assert Space0(s, i) == i;
    assert Comment(s, i).None?;
    assert !StartsWith(s, i, "\n") && !StartsWith(s, i, "\r\n") by {
      if i + 1 <= |s| {
        assert s[i..i + 1][0] == s[i];
      }
      if i + 2 <= |s| {
        assert s[i..i + 2][0] == s[i];
      }
    }
  }

  /** `\n{\n}` after a key: a block with no entries. */
  lemma EmptyBraces(s: string, i: nat)
    requires 0 < i && i + 4 <= |s| && s[i] == '\n' && s[i + 1] == '{' && s[i + 2] == '\n' && s[i + 3] == '}'
    ensures Braces(s, i) == Done([], i + 4)
  {
    LineFeedAt(s, i);
    LineFeedAt(s, i + 2);
    CloseBraceStops(s, i + 3);
  }

  /**
   * A block is tried first: followed by a block, `k [m]` is a tagged
   * block, although on its own it reads as a scalar (`TagLikeScalar`).
   */
  lemma BlockBeforeScalar()
    ensures KeyValue("k [m]\n{\n}", 0) == Done(Entry("k", Map([]), Some("m")), 9)
  {
    var s := "k [m]\n{\n}";
    TaggedBlockHead();
    EmptyBraces(s, 5);
  }

  /** The key and tag of `k [m]`, read from the start of a longer text. */
  lemma TaggedBlockHead()
    ensures var s := "k [m]\n{\n}";
            Str(s, 0) == Done("k", 1) && OptMacro(s, 1) == (Some("m"), 5)
  {
    var s := "k [m]\n{\n}";
    assert Unquoted(s, 0) == Some(1);
    assert s[0..1] == "k";
    assert Space1(s, 1) == Some(2);
    assert MacroEnd(s, 3) == 4;
    assert s[3..4] == "m";
    assert ParseMacro(s, 2) == Done("m", 5);
  }

  /** A block's key and its `{` cannot share a line. */
  lemma BraceOnKeyLineRejected()
    ensures KeyValue("\"k\" {\n}", 0) == Backtrack
  {
    var s := "\"k\" {\n}";
    assert EscapedEnd(s, 1, 2) == Some(2);
    assert EscapedEnd(s, 1, 1) == Some(2);
    assert s[1..2] == "k";
    assert Quoted(s, 0) == Done("k", 3);
    assert Str(s, 0) == Done("k", 3);
    assert Space0(s, 4) == 4;
    assert Space1(s, 3) == Some(4);
    assert ParseMacro(s, 4) == Backtrack;
    assert WhitespaceNewline(s, 3) == None;
    assert KeyValueMap(s, 0) == Backtrack;
    assert Quoted(s, 4) == Backtrack;
    assert Unquoted(s, 4) == None;
    assert Str(s, 4) == Backtrack;
  }

  /** Exactly one line break may separate a block's key from its `{`: a blank line is rejected. */
  lemma BlankLineBeforeBraceRejected()
    ensures KeyValue("k\n\n{\n}", 0) == Backtrack
  {
    var s := "k\n\n{\n}";
    assert Unquoted(s, 0) == Some(1);
    assert s[0..1] == "k";
    assert Str(s, 0) == Done("k", 1);
    assert Space1(s, 1) == None;
    assert OptMacro(s, 1) == (None, 1);
    assert WhitespaceNewline(s, 1) == Some(2);
    assert KeyValueMap(s, 0) == Backtrack;
  }
}
