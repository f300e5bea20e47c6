/**
 * The SteamLanguage grammar of the build script: imports and `enum`
 * definitions only. Decimal values are read into an `i32`, `=` may be
 * surrounded by any whitespace including line breaks, `;` must follow the
 * value at once, and quoted texts are drawn from a restricted character
 * set. The cursor style is the one of `LangParser`, whose `identifier`,
 * `hex` and `parse_ref` productions this grammar shares.
 */
module LangBuildParser {
  import opened Wrappers
  import opened Text
  import opened Nom
  import LP = LangParser

  const I32Min: int := -0x8000_0000
  const I32Max: int := 0x7FFF_FFFF

  /** `EnumValue`. `Expression` is declared but no production makes one. */
  datatype EnumValue = Number(n: int) | Hex(digits: string) | Expression(text: string)

  datatype EnumVariant = EnumVariant(
    name: string,
    removed: bool,
    obsolete: bool,
    reason: Option<string>,
    comment: Option<string>,
    value: EnumValue)

  datatype Enum = Enum(name: string, generic: Option<string>, flags: bool, variants: seq<EnumVariant>)

  datatype DocumentEntry = Import(file: string) | EnumEntry(enum_: Enum)

  datatype Document = Document(entries: seq<DocumentEntry>)

  /** The apostrophe, U+0027. */
  const Apostrophe: char := 39 as char

  /** The character set of this grammar's `comment`. */
  predicate IsCommentChar(c: char) {
    c == '#' || c == '+' || c == '-' || c == '.' || c == '!' || c == ';' || c == ':' || c == Apostrophe ||
    c == '/' || c == '\\' || c == '@' || c == '_' || IsAlphanumeric(c) || c == '\t' || c == ' '
  }

  predicate AllCommentChars(t: string) { forall k :: 0 <= k < |t| ==> IsCommentChar(t[k]) }

  /** A value the grammar can produce: an `i32`, or hex digits. */
  predicate ValueOk(v: EnumValue) {
    match v
    case Number(n) => I32Min <= n <= I32Max
    case Hex(h) => |h| > 0 && forall k :: 0 <= k < |h| ==> IsHexDigit(h[k])
    case Expression(_) => false
  }

  predicate AllValuesOk(vs: seq<EnumVariant>) { forall k :: 0 <= k < |vs| ==> ValueOk(vs[k].value) }

  lemma AllValuesOkCons(v: EnumVariant, vs: seq<EnumVariant>)
    requires ValueOk(v.value) && AllValuesOk(vs)
    ensures AllValuesOk([v] + vs)
  {
    assert forall k :: 1 <= k < |vs| + 1 ==> ([v] + vs)[k] == vs[k - 1];
  }

  /** `comment`: one or more characters of the comment set. */
  function CommentAt(s: string, i: nat): (r: Option<nat>)
    requires i <= |s|
    ensures r.Some? <==> i < |s| && IsCommentChar(s[i])
    ensures r.Some? ==>
          var j := r.value;
          i < j <= |s| && AllCommentChars(s[i..j]) &&
          (j == |s| || !IsCommentChar(s[j]))
  {
    var r := Span1(s, i, IsCommentChar);
    if r.Some? then
      assert forall k :: 0 <= k < r.value - i ==> s[i..r.value][k] == s[i + k];
      r
    else r
  }

  /** `delimited(tag("\""), comment, tag("\""))`. */
  function QuotedAt(s: string, i: nat): (r: Option<LP.Parsed<string>>)
    requires i <= |s|
    ensures r.Some? ==>
          var e := r.value.pos;
          i + 2 < e <= |s| && s[i] == '"' && s[e - 1] == '"' &&
          r.value.value == s[i + 1..e - 1] &&
          |r.value.value| > 0 && AllCommentChars(r.value.value)
    ensures r.Some? <==> i < |s| && s[i] == '"' && CommentAt(s, i + 1).Some? && Char(s, CommentAt(s, i + 1).value, '"').Some?
  {
    match Char(s, i, '"')
    case None => None
    case Some(a) =>
      match CommentAt(s, a)
      case None => None
      case Some(b) =>
        match Char(s, b, '"')
        case None => None
        case Some(c) => Some(LP.Parsed(s[a..b], c))
  }

  /**
   * `generic`: `<`, then `identifier` or `parse_ref`, then `>`. Because
   * `identifier` is tried first and succeeds on every input `parse_ref`
   * accepts, a generic is always a plain identifier.
   */
  function GenericAt(s: string, i: nat): (r: Option<LP.Parsed<string>>)
    requires i <= |s|
    ensures r.Some? <==> i < |s| && s[i] == '<' && LP.IdentifierAt(s, i + 1).Some? &&
                         Char(s, LP.IdentifierAt(s, i + 1).value, '>').Some?
    ensures r.Some? ==> i < r.value.pos <= |s| && |r.value.value| > 0 && LP.AllIdentChars(r.value.value)
    ensures r.Some? ==> var b := LP.IdentifierAt(s, i + 1).value;
                        r.value.value == s[i + 1..b] && r.value.pos == b + 1
  {
    match Char(s, i, '<')
    case None => None
    case Some(a) =>
      var inner := if LP.IdentifierAt(s, a).Some? then LP.IdentifierAt(s, a) else LP.ParseRefAt(s, a);
      match inner
      case None => None
      case Some(b) =>
        match Char(s, b, '>')
        case None => None
        case Some(c) => Some(LP.Parsed(s[a..b], c))
  }

  /**
   * `enum_variant_value`: hex first, then an optionally negative run of
   * digits parsed as an `i32`; a number out of range is an error.
   */
  function ValueAt(s: string, i: nat): (r: Option<LP.Parsed<EnumValue>>)
    requires i <= |s|
    ensures r.Some? ==> i < r.value.pos <= |s| && ValueOk(r.value.value)
    ensures LP.HexAt(s, i).Some? ==> r.Some? && r.value.value.Hex?
    ensures r.Some? && r.value.value.Number? ==>
              var e := r.value.pos;
              LP.HexAt(s, i).None? && LP.NumberAt(s, i) == Some(e) &&
              ParseSigned(s[i..e], I32Min, I32Max) == Some(r.value.value.n)
  {
    match LP.HexAt(s, i)
    case Some(h) => Some(LP.Parsed(Hex(h.value), h.pos))
    case None =>
      match LP.NumberAt(s, i)
      case None => None
      case Some(e) =>
        match ParseSigned(s[i..e], I32Min, I32Max)
        case None => None
        case Some(n) => Some(LP.Parsed(Number(n), e))
  }

  /**
   * The position after an optional full-line comment: whitespace, `//`,
   * comment characters and a `\n`. The comment is dropped.
   */
  function LeadingCommentEnd(s: string, i: nat): (j: nat)
    requires i <= |s|
    ensures i <= j <= |s|
    ensures j > i <==> var a := Multispace0(s, i);
                       StartsWith(s, a, "//") && CommentAt(s, a + 2).Some? && Char(s, CommentAt(s, a + 2).value, '\n').Some?
    ensures j > i ==> j == CommentAt(s, Multispace0(s, i) + 2).value + 1 && s[j - 1] == '\n'
  {
    match Tag(s, Multispace0(s, i), "//")
    case None => i
    case Some(b) =>
      match CommentAt(s, b)
      case None => i
      case Some(c) =>
        match Char(s, c, '\n')
        case None => i
        case Some(d) => d
  }

  /** `=` with at least one whitespace character, line breaks included, on each side. */
  predicate EqualsAt(s: string, b: nat)
    requires b <= |s|
  {
    var q := Multispace0(s, b);
    b < q && q + 1 < |s| && s[q] == '=' && IsMultispace(s[q + 1])
  }

  /**
   * The start of `enum_variant`: an optional full-line comment, any
   * whitespace, the name, then `=` with at least one whitespace character
   * (line breaks included) on each side. The value is the name.
   */
  function VariantNameAt(s: string, i: nat): (r: Option<LP.Parsed<string>>)
    requires i <= |s|
    ensures r.Some? ==> i < r.value.pos <= |s| && |r.value.value| > 0 && LP.AllIdentChars(r.value.value)
    ensures r.Some? <==> var a := Multispace0(s, LeadingCommentEnd(s, i));
                         LP.IdentifierAt(s, a).Some? && EqualsAt(s, LP.IdentifierAt(s, a).value)
    ensures r.Some? ==> var a := Multispace0(s, LeadingCommentEnd(s, i));
                        var b := LP.IdentifierAt(s, a).value;
                        r.value.value == s[a..b] && r.value.pos == Multispace0(s, Multispace0(s, b) + 1)
  {
    var a := Multispace0(s, LeadingCommentEnd(s, i));
    match LP.IdentifierAt(s, a)
    case None => None
    case Some(b) =>
      match Multispace1(s, b)
      case None => None
      case Some(c) =>
        match Char(s, c, '=')
        case None => None
        case Some(d) =>
          match Multispace1(s, d)
          case None => None
          case Some(e) => Some(LP.Parsed(s[a..b], e))
  }

  /**
   * The optional status: whitespace (line breaks included), `removed` or
   * `obsolete`, then optionally whitespace and a quoted reason.
   */
  function StatusAt(s: string, i: nat): (r: LP.Parsed<(string, Option<string>)>)
    requires i <= |s|
    ensures i <= r.pos <= |s|
    ensures r.value.0 == "" || r.value.0 == "removed" || r.value.0 == "obsolete"
    ensures r.value.0 == "" ==> r.pos == i && r.value.1.None?
    ensures r.value.0 == "removed" <==> Multispace1(s, i).Some? && StartsWith(s, Multispace1(s, i).value, "removed")
    ensures r.value.0 == "obsolete" <==> Multispace1(s, i).Some? && !StartsWith(s, Multispace1(s, i).value, "removed") &&
                                         StartsWith(s, Multispace1(s, i).value, "obsolete")
    ensures r.value.1.Some? ==> |r.value.1.value| > 0 && AllCommentChars(r.value.1.value)
  {
    match Multispace1(s, i)
    case None => LP.Parsed(("", None), i)
    case Some(a) =>
      var kw := KeywordAt(s, a);
      if kw == "" then LP.Parsed(("", None), i) else ReasonAfter(s, kw, a + |kw|)
  }

  /** `removed` is tried before `obsolete`; neither gives the empty text. */
  function KeywordAt(s: string, a: nat): (kw: string)
    requires a <= |s|
    ensures kw == "removed" <==> StartsWith(s, a, "removed")
    ensures kw == "obsolete" <==> !StartsWith(s, a, "removed") && StartsWith(s, a, "obsolete")
    ensures kw == "" <==> !StartsWith(s, a, "removed") && !StartsWith(s, a, "obsolete")
    ensures kw != "" ==> StartsWith(s, a, kw)
  {
    if StartsWith(s, a, "removed") then "removed" else if StartsWith(s, a, "obsolete") then "obsolete" else ""
  }

  /** The optional reason after the keyword `kw`, which ends at `b`: whitespace, then a quoted text. */
  function ReasonAfter(s: string, kw: string, b: nat): (r: LP.Parsed<(string, Option<string>)>)
    requires b <= |s|
    ensures r.value.0 == kw && b <= r.pos <= |s|
    ensures r.value.1.None? ==> r.pos == b
    ensures r.value.1.Some? <==> Multispace1(s, b).Some? && QuotedAt(s, Multispace1(s, b).value).Some?
    ensures r.value.1.Some? ==> var q := QuotedAt(s, Multispace1(s, b).value).value;
              r.value.1.value == q.value && r.pos == q.pos && |q.value| > 0 && AllCommentChars(q.value)
  {
    match Multispace1(s, b)
    case None => LP.Parsed((kw, None), b)
    case Some(c) =>
      match QuotedAt(s, c)
      case None => LP.Parsed((kw, None), b)
      case Some(q) => LP.Parsed((kw, Some(q.value)), q.pos)
  }

  /**
   * The optional inline comment: whitespace (line breaks included), `//`,
   * whitespace, then the rest of the line as it is, untrimmed.
   */
  function InlineCommentAt(s: string, i: nat): (r: Option<LP.Parsed<string>>)
    requires i <= |s|
    ensures r.Some? <==> StartsWith(s, Multispace0(s, i), "//") &&
                         NotLineEnding(s, Multispace0(s, Multispace0(s, i) + 2)).Some?
    ensures r.Some? ==> i < r.value.pos <= |s| && forall k :: 0 <= k < |r.value.value| ==> r.value.value[k] != '\n'
    ensures r.Some? ==> var c := Multispace0(s, Multispace0(s, i) + 2);
                        var e := r.value.pos;
                        NotLineEnding(s, c) == Some(e) && c <= e && r.value.value == s[c..e]
  {
    match Tag(s, Multispace0(s, i), "//")
    case None => None
    case Some(b) =>
      var c := Multispace0(s, b);
      match NotLineEnding(s, c)
      case None => None
      case Some(e) =>
        assert forall k :: 0 <= k < e - c ==> s[c..e][k] == s[c + k] && NotLineBreak(s[c + k]);
        Some(LP.Parsed(s[c..e], e))
  }

  /** The end of `enum_variant` after `;`: the status, the inline comment, then any whitespace. */
  function VariantTrailerAt(s: string, i: nat): (r: LP.Parsed<LP.Trailer>)
    requires i <= |s|
    ensures i <= r.pos <= |s|
    ensures r.value.status == StatusAt(s, i).value.0 && r.value.reason == StatusAt(s, i).value.1
    ensures r.value.comment.Some? <==> InlineCommentAt(s, StatusAt(s, i).pos).Some?
    ensures r.value.comment.Some? ==> r.value.comment.value == InlineCommentAt(s, StatusAt(s, i).pos).value.value
  {
    var st := StatusAt(s, i);
    var cm := InlineCommentAt(s, st.pos);
    var e := if cm.Some? then cm.value.pos else st.pos;
    LP.Parsed(LP.Trailer(st.value.0, st.value.1, if cm.Some? then Some(cm.value.value) else None), Multispace0(s, e))
  }

  /**
   * `enum_variant`: the name and `=`, the value, `;` right after it, then
   * the trailer. Exactly the keyword found sets `removed` or `obsolete`.
   */
  function EnumVariantAt(s: string, i: nat): (r: Option<LP.Parsed<EnumVariant>>)
    requires i <= |s|
    ensures r.Some? ==> i < r.value.pos <= |s|
    ensures r.Some? ==> var v := r.value.value;
                        !(v.removed && v.obsolete) && (v.reason.Some? ==> v.removed || v.obsolete) &&
                        |v.name| > 0 && LP.AllIdentChars(v.name) && ValueOk(v.value)
  {
    match VariantNameAt(s, i)
    case None => None
    case Some(nm) =>
      match ValueAt(s, nm.pos)
      case None => None
      case Some(v) =>
        match Char(s, v.pos, ';')
        case None => None
        case Some(k) =>
          var tr := VariantTrailerAt(s, k);
          Some(LP.Parsed(EnumVariant(nm.value, tr.value.status == "removed", tr.value.status == "obsolete",
                                     tr.value.reason, tr.value.comment, v.value), tr.pos))
  }

  /** A variant is read exactly when a name with its `=`, a value and `;` follow each other. */
  lemma EnumVariantRead(s: string, i: nat)
    requires i <= |s|
    ensures EnumVariantAt(s, i).Some? <==>
          VariantNameAt(s, i).Some? &&
          var p := VariantNameAt(s, i).value.pos;
          ValueAt(s, p).Some? && Char(s, ValueAt(s, p).value.pos, ';').Some?
  {
  }

  /**
   * The variant read from a name, a value, `;` and a trailer: the
   * trailer's keyword sets `removed` or `obsolete`, its reason and comment
   * are kept, and reading goes on where the trailer ends.
   */
  lemma EnumVariantFields(s: string, i: nat, nm: LP.Parsed<string>, v: LP.Parsed<EnumValue>, k: nat, tr: LP.Parsed<LP.Trailer>)
    requires i <= |s| && VariantNameAt(s, i) == Some(nm) && nm.pos <= |s| && ValueAt(s, nm.pos) == Some(v)
    requires v.pos <= |s| && Char(s, v.pos, ';') == Some(k) && k <= |s| && VariantTrailerAt(s, k) == tr
    ensures EnumVariantAt(s, i).Some?
    ensures var w := EnumVariantAt(s, i).value;
            w.value.name == nm.value && w.value.value == v.value &&
            (w.value.removed <==> tr.value.status == "removed") && (w.value.obsolete <==> tr.value.status == "obsolete") &&
            w.value.reason == tr.value.reason && w.value.comment == tr.value.comment && w.pos == tr.pos
  {
    assert EnumVariantAt(s, i) == Some(LP.Parsed(EnumVariant(nm.value, tr.value.status == "removed", tr.value.status == "obsolete",
                                                             tr.value.reason, tr.value.comment, v.value), tr.pos));
  }

  /** `vs` are the variants read one after the other from `i`, the last one ending at `e`. */
  predicate VariantsRead(s: string, i: nat, vs: seq<EnumVariant>, e: nat)
    requires i <= |s|
    decreases |vs|
  {
    if vs == [] then e == i
    else EnumVariantAt(s, i).Some? && EnumVariantAt(s, i).value.value == vs[0] &&
         VariantsRead(s, EnumVariantAt(s, i).value.pos, vs[1..], e)
  }

  /** `many0(enum_variant)`: variants until the first one that does not parse. */
  function EnumVariantsAt(s: string, i: nat): (r: LP.Parsed<seq<EnumVariant>>)
    requires i <= |s|
    ensures i <= r.pos <= |s| && EnumVariantAt(s, r.pos).None?
    ensures VariantsRead(s, i, r.value, r.pos)
    ensures AllValuesOk(r.value)
    decreases |s| - i
  {
    match EnumVariantAt(s, i)
    case None => LP.Parsed([], i)
    case Some(p) =>
      var rest := EnumVariantsAt(s, p.pos);
      AllValuesOkCons(p.value, rest.value);
      LP.Parsed([p.value] + rest.value, rest.pos)
  }

  /** `opt(preceded(multispace1, tuple((tag("flag"), opt(tag("s"))))))`. */
  function FlagsAt(s: string, i: nat): (r: Option<nat>)
    requires i <= |s|
    ensures r.Some? <==> Multispace1(s, i).Some? && StartsWith(s, Multispace1(s, i).value, "flag")
    ensures r.Some? ==> i < r.value <= |s|
  {
    match Multispace1(s, i)
    case None => None
    case Some(a) =>
      match Tag(s, a, "flag")
      case None => None
      case Some(b) =>
        match Tag(s, b, "s")
        case None => Some(b)
        case Some(c) => Some(c)
  }

  /** The header of `parse_enum`: whitespace, `enum`, whitespace, the name, and a generic right after it. */
  function EnumHeadAt(s: string, i: nat): (r: Option<LP.Parsed<(string, Option<string>)>>)
    requires i <= |s|
    ensures r.Some? ==> i < r.value.pos <= |s| && |r.value.value.0| > 0 && LP.AllIdentChars(r.value.value.0)
    ensures r.Some? && r.value.value.1.Some? ==> |r.value.value.1.value| > 0 && LP.AllIdentChars(r.value.value.1.value)
  {
    match Tag(s, Multispace0(s, i), "enum")
    case None => None
    case Some(a) =>
      match Multispace1(s, a)
      case None => None
      case Some(b) =>
        match LP.IdentifierAt(s, b)
        case None => None
        case Some(c) =>
          match GenericAt(s, c)
          case None => Some(LP.Parsed((s[b..c], None), c))
          case Some(g) => Some(LP.Parsed((s[b..c], Some(g.value)), g.pos))
  }

  /** Where the variants of an enum start: after the head, the optional marker, whitespace and `{`. */
  function OpenAt(s: string, f: nat): (r: Option<nat>)
    requires f <= |s|
    ensures r.Some? <==> Multispace1(s, f).Some? && Char(s, Multispace1(s, f).value, '{').Some?
    ensures r.Some? ==> r.value == Multispace0(s, f) + 1 <= |s| && s[r.value - 1] == '{'
  {
    match Multispace1(s, f)
    case None => None
    case Some(h) => Char(s, h, '{')
  }

  /**
   * A head is read exactly when whitespace, `enum`, whitespace and an
   * identifier follow; the name is that identifier, and the generic is the
   * one right after it, if any.
   */
  lemma EnumHeadRead(s: string, i: nat)
    requires i <= |s|
    ensures EnumHeadAt(s, i).Some? <==> var a := Multispace0(s, i);
          StartsWith(s, a, "enum") && Multispace1(s, a + 4).Some? && LP.IdentifierAt(s, Multispace1(s, a + 4).value).Some?
    ensures EnumHeadAt(s, i).Some? ==>
          var b := Multispace1(s, Multispace0(s, i) + 4).value;
          var c := LP.IdentifierAt(s, b).value;
          var h := EnumHeadAt(s, i).value.value;
          h.0 == s[b..c] && (h.1.Some? <==> GenericAt(s, c).Some?) && (h.1.Some? ==> h.1.value == GenericAt(s, c).value.value)
  {
    var a := Multispace0(s, i);
    if StartsWith(s, a, "enum") {
      assert Tag(s, a, "enum") == Some(a + 4);
      if Multispace1(s, a + 4).Some? {
        var b := Multispace1(s, a + 4).value;
        if LP.IdentifierAt(s, b).Some? {
          var c := LP.IdentifierAt(s, b).value;
          if GenericAt(s, c).Some? {
            var g := GenericAt(s, c).value;
            assert EnumHeadAt(s, i) == Some(LP.Parsed((s[b..c], Some(g.value)), g.pos));
          } else {
            assert EnumHeadAt(s, i) == Some(LP.Parsed((s[b..c], None), c));
          }
        } else {
          assert EnumHeadAt(s, i).None?;
        }
      } else {
        assert EnumHeadAt(s, i).None?;
      }
    } else {
      assert Tag(s, a, "enum").None?;
      assert EnumHeadAt(s, i).None?;
    }
  }

  /** `}` right where the variants end, then an optional `;`. */
  function CloseAt(s: string, j: nat): (r: Option<nat>)
    requires j <= |s|
    ensures r.Some? <==> j < |s| && s[j] == '}'
    ensures r.Some? ==> r.value == j + (if StartsWith(s, j + 1, ";") then 2 else 1) <= |s|
  {
    match Char(s, j, '}')
    case None => None
    case Some(c) => Some(Tag(s, c, ";").UnwrapOr(c))
  }

  /**
   * `parse_enum`: the header, an optional `flag`/`flags` marker, at least
   * one whitespace character, then the variants between `{` and `}` with
   * an optional `;`. Nothing but the last variant's trailing whitespace
   * may come before `}`.
   */
  function EnumAt(s: string, i: nat): (r: Option<LP.Parsed<Enum>>)
    requires i <= |s|
    ensures r.Some? ==> i < r.value.pos <= |s|
    ensures r.Some? ==> var h := EnumHeadAt(s, i);
                        h.Some? && r.value.value.name == h.value.value.0 && r.value.value.generic == h.value.value.1 &&
                        (r.value.value.flags <==> FlagsAt(s, h.value.pos).Some?)
    ensures r.Some? ==> AllValuesOk(r.value.value.variants)
  {
    match EnumHeadAt(s, i)
    case None => None
    case Some(hd) =>
      var fl := FlagsAt(s, hd.pos);
      match BodyAt(s, fl.UnwrapOr(hd.pos))
      case None => None
      case Some(b) => Some(LP.Parsed(Enum(hd.value.0, hd.value.1, fl.Some?, b.value), b.pos))
  }

  /** The variants of an enum between `{` and `}`, and where reading goes on after the optional `;` and whitespace. */
  function BodyAt(s: string, f: nat): (r: Option<LP.Parsed<seq<EnumVariant>>>)
    requires f <= |s|
    ensures r.Some? ==> f < r.value.pos <= |s| && AllValuesOk(r.value.value)
  {
    match OpenAt(s, f)
    case None => None
    case Some(o) =>
      var vs := EnumVariantsAt(s, o);
      match CloseAt(s, vs.pos)
      case None => None
      case Some(e) => Some(LP.Parsed(vs.value, Multispace0(s, e)))
  }

  /** A body is read exactly when `{`, the variants and `}` follow each other; it holds exactly the variants read. */
  lemma BodyRead(s: string, f: nat)
    requires f <= |s|
    ensures BodyAt(s, f).Some? <==>
          OpenAt(s, f).Some? && CloseAt(s, EnumVariantsAt(s, OpenAt(s, f).value).pos).Some?
    ensures BodyAt(s, f).Some? ==>
          var vs := EnumVariantsAt(s, OpenAt(s, f).value);
          BodyAt(s, f).value == LP.Parsed(vs.value, Multispace0(s, CloseAt(s, vs.pos).value))
  {
    match OpenAt(s, f)
    case None =>
      assert BodyAt(s, f).None?;
    case Some(o) =>
      var vs := EnumVariantsAt(s, o);
      match CloseAt(s, vs.pos)
      case None =>
        assert BodyAt(s, f).None?;
      case Some(e) =>
        assert BodyAt(s, f) == Some(LP.Parsed(vs.value, Multispace0(s, e)));
  }

  /**
   * An enum is read exactly when its head, whitespace, `{`, the variants
   * and `}` follow each other; it holds exactly the variants read, and
   * reading goes on after an optional `;` and whitespace.
   */
  lemma EnumRead(s: string, i: nat)
    requires i <= |s|
    ensures EnumAt(s, i).Some? <==>
          EnumHeadAt(s, i).Some? &&
          var h := EnumHeadAt(s, i).value;
          var o := OpenAt(s, FlagsAt(s, h.pos).UnwrapOr(h.pos));
          o.Some? && CloseAt(s, EnumVariantsAt(s, o.value).pos).Some?
    ensures EnumAt(s, i).Some? ==>
          var h := EnumHeadAt(s, i).value;
          var vs := EnumVariantsAt(s, OpenAt(s, FlagsAt(s, h.pos).UnwrapOr(h.pos)).value);
          EnumAt(s, i).value.value.variants == vs.value && EnumAt(s, i).value.pos == Multispace0(s, CloseAt(s, vs.pos).value)
  {
    match EnumHeadAt(s, i)
    case None =>
      assert EnumAt(s, i).None?;
    case Some(h) =>
      var f := FlagsAt(s, h.pos).UnwrapOr(h.pos);
      BodyRead(s, f);
      match BodyAt(s, f)
      case None =>
        assert EnumAt(s, i).None?;
      case Some(b) =>
        assert EnumAt(s, i) == Some(LP.Parsed(Enum(h.value.0, h.value.1, FlagsAt(s, h.pos).Some?, b.value), b.pos));
  }

  /** `import`: `#import` and a quoted file name, with whitespace around. */
  function ImportAt(s: string, i: nat): (r: Option<LP.Parsed<string>>)
    requires i <= |s|
    ensures r.Some? ==> i < r.value.pos <= |s| && StartsWith(s, Multispace0(s, i), "#import") &&
                        |r.value.value| > 0 && AllCommentChars(r.value.value)
    ensures r.Some? <==> StartsWith(s, Multispace0(s, i), "#import") && QuotedAt(s, Multispace0(s, Multispace0(s, i) + 7)).Some?
    ensures r.Some? ==> var q := QuotedAt(s, Multispace0(s, Multispace0(s, i) + 7)).value;
                        r.value.value == q.value && r.value.pos == Multispace0(s, q.pos)
  {
    match Tag(s, Multispace0(s, i), "#import")
    case None => None
    case Some(a) =>
      match QuotedAt(s, Multispace0(s, a))
      case None => None
      case Some(q) => Some(LP.Parsed(q.value, Multispace0(s, q.pos)))
  }

  /** An enum whose generic is a plain identifier and whose values the grammar can produce. */
  predicate EnumOk(e: Enum) {
    (e.generic.Some? ==> |e.generic.value| > 0 && LP.AllIdentChars(e.generic.value)) &&
    AllValuesOk(e.variants)
  }

  predicate EntriesOk(es: seq<DocumentEntry>) {
    forall k :: 0 <= k < |es| && es[k].EnumEntry? ==> EnumOk(es[k].enum_)
  }

  lemma EntriesOkCons(x: DocumentEntry, es: seq<DocumentEntry>)
    requires (x.EnumEntry? ==> EnumOk(x.enum_)) && EntriesOk(es)
    ensures EntriesOk([x] + es)
  {
    assert forall k :: 1 <= k < |es| + 1 ==> ([x] + es)[k] == es[k - 1];
  }

  /** One document item: whitespace, then an import or an enum, tried in that order. */
  function ItemAt(s: string, i: nat): (r: Option<LP.Parsed<DocumentEntry>>)
    requires i <= |s|
    ensures r.Some? ==> i < r.value.pos <= |s|
    ensures r.Some? && r.value.value.EnumEntry? ==> ImportAt(s, Multispace0(s, i)).None? && EnumOk(r.value.value.enum_)
    ensures r.None? <==> ImportAt(s, Multispace0(s, i)).None? && EnumAt(s, Multispace0(s, i)).None?
    ensures var f := ImportAt(s, Multispace0(s, i));
            f.Some? ==> r == Some(LP.Parsed(Import(f.value.value), f.value.pos))
    ensures var f, e := ImportAt(s, Multispace0(s, i)), EnumAt(s, Multispace0(s, i));
            f.None? && e.Some? ==> r == Some(LP.Parsed(EnumEntry(e.value.value), e.value.pos))
  {
    var a := Multispace0(s, i);
    match ImportAt(s, a)
    case Some(f) => Some(LP.Parsed(Import(f.value), f.pos))
    case None =>
      match EnumAt(s, a)
      case Some(e) => Some(LP.Parsed(EnumEntry(e.value), e.pos))
      case None => None
  }

  /** `es` are the items read one after the other from `i`, the last one ending at `e`. */
  predicate ItemsRead(s: string, i: nat, es: seq<DocumentEntry>, e: nat)
    requires i <= |s|
    decreases |es|
  {
    if es == [] then e == i
    else ItemAt(s, i).Some? && ItemAt(s, i).value.value == es[0] &&
         ItemsRead(s, ItemAt(s, i).value.pos, es[1..], e)
  }

  /**
   * `document`: items until the first one that does not parse. It never
   * fails; every enum in it has an identifier generic, if any, and only
   * `i32` or hex values.
   */
  function DocumentAt(s: string, i: nat): (r: LP.Parsed<Document>)
    requires i <= |s|
    ensures i <= r.pos <= |s|
    ensures ItemAt(s, r.pos).None?
    ensures r.value.entries == [] <==> ItemAt(s, i).None?
    ensures EntriesOk(r.value.entries)
    ensures ItemsRead(s, i, r.value.entries, r.pos)
    decreases |s| - i
  {
    match ItemAt(s, i)
    case None => LP.Parsed(Document([]), i)
    case Some(p) =>
      var rest := DocumentAt(s, p.pos);
      EntriesOkCons(p.value, rest.value.entries);
      LP.Parsed(Document([p.value] + rest.value.entries), rest.pos)
  }

  /* ---- What the grammar accepts ---- */

  /** Every text `parse_ref` accepts after `<` is rejected as a generic: `identifier` has already matched its first part. */
  lemma GenericRejectsPath(s: string, i: nat)
    requires i < |s| && s[i] == '<' && LP.ParseRefAt(s, i + 1).Some?
    ensures GenericAt(s, i).None?
  {
    var j := LP.IdentifierAt(s, i + 1).value;
    assert s[j] == ':' || s[j] == '.' by {
      if StartsWith(s, j, "::") { assert s[j..j + 2][0] == ':'; } else { assert s[j..j + 1][0] == '.'; }
    }
  }

  lemma NumberValueSteps(s: string, i: nat, e: nat, n: int)
    requires i <= e <= |s| && LP.HexAt(s, i).None? && LP.NumberAt(s, i) == Some(e)
    requires ParseSigned(s[i..e], I32Min, I32Max) == Some(n)
    ensures ValueAt(s, i) == Some(LP.Parsed(Number(n), e))
  {
  }

  /** The rendering of any `i32`, followed by `;`, is read back as that number. */
  lemma NumberValueOn(s: string, i: nat, n: int, e: nat)
    requires I32Min <= n <= I32Max
    requires i <= |s| && StartsWith(s, i, IntToString(n)) && e == i + |IntToString(n)| && e < |s| && s[e] == ';'
    ensures ValueAt(s, i) == Some(LP.Parsed(Number(n), e))
  {
    var t := IntToString(n);
    if n < 0 {
      assert |t| > 1 && t[1..] == NatToString(-n);
    }
    LP.NumberOn(s, i, t);
    assert s[i..e] == t;
    ParseSignedOfIntToString(n, I32Min, I32Max);
    NumberValueSteps(s, i, e, n);
  }

  /** A decimal above `i32::MAX`, followed by `;`, is not a value at all. */
  lemma OutOfRangeRejected(s: string, i: nat, t: string)
    requires |t| > 0 && AllDigits(t) && DigitsValue(t) > I32Max
    requires i <= |s| && StartsWith(s, i, t) && i + |t| < |s| && s[i + |t|] == ';'
    ensures ValueAt(s, i).None?
  {
    assert IsDigit(t[0]);
    LP.NumberOn(s, i, t);
    assert s[i..i + |t|] == t;
    TooLargeUnparsed(t);
    ValueRejectedSteps(s, i, i + |t|);
  }

  lemma TooLargeUnparsed(t: string)
    requires |t| > 0 && AllDigits(t) && DigitsValue(t) > I32Max
    ensures ParseSigned(t, I32Min, I32Max).None?
  {
    assert IsDigit(t[0]);
  }

  lemma ValueRejectedSteps(s: string, i: nat, e: nat)
    requires i <= e <= |s| && LP.HexAt(s, i).None? && LP.NumberAt(s, i) == Some(e)
    requires ParseSigned(s[i..e], I32Min, I32Max).None?
    ensures ValueAt(s, i).None?
  {
  }

  /** `;` must follow the value at once: anything else there, a space included, rejects the variant. */
  lemma SemicolonRightAfterValue(s: string, i: nat, name: string, p: nat, value: EnumValue, j: nat)
    requires i <= |s| && VariantNameAt(s, i) == Some(LP.Parsed(name, p))
    requires p <= |s| && ValueAt(s, p) == Some(LP.Parsed(value, j)) && j < |s| && s[j] != ';'
    ensures EnumVariantAt(s, i).None?
  {
  }

  /** The status keyword may sit on the next line: whitespace before it includes line breaks. */
  lemma KeywordOnNextLine(s: string, i: nat)
    requires i < |s| && s[i] == '\n' && StartsWith(s, i + 1, "obsolete")
    ensures StatusAt(s, i).value.0 == "obsolete"
  {
    assert s[i + 1] == s[i + 1..i + 9][0] == 'o';
    Multispace0On(s, i, i + 1);
  }

  /* ---- Rendering a variant, and reading it back ---- */

  /** The text `enum_variant_value` reads for a value. */
  function ValueText(v: EnumValue): string {
    match v
    case Number(n) => IntToString(n)
    case Hex(h) => "0x" + h
    case Expression(t) => t
  }

  /** A variant in the form `NAME = value;[ removed|obsolete[ "reason"]]`. */
  function VariantText(v: EnumVariant): string {
    v.name + " = " + ValueText(v.value) + ";" + LP.StatusText(v.removed, v.obsolete, v.reason)
  }

  /** The variants `VariantText` renders faithfully: no inline comment, and a status the grammar can carry. */
  predicate Renderable(v: EnumVariant) {
    |v.name| > 0 && LP.AllIdentChars(v.name) && ValueOk(v.value) && v.comment.None? &&
    !(v.removed && v.obsolete) && (v.reason.Some? ==> (v.removed || v.obsolete)) &&
    (v.reason.Some? ==> |v.reason.value| > 0 && AllCommentChars(v.reason.value))
  }

  /**
   * What may follow a rendered variant without being read as part of it:
   * after any whitespace, the end of the input or a character that starts
   * neither a status keyword, a reason nor a comment.
   */
  predicate QuietAt(s: string, e: nat)
    requires e <= |s|
  {
    var m := Multispace0(s, e);
    m == |s| || (s[m] != '"' && s[m] != '/' && !StartsWith(s, m, "removed") && !StartsWith(s, m, "obsolete"))
  }

  /** Before an identifier character there is no whitespace and no full-line comment to skip. */
  lemma NothingBefore(s: string, i: nat)
    requires i < |s| && LP.IsIdentChar(s[i])
    ensures Multispace0(s, i) == i && LeadingCommentEnd(s, i) == i
  {
    assert Multispace0(s, i) == i;
    assert i + 2 <= |s| ==> s[i..i + 2][0] == s[i];
  }

  lemma VariantNameSteps(s: string, i: nat, b: nat, c: nat, d: nat, p: nat)
    requires i <= b <= |s| && LeadingCommentEnd(s, i) == i && Multispace0(s, i) == i && LP.IdentifierAt(s, i) == Some(b)
    requires Multispace1(s, b) == Some(c) && c <= |s| && Char(s, c, '=') == Some(d) && d <= |s| && Multispace1(s, d) == Some(p)
    ensures VariantNameAt(s, i) == Some(LP.Parsed(s[i..b], p))
  {
  }

  /**
   * A name with nothing before it, then one whitespace character, `=` and
   * one whitespace character (each may be a line break), then a value.
   */
  lemma VariantNameOn(s: string, i: nat, n: nat, p: nat)
    requires p == i + n + 3 && p < |s| && 0 < n
    requires forall k :: i <= k < i + n ==> LP.IsIdentChar(s[k])
    requires IsMultispace(s[i + n]) && s[i + n + 1] == '=' && IsMultispace(s[i + n + 2]) && !IsMultispace(s[p])
    ensures VariantNameAt(s, i) == Some(LP.Parsed(s[i..i + n], p))
  {
    NothingBefore(s, i);
    LP.IdentifierOn(s, i, i + n);
    Multispace0On(s, i + n, i + n + 1);
    Multispace0On(s, i + n + 2, p);
    VariantNameSteps(s, i, i + n, i + n + 1, i + n + 2, p);
  }

  /** A value the grammar can produce, followed by `;`, is read back as itself. */
  lemma ValueOn(s: string, i: nat, v: EnumValue, e: nat)
    requires ValueOk(v) && i <= |s| && StartsWith(s, i, ValueText(v) + ";") && e == i + |ValueText(v)|
    ensures e < |s| && s[e] == ';' && ValueAt(s, i) == Some(LP.Parsed(v, e))
  {
    var t := ValueText(v);
    assert s[i..e + 1] == t + ";";
    assert s[e] == (t + ";")[|t|];
    assert s[i..e] == s[i..e + 1][..|t|];
    match v
    case Hex(h) => LP.HexOn(s, i, h);
    case Number(n) => NumberValueOn(s, i, n, e);
  }

  /** `delimited(tag("\""), comment, tag("\""))` on a quoted text of comment characters. */
  lemma QuotedOn(s: string, i: nat, t: string, e: nat)
    requires |t| > 0 && AllCommentChars(t)
    requires i <= |s| && StartsWith(s, i, "\"" + t + "\"") && e == i + |t| + 2
    ensures QuotedAt(s, i) == Some(LP.Parsed(t, e))
  {
    var q := "\"" + t + "\"";
    var j := i + |t| + 1;
    assert s[i..j + 1] == q;
    assert forall k :: i <= k <= j ==> s[k] == q[k - i];
    SpanOn(s, i + 1, j, IsCommentChar);
    assert s[i + 1..j] == t;
  }

  /** One space, then `kw`: the space is the whole `multispace1`, and `kw` is told apart from the other keyword. */
  lemma KeywordOn(s: string, i: nat, kw: string)
    requires kw == "removed" || kw == "obsolete"
    requires i + 1 <= |s| && s[i] == ' ' && StartsWith(s, i + 1, kw)
    ensures Multispace1(s, i) == Some(i + 1)
    ensures StartsWith(s, i + 1, "removed") <==> kw == "removed"
  {
    assert s[i + 1] == s[i + 1..i + 1 + |kw|][0] == kw[0];
    Multispace0On(s, i, i + 1);
  }

  /** A quiet position holds no quoted reason after whitespace. */
  lemma NoReasonAt(s: string, b: nat)
    requires b <= |s| && QuietAt(s, b)
    ensures Multispace1(s, b).Some? ==> QuotedAt(s, Multispace1(s, b).value).None?
  {
  }

  /** The status after a keyword with nothing quoted after it. */
  lemma StatusNoReason(s: string, i: nat, kw: string, b: nat)
    requires kw == "removed" || kw == "obsolete"
    requires i < |s| && Multispace1(s, i) == Some(i + 1)
    requires (StartsWith(s, i + 1, "removed") <==> kw == "removed") && StartsWith(s, i + 1, kw)
    requires b == i + 1 + |kw| && b <= |s|
    requires Multispace1(s, b).Some? ==> QuotedAt(s, Multispace1(s, b).value).None?
    ensures StatusAt(s, i) == LP.Parsed((kw, None), b)
  {
    assert KeywordAt(s, i + 1) == kw;
    StatusViaKeyword(s, i, kw);
  }

  /** After one whitespace character and a keyword, the status is what follows the keyword. */
  lemma StatusViaKeyword(s: string, i: nat, kw: string)
    requires i < |s| && Multispace1(s, i) == Some(i + 1) && KeywordAt(s, i + 1) == kw && kw != ""
    ensures i + 1 + |kw| <= |s| && StatusAt(s, i) == ReasonAfter(s, kw, i + 1 + |kw|)
  {
  }

  /** Whitespace and a quoted text after the keyword give that text as the reason. */
  lemma ReasonAfterQuoted(s: string, kw: string, b: nat, c: nat, reason: string, e: nat)
    requires b <= |s| && Multispace1(s, b) == Some(c) && c <= |s| && QuotedAt(s, c) == Some(LP.Parsed(reason, e))
    ensures ReasonAfter(s, kw, b) == LP.Parsed((kw, Some(reason)), e)
  {
  }

  /** The status after a keyword followed by whitespace and a quoted reason. */
  lemma StatusWithReason(s: string, i: nat, kw: string, b: nat, c: nat, reason: string, e: nat)
    requires kw == "removed" || kw == "obsolete"
    requires i < |s| && Multispace1(s, i) == Some(i + 1)
    requires (StartsWith(s, i + 1, "removed") <==> kw == "removed") && StartsWith(s, i + 1, kw)
    requires b == i + 1 + |kw| && b <= |s| && Multispace1(s, b) == Some(c) && c <= |s|
    requires QuotedAt(s, c) == Some(LP.Parsed(reason, e))
    ensures StatusAt(s, i) == LP.Parsed((kw, Some(reason)), e)
  {
    assert KeywordAt(s, i + 1) == kw;
    StatusViaKeyword(s, i, kw);
    ReasonAfterQuoted(s, kw, b, c, reason, e);
  }

  /** `kw` after one space, with nothing quoted after it. */
  lemma BareStatusOn(s: string, i: nat, kw: string, b: nat)
    requires kw == "removed" || kw == "obsolete"
    requires i <= |s| && StartsWith(s, i, " " + kw) && b == i + 1 + |kw| && QuietAt(s, b)
    ensures StatusAt(s, i) == LP.Parsed((kw, None), b)
  {
    StartsWithConcat(s, i, " ", kw);
    assert s[i] == s[i..i + 1][0];
    KeywordOn(s, i, kw);
    NoReasonAt(s, b);
    StatusNoReason(s, i, kw, b);
  }

  /** Where the pieces of ` kw "reason"` sit. */
  lemma ReasonLayout(s: string, i: nat, kw: string, reason: string)
    requires i <= |s| && StartsWith(s, i, " " + kw + LP.ReasonText(Some(reason)))
    ensures var b := i + 1 + |kw|;
            b + 1 < |s| && s[i] == ' ' && StartsWith(s, i + 1, kw) && s[b] == ' ' && s[b + 1] == '"' &&
            StartsWith(s, b + 1, "\"" + reason + "\"")
  {
    var t := " " + kw + LP.ReasonText(Some(reason));
    var q := "\"" + reason + "\"";
    var b := i + 1 + |kw|;
    assert t == " " + kw + " " + q;
    assert s[i..i + |t|] == t;
    assert forall k :: i <= k < i + |t| ==> s[k] == t[k - i];
    assert s[i + 1..b] == t[1..1 + |kw|] == kw;
    assert s[b + 1..i + |t|] == t[2 + |kw|..] == q;
  }

  /** `kw` after one space, then one space and a quoted reason. */
  lemma ReasonStatusOn(s: string, i: nat, kw: string, reason: string, e: nat)
    requires kw == "removed" || kw == "obsolete"
    requires |reason| > 0 && AllCommentChars(reason)
    requires i <= |s| && StartsWith(s, i, " " + kw + LP.ReasonText(Some(reason))) && e == i + 4 + |kw| + |reason|
    ensures StatusAt(s, i) == LP.Parsed((kw, Some(reason)), e)
  {
    var b := i + 1 + |kw|;
    ReasonLayout(s, i, kw, reason);
    KeywordOn(s, i, kw);
    Multispace0On(s, b, b + 1);
    QuotedOn(s, b + 1, reason, e);
    StatusWithReason(s, i, kw, b, b + 1, reason, e);
  }

  /** A status text the grammar can carry, followed by a quiet position, is read back. */
  lemma StatusOn(s: string, i: nat, removed: bool, obsolete: bool, reason: Option<string>, e: nat)
    requires !(removed && obsolete) && (reason.Some? ==> removed || obsolete)
    requires reason.Some? ==> |reason.value| > 0 && AllCommentChars(reason.value)
    requires i <= |s| && StartsWith(s, i, LP.StatusText(removed, obsolete, reason))
    requires e == i + |LP.StatusText(removed, obsolete, reason)| && QuietAt(s, e)
    ensures StatusAt(s, i) == LP.Parsed((LP.StatusKeyword(removed, obsolete), reason), e)
  {
    var kw := LP.StatusKeyword(removed, obsolete);
    LP.StatusTextShape(removed, obsolete, reason);
    if !removed && !obsolete {
      assert e == i;
    } else if reason.None? {
      assert LP.ReasonText(reason) == "";
      assert " " + kw + LP.ReasonText(reason) == " " + kw;
      BareStatusOn(s, i, kw, e);
    } else {
      ReasonStatusOn(s, i, kw, reason.value, e);
    }
  }

  /** A quiet position holds no inline comment. */
  lemma NoInlineCommentAt(s: string, e: nat)
    requires e <= |s| && QuietAt(s, e)
    ensures InlineCommentAt(s, e).None?
  {
    var m := Multispace0(s, e);
    assert m + 2 <= |s| ==> s[m..m + 2][0] == s[m];
  }

  lemma VariantTrailerSteps(s: string, i: nat, kw: string, reason: Option<string>, e: nat)
    requires i <= e <= |s| && StatusAt(s, i) == LP.Parsed((kw, reason), e) && QuietAt(s, e)
    ensures VariantTrailerAt(s, i) == LP.Parsed(LP.Trailer(kw, reason, None), Multispace0(s, e))
  {
    NoInlineCommentAt(s, e);
  }

  lemma EnumVariantSteps(s: string, i: nat, v: EnumVariant, p: nat, j: nat, k: nat, e: nat)
    requires i < p <= j < |s| && e <= |s| && !(v.removed && v.obsolete) && v.comment.None?
    requires VariantNameAt(s, i) == Some(LP.Parsed(v.name, p)) && ValueAt(s, p) == Some(LP.Parsed(v.value, j))
    requires Char(s, j, ';') == Some(k)
    requires VariantTrailerAt(s, k) == LP.Parsed(LP.Trailer(LP.StatusKeyword(v.removed, v.obsolete), v.reason, None), e)
    ensures EnumVariantAt(s, i) == Some(LP.Parsed(v, e))
  {
    LP.StatusKeywordFlags(v.removed, v.obsolete);
  }

  /** A name, ` = ` and a character that is not whitespace. */
  lemma VariantNameLaidOut(s: string, i: nat, a: string, p: nat)
    requires |a| > 0 && LP.AllIdentChars(a) && p == i + |a| + 3 && p < |s| && s[i..i + |a|] == a
    requires s[i + |a|] == ' ' && s[i + |a| + 1] == '=' && s[i + |a| + 2] == ' ' && !IsMultispace(s[p])
    ensures VariantNameAt(s, i) == Some(LP.Parsed(a, p))
  {
    LP.IdentCharsAt(s, i, a);
    VariantNameOn(s, i, |a|, p);
  }

  /** A rendered value starts with a sign or a digit, never with whitespace. */
  lemma ValueTextStart(v: EnumValue)
    requires ValueOk(v)
    ensures |ValueText(v)| > 0 && !IsMultispace(ValueText(v)[0])
  {
    if v.Number? && v.n >= 0 {
      assert IsDigit(ValueText(v)[0]);
    }
  }

  /** The name and `=` of a rendered variant. */
  lemma VariantNamePiece(s: string, i: nat, v: EnumVariant, p: nat)
    requires Renderable(v)
    requires i <= |s| && StartsWith(s, i, VariantText(v))
    requires p == i + |v.name| + 3
    ensures VariantNameAt(s, i) == Some(LP.Parsed(v.name, p))
  {
    var n := |v.name|;
    var t := ValueText(v.value);
    var j := p + |t|;
    var st := LP.StatusText(v.removed, v.obsolete, v.reason);
    assert VariantText(v) == v.name + " = " + t + ";" + st;
    LP.VariantLayout(s, i, v.name, t, st);
    assert s[p] == t[0] by { assert s[p..j + 1][0] == (t + ";")[0]; }
    ValueTextStart(v.value);
    VariantNameLaidOut(s, i, v.name, p);
  }

  /** The value and `;` of a rendered variant. */
  lemma VariantValuePiece(s: string, i: nat, v: EnumVariant, p: nat, j: nat, k: nat)
    requires Renderable(v)
    requires i <= |s| && StartsWith(s, i, VariantText(v))
    requires p == i + |v.name| + 3 && j == p + |ValueText(v.value)| && k == j + 1
    ensures i < p <= j < k <= |s|
    ensures ValueAt(s, p) == Some(LP.Parsed(v.value, j))
    ensures Char(s, j, ';') == Some(k)
  {
    var vt := ValueText(v.value);
    var st := LP.StatusText(v.removed, v.obsolete, v.reason);
    assert VariantText(v) == v.name + " = " + vt + ";" + st;
    LP.VariantLayout(s, i, v.name, vt, st);
    ValueSemicolonPiece(s, p, v.value, j, k);
  }

  /** A value and `;` laid out at `p` are read back, the `;` right after the value. */
  lemma ValueSemicolonPiece(s: string, p: nat, val: EnumValue, j: nat, k: nat)
    requires ValueOk(val) && p <= |s| && StartsWith(s, p, ValueText(val) + ";")
    requires j == p + |ValueText(val)| && k == j + 1
    ensures j < k <= |s| && ValueAt(s, p) == Some(LP.Parsed(val, j)) && Char(s, j, ';') == Some(k)
  {
    ValueOn(s, p, val, j);
  }

  /** In a text laid out as `name = value;status`, the status starts right after `;` and runs to the end. */
  lemma TrailerPiece(s: string, i: nat, name: string, vt: string, st: string, k: nat, end: nat)
    requires i <= |s| && StartsWith(s, i, name + " = " + vt + ";" + st)
    requires end == i + |name + " = " + vt + ";" + st| && k == i + |name| + 3 + |vt| + 1
    ensures k <= end <= |s| && StartsWith(s, k, st) && end == k + |st|
  {
    LP.VariantLayout(s, i, name, vt, st);
  }

  /** The status after the `;` of a rendered variant. */
  lemma VariantStatusPiece(s: string, i: nat, v: EnumVariant, k: nat, end: nat, e: nat)
    requires Renderable(v)
    requires i <= |s| && StartsWith(s, i, VariantText(v))
    requires end == i + |VariantText(v)| && QuietAt(s, end)
    requires k == i + |v.name| + 3 + |ValueText(v.value)| + 1
    requires e == Multispace0(s, end)
    ensures k <= e <= |s|
    ensures VariantTrailerAt(s, k) == LP.Parsed(LP.Trailer(LP.StatusKeyword(v.removed, v.obsolete), v.reason, None), e)
  {
    var vt := ValueText(v.value);
    var st := LP.StatusText(v.removed, v.obsolete, v.reason);
    assert VariantText(v) == v.name + " = " + vt + ";" + st;
    TrailerPiece(s, i, v.name, vt, st, k, end);
    StatusOn(s, k, v.removed, v.obsolete, v.reason, end);
    VariantTrailerSteps(s, k, LP.StatusKeyword(v.removed, v.obsolete), v.reason, end);
  }

  /** A renderable variant, followed by a quiet position, is read back as itself. */
  lemma EnumVariantOn(s: string, i: nat, v: EnumVariant, end: nat)
    requires Renderable(v)
    requires i <= |s| && StartsWith(s, i, VariantText(v))
    requires end == i + |VariantText(v)| && QuietAt(s, end)
    ensures EnumVariantAt(s, i) == Some(LP.Parsed(v, Multispace0(s, end)))
  {
    var p := i + |v.name| + 3;
    var j := p + |ValueText(v.value)|;
    var k := j + 1;
    var e := Multispace0(s, end);
    VariantNamePiece(s, i, v, p);
    VariantValuePiece(s, i, v, p, j, k);
    VariantStatusPiece(s, i, v, k, end, e);
    EnumVariantSteps(s, i, v, p, j, k, e);
  }
}
