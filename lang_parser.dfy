/**
 * The SteamLanguage (`.steamd`) grammar of the library crate: imports,
 * `enum` definitions with hex, decimal or `|`-union values, and `class`
 * definitions with typed members. Every production is a function of a
 * cursor `(s, i)` that answers `None` for nom's recoverable error or the
 * parsed value with the position after it. Nothing in this grammar uses
 * `cut`, so every failure backtracks.
 */
module LangParser {
  import opened Wrappers
  import opened Text
  import opened Nom

  datatype Parsed<T> = Parsed(value: T, pos: nat)

  datatype EnumVariantValue = Number(text: string) | Hex(digits: string) | Union(names: seq<string>)

  datatype EnumVariant = EnumVariant(
    name: string,
    removed: bool,
    obsolete: bool,
    reason: Option<string>,
    comment: Option<string>,
    value: EnumVariantValue)

  datatype Enum = Enum(name: string, generic: Option<string>, flags: bool, variants: seq<EnumVariant>)

  datatype ClassMemberValue = Number(text: string) | Hex(digits: string) | Reference(path: string)

  datatype ClassMember = ClassMember(
    name: string,
    type_: string,
    modifier: Option<string>,
    constant: bool,
    value: Option<ClassMemberValue>)

  datatype Class = Class(name: string, generic: Option<string>, removed: bool, members: seq<ClassMember>)

  datatype DocumentEntry = Import(file: string) | EnumEntry(enum_: Enum) | ClassEntry(class_: Class)

  datatype Document = Document(entries: seq<DocumentEntry>)

  /** The set of `identifier`: `_` and ASCII letters and digits. */
  predicate IsIdentChar(c: char) { c == '_' || IsAlphanumeric(c) }

  /** The set of `parse_type`: the identifier set plus `<`, `>`, `:` and `.`. */
  predicate IsTypeChar(c: char) { c == '<' || c == '>' || c == ':' || c == '.' || IsIdentChar(c) }

  predicate AllIdentChars(t: string) { forall k :: 0 <= k < |t| ==> IsIdentChar(t[k]) }

  /** Where the run of identifier characters that starts at `i` ends. */
  function IdentEnd(s: string, i: nat): (j: nat)
    requires i <= |s|
    ensures i <= j <= |s| && (forall k {:trigger IsIdentChar(s[k])} :: i <= k < j ==> IsIdentChar(s[k])) &&
            (j == |s| || !IsIdentChar(s[j]))
    decreases |s| - i
  {
    if i < |s| && IsIdentChar(s[i]) then IdentEnd(s, i + 1) else i
  }

  /** Where the run of type characters that starts at `i` ends. */
  function TypeEnd(s: string, i: nat): (j: nat)
    requires i <= |s|
    ensures i <= j <= |s| && (forall k {:trigger IsTypeChar(s[k])} :: i <= k < j ==> IsTypeChar(s[k])) &&
            (j == |s| || !IsTypeChar(s[j]))
    decreases |s| - i
  {
    if i < |s| && IsTypeChar(s[i]) then TypeEnd(s, i + 1) else i
  }

  /** `identifier`: one or more identifier characters, as many as there are. */
  function IdentifierAt(s: string, i: nat): (r: Option<nat>)
    requires i <= |s|
    ensures r.Some? <==> i < |s| && IsIdentChar(s[i])
    ensures r.Some? ==>
          var j := r.value;
          i < j <= |s| && AllIdentChars(s[i..j]) &&
          (j == |s| || !IsIdentChar(s[j]))
  {
    var j := IdentEnd(s, i);
    if j > i then
      assert forall k :: 0 <= k < j - i ==> s[i..j][k] == s[i + k];
      Some(j)
    else None
  }

  /** `parse_type`: one or more type characters. */
  function TypeAt(s: string, i: nat): (r: Option<nat>)
    requires i <= |s|
    ensures r.Some? <==> i < |s| && IsTypeChar(s[i])
    ensures r.Some? ==> i < r.value <= |s| && (forall k {:trigger IsTypeChar(s[k])} :: i <= k < r.value ==> IsTypeChar(s[k])) &&
                        (r.value == |s| || !IsTypeChar(s[r.value]))
  {
    var j := TypeEnd(s, i);
    if j > i then Some(j) else None
  }

  /** `hex`: `0x` and one or more hex digits; the value is the digits without the prefix. */
  function HexAt(s: string, i: nat): (r: Option<Parsed<string>>)
    requires i <= |s|
    ensures r.Some? <==> StartsWith(s, i, "0x") && i + 2 < |s| && IsHexDigit(s[i + 2])
    ensures r.Some? ==>
          var e := r.value.pos;
          i + 2 < e <= |s| && r.value.value == s[i + 2..e] &&
          (forall k {:trigger IsHexDigit(r.value.value[k])} :: 0 <= k < |r.value.value| ==> IsHexDigit(r.value.value[k])) &&
          (e == |s| || !IsHexDigit(s[e]))
  {
    if StartsWith(s, i, "0x") then
      match Span1(s, i + 2, IsHexDigit)
      case None => None
      case Some(j) => Some(Parsed(s[i + 2..j], j))
    else None
  }

  /** `recognize(tuple((opt(tag("-")), digit1)))`: an optionally negative run of digits. */
  function NumberAt(s: string, i: nat): (r: Option<nat>)
    requires i <= |s|
    ensures r.Some? ==> i < r.value <= |s|
    ensures r.Some? ==> var d, e := (if s[i] == '-' then i + 1 else i), r.value;
                        d < e && AllDigits(s[d..e]) && (e == |s| || !IsDigit(s[e]))
    ensures r.None? <==> var d := if i < |s| && s[i] == '-' then i + 1 else i;
                         !(d < |s| && IsDigit(s[d]))
  {
    var d := if i < |s| && s[i] == '-' then i + 1 else i;
    var r := Digit1(s, d);
    if r.Some? then
      assert IsDigit(s[d..r.value][r.value - d - 1]);
      r
    else r
  }

  /** Where the separator of `parse_ref` that starts at `j` ends: `::` is tried before `.`. */
  function RefSeparatorAt(s: string, j: nat): (r: Option<nat>)
    requires j <= |s|
    ensures r.Some? <==> StartsWith(s, j, "::") || StartsWith(s, j, ".")
    ensures r.Some? ==> r.value == j + (if StartsWith(s, j, "::") then 2 else 1) && r.value <= |s|
  {
    if StartsWith(s, j, "::") then Some(j + 2) else if StartsWith(s, j, ".") then Some(j + 1) else None
  }

  /** `parse_ref`: an identifier, `::` or `.`, and another identifier, recognised as one string. */
  function ParseRefAt(s: string, i: nat): (r: Option<nat>)
    requires i <= |s|
    ensures r.Some? <==> IdentifierAt(s, i).Some? && RefSeparatorAt(s, IdentifierAt(s, i).value).Some? &&
                         IdentifierAt(s, RefSeparatorAt(s, IdentifierAt(s, i).value).value).Some?
    ensures r.Some? ==> var k := RefSeparatorAt(s, IdentifierAt(s, i).value).value;
                        i < k < r.value <= |s| && r.value == IdentifierAt(s, k).value
  {
    match IdentifierAt(s, i)
    case None => None
    case Some(j) =>
      var k := RefSeparatorAt(s, j);
      if k.None? then None
      else match IdentifierAt(s, k.value)
        case None => None
        case Some(e) => Some(e)
  }

  predicate IsGenericChar(c: char) { c != '<' && c != '>' && c != '\n' }

  /** `generic`: `<`, one or more characters other than `<`, `>` and newline, then `>`. */
  function GenericAt(s: string, i: nat): (r: Option<Parsed<string>>)
    requires i <= |s|
    ensures r.Some? <==> i + 1 < |s| && s[i] == '<' && IsGenericChar(s[i + 1]) &&
                         Span(s, i + 1, IsGenericChar) < |s| && s[Span(s, i + 1, IsGenericChar)] == '>'
    ensures r.Some? ==>
          var e := r.value.pos;
          i + 2 < e <= |s| && s[i] == '<' && s[e - 1] == '>' &&
          r.value.value == s[i + 1..e - 1] && |r.value.value| > 0 &&
          forall k {:trigger IsGenericChar(r.value.value[k])} :: 0 <= k < |r.value.value| ==> IsGenericChar(r.value.value[k])
  {
    if i < |s| && s[i] == '<' then
      match Span1(s, i + 1, IsGenericChar)
      case None => None
      case Some(j) => if j < |s| && s[j] == '>' then Some(Parsed(s[i + 1..j], j + 1)) else None
    else None
  }

  /**
   * `ns` are the further union elements read from `j`, each after
   * whitespace, `|` and whitespace, the last one ending at `e`.
   */
  predicate TailRead(s: string, j: nat, ns: seq<string>, e: nat)
    requires j <= |s|
    decreases |ns|
  {
    if ns == [] then e == j
    else var a := Multispace0(s, j);
         a < |s| && s[a] == '|' && IdentifierAt(s, Multispace0(s, a + 1)).Some? &&
         var b := Multispace0(s, a + 1);
         var c := IdentifierAt(s, b).value;
         ns[0] == s[b..c] && TailRead(s, c, ns[1..], e)
  }

  /** No further element follows `e`: no `|` after whitespace, or no identifier after it. */
  predicate TailEnds(s: string, e: nat)
    requires e <= |s|
  {
    var a := Multispace0(s, e);
    !(a < |s| && s[a] == '|' && IdentifierAt(s, Multispace0(s, a + 1)).Some?)
  }

  /**
   * `separated_list1(tuple((multispace0, tag("|"), multispace0)), identifier)`
   * after its first element: a separator whose next identifier is missing
   * is given back.
   */
  function UnionTail(s: string, j: nat): (r: Parsed<seq<string>>)
    requires j <= |s|
    ensures j <= r.pos <= |s|
    ensures forall k :: 0 <= k < |r.value| ==> |r.value[k]| > 0 && AllIdentChars(r.value[k])
    decreases |s| - j
  {
    var a := Multispace0(s, j);
    if a < |s| && s[a] == '|' then
      var b := Multispace0(s, a + 1);
      match IdentifierAt(s, b)
      case None => Parsed([], j)
      case Some(c) =>
        var t := UnionTail(s, c);
        Parsed([s[b..c]] + t.value, t.pos)
    else Parsed([], j)
  }

  /** The union form of a variant value: one or more identifiers joined by `|`. */
  function UnionAt(s: string, i: nat): (r: Option<Parsed<seq<string>>>)
    requires i <= |s|
    ensures r.Some? <==> IdentifierAt(s, i).Some?
    ensures r.Some? ==> i < r.value.pos <= |s| && |r.value.value| > 0 &&
                        r.value.value[0] == s[i..IdentifierAt(s, i).value] &&
                        forall k :: 0 <= k < |r.value.value| ==> |r.value.value[k]| > 0 && AllIdentChars(r.value.value[k])
  {
    match IdentifierAt(s, i)
    case None => None
    case Some(j) =>
      var t := UnionTail(s, j);
      Some(Parsed([s[i..j]] + t.value, t.pos))
  }

  /** `enum_variant_value`: hex first, then an optionally negative number, then a union. */
  function EnumVariantValueAt(s: string, i: nat): (r: Option<Parsed<EnumVariantValue>>)
    requires i <= |s|
    ensures r.Some? ==> i < r.value.pos <= |s|
    ensures r.None? <==> HexAt(s, i).None? && NumberAt(s, i).None? && IdentifierAt(s, i).None?
    ensures HexAt(s, i).Some? ==> r == Some(Parsed(EnumVariantValue.Hex(HexAt(s, i).value.value), HexAt(s, i).value.pos))
    ensures HexAt(s, i).None? && NumberAt(s, i).Some? ==>
              r == Some(Parsed(EnumVariantValue.Number(s[i..NumberAt(s, i).value]), NumberAt(s, i).value))
    ensures HexAt(s, i).None? && NumberAt(s, i).None? && UnionAt(s, i).Some? ==>
              r == Some(Parsed(Union(UnionAt(s, i).value.value), UnionAt(s, i).value.pos))
  {
    match HexAt(s, i)
    case Some(h) => Some(Parsed(EnumVariantValue.Hex(h.value), h.pos))
    case None =>
      match NumberAt(s, i)
      case Some(j) => Some(Parsed(EnumVariantValue.Number(s[i..j]), j))
      case None =>
        match UnionAt(s, i)
        case None => None
        case Some(u) => Some(Parsed(Union(u.value), u.pos))
  }

  /** `comment`: optional spaces, `//`, and the rest of the line, trimmed. */
  function CommentAt(s: string, i: nat): (r: Option<Parsed<string>>)
    requires i <= |s|
    ensures r.Some? ==> Space0(s, i) + 2 <= r.value.pos <= |s| && StartsWith(s, Space0(s, i), "//")
    ensures r.Some? ==> var e := r.value.pos; r.value.value == Trim(s[Space0(s, i) + 2..e])
    ensures r.Some? ==> r.value.pos == |s| || s[r.value.pos] == '\n' || s[r.value.pos] == '\r'
    ensures r.Some? ==> forall k {:trigger NotLineBreak(s[k])} :: Space0(s, i) + 2 <= k < r.value.pos ==> NotLineBreak(s[k])
    ensures r.Some? <==> StartsWith(s, Space0(s, i), "//") && NotLineEnding(s, Space0(s, i) + 2).Some?
  {
    var a := Space0(s, i);
    if StartsWith(s, a, "//") then
      match NotLineEnding(s, a + 2)
      case None => None
      case Some(e) =>
        assert e == |s| || s[e] == '\n' || s[e] == '\r' by {
          if e < |s| && s[e] != '\n' { assert s[e..e + 2][0] == s[e]; }
        }
        Some(Parsed(Trim(s[a + 2..e]), e))
    else None
  }

  predicate IsReasonChar(c: char) { c != '"' && c != '\n' }

  /** `reason`: a double-quoted text with no quote or newline inside. */
  function ReasonAt(s: string, i: nat): (r: Option<Parsed<string>>)
    requires i <= |s|
    ensures r.Some? ==>
          var e := r.value.pos;
          i + 2 < e <= |s| && s[i] == '"' && s[e - 1] == '"' &&
          r.value.value == s[i + 1..e - 1] && |r.value.value| > 0 &&
          forall k {:trigger IsReasonChar(r.value.value[k])} :: 0 <= k < |r.value.value| ==> IsReasonChar(r.value.value[k])
  {
    if i < |s| && s[i] == '"' then
      match Span1(s, i + 1, IsReasonChar)
      case None => None
      case Some(j) => if j < |s| && s[j] == '"' then Some(Parsed(s[i + 1..j], j + 1)) else None
    else None
  }

  /**
   * The optional status after a variant's `;`: spaces, then `removed` or
   * `obsolete`, then optionally spaces and a reason. Without a keyword the
   * status is empty and nothing is consumed.
   */
  function StatusAt(s: string, i: nat): (r: Parsed<(string, Option<string>)>)
    requires i <= |s|
    ensures i <= r.pos <= |s|
    ensures r.value.0 == "" || r.value.0 == "removed" || r.value.0 == "obsolete"
    ensures r.value.0 == "" ==> r.pos == i && r.value.1.None?
    ensures r.value.0 == "removed" <==> Space1(s, i).Some? && StartsWith(s, Space1(s, i).value, "removed")
    ensures r.value.0 == "obsolete" <==> Space1(s, i).Some? && !StartsWith(s, Space1(s, i).value, "removed") &&
                                         StartsWith(s, Space1(s, i).value, "obsolete")
  {
    match Space1(s, i)
    case None => Parsed(("", None), i)
    case Some(a) =>
      var kw := if StartsWith(s, a, "removed") then "removed" else if StartsWith(s, a, "obsolete") then "obsolete" else "";
      if kw == "" then Parsed(("", None), i)
      else
        var b := a + |kw|;
        match Space1(s, b)
        case None => Parsed((kw, None), b)
        case Some(c) =>
          match ReasonAt(s, c)
          case None => Parsed((kw, None), b)
          case Some(rs) => Parsed((kw, Some(rs.value)), rs.pos)
  }

  /** The position after an optional full-line comment (with the whitespace before it); the comment is dropped. */
  function LeadingCommentEnd(s: string, i: nat): (j: nat)
    requires i <= |s|
    ensures i <= j <= |s|
    ensures CommentAt(s, Multispace0(s, i)).None? ==> j == i
    ensures CommentAt(s, Multispace0(s, i)).Some? ==> j == CommentAt(s, Multispace0(s, i)).value.pos && Multispace0(s, i) + 2 <= j
  {
    match CommentAt(s, Multispace0(s, i))
    case None => i
    case Some(c) => c.pos
  }

  /**
   * The start of `enum_variant`: an optional full-line comment, any
   * whitespace, the name, then `=` with spaces (not newlines) on both
   * sides. The value is the name.
   */
  function VariantNameAt(s: string, i: nat): (r: Option<Parsed<string>>)
    requires i <= |s|
    ensures r.Some? ==> i < r.value.pos <= |s| && |r.value.value| > 0 && AllIdentChars(r.value.value)
    ensures r.Some? ==> var a := Multispace0(s, LeadingCommentEnd(s, i));
                        IdentifierAt(s, a).Some? && r.value.value == s[a..IdentifierAt(s, a).value]
  {
    NameEqualsAt(s, Multispace0(s, LeadingCommentEnd(s, i)))
  }

  /** The name and the spaced `=` of `enum_variant`, from `i2`. */
  function NameEqualsAt(s: string, i2: nat): (r: Option<Parsed<string>>)
    requires i2 <= |s|
    ensures r.Some? ==> i2 < r.value.pos <= |s| && |r.value.value| > 0 && AllIdentChars(r.value.value)
    ensures r.Some? <==> IdentifierAt(s, i2).Some? &&
                         var q := Space0(s, IdentifierAt(s, i2).value);
                         IdentifierAt(s, i2).value < q && q + 1 < |s| && s[q] == '=' && IsSpace(s[q + 1])
    ensures r.Some? ==> var q := Space0(s, IdentifierAt(s, i2).value);
                        r.value.value == s[i2..IdentifierAt(s, i2).value] && r.value.pos == Space0(s, q + 1)
  {
    match IdentifierAt(s, i2)
    case None => None
    case Some(i3) =>
      match Space1(s, i3)
      case None => None
      case Some(i4) =>
        if !(i4 < |s| && s[i4] == '=') then None
        else match Space1(s, i4 + 1)
          case None => None
          case Some(i5) => Some(Parsed(s[i2..i3], i5))
  }

  /** What follows a variant's `;`: its status keyword, reason and inline comment. */
  datatype Trailer = Trailer(status: string, reason: Option<string>, comment: Option<string>)

  /** The end of `enum_variant` after `;`: the optional status, the optional inline comment, then any whitespace. */
  function VariantTrailerAt(s: string, i: nat): (r: Parsed<Trailer>)
    requires i <= |s|
    ensures i <= r.pos <= |s|
    ensures r.value.status == StatusAt(s, i).value.0 && r.value.reason == StatusAt(s, i).value.1
    ensures r.value.comment.Some? <==> CommentAt(s, StatusAt(s, i).pos).Some?
    ensures r.value.comment.Some? ==> r.value.comment.value == CommentAt(s, StatusAt(s, i).pos).value.value
  {
    var st := StatusAt(s, i);
    var cm := CommentAt(s, st.pos);
    var e := if cm.Some? then cm.value.pos else st.pos;
    Parsed(Trailer(st.value.0, st.value.1, if cm.Some? then Some(cm.value.value) else None), Multispace0(s, e))
  }

  /**
   * `enum_variant`: the name and `=`, the value, optional spaces and `;`,
   * then the trailer. Exactly the keyword found after `;` sets `removed`
   * or `obsolete`, and a reason comes only with a keyword.
   */
  function EnumVariantAt(s: string, i: nat): (r: Option<Parsed<EnumVariant>>)
    requires i <= |s|
    ensures r.Some? ==> i < r.value.pos <= |s|
    ensures r.Some? ==> var v := r.value.value;
                        !(v.removed && v.obsolete) && (v.reason.Some? ==> v.removed || v.obsolete) &&
                        |v.name| > 0 && AllIdentChars(v.name)
    ensures VariantNameAt(s, i).Some? ==>
          var nm := VariantNameAt(s, i).value;
          EnumVariantValueAt(s, nm.pos).Some? ==>
          var v := EnumVariantValueAt(s, nm.pos).value;
          Char(s, Space0(s, v.pos), ';').Some? ==>
          r.Some? && r.value.value.name == nm.value && r.value.value.value == v.value
  {
    match VariantNameAt(s, i)
    case None => None
    case Some(nm) =>
      match EnumVariantValueAt(s, nm.pos)
      case None => None
      case Some(v) =>
        match Char(s, Space0(s, v.pos), ';')
        case None => None
        case Some(k) =>
          var tr := VariantTrailerAt(s, k);
          Some(Parsed(EnumVariant(nm.value, tr.value.status == "removed", tr.value.status == "obsolete",
                                  tr.value.reason, tr.value.comment, v.value), tr.pos))
  }

  /**
   * A variant is read exactly when a name, a value and `;` follow each other.
   */
  lemma EnumVariantRead(s: string, i: nat)
    requires i <= |s|
    ensures EnumVariantAt(s, i).Some? <==>
          VariantNameAt(s, i).Some? &&
          var p := VariantNameAt(s, i).value.pos;
          EnumVariantValueAt(s, p).Some? && Char(s, Space0(s, EnumVariantValueAt(s, p).value.pos), ';').Some?
  {
  }
  /**
   * The variant read from a name, a value, `;` and a trailer: the trailer's
   * status sets `removed` or `obsolete`, its reason and comment are kept,
   * and reading goes on where the trailer ends.
   */
  lemma EnumVariantFields(s: string, i: nat, nm: Parsed<string>, v: Parsed<EnumVariantValue>, k: nat, tr: Parsed<Trailer>)
    requires i <= |s| && VariantNameAt(s, i) == Some(nm) && nm.pos <= |s| && EnumVariantValueAt(s, nm.pos) == Some(v)
    requires v.pos <= |s| && Char(s, Space0(s, v.pos), ';') == Some(k) && k <= |s| && VariantTrailerAt(s, k) == tr
    ensures EnumVariantAt(s, i).Some?
    ensures var w := EnumVariantAt(s, i).value;
            w.value.name == nm.value && w.value.value == v.value &&
            (w.value.removed <==> tr.value.status == "removed") && (w.value.obsolete <==> tr.value.status == "obsolete") &&
            w.value.reason == tr.value.reason && w.value.comment == tr.value.comment && w.pos == tr.pos
  {
  }


  /** `vs` are the variants read one after the other from `i`, the last one ending at `e`. */
  predicate VariantsRead(s: string, i: nat, vs: seq<EnumVariant>, e: nat)
    requires i <= |s|
    decreases |vs|
  {
    if vs == [] then e == i
    else EnumVariantAt(s, i).Some? && EnumVariantAt(s, i).value.value == vs[0] &&
         VariantsRead(s, EnumVariantAt(s, i).value.pos, vs[1..], e)
  }

  /** `many0(enum_variant)`: variants until the first one that does not parse. */
  function EnumVariantsAt(s: string, i: nat): (r: Parsed<seq<EnumVariant>>)
    requires i <= |s|
    ensures i <= r.pos <= |s| && EnumVariantAt(s, r.pos).None?
    ensures VariantsRead(s, i, r.value, r.pos)
    decreases |s| - i
  {
    match EnumVariantAt(s, i)
    case None => Parsed([], i)
    case Some(p) =>
      var rest := EnumVariantsAt(s, p.pos);
      Parsed([p.value] + rest.value, rest.pos)
  }

  /** The position after an optional `public` followed by spaces. */
  function PublicEnd(s: string, i: nat): (j: nat)
    requires i <= |s|
    ensures i <= j <= |s|
    ensures j > i <==> StartsWith(s, i, "public") && Space1(s, i + 6).Some?
    ensures j > i ==> j == Space0(s, i + 6) && forall k {:trigger IsSpace(s[k])} :: i + 6 <= k < j ==> IsSpace(s[k])
  {
    if StartsWith(s, i, "public") then
      match Space1(s, i + 6)
      case None => i
      case Some(j) => Space0All(s, i + 6); j
    else i
  }

  /** `opt(preceded(multispace1, tuple((tag("flag"), opt(tag("s"))))))`. */
  function FlagsAt(s: string, i: nat): (r: Option<nat>)
    requires i <= |s|
    ensures r.Some? <==> Multispace1(s, i).Some? && StartsWith(s, Multispace1(s, i).value, "flag")
    ensures r.Some? ==> i < r.value <= |s|
  {
    match Multispace1(s, i)
    case None => None
    case Some(a) =>
      if StartsWith(s, a, "flag") then
        Some(if StartsWith(s, a + 4, "s") then a + 5 else a + 4)
      else None
  }

  /** `multispace1` and then `{`: the position after the brace. */
  function OpenAt(s: string, f: nat): (r: Option<nat>)
    requires f <= |s|
    ensures r.Some? <==> Multispace1(s, f).Some? && Multispace0(s, f) < |s| && s[Multispace0(s, f)] == '{'
    ensures r.Some? ==> r.value == Multispace0(s, f) + 1 <= |s|
  {
    match Multispace1(s, f)
    case None => None
    case Some(h) => if h < |s| && s[h] == '{' then Some(h + 1) else None
  }

  /** The closing `}` with the whitespace before it and an optional `;` after it. */
  function CloseAt(s: string, i: nat): (r: Option<nat>)
    requires i <= |s|
    ensures r.Some? ==> i < r.value <= |s|
    ensures r.Some? <==> Multispace0(s, i) < |s| && s[Multispace0(s, i)] == '}'
    ensures r.Some? ==> r.value == Multispace0(s, i) + (if StartsWith(s, Multispace0(s, i) + 1, ";") then 2 else 1)
  {
    var k := Multispace0(s, i);
    if k < |s| && s[k] == '}' then Some(if k + 1 < |s| && s[k + 1] == ';' then k + 2 else k + 1) else None
  }

  /** Where a name starts and stops in the input. */
  datatype NameSpan = NameSpan(start: nat, stop: nat)

  /** The span is a non-empty run of identifier characters of `s`. */
  predicate IdentSpan(s: string, n: NameSpan) {
    n.start < n.stop <= |s| && AllIdentChars(s[n.start..n.stop])
  }

  /**
   * Where the name lies in a declaration head (shared by `parse_enum` and the
   * member-list parser):
   * whitespace, an optional `public`, the keyword, whitespace and the name.
   */
  function DeclNameAt(s: string, i: nat, kw: string): (r: Option<NameSpan>)
    requires i <= |s| && |kw| > 0
    ensures r.Some? ==> i < r.value.start && IdentSpan(s, r.value)
    ensures r.Some? <==> StartsWith(s, PublicEnd(s, Multispace0(s, i)), kw) &&
                         Multispace1(s, PublicEnd(s, Multispace0(s, i)) + |kw|).Some? &&
                         IdentifierAt(s, Multispace1(s, PublicEnd(s, Multispace0(s, i)) + |kw|).value).Some?
    ensures r.Some? ==> var c := Multispace1(s, PublicEnd(s, Multispace0(s, i)) + |kw|).value;
                        r.value == NameSpan(c, IdentifierAt(s, c).value)
  {
    var b := PublicEnd(s, Multispace0(s, i));
    if !StartsWith(s, b, kw) then None
    else match Multispace1(s, b + |kw|)
      case None => None
      case Some(c) =>
        match IdentifierAt(s, c)
        case None => None
        case Some(d) => Some(NameSpan(c, d))
  }

  /**
   * The declaration head (shared by `parse_enum` and the member-list
   * parser): the name, then an
   * optional generic. The value is the name and the generic.
   */
  function DeclHeadAt(s: string, i: nat, kw: string): (r: Option<Parsed<(string, Option<string>)>>)
    requires i <= |s| && |kw| > 0
    ensures r.Some? <==> DeclNameAt(s, i, kw).Some?
    ensures r.Some? ==> i < r.value.pos <= |s| &&
                        r.value.value.0 == s[DeclNameAt(s, i, kw).value.start..DeclNameAt(s, i, kw).value.stop]
    ensures r.Some? ==> (r.value.value.1.Some? <==> GenericAt(s, DeclNameAt(s, i, kw).value.stop).Some?)
    ensures r.Some? && r.value.value.1.Some? ==>
              r.value.value.1.value == GenericAt(s, DeclNameAt(s, i, kw).value.stop).value.value
  {
    match DeclNameAt(s, i, kw)
    case None => None
    case Some(n) =>
      match GenericAt(s, n.stop)
      case None => Some(Parsed((s[n.start..n.stop], None), n.stop))
      case Some(g) => Some(Parsed((s[n.start..n.stop], Some(g.value)), g.pos))
  }

  /**
   * `parse_enum`: the head with keyword `enum`, an optional `flag`/`flags`
   * marker, and the variants between braces. `flags` is set exactly when
   * the marker is present.
   */
  function EnumAt(s: string, i: nat): (r: Option<Parsed<Enum>>)
    requires i <= |s|
    ensures r.Some? ==> i < r.value.pos <= |s|
    ensures r.Some? ==> var h := DeclHeadAt(s, i, "enum");
                        h.Some? && r.value.value.name == h.value.value.0 && r.value.value.generic == h.value.value.1 &&
                        (r.value.value.flags <==> FlagsAt(s, h.value.pos).Some?)
    ensures r.Some? <==>
          DeclHeadAt(s, i, "enum").Some? &&
          var h := DeclHeadAt(s, i, "enum").value;
          var o := OpenAt(s, FlagsAt(s, h.pos).UnwrapOr(h.pos));
          o.Some? && CloseAt(s, EnumVariantsAt(s, o.value).pos).Some?
    ensures r.Some? ==>
          var h := DeclHeadAt(s, i, "enum").value;
          var vs := EnumVariantsAt(s, OpenAt(s, FlagsAt(s, h.pos).UnwrapOr(h.pos)).value);
          r.value.value.variants == vs.value && r.value.pos == Multispace0(s, CloseAt(s, vs.pos).value)
  {
    match DeclHeadAt(s, i, "enum")
    case None => None
    case Some(hd) =>
      var fl := FlagsAt(s, hd.pos);
      match OpenAt(s, fl.UnwrapOr(hd.pos))
      case None => None
      case Some(o) =>
        var vs := EnumVariantsAt(s, o);
        match CloseAt(s, vs.pos)
        case None => None
        case Some(l) => Some(Parsed(Enum(hd.value.0, hd.value.1, fl.Some?, vs.value), Multispace0(s, l)))
  }

  /** `class_member_value`: hex, then an optionally negative number, then a reference. */
  function ClassMemberValueAt(s: string, i: nat): (r: Option<Parsed<ClassMemberValue>>)
    requires i <= |s|
    ensures r.Some? ==> i < r.value.pos <= |s|
    ensures HexAt(s, i).Some? ==> r.Some? && r.value.value.Hex?
    ensures HexAt(s, i).None? && NumberAt(s, i).Some? ==> r.Some? && r.value.value.Number?
    ensures r.Some? && r.value.value.Reference? ==> HexAt(s, i).None? && NumberAt(s, i).None? && ParseRefAt(s, i).Some?
    ensures r.None? <==> HexAt(s, i).None? && NumberAt(s, i).None? && ParseRefAt(s, i).None?
    ensures HexAt(s, i).Some? ==> r == Some(Parsed(ClassMemberValue.Hex(HexAt(s, i).value.value), HexAt(s, i).value.pos))
    ensures HexAt(s, i).None? && NumberAt(s, i).Some? ==>
              r == Some(Parsed(ClassMemberValue.Number(s[i..NumberAt(s, i).value]), NumberAt(s, i).value))
    ensures HexAt(s, i).None? && NumberAt(s, i).None? && ParseRefAt(s, i).Some? ==>
              r == Some(Parsed(Reference(s[i..ParseRefAt(s, i).value]), ParseRefAt(s, i).value))
  {
    match HexAt(s, i)
    case Some(h) => Some(Parsed(ClassMemberValue.Hex(h.value), h.pos))
    case None =>
      match NumberAt(s, i)
      case Some(j) => Some(Parsed(ClassMemberValue.Number(s[i..j]), j))
      case None =>
        match ParseRefAt(s, i)
        case None => None
        case Some(j) => Some(Parsed(Reference(s[i..j]), j))
  }

  /** `t` is the whole `parse_type` run at `i`. */
  predicate TypeRun(s: string, i: nat, t: string) {
    i <= |s| && StartsWith(s, i, t) && TypeAt(s, i) == Some(i + |t|)
  }

  /** `t` is the whole `identifier` run at `i`. */
  predicate IdentRun(s: string, i: nat, t: string) {
    i <= |s| && StartsWith(s, i, t) && IdentifierAt(s, i) == Some(i + |t|)
  }

  /** `const`, spaces, a type, spaces, a name. */
  function ConstMemberAt(s: string, i: nat): (r: Option<Parsed<ClassMember>>)
    requires i <= |s|
    ensures r.Some? ==> i < r.value.pos <= |s| && r.value.value.constant && r.value.value.modifier.None? &&
                        r.value.value.value.None? && StartsWith(s, i, "const")
    ensures r.Some? ==>
          var m := r.value.value;
          var a := Space0(s, i + 5);
          i + 5 < a && TypeRun(s, a, m.type_) &&
          var c := Space0(s, a + |m.type_|);
          a + |m.type_| < c && IdentRun(s, c, m.name) && r.value.pos == c + |m.name|
  {
    if !StartsWith(s, i, "const") then None
    else match Space1(s, i + 5)
      case None => None
      case Some(a) =>
        match TypeAt(s, a)
        case None => None
        case Some(b) =>
          match Space1(s, b)
          case None => None
          case Some(c) =>
            match IdentifierAt(s, c)
            case None => None
            case Some(d) => Some(Parsed(ClassMember(s[c..d], s[a..b], None, true, None), d))
  }

  /** A modifier type, spaces, a type, spaces, a name. */
  function ModifierMemberAt(s: string, i: nat): (r: Option<Parsed<ClassMember>>)
    requires i <= |s|
    ensures r.Some? ==> i < r.value.pos <= |s| && !r.value.value.constant && r.value.value.modifier.Some? &&
                        r.value.value.value.None?
    ensures r.Some? ==>
          var m := r.value.value;
          TypeRun(s, i, m.modifier.value) &&
          var b := Space0(s, i + |m.modifier.value|);
          i + |m.modifier.value| < b && TypeRun(s, b, m.type_) &&
          var c := Space0(s, b + |m.type_|);
          b + |m.type_| < c && IdentRun(s, c, m.name) && r.value.pos == c + |m.name|
  {
    match TypeAt(s, i)
    case None => None
    case Some(a) =>
      match Space1(s, a)
      case None => None
      case Some(b) =>
        match TypeAt(s, b)
        case None => None
        case Some(c) =>
          match Space1(s, c)
          case None => None
          case Some(d) =>
            match IdentifierAt(s, d)
            case None => None
            case Some(e) => Some(Parsed(ClassMember(s[d..e], s[b..c], Some(s[i..a]), false, None), e))
  }

  /** A type, spaces, a name. */
  function PlainMemberAt(s: string, i: nat): (r: Option<Parsed<ClassMember>>)
    requires i <= |s|
    ensures r.Some? ==> i < r.value.pos <= |s| && !r.value.value.constant && r.value.value.modifier.None? &&
                        r.value.value.value.None?
    ensures r.Some? <==> TypeAt(s, i).Some? && Space1(s, TypeAt(s, i).value).Some? &&
                         IdentifierAt(s, Space0(s, TypeAt(s, i).value)).Some?
    ensures r.Some? ==>
          var m := r.value.value;
          TypeRun(s, i, m.type_) &&
          var c := Space0(s, i + |m.type_|);
          i + |m.type_| < c && IdentRun(s, c, m.name) && r.value.pos == c + |m.name|
  {
    match TypeAt(s, i)
    case None => None
    case Some(a) =>
      match Space1(s, a)
      case None => None
      case Some(b) =>
        match IdentifierAt(s, b)
        case None => None
        case Some(c) => Some(Parsed(ClassMember(s[b..c], s[i..a], None, false, None), c))
  }

  /** The three member forms, tried in the order `const`, modifier, plain. */
  function MemberHeadAt(s: string, i: nat): (r: Option<Parsed<ClassMember>>)
    requires i <= |s|
    ensures r.Some? ==> i < r.value.pos <= |s| && r.value.value.value.None?
    ensures ConstMemberAt(s, i).Some? ==> r == ConstMemberAt(s, i)
    ensures ConstMemberAt(s, i).None? && ModifierMemberAt(s, i).Some? ==> r == ModifierMemberAt(s, i)
    ensures ConstMemberAt(s, i).None? && ModifierMemberAt(s, i).None? ==> r == PlainMemberAt(s, i)
    ensures r.Some? ==> (r.value.value.constant <==> ConstMemberAt(s, i).Some?)
  {
    var c := ConstMemberAt(s, i);
    if c.Some? then c
    else
      var m := ModifierMemberAt(s, i);
      if m.Some? then m else PlainMemberAt(s, i)
  }

  /** `opt(preceded(tuple((space1, tag("="), space1)), class_member_value))`. */
  function MemberInitAt(s: string, i: nat): (r: Parsed<Option<ClassMemberValue>>)
    requires i <= |s|
    ensures i <= r.pos <= |s|
    ensures r.value.None? ==> r.pos == i
  {
    var a := Space0(s, i);
    if Space1(s, i).None? || !(a < |s| && s[a] == '=') || Space1(s, a + 1).None? then Parsed(None, i)
    else
      match ClassMemberValueAt(s, Space0(s, a + 1))
      case None => Parsed(None, i)
      case Some(v) => Parsed(Some(v.value), v.pos)
  }

  /** An initial value is read exactly when `=` stands between spaces and a member value follows; it is that value. */
  lemma MemberInitRead(s: string, i: nat)
    requires i <= |s|
    ensures MemberInitAt(s, i).value.Some? <==>
          Space1(s, i).Some? &&
          var a := Space0(s, i);
          a < |s| && s[a] == '=' && Space1(s, a + 1).Some? && ClassMemberValueAt(s, Space0(s, a + 1)).Some?
    ensures MemberInitAt(s, i).value.Some? ==>
          var v := ClassMemberValueAt(s, Space0(s, Space0(s, i) + 1)).value;
          MemberInitAt(s, i).value.value == v.value && MemberInitAt(s, i).pos == v.pos
  {
  }

  /** `class_member`: a member form, an optional initial value, `;`, then any whitespace. */
  function ClassMemberAt(s: string, i: nat): (r: Option<Parsed<ClassMember>>)
    requires i <= |s|
    ensures r.Some? ==> i < r.value.pos <= |s|
    ensures r.Some? ==> (r.value.value.constant ==> r.value.value.modifier.None?)
  {
    var h := MemberHeadAt(s, Multispace0(s, i));
    if h.None? then None
    else
      var init := MemberInitAt(s, h.value.pos);
      var k := Space0(s, init.pos);
      if k < |s| && s[k] == ';' then Some(Parsed(h.value.value.(value := init.value), Multispace0(s, k + 1)))
      else None
  }

  /**
   * A member is read exactly when a member form is followed, after its
   * optional initial value and spaces, by `;`; it is that form with that
   * initial value, and reading goes on after the whitespace that follows.
   */
  lemma ClassMemberRead(s: string, i: nat)
    requires i <= |s|
    ensures ClassMemberAt(s, i).Some? <==>
          MemberHeadAt(s, Multispace0(s, i)).Some? &&
          var k := Space0(s, MemberInitAt(s, MemberHeadAt(s, Multispace0(s, i)).value.pos).pos);
          k < |s| && s[k] == ';'
    ensures ClassMemberAt(s, i).Some? ==>
          var h := MemberHeadAt(s, Multispace0(s, i)).value;
          var init := MemberInitAt(s, h.pos);
          var r := ClassMemberAt(s, i).value;
          r.value == h.value.(value := init.value) && r.pos == Multispace0(s, Space0(s, init.pos) + 1)
  {
    var h := MemberHeadAt(s, Multispace0(s, i));
    if h.Some? {
      var k := Space0(s, MemberInitAt(s, h.value.pos).pos);
      assert ClassMemberAt(s, i).Some? <==> k < |s| && s[k] == ';';
    }
  }

  /** `ms` are the members read one after the other from `i`, the last one ending at `e`. */
  predicate MembersRead(s: string, i: nat, ms: seq<ClassMember>, e: nat)
    requires i <= |s|
    decreases |ms|
  {
    if ms == [] then e == i
    else ClassMemberAt(s, i).Some? && ClassMemberAt(s, i).value.value == ms[0] &&
         MembersRead(s, ClassMemberAt(s, i).value.pos, ms[1..], e)
  }

  /** `many0(class_member)`. */
  function ClassMembersAt(s: string, i: nat): (r: Parsed<seq<ClassMember>>)
    requires i <= |s|
    ensures i <= r.pos <= |s| && ClassMemberAt(s, r.pos).None?
    ensures MembersRead(s, i, r.value, r.pos)
    decreases |s| - i
  {
    match ClassMemberAt(s, i)
    case None => Parsed([], i)
    case Some(p) =>
      var rest := ClassMembersAt(s, p.pos);
      Parsed([p.value] + rest.value, rest.pos)
  }

  /** `opt(preceded(multispace1, tag("removed")))`. */
  function RemovedAt(s: string, i: nat): (r: Option<nat>)
    requires i <= |s|
    ensures r.Some? <==> Multispace1(s, i).Some? && StartsWith(s, Multispace1(s, i).value, "removed")
    ensures r.Some? ==> i < r.value <= |s|
  {
    match Multispace1(s, i)
    case None => None
    case Some(m) => if StartsWith(s, m, "removed") then Some(m + 7) else None
  }

  /** A member-list declaration: the head with its keyword, an optional `removed` marker, and the members between braces. */
  function ClassAt(s: string, i: nat): (r: Option<Parsed<Class>>)
    requires i <= |s|
    ensures r.Some? ==> i < r.value.pos <= |s|
    ensures r.Some? ==> var h := DeclHeadAt(s, i, "class");
                        h.Some? && r.value.value.name == h.value.value.0 && r.value.value.generic == h.value.value.1 &&
                        (r.value.value.removed <==> RemovedAt(s, h.value.pos).Some?)
    ensures r.Some? <==>
          DeclHeadAt(s, i, "class").Some? &&
          var h := DeclHeadAt(s, i, "class").value;
          var o := OpenAt(s, RemovedAt(s, h.pos).UnwrapOr(h.pos));
          o.Some? && CloseAt(s, ClassMembersAt(s, o.value).pos).Some?
    ensures r.Some? ==>
          var h := DeclHeadAt(s, i, "class").value;
          var ms := ClassMembersAt(s, OpenAt(s, RemovedAt(s, h.pos).UnwrapOr(h.pos)).value);
          r.value.value.members == ms.value && r.value.pos == Multispace0(s, CloseAt(s, ms.pos).value)
  {
    match DeclHeadAt(s, i, "class")
    case None => None
    case Some(hd) =>
      var rm := RemovedAt(s, hd.pos);
      match OpenAt(s, rm.UnwrapOr(hd.pos))
      case None => None
      case Some(o) =>
        var ms := ClassMembersAt(s, o);
        match CloseAt(s, ms.pos)
        case None => None
        case Some(l) => Some(Parsed(Class(hd.value.0, hd.value.1, rm.Some?, ms.value), Multispace0(s, l)))
  }

  /** `import`: `#import` and a double-quoted file name, with whitespace around. */
  function ImportAt(s: string, i: nat): (r: Option<Parsed<string>>)
    requires i <= |s|
    ensures r.Some? ==> i < r.value.pos <= |s| && StartsWith(s, Multispace0(s, i), "#import") &&
                        |r.value.value| > 0 && forall k {:trigger IsReasonChar(r.value.value[k])} :: 0 <= k < |r.value.value| ==> IsReasonChar(r.value.value[k])
    ensures r.Some? <==> StartsWith(s, Multispace0(s, i), "#import") && ReasonAt(s, Multispace0(s, Multispace0(s, i) + 7)).Some?
    ensures r.Some? ==>
          var q := ReasonAt(s, Multispace0(s, Multispace0(s, i) + 7)).value;
          r.value.value == q.value && r.value.pos == Multispace0(s, q.pos)
  {
    var a := Multispace0(s, i);
    if !StartsWith(s, a, "#import") then None
    else match ReasonAt(s, Multispace0(s, a + 7))
      case None => None
      case Some(f) => Some(Parsed(f.value, Multispace0(s, f.pos)))
  }

  /** One document item: whitespace, then an import, an enum or a member-list declaration, tried in that order. */
  function ItemAt(s: string, i: nat): (r: Option<Parsed<DocumentEntry>>)
    requires i <= |s|
    ensures r.Some? ==> i < r.value.pos <= |s|
    ensures r.Some? && r.value.value.EnumEntry? ==> ImportAt(s, Multispace0(s, i)).None?
    ensures r.Some? && r.value.value.ClassEntry? ==> ImportAt(s, Multispace0(s, i)).None? && EnumAt(s, Multispace0(s, i)).None?
    ensures r.None? <==> ImportAt(s, Multispace0(s, i)).None? && EnumAt(s, Multispace0(s, i)).None? &&
                         ClassAt(s, Multispace0(s, i)).None?
    ensures var f := ImportAt(s, Multispace0(s, i));
            f.Some? ==> r == Some(Parsed(Import(f.value.value), f.value.pos))
    ensures var f, e := ImportAt(s, Multispace0(s, i)), EnumAt(s, Multispace0(s, i));
            f.None? && e.Some? ==> r == Some(Parsed(EnumEntry(e.value.value), e.value.pos))
    ensures var f, e, c := ImportAt(s, Multispace0(s, i)), EnumAt(s, Multispace0(s, i)), ClassAt(s, Multispace0(s, i));
            f.None? && e.None? && c.Some? ==> r == Some(Parsed(ClassEntry(c.value.value), c.value.pos))
  {
    var a := Multispace0(s, i);
    match ImportAt(s, a)
    case Some(f) => Some(Parsed(Import(f.value), f.pos))
    case None =>
      match EnumAt(s, a)
      case Some(e) => Some(Parsed(EnumEntry(e.value), e.pos))
      case None =>
        match ClassAt(s, a)
        case Some(c) => Some(Parsed(ClassEntry(c.value), c.pos))
        case None => None
  }

  /** `es` are the items read one after the other from `i`, the last one ending at `e`. */
  predicate ItemsRead(s: string, i: nat, es: seq<DocumentEntry>, e: nat)
    requires i <= |s|
    decreases |es|
  {
    if es == [] then e == i
    else ItemAt(s, i).Some? && ItemAt(s, i).value.value == es[0] &&
         ItemsRead(s, ItemAt(s, i).value.pos, es[1..], e)
  }

  /**
   * `document`: items until the first one that does not parse. It never
   * fails; what it could not parse is returned as the rest.
   */
  function DocumentAt(s: string, i: nat): (r: Parsed<Document>)
    requires i <= |s|
    ensures i <= r.pos <= |s|
    ensures ItemAt(s, r.pos).None?
    ensures r.value.entries == [] <==> ItemAt(s, i).None?
    ensures ItemsRead(s, i, r.value.entries, r.pos)
    decreases |s| - i
  {
    match ItemAt(s, i)
    case None => Parsed(Document([]), i)
    case Some(p) =>
      var rest := DocumentAt(s, p.pos);
      Parsed(Document([p.value] + rest.value.entries), rest.pos)
  }

  /* ---- Rendering a variant, and reading it back ---- */

  /** The text `enum_variant_value` reads for a value. */
  function ValueText(v: EnumVariantValue): string {
    match v
    case Number(t) => t
    case Hex(h) => "0x" + h
    case Union(ns) => Join(ns, " | ")
  }

  /** A hex value with at least one digit, or a decimal one with an optional `-`. */
  predicate ScalarValue(v: EnumVariantValue) {
    match v
    case Number(t) => |t| > 0 && (if t[0] == '-' then |t| > 1 && AllDigits(t[1..]) else AllDigits(t))
    case Hex(h) => |h| > 0 && forall k :: 0 <= k < |h| ==> IsHexDigit(h[k])
    case Union(_) => false
  }

  function ReasonText(reason: Option<string>): string {
    if reason.Some? then " \"" + reason.value + "\"" else ""
  }

  function StatusText(removed: bool, obsolete: bool, reason: Option<string>): string {
    if removed then " removed" + ReasonText(reason)
    else if obsolete then " obsolete" + ReasonText(reason)
    else ""
  }

  /** A variant in the form `NAME = value; [removed|obsolete ["reason"]]`. */
  function VariantText(v: EnumVariant): string {
    v.name + " = " + ValueText(v.value) + ";" + StatusText(v.removed, v.obsolete, v.reason)
  }

  /** The variants `VariantText` can render faithfully: no inline comment, and a status the grammar can carry. */
  predicate Renderable(v: EnumVariant) {
    |v.name| > 0 && AllIdentChars(v.name) && ScalarValue(v.value) && v.comment.None? &&
    !(v.removed && v.obsolete) && (v.reason.Some? ==> (v.removed || v.obsolete)) &&
    (v.reason.Some? ==> |v.reason.value| > 0 && forall k :: 0 <= k < |v.reason.value| ==> IsReasonChar(v.reason.value[k]))
  }

  /** An identifier that is known to end at `j` is read up to `j`. */
  lemma IdentifierOn(s: string, i: nat, j: nat)
    requires i < j <= |s| && (forall k :: i <= k < j ==> IsIdentChar(s[k])) && (j == |s| || !IsIdentChar(s[j]))
    ensures IdentifierAt(s, i) == Some(j)
  {
    assert j < |s| ==> !IsIdentChar(s[j]);
  }

  /** Hex digits after `0x`, followed by a non-digit, are read back as they are. */
  lemma HexOn(s: string, i: nat, h: string)
    requires |h| > 0 && (forall k :: 0 <= k < |h| ==> IsHexDigit(h[k]))
    requires i <= |s| && StartsWith(s, i, "0x" + h) && (i + 2 + |h| == |s| || !IsHexDigit(s[i + 2 + |h|]))
    ensures HexAt(s, i) == Some(Parsed(h, i + 2 + |h|))
  {
    var j := i + 2 + |h|;
    assert s[i..j] == "0x" + h;
    assert s[i] == s[i..j][0] == '0' && s[i + 1] == s[i..j][1] == 'x';
    assert s[i..i + 2] == "0x";
    assert forall k :: i + 2 <= k < j ==> s[k] == h[k - i - 2];
    assert s[i + 2..j] == h;
  }

  /** A decimal value followed by `;` is read back as it is, and is not taken for hex. */
  lemma NumberOn(s: string, i: nat, n: string)
    requires ScalarValue(EnumVariantValue.Number(n))
    requires i <= |s| && StartsWith(s, i, n) && i + |n| < |s| && s[i + |n|] == ';'
    ensures HexAt(s, i).None? && NumberAt(s, i) == Some(i + |n|)
  {
    var j := i + |n|;
    assert forall k :: i <= k < j ==> s[k] == n[k - i] by {
      assert s[i..j] == n;
    }
    assert HexAt(s, i).None? by {
      assert s[i + 1] != 'x';
      if i + 2 <= |s| {
        assert s[i..i + 2][1] == s[i + 1];
      }
    }
    var d := if n[0] == '-' then i + 1 else i;
    assert forall k :: d <= k < j ==> IsDigit(s[k]) by {
      if n[0] == '-' {
        assert forall k :: i + 1 <= k < j ==> s[k] == n[1..][k - i - 1];
      }
    }
    SpanOn(s, d, j, IsDigit);
  }

  /** A scalar value followed by `;` is read back as itself. */
  lemma ValueOn(s: string, i: nat, v: EnumVariantValue)
    requires ScalarValue(v) && i <= |s| && StartsWith(s, i, ValueText(v) + ";")
    ensures i + |ValueText(v)| < |s| && s[i + |ValueText(v)|] == ';'
    ensures EnumVariantValueAt(s, i) == Some(Parsed(v, i + |ValueText(v)|))
  {
    var t := ValueText(v);
    var j := i + |t|;
    assert s[i..j + 1] == t + ";";
    assert s[j] == (t + ";")[|t|];
    assert s[i..j] == s[i..j + 1][..|t|];
    match v
    case Hex(h) => HexOn(s, i, h);
    case Number(n) => NumberOn(s, i, n);
  }

  /** A quoted reason followed by the end of the input or a line break is read back. */
  lemma ReasonOn(s: string, i: nat, reason: string)
    requires |reason| > 0 && forall k :: 0 <= k < |reason| ==> IsReasonChar(reason[k])
    requires i <= |s| && StartsWith(s, i, "\"" + reason + "\"")
    ensures ReasonAt(s, i) == Some(Parsed(reason, i + |reason| + 2))
  {
    var t := "\"" + reason + "\"";
    var j := i + |reason| + 1;
    assert s[i..j + 1] == t;
    assert forall k :: i <= k <= j ==> s[k] == t[k - i];
    SpanOn(s, i + 1, j, IsReasonChar);
    assert s[i + 1..j] == reason;
  }

  /** One space, then `kw`: the space is the whole `space1`, and `kw` is told apart from the other keyword. */
  lemma KeywordOn(s: string, i: nat, kw: string)
    requires kw == "removed" || kw == "obsolete"
    requires i + 1 <= |s| && s[i] == ' ' && StartsWith(s, i + 1, kw)
    ensures Space1(s, i) == Some(i + 1)
    ensures StartsWith(s, i + 1, "removed") <==> kw == "removed"
  {
    assert s[i + 1] == s[i + 1..i + 1 + |kw|][0] == kw[0];
    SpanOn(s, i, i + 1, IsSpace);
  }

  /** The status after a keyword that is not followed by spaces. */
  lemma StatusNoReason(s: string, i: nat, kw: string)
    requires kw == "removed" || kw == "obsolete"
    requires i < |s| && Space1(s, i) == Some(i + 1)
    requires (StartsWith(s, i + 1, "removed") <==> kw == "removed") && StartsWith(s, i + 1, kw)
    requires i + 1 + |kw| == |s| || s[i + 1 + |kw|] == '\n'
    ensures StatusAt(s, i) == Parsed((kw, None), i + 1 + |kw|)
  {
  }

  /** The status after a keyword followed by one space and a reason. */
  lemma StatusWithReason(s: string, i: nat, kw: string, b: nat, reason: string, e: nat)
    requires kw == "removed" || kw == "obsolete"
    requires i < |s| && Space1(s, i) == Some(i + 1)
    requires (StartsWith(s, i + 1, "removed") <==> kw == "removed") && StartsWith(s, i + 1, kw)
    requires b == i + 1 + |kw| && b <= |s| && Space1(s, b) == Some(b + 1) && b + 1 <= |s|
    requires ReasonAt(s, b + 1) == Some(Parsed(reason, e))
    ensures StatusAt(s, i) == Parsed((kw, Some(reason)), e)
  {
  }

  /** One space, then `kw` at the start of the text. */
  lemma SpacedKeyword(s: string, i: nat, kw: string)
    requires kw == "removed" || kw == "obsolete"
    requires i <= |s| && StartsWith(s, i, " " + kw)
    ensures i < |s| && Space1(s, i) == Some(i + 1)
    ensures (StartsWith(s, i + 1, "removed") <==> kw == "removed") && StartsWith(s, i + 1, kw)
  {
    StartsWithConcat(s, i, " ", kw);
    assert s[i] == s[i..i + 1][0];
    KeywordOn(s, i, kw);
  }

  /** One space, then a quoted reason. */
  lemma SpacedReason(s: string, b: nat, reason: string, e: nat)
    requires |reason| > 0 && forall k :: 0 <= k < |reason| ==> IsReasonChar(reason[k])
    requires b <= |s| && StartsWith(s, b, " " + ("\"" + reason + "\"")) && e == b + 3 + |reason|
    ensures b + 1 <= |s| && Space1(s, b) == Some(b + 1) && ReasonAt(s, b + 1) == Some(Parsed(reason, e))
  {
    var q := "\"" + reason + "\"";
    StartsWithConcat(s, b, " ", q);
    assert s[b] == s[b..b + 1][0];
    assert s[b + 1] == s[b + 1..b + 1 + |q|][0];
    SpanOn(s, b, b + 1, IsSpace);
    ReasonOn(s, b + 1, reason);
  }

  /** `kw` after one space, with no reason. */
  lemma BareStatusOn(s: string, i: nat, kw: string)
    requires kw == "removed" || kw == "obsolete"
    requires i <= |s| && StartsWith(s, i, " " + kw)
    requires var e := i + 1 + |kw|; e == |s| || s[e] == '\n'
    ensures StatusAt(s, i) == Parsed((kw, None), i + 1 + |kw|)
  {
    SpacedKeyword(s, i, kw);
    StatusNoReason(s, i, kw);
  }

  /** `kw` after one space, then one space and a quoted reason. */
  lemma ReasonStatusOn(s: string, i: nat, kw: string, reason: string, e: nat)
    requires kw == "removed" || kw == "obsolete"
    requires |reason| > 0 && forall k :: 0 <= k < |reason| ==> IsReasonChar(reason[k])
    requires i <= |s| && StartsWith(s, i, (" " + kw) + (" " + ("\"" + reason + "\""))) && e == i + 4 + |kw| + |reason|
    ensures StatusAt(s, i) == Parsed((kw, Some(reason)), e)
  {
    var b := i + 1 + |kw|;
    StartsWithConcat(s, i, " " + kw, " " + ("\"" + reason + "\""));
    SpacedKeyword(s, i, kw);
    SpacedReason(s, b, reason, e);
    StatusWithReason(s, i, kw, b, reason, e);
  }

  /** The text of a status with a reason, split at the space before the reason. */
  lemma ReasonTextShape(kw: string, r: string)
    ensures " " + kw + ReasonText(Some(r)) == (" " + kw) + (" " + ("\"" + r + "\""))
  {
  }

  /** The keyword `StatusAt` reports for a status. */
  function StatusKeyword(removed: bool, obsolete: bool): string {
    if removed then "removed" else if obsolete then "obsolete" else ""
  }

  /** A status text is a space, the keyword and the reason text, or nothing. */
  lemma StatusTextShape(removed: bool, obsolete: bool, reason: Option<string>)
    ensures removed || obsolete ==>
              StatusText(removed, obsolete, reason) == " " + StatusKeyword(removed, obsolete) + ReasonText(reason)
    ensures !removed && !obsolete ==> StatusText(removed, obsolete, reason) == ""
  {
  }

  /** A status text the grammar can carry, followed by the end of the input or a line break, is read back. */
  lemma StatusOn(s: string, i: nat, removed: bool, obsolete: bool, reason: Option<string>)
    requires !(removed && obsolete) && (reason.Some? ==> removed || obsolete)
    requires reason.Some? ==> |reason.value| > 0 && forall k :: 0 <= k < |reason.value| ==> IsReasonChar(reason.value[k])
    requires i <= |s| && StartsWith(s, i, StatusText(removed, obsolete, reason))
    requires var e := i + |StatusText(removed, obsolete, reason)|; e == |s| || s[e] == '\n'
    ensures StatusAt(s, i) == Parsed((StatusKeyword(removed, obsolete), reason), i + |StatusText(removed, obsolete, reason)|)
  {
    var kw := StatusKeyword(removed, obsolete);
    var e := i + |StatusText(removed, obsolete, reason)|;
    StatusTextShape(removed, obsolete, reason);
    if !removed && !obsolete {
      assert Space1(s, i).None?;
    } else if reason.None? {
      assert " " + kw + ReasonText(reason) == " " + kw;
      BareStatusOn(s, i, kw);
    } else {
      ReasonTextShape(kw, reason.value);
      ReasonStatusOn(s, i, kw, reason.value, e);
    }
  }

  /** Before an identifier character there is no whitespace and no full-line comment to skip. */
  lemma NothingBefore(s: string, i: nat)
    requires i < |s| && IsIdentChar(s[i])
    ensures Multispace0(s, i) == i && LeadingCommentEnd(s, i) == i
  {
    assert !IsSpace(s[i]) && !IsMultispace(s[i]);
    assert Space0(s, i) == i by {
      SpanOn(s, i, i, IsSpace);
    }
    assert Multispace0(s, i) == i by {
      Multispace0On(s, i, i);
    }
    assert !StartsWith(s, i, "//") by {
      if i + 2 <= |s| {
        assert s[i..i + 2][0] == s[i] != '/';
      }
    }
    assert CommentAt(s, i).None?;
  }

  lemma VariantNameSteps(s: string, i: nat, n: nat)
    requires i + n + 3 <= |s|
    requires LeadingCommentEnd(s, i) == i && Multispace0(s, i) == i && IdentifierAt(s, i) == Some(i + n)
    requires Space1(s, i + n) == Some(i + n + 1) && s[i + n + 1] == '=' && Space1(s, i + n + 2) == Some(i + n + 3)
    ensures VariantNameAt(s, i) == Some(Parsed(s[i..i + n], i + n + 3))
  {
  }

  /** `VariantNameAt` on a name with nothing before it, followed by ` = ` and a non-space. */
  lemma VariantNameOn(s: string, i: nat, n: nat)
    requires i + n + 3 < |s| && 0 < n
    requires forall k :: i <= k < i + n ==> IsIdentChar(s[k])
    requires s[i + n] == ' ' && s[i + n + 1] == '=' && s[i + n + 2] == ' ' && !IsSpace(s[i + n + 3])
    ensures VariantNameAt(s, i) == Some(Parsed(s[i..i + n], i + n + 3))
  {
    NothingBefore(s, i);
    IdentifierOn(s, i, i + n);
    SpanOn(s, i + n, i + n + 1, IsSpace);
    SpanOn(s, i + n + 2, i + n + 3, IsSpace);
    VariantNameSteps(s, i, n);
  }

  /** At the end of the input or a line break there is no inline comment. */
  lemma NoCommentAt(s: string, e: nat)
    requires e <= |s| && (e == |s| || s[e] == '\n')
    ensures CommentAt(s, e).None?
  {
    assert Space0(s, e) == e;
  }

  lemma VariantTrailerSteps(s: string, i: nat, kw: string, reason: Option<string>, e: nat)
    requires i <= e <= |s| && StatusAt(s, i) == Parsed((kw, reason), e) && CommentAt(s, e).None?
    ensures VariantTrailerAt(s, i) == Parsed(Trailer(kw, reason, None), Multispace0(s, e))
  {
  }

  /** `VariantTrailerAt` on a status text followed by the end of the input or a line break. */
  lemma VariantTrailerOn(s: string, i: nat, removed: bool, obsolete: bool, reason: Option<string>)
    requires !(removed && obsolete) && (reason.Some? ==> removed || obsolete)
    requires reason.Some? ==> |reason.value| > 0 && forall k :: 0 <= k < |reason.value| ==> IsReasonChar(reason.value[k])
    requires i <= |s| && StartsWith(s, i, StatusText(removed, obsolete, reason))
    requires var e := i + |StatusText(removed, obsolete, reason)|; e == |s| || s[e] == '\n'
    ensures var e := i + |StatusText(removed, obsolete, reason)|;
            VariantTrailerAt(s, i) == Parsed(Trailer(StatusKeyword(removed, obsolete), reason, None), Multispace0(s, e))
  {
    var e := i + |StatusText(removed, obsolete, reason)|;
    StatusOn(s, i, removed, obsolete, reason);
    TrailerAfterStatus(s, i, StatusKeyword(removed, obsolete), reason, e);
  }

  /** A status that ends at the end of the input or at a line break is followed by no comment. */
  lemma TrailerAfterStatus(s: string, i: nat, kw: string, reason: Option<string>, e: nat)
    requires i <= e <= |s| && StatusAt(s, i) == Parsed((kw, reason), e) && (e == |s| || s[e] == '\n')
    ensures VariantTrailerAt(s, i) == Parsed(Trailer(kw, reason, None), Multispace0(s, e))
  {
    NoCommentAt(s, e);
    VariantTrailerSteps(s, i, kw, reason, e);
  }

  lemma EnumVariantSteps(s: string, i: nat, v: EnumVariant, p: nat, j: nat, k: nat, e: nat)
    requires i < p <= j < |s| && e <= |s| && !(v.removed && v.obsolete) && v.comment.None?
    requires VariantNameAt(s, i) == Some(Parsed(v.name, p)) && EnumVariantValueAt(s, p) == Some(Parsed(v.value, j))
    requires Char(s, Space0(s, j), ';') == Some(k)
    requires VariantTrailerAt(s, k) == Parsed(Trailer(StatusKeyword(v.removed, v.obsolete), v.reason, None), e)
    ensures EnumVariantAt(s, i) == Some(Parsed(v, e))
  {
    StatusKeywordFlags(v.removed, v.obsolete);
  }

  /** `StatusKeyword` names exactly the flag that is set. */
  lemma StatusKeywordFlags(removed: bool, obsolete: bool)
    requires !(removed && obsolete)
    ensures (StatusKeyword(removed, obsolete) == "removed") == removed
    ensures (StatusKeyword(removed, obsolete) == "obsolete") == obsolete
  {
  }

  /** Where the parts of `a = b;c` sit in the input. */
  lemma VariantLayout(s: string, i: nat, a: string, b: string, c: string)
    requires i <= |s| && StartsWith(s, i, a + " = " + b + ";" + c)
    ensures var n := |a|; var j := i + n + 3 + |b|;
            j < |s| && s[i..i + n] == a &&
            s[i + n] == ' ' && s[i + n + 1] == '=' && s[i + n + 2] == ' ' &&
            StartsWith(s, i + n + 3, b + ";") && s[j] == ';' && StartsWith(s, j + 1, c)
  {
    var n := |a|;
    var j := i + n + 3 + |b|;
    var t := a + " = " + b + ";" + c;
    assert s[i..i + |t|] == t;
    assert forall k :: i <= k < i + |t| ==> s[k] == t[k - i];
    assert s[i..i + n] == t[..n] == a;
    assert s[i + n + 3..j + 1] == t[n + 3..n + 4 + |b|] == b + ";";
    assert s[j + 1..i + |t|] == t[n + 4 + |b|..] == c;
  }

  /** The name and `=` of a rendered variant. */
  lemma VariantNamePiece(s: string, i: nat, v: EnumVariant, p: nat)
    requires Renderable(v)
    requires i <= |s| && StartsWith(s, i, VariantText(v))
    requires p == i + |v.name| + 3
    ensures VariantNameAt(s, i) == Some(Parsed(v.name, p))
  {
    var t := ValueText(v.value);
    var j := p + |t|;
    var st := StatusText(v.removed, v.obsolete, v.reason);
    assert VariantText(v) == v.name + " = " + t + ";" + st;
    VariantLayout(s, i, v.name, t, st);
    assert s[p] == t[0] by { assert s[p..j + 1][0] == (t + ";")[0]; }
    ValueTextStart(v.value);
    VariantNameLaidOut(s, i, v.name, p);
  }

  /** A name of identifier characters followed by ` = ` and a non-space is read as the variant's name. */
  lemma VariantNameLaidOut(s: string, i: nat, a: string, p: nat)
    requires |a| > 0 && AllIdentChars(a) && p == i + |a| + 3 && p < |s| && s[i..i + |a|] == a
    requires s[i + |a|] == ' ' && s[i + |a| + 1] == '=' && s[i + |a| + 2] == ' ' && !IsSpace(s[p])
    ensures VariantNameAt(s, i) == Some(Parsed(a, p))
  {
    IdentCharsAt(s, i, a);
    VariantNameOn(s, i, |a|);
  }

  /** A scalar value's text starts with a character that is not a space. */
  lemma ValueTextStart(v: EnumVariantValue)
    requires ScalarValue(v)
    ensures |ValueText(v)| > 0 && !IsSpace(ValueText(v)[0])
  {
  }

  /** A text of identifier characters found at `i` puts identifier characters there. */
  lemma IdentCharsAt(s: string, i: nat, a: string)
    requires i + |a| <= |s| && s[i..i + |a|] == a && AllIdentChars(a)
    ensures forall k :: i <= k < i + |a| ==> IsIdentChar(s[k])
  {
    assert forall k :: i <= k < i + |a| ==> s[k] == a[k - i];
  }

  /** The value and `;` of a rendered variant. */
  lemma VariantValuePiece(s: string, i: nat, v: EnumVariant, p: nat, j: nat, k: nat)
    requires Renderable(v)
    requires i <= |s| && StartsWith(s, i, VariantText(v))
    requires p == i + |v.name| + 3 && j == p + |ValueText(v.value)| && k == j + 1
    ensures i < p <= j < k <= |s|
    ensures EnumVariantValueAt(s, p) == Some(Parsed(v.value, j))
    ensures Char(s, Space0(s, j), ';') == Some(k)
  {
    var vt := ValueText(v.value);
    var st := StatusText(v.removed, v.obsolete, v.reason);
    assert VariantText(v) == v.name + " = " + vt + ";" + st;
    VariantLayout(s, i, v.name, vt, st);
    ValueSemicolonPiece(s, p, v.value, j);
  }

  /** A value and `;` laid out at `p` are read back, the `;` right after the value. */
  lemma ValueSemicolonPiece(s: string, p: nat, val: EnumVariantValue, j: nat)
    requires ScalarValue(val) && p <= |s| && StartsWith(s, p, ValueText(val) + ";") && j == p + |ValueText(val)|
    ensures j < |s| && EnumVariantValueAt(s, p) == Some(Parsed(val, j)) && Char(s, Space0(s, j), ';') == Some(j + 1)
  {
    ValueOn(s, p, val);
    SemicolonAt(s, j);
  }

  /** A `;` right at `j` is found with no spaces before it. */
  lemma SemicolonAt(s: string, j: nat)
    requires j < |s| && s[j] == ';'
    ensures Char(s, Space0(s, j), ';') == Some(j + 1)
  {
    assert Space0(s, j) == j;
  }

  /** The status after the `;` of a rendered variant. */
  lemma VariantStatusPiece(s: string, i: nat, v: EnumVariant, k: nat, end: nat, e: nat)
    requires Renderable(v)
    requires i <= |s| && StartsWith(s, i, VariantText(v))
    requires end == i + |VariantText(v)| && (end == |s| || s[end] == '\n')
    requires k == i + |v.name| + 3 + |ValueText(v.value)| + 1
    requires e == Multispace0(s, end)
    ensures k <= e <= |s|
    ensures VariantTrailerAt(s, k) == Parsed(Trailer(StatusKeyword(v.removed, v.obsolete), v.reason, None), e)
  {
    var vt := ValueText(v.value);
    var st := StatusText(v.removed, v.obsolete, v.reason);
    assert VariantText(v) == v.name + " = " + vt + ";" + st;
    assert |VariantText(v)| == |v.name| + 3 + |vt| + 1 + |st|;
    VariantLayout(s, i, v.name, vt, st);
    VariantTrailerOn(s, k, v.removed, v.obsolete, v.reason);
  }

  /** A renderable variant, followed by the end of the input or a line break, is read back as itself. */
  lemma EnumVariantOn(s: string, i: nat, v: EnumVariant, end: nat)
    requires Renderable(v)
    requires i <= |s| && StartsWith(s, i, VariantText(v))
    requires end == i + |VariantText(v)| && (end == |s| || s[end] == '\n')
    ensures EnumVariantAt(s, i) == Some(Parsed(v, Multispace0(s, end)))
  {
    var p := i + |v.name| + 3;
    var j := p + |ValueText(v.value)|;
    var k := j + 1;
    var e := Multispace0(s, end);
    VariantNamePiece(s, i, v, p);
    VariantValuePiece(s, i, v, p, j, k);
    VariantStatusPiece(s, i, v, k, end, e);
    EnumVariantSteps(s, i, v, p, j, k, e);
  }

  /** One full-line comment before a variant is dropped: the variant reads as if it started after the comment. */
  lemma LeadingCommentDropped(s: string, i: nat, c: nat)
    requires i <= |s| && CommentAt(s, Multispace0(s, i)).Some? && CommentAt(s, Multispace0(s, i)).value.pos == c
    requires CommentAt(s, Multispace0(s, c)).None?
    ensures VariantNameAt(s, i) == VariantNameAt(s, c)
  {
    assert LeadingCommentEnd(s, i) == c;
    assert LeadingCommentEnd(s, c) == c;
    SameNameStart(s, i, c);
  }

  /** The name read depends only on where the leading comment ends. */
  lemma SameNameStart(s: string, i: nat, j: nat)
    requires i <= |s| && j <= |s| && LeadingCommentEnd(s, i) == LeadingCommentEnd(s, j)
    ensures VariantNameAt(s, i) == VariantNameAt(s, j)
  {
  }

  /** A second full-line comment is not dropped: the name is then missing. */
  lemma SecondCommentRejected(s: string, i: nat, c: nat)
    requires i <= |s| && CommentAt(s, Multispace0(s, i)).Some? && CommentAt(s, Multispace0(s, i)).value.pos == c
    requires StartsWith(s, Multispace0(s, c), "//")
    ensures VariantNameAt(s, i).None?
  {
    var m := Multispace0(s, c);
    assert s[m] == '/' by { assert s[m..m + 2][0] == '/'; }
  }

  /* ---- Reading back the other productions ---- */

  /** A path of two identifiers joined by `::` or `.`, not followed by an identifier character, is recognised whole. */
  lemma ParseRefOn(s: string, i: nat, a: string, sep: string, b: string)
    requires sep == "::" || sep == "."
    requires |a| > 0 && AllIdentChars(a) && |b| > 0 && AllIdentChars(b)
    requires i <= |s| && StartsWith(s, i, a + sep + b)
    requires var e := i + |a| + |sep| + |b|; e == |s| || !IsIdentChar(s[e])
    ensures ParseRefAt(s, i) == Some(i + |a| + |sep| + |b|)
  {
    var j := i + |a|;
    var k := j + |sep|;
    var e := k + |b|;
    assert StartsWith(s, i, a) && StartsWith(s, j, sep) && StartsWith(s, k, b) by {
      StartsWithConcat(s, i, a + sep, b);
      StartsWithConcat(s, i, a, sep);
    }
    assert IdentifierAt(s, i) == Some(j) by {
      IdentCharsAt(s, i, a);
      assert s[j] == s[j..k][0];
      IdentifierOn(s, i, j);
    }
    assert RefSeparatorAt(s, j) == Some(k) by {
      if sep == "." {
        assert !StartsWith(s, j, "::") by {
          if j + 2 <= |s| {
            assert s[j..j + 2][0] == s[j] == s[j..k][0];
          }
        }
      }
    }
    assert IdentifierAt(s, k) == Some(e) by {
      IdentCharsAt(s, k, b);
      IdentifierOn(s, k, e);
    }
  }

  /** A generic argument between `<` and `>` is read back as it is. */
  lemma GenericOn(s: string, i: nat, g: string)
    requires |g| > 0 && forall k :: 0 <= k < |g| ==> IsGenericChar(g[k])
    requires i <= |s| && StartsWith(s, i, "<" + g + ">")
    ensures GenericAt(s, i) == Some(Parsed(g, i + |g| + 2))
  {
    var t := "<" + g + ">";
    var j := i + 1 + |g|;
    assert s[i..j + 1] == t;
    assert forall k :: i <= k <= j ==> s[k] == t[k - i];
    SpanOn(s, i + 1, j, IsGenericChar);
    assert s[i + 1..j] == g;
  }

  /** `//` and a line without line breaks, followed by the end or `'\n'`, is read as that line trimmed. */
  lemma CommentOn(s: string, i: nat, t: string)
    requires forall k :: 0 <= k < |t| ==> NotLineBreak(t[k])
    requires i <= |s| && StartsWith(s, i, "//" + t)
    requires var e := i + 2 + |t|; e == |s| || s[e] == '\n'
    ensures CommentAt(s, i) == Some(Parsed(Trim(t), i + 2 + |t|))
  {
    var u := "//" + t;
    var e := i + 2 + |t|;
    assert s[i..e] == u;
    assert forall k :: i <= k < e ==> s[k] == u[k - i];
    assert Space0(s, i) == i by {
      SpanOn(s, i, i, IsSpace);
    }
    assert s[i..i + 2] == "//";
    assert forall k :: i + 2 <= k < e ==> NotLineBreak(s[k]) by {
      assert forall k :: i + 2 <= k < e ==> s[k] == t[k - i - 2];
    }
    NotLineEndingOn(s, i + 2, e);
    assert s[i + 2..e] == t;
  }

  /** `#import`, one space and a quoted file name is read back as that name. */
  lemma ImportOn(s: string, i: nat, f: string)
    requires |f| > 0 && forall k :: 0 <= k < |f| ==> IsReasonChar(f[k])
    requires i <= |s| && StartsWith(s, i, "#import " + ("\"" + f + "\""))
    ensures ImportAt(s, i) == Some(Parsed(f, Multispace0(s, i + |f| + 10)))
  {
    var q := "\"" + f + "\"";
    StartsWithConcat(s, i, "#import ", q);
    assert s[i] == s[i..i + 8][0];
    assert Multispace0(s, i) == i by {
      Multispace0On(s, i, i);
    }
    assert s[i..i + 7] == s[i..i + 8][..7];
    assert s[i + 7] == s[i..i + 8][7];
    assert s[i + 8] == s[i + 8..i + 8 + |q|][0];
    assert Multispace0(s, i + 7) == i + 8 by {
      Multispace0On(s, i + 7, i + 8);
    }
    ReasonOn(s, i + 8, f);
  }

  /** Non-empty identifiers, as the union form holds them. */
  predicate Names(ns: seq<string>)
    decreases |ns|
  {
    ns == [] || (|ns[0]| > 0 && AllIdentChars(ns[0]) && Names(ns[1..]))
  }

  /** What may follow a union's last name: nothing, or a character that neither continues it nor separates. */
  predicate UnionStop(s: string, e: nat) {
    e <= |s| && (e == |s| || (s[e] != '|' && !IsMultispace(s[e]) && !IsIdentChar(s[e])))
  }

  /** The names `ns`, each after ` | `, laid out in `s` from `j` on and ending at `e`. */
  predicate UnionLaid(s: string, j: nat, ns: seq<string>, e: nat)
    decreases |ns|
  {
    j <= |s| &&
    if ns == [] then e == j
    else StartsWith(s, j, " | ") && StartsWith(s, j + 3, ns[0]) && UnionLaid(s, j + 3 + |ns[0]|, ns[1..], e)
  }

  /** Where further names are laid out, or the union stops, no identifier character follows. */
  lemma AfterName(s: string, c: nat, ns: seq<string>, e: nat)
    requires UnionLaid(s, c, ns, e) && UnionStop(s, e)
    ensures c == |s| || !IsIdentChar(s[c])
  {
    if ns != [] {
      assert s[c] == s[c..c + 3][0];
    }
  }

  /** A name at `i` with no identifier character after it is the identifier read there. */
  lemma NameAt(s: string, i: nat, n: string)
    requires |n| > 0 && AllIdentChars(n) && i <= |s| && StartsWith(s, i, n)
    requires i + |n| == |s| || !IsIdentChar(s[i + |n|])
    ensures IdentifierAt(s, i) == Some(i + |n|) && s[i..i + |n|] == n
  {
    IdentCharsAt(s, i, n);
    IdentifierOn(s, i, i + |n|);
  }

  /** ` | ` before a name: the separator with its spaces ends where the name starts. */
  lemma BarAt(s: string, j: nat, n: string)
    requires |n| > 0 && AllIdentChars(n) && j <= |s| && StartsWith(s, j, " | ") && StartsWith(s, j + 3, n)
    ensures j + 3 <= |s| && Multispace0(s, j) == j + 1 && s[j + 1] == '|' && Multispace0(s, j + 2) == j + 3
  {
    assert s[j] == s[j..j + 3][0] && s[j + 1] == s[j..j + 3][1] && s[j + 2] == s[j..j + 3][2];
    assert s[j + 3] == s[j + 3..j + 3 + |n|][0] == n[0];
    Multispace0On(s, j, j + 1);
    Multispace0On(s, j + 2, j + 3);
  }

  /** One step of `UnionTail`: a separator with its spaces, then a name. */
  lemma UnionTailStep(s: string, j: nat, c: nat, n: string)
    requires j + 3 <= |s| && Multispace0(s, j) == j + 1 && s[j + 1] == '|' && Multispace0(s, j + 2) == j + 3
    requires IdentifierAt(s, j + 3) == Some(c) && s[j + 3..c] == n
    ensures UnionTail(s, j) == Parsed([n] + UnionTail(s, c).value, UnionTail(s, c).pos)
  {
  }

  /** A non-empty sequence is its head followed by its tail. */
  lemma HeadTail<T>(xs: seq<T>)
    requires |xs| > 0
    ensures [xs[0]] + xs[1..] == xs
  {
  }

  /** Joins one step of `UnionTail` with what the rest of the tail reads. */
  lemma UnionTailJoin(s: string, j: nat, c: nat, ns: seq<string>, e: nat)
    requires j <= |s| && c <= |s| && |ns| > 0
    requires UnionTail(s, j) == Parsed([ns[0]] + UnionTail(s, c).value, UnionTail(s, c).pos)
    requires UnionTail(s, c) == Parsed(ns[1..], e)
    ensures UnionTail(s, j) == Parsed(ns, e)
  {
    HeadTail(ns);
  }

  /**
   * Every element `UnionTail` returns is an identifier read after a `|`
   * separator, in order, and the tail stops only where no further `|`
   * and identifier follow.
   */
  lemma {:induction false} UnionTailRead(s: string, j: nat)
    requires j <= |s|
    ensures TailRead(s, j, UnionTail(s, j).value, UnionTail(s, j).pos) && TailEnds(s, UnionTail(s, j).pos)
    decreases |s| - j
  {
    var a := Multispace0(s, j);
    if a < |s| && s[a] == '|' && IdentifierAt(s, Multispace0(s, a + 1)).Some? {
      var b := Multispace0(s, a + 1);
      var c := IdentifierAt(s, b).value;
      UnionTailCons(s, j, c);
      UnionTailRead(s, c);
      TailReadCons(s, j, c, UnionTail(s, c).value, UnionTail(s, c).pos);
    } else {
      assert UnionTail(s, j) == Parsed([], j);
    }
  }

  /** `UnionTail` reads one element after a `|` separator and continues after it. */
  lemma UnionTailCons(s: string, j: nat, c: nat)
    requires j <= |s| && Multispace0(s, j) < |s| && s[Multispace0(s, j)] == '|'
    requires IdentifierAt(s, Multispace0(s, Multispace0(s, j) + 1)) == Some(c)
    ensures UnionTail(s, j) == Parsed([s[Multispace0(s, Multispace0(s, j) + 1)..c]] + UnionTail(s, c).value, UnionTail(s, c).pos)
  {
  }

  /** Reading one more element in front of a tail. */
  lemma TailReadCons(s: string, j: nat, c: nat, ns: seq<string>, e: nat)
    requires j <= |s| && Multispace0(s, j) < |s| && s[Multispace0(s, j)] == '|'
    requires IdentifierAt(s, Multispace0(s, Multispace0(s, j) + 1)) == Some(c)
    requires TailRead(s, c, ns, e)
    ensures TailRead(s, j, [s[Multispace0(s, Multispace0(s, j) + 1)..c]] + ns, e)
  {
    var ms := [s[Multispace0(s, Multispace0(s, j) + 1)..c]] + ns;
    assert ms[1..] == ns;
  }

  /** A union is its first identifier followed by the elements of its tail, read in order. */
  lemma UnionRead(s: string, i: nat)
    requires i <= |s| && UnionAt(s, i).Some?
    ensures var j := IdentifierAt(s, i).value;
            var r := UnionAt(s, i).value;
            r.value[0] == s[i..j] && TailRead(s, j, r.value[1..], r.pos) && TailEnds(s, r.pos)
  {
    var j := IdentifierAt(s, i).value;
    UnionTailRead(s, j);
    assert UnionAt(s, i).value.value[1..] == UnionTail(s, j).value;
  }

  /** Joins a union's first name with what its tail reads. */
  lemma UnionAtJoin(s: string, i: nat, c: nat, ns: seq<string>, e: nat)
    requires i < c <= |s| && |ns| > 0
    requires IdentifierAt(s, i) == Some(c) && s[i..c] == ns[0]
    requires UnionTail(s, c) == Parsed(ns[1..], e)
    ensures UnionAt(s, i) == Some(Parsed(ns, e))
  {
    HeadTail(ns);
  }

  /** Names laid out after ` | ` separators, followed by what stops the union, are read back in order. */
  lemma {:induction false} UnionTailOn(s: string, j: nat, ns: seq<string>, e: nat)
    requires Names(ns) && UnionLaid(s, j, ns, e) && UnionStop(s, e)
    ensures UnionTail(s, j) == Parsed(ns, e)
    decreases |ns|
  {
    if ns == [] {
      assert Multispace0(s, j) == j by {
        Multispace0On(s, j, j);
      }
    } else {
      var n := ns[0];
      var c := j + 3 + |n|;
      BarAt(s, j, n);
      AfterName(s, c, ns[1..], e);
      NameAt(s, j + 3, n);
      UnionTailStep(s, j, c, n);
      UnionTailOn(s, c, ns[1..], e);
      UnionTailJoin(s, j, c, ns, e);
    }
  }

  /** A first name and further names laid out after it, followed by what stops the union, are read back as that union. */
  lemma {:induction false} UnionLaidOn(s: string, i: nat, ns: seq<string>, e: nat)
    requires |ns| > 0 && Names(ns)
    requires i <= |s| && StartsWith(s, i, ns[0]) && UnionLaid(s, i + |ns[0]|, ns[1..], e) && UnionStop(s, e)
    ensures UnionAt(s, i) == Some(Parsed(ns, e))
  {
    var c := i + |ns[0]|;
    assert IdentifierAt(s, i) == Some(c) && s[i..c] == ns[0] by {
      AfterName(s, c, ns[1..], e);
      NameAt(s, i, ns[0]);
    }
    assert UnionTail(s, c) == Parsed(ns[1..], e) by {
      UnionTailOn(s, c, ns[1..], e);
    }
    UnionAtJoin(s, i, c, ns, e);
  }

  /** Names joined by ` | ` put the first name at `i` and lay the others out after it. */
  lemma {:induction false} JoinLaid(s: string, i: nat, ns: seq<string>)
    requires |ns| > 0 && i <= |s| && StartsWith(s, i, Join(ns, " | "))
    ensures StartsWith(s, i, ns[0]) && UnionLaid(s, i + |ns[0]|, ns[1..], i + |Join(ns, " | ")|)
    decreases |ns|
  {
    var c := i + |ns[0]|;
    if |ns| > 1 {
      var rest := Join(ns[1..], " | ");
      assert Join(ns, " | ") == ns[0] + (" | " + rest);
      StartsWithConcat(s, i, ns[0], " | " + rest);
      StartsWithConcat(s, c, " | ", rest);
      JoinLaid(s, c + 3, ns[1..]);
    }
  }

  /** Names joined by ` | `, followed by a character that ends the union, are read back as that union. */
  lemma {:induction false} UnionOn(s: string, i: nat, ns: seq<string>)
    requires |ns| > 0 && Names(ns)
    requires i <= |s| && StartsWith(s, i, Join(ns, " | ")) && UnionStop(s, i + |Join(ns, " | ")|)
    ensures UnionAt(s, i) == Some(Parsed(ns, i + |Join(ns, " | ")|))
  {
    var e := i + |Join(ns, " | ")|;
    JoinLaid(s, i, ns);
    UnionLaidOn(s, i, ns, e);
  }
}
