/**
 * The single-line key/value parser of `steamkit-vdf/src/lib.rs`, built
 * from nom combinators. It shares its pieces with the KeyValues grammar
 * but differs in three ways: a quoted string is `cut` after its opening
 * quote (anything wrong inside is fatal, and `""` is wrong), the tag keeps
 * its brackets, and the line must have spaces after the value, after
 * which a comment may follow.
 */
module VdfNom {
  import opened Wrappers
  import opened Text
  import opened Nom
  import K = KvParser

  datatype KeyValue = KeyValue(key: string, value: Value, macro: Option<string>)

  /** `Map` holds an `IndexMap` from key to child. */
  datatype Value = String(text: string) | Map(entries: seq<(string, KeyValue)>)

  /**
   * `quoted_string`: a quote, then under `cut` a non-empty well-escaped
   * body and a closing quote.
   */
  function Quoted(s: string, i: nat): (r: PResult<string>)
    requires i <= |s|
    ensures r.Backtrack? <==> !(i < |s| && s[i] == '"')
    ensures r.Done? ==> var e := r.pos; i + 3 <= e <= |s| && s[e - 1] == '"' && r.value == s[i + 1..e - 1]
  {
    if i < |s| && s[i] == '"' then
      match K.EscapedEnd(s, i + 1, i + 1)
      case Some(e) =>
        if e < |s| then
          K.EscapedEndSound(s, i + 1, i + 1);
          Done(s[i + 1..e], e + 1)
        else Fatal
      case None => Fatal
    else Backtrack
  }

  /** `string`: quoted, or else unquoted; a fatal quoted string is not retried. */
  function Str(s: string, i: nat): (r: PResult<string>)
    requires i <= |s|
    ensures r.Fatal? <==> Quoted(s, i).Fatal?
    ensures r.Done? ==> i < r.pos <= |s|
    ensures r.Done? ==> if s[i] == '"' then r == Quoted(s, i)
                        else var e := r.pos; r.value == s[i..e] && K.Unquoted(s, i) == Some(e)
  {
    match Quoted(s, i)
    case Done(v, j) => Done(v, j)
    case Fatal => Fatal
    case Backtrack =>
      match K.Unquoted(s, i)
      case Some(j) => Done(s[i..j], j)
      case None => Backtrack
  }

  /** `parse_macro`: the same brackets as the KeyValues tag, but recognized, so the text keeps them. */
  function Macro(s: string, i: nat): (r: Option<(string, nat)>)
    requires i <= |s|
    ensures r.Some? <==> K.ParseMacro(s, i).Done?
    ensures r.Some? ==> r.value.1 == K.ParseMacro(s, i).pos && r.value.0 == "[" + K.ParseMacro(s, i).value + "]"
  {
    match K.ParseMacro(s, i)
    case Done(_, j) =>
      assert s[i..j] == [s[i]] + s[i + 1..j - 1] + [s[j - 1]];
      Some((s[i..j], j))
    case _ => None
  }

  /**
   * `key_value_string`: optional blanks, the key, blanks, the value,
   * blanks, an optional tag, optional blanks and an optional comment.
   * The value goes through the unescape chain; the key is kept as read.
   */
  function KeyValueString(s: string, i: nat): (r: PResult<KeyValue>)
    requires i <= |s|
    ensures r.Done? ==> i < r.pos <= |s| && r.value.value.String?
    ensures r.Done? ==> var key := Str(s, Space0(s, i));
                        key.Done? && r.value.key == key.value &&
                        var v := Str(s, Space0(s, key.pos));
                        Space0(s, key.pos) > key.pos && v.Done? &&
                        r.value.value == String(K.Unescape(v.value)) &&
                        v.pos < |s| && IsSpace(s[v.pos])
    ensures r.Fatal? ==> Str(s, Space0(s, i)).Fatal? ||
                         (Str(s, Space0(s, i)).Done? && Str(s, Space0(s, Str(s, Space0(s, i)).pos)).Fatal?)
  {
    match Str(s, Space0(s, i))
    case Done(key, j) =>
      (match Space1(s, j)
       case Some(j1) =>
         (match Str(s, j1)
          case Done(v, j2) =>
            (match Space1(s, j2)
             case Some(j3) =>
               var (m, j4) := match Macro(s, j3)
                              case Some((t, k)) => (Some(t), k)
                              case None => (None, j3);
               var j5 := Space0(s, j4);
               var j6 := match K.Comment(s, j5) case Some(k) => k case None => j5;
               Done(KeyValue(key, String(K.Unescape(v)), m), j6)
             case None => Backtrack)
          case Backtrack => Backtrack
          case Fatal => Fatal)
       case None => Backtrack)
    case Backtrack => Backtrack
    case Fatal => Fatal
  }

  /**
   * A line is read exactly when, after leading blanks, a key, blanks, a
   * value and blanks are read; it fails fatally exactly when the key, or
   * the value after a key and blanks, is fatal. A line read holds the key,
   * the unescaped value and the tag found after the blanks that follow
   * the value, brackets kept; it ends after the blanks that follow the
   * tag (or the value, without one) and after the comment there, if any.
   */
  lemma KeyValueStringRead(s: string, i: nat)
    requires i <= |s|
    ensures var r := KeyValueString(s, i); var key := Str(s, Space0(s, i));
            r.Done? <==> key.Done? && key.pos < |s| && IsSpace(s[key.pos]) &&
                         var v := Str(s, Space0(s, key.pos)); v.Done? && v.pos < |s| && IsSpace(s[v.pos])
    ensures var r := KeyValueString(s, i); var key := Str(s, Space0(s, i));
            r.Fatal? <==> key.Fatal? || (key.Done? && key.pos < |s| && IsSpace(s[key.pos]) && Str(s, Space0(s, key.pos)).Fatal?)
    ensures var r := KeyValueString(s, i); var key := Str(s, Space0(s, i));
            r.Done? ==> var v := Str(s, Space0(s, key.pos));
                        var a := Space0(s, v.pos);
                        var t := Macro(s, a);
                        var b := Space0(s, if t.Some? then t.value.1 else a);
                        r.value == KeyValue(key.value, String(K.Unescape(v.value)), if t.Some? then Some(t.value.0) else None) &&
                        r.pos == (if K.Comment(s, b).Some? then K.Comment(s, b).value else b)
  {
  }

  /**
   * Apart from the empty string, a quoted string reads exactly as in the
   * KeyValues grammar: a quote, a well-escaped body, a quote.
   */
  lemma QuotedAgrees(s: string, i: nat, b: string, j: nat)
    requires i <= |s| && b != []
    ensures Quoted(s, i) == Done(b, j) <==> K.Quoted(s, i) == Done(b, j)
  {
  }

  /** Once the opening quote is read, anything but a well-escaped body and a closing quote is fatal. */
  lemma QuotedCut(s: string, i: nat)
    requires i < |s| && s[i] == '"'
    ensures Quoted(s, i).Fatal? <==> forall b, j :: K.Quoted(s, i) == Done(b, j) ==> b == []
  {
    if Quoted(s, i).Done? {
      var r := Quoted(s, i);
      assert K.Quoted(s, i) == Done(r.value, r.pos);
    }
  }

  /** `""` is not the empty string here: the body must not be empty, and the cut makes that fatal. */
  lemma EmptyQuotedIsFatal()
    ensures Quoted("\"\"", 0) == Fatal
    ensures K.Quoted("\"\"", 0) == Done("", 2)
  {
  }

  /** Leading blanks are skipped: starting on them or after them parses the same line. */
  lemma LeadingBlanksSkipped(s: string, i: nat)
    requires i <= |s|
    ensures KeyValueString(s, i) == KeyValueString(s, Space0(s, i))
  {
    var j := Space0(s, i);
    assert Space0(s, j) == j;
  }

  /** A value at the end of the input is not enough: `space1` after it fails. */
  lemma ValueNeedsTrailingSpace()
    ensures KeyValueString("k v", 0) == Backtrack
    ensures KeyValueString("k v ", 0) == Done(KeyValue("k", String("v"), None), 4)
  {
    var s := "k v";
    assert K.Unquoted(s, 0) == Some(1) && s[0..1] == "k";
    assert K.Unquoted(s, 2) == Some(3) && s[2..3] == "v";
    var t := "k v ";
    assert K.Unquoted(t, 0) == Some(1) && t[0..1] == "k";
    assert K.Unquoted(t, 2) == Some(3) && t[2..3] == "v";
    assert Macro(t, 4).None?;
    K.UnescapeNoBackslash("v");
  }

  /** The tag keeps its brackets, and a trailing comment is consumed. */
  lemma TagAndComment()
    ensures KeyValueString("k v [m] /c", 0) == Done(KeyValue("k", String("v"), Some("[m]")), 10)
  {
    var s := "k v [m] /c";
    KeyAndValue(s);
    TagExample(s);
    assert Space0(s, 7) == 8;
    assert NotLineEnding(s, 9) == Some(10);
    K.UnescapeNoBackslash("v");
  }

  lemma KeyAndValue(s: string)
    requires s == "k v [m] /c"
    ensures Str(s, Space0(s, 0)) == Done("k", 1) && Space1(s, 1) == Some(2)
    ensures Str(s, 2) == Done("v", 3) && Space1(s, 3) == Some(4)
  {
    assert s[0] == 'k' && s[1] == ' ' && s[2] == 'v' && s[3] == ' ' && s[4] == '[';
    assert K.UnquotedEnd(s, 1) == 1 && K.UnquotedEnd(s, 3) == 3;
    assert K.Unquoted(s, 0) == Some(1) && s[0..1] == "k";
    assert K.Unquoted(s, 2) == Some(3) && s[2..3] == "v";
    assert Space0(s, 2) == 2 && Space0(s, 4) == 4;
  }

  lemma TagExample(s: string)
    requires s == "k v [m] /c"
    ensures Macro(s, 4) == Some(("[m]", 7))
  {
    assert s[5] == 'm' && s[6] == ']';
    assert K.MacroEnd(s, 6) == 6;
    assert Span1(s, 5, K.IsMacroChar) == Some(6);
    assert K.ParseMacro(s, 4) == Done("m", 7) by {
      assert s[5..6] == "m";
    }
    assert s[4..7] == "[m]";
  }
}
