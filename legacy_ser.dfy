/**
 * The text serializer of `src/vdf/ser.rs`. A `Serializer` appends to an
 * `output` buffer and keeps an `indent_level`. Scalars become quoted,
 * escaped strings; a map or struct opens a `{` block on its own line,
 * writes one tab-indented `"key"<TAB>value` line per field and closes
 * with `}` at the outer indent. Every other shape of data is refused
 * with `UnsupportedType`.
 *
 * The serde data a value hands to the serializer is modelled as the
 * `Data` tree, and driving the serializer over it is `Serialize`.
 */
module LegacySer {
  import opened Wrappers
  import opened Text
  import V = VdfToken
  import LP = LegacyParser

  // ---------------------------------------------------------------------
  // Escaping

  /** What `serialize_str` writes for one character. */
  function EscapeChar(c: char): (r: string)
    ensures |r| == 1 || |r| == 2
  {
    if c == '\\' then "\\\\"
    else if c == '\n' then "\\n"
    else if c == '\t' then "\\t"
    else if c == '"' then "\\\""
    else [c]
  }

  /** The escape of a character is the character itself, or `\` and the letter the scanner unescapes back to it. */
  lemma EscapeCharDecodes(c: char)
    ensures var r := EscapeChar(c);
            |r| == 1 || (|r| == 2 && r[0] == '\\' && V.Unescaped(r[1]) == Some(c))
    ensures var r := EscapeChar(c);
            |r| == 1 ==> r == [c] && c != '\\' && c != '"'
  {
  }

  /** Every character escaped on its own. */
  function Escape(s: string): string
    decreases |s|
  {
    if s == [] then [] else EscapeChar(s[0]) + Escape(s[1..])
  }

  /** `serialize_str`'s replace chain: `\`, then newline, then tab, then `"`. */
  function Escaped(s: string): string {
    Replace(Replace(Replace(Replace(s, "\\", "\\\\"), "\n", "\\n"), "\t", "\\t"), "\"", "\\\"")
  }

  lemma ReplaceCons(c: char, s: string, p: char, rep: string)
    ensures Replace([c] + s, [p], rep) == (if c == p then rep else [c]) + Replace(s, [p], rep)
  {
    var t := [c] + s;
    assert t[..1] == [c] && t[1..] == s;
  }

  lemma {:induction false} ReplaceAppend(a: string, b: string, p: char, rep: string)
    ensures Replace(a + b, [p], rep) == Replace(a, [p], rep) + Replace(b, [p], rep)
    decreases |a|
  {
    if a == [] {
      assert a + b == b;
    } else {
      var x, a' := a[0], a[1..];
      var h := if x == p then rep else [x];
      calc {
        Replace(a + b, [p], rep);
        { assert a + b == [x] + (a' + b); }
        Replace([x] + (a' + b), [p], rep);
        { ReplaceCons(x, a' + b, p, rep); }
        h + Replace(a' + b, [p], rep);
        { ReplaceAppend(a', b, p, rep); }
        h + (Replace(a', [p], rep) + Replace(b, [p], rep));
        (h + Replace(a', [p], rep)) + Replace(b, [p], rep);
        { ReplaceCons(x, a', p, rep); assert [x] + a' == a; }
        Replace(a, [p], rep) + Replace(b, [p], rep);
      }
    }
  }

  lemma ReplaceChar(c: char, p: char, rep: string)
    ensures Replace([c], [p], rep) == if c == p then rep else [c]
  {
    ReplaceCons(c, [], p, rep);
  }

  lemma ReplacePairAbsent(a: char, b: char, p: char, rep: string)
    requires a != p && b != p
    ensures Replace([a, b], [p], rep) == [a, b]
  {
    ReplaceAbsent([a, b], [p], rep);
  }

  /** The chain on one character. */
  lemma EscapedChar(c: char)
    ensures Escaped([c]) == EscapeChar(c)
  {
    var x1 := Replace([c], "\\", "\\\\");
    var x2 := Replace(x1, "\n", "\\n");
    var x3 := Replace(x2, "\t", "\\t");
    assert Escaped([c]) == Replace(x3, "\"", "\\\"");
    ReplaceChar(c, '\\', "\\\\");
    if c == '\\' {
      assert x1 == ['\\', '\\'];
      ReplacePairAbsent('\\', '\\', '\n', "\\n");
      ReplacePairAbsent('\\', '\\', '\t', "\\t");
      ReplacePairAbsent('\\', '\\', '"', "\\\"");
    } else {
      ReplaceChar(c, '\n', "\\n");
      if c == '\n' {
        assert x2 == ['\\', 'n'];
        ReplacePairAbsent('\\', 'n', '\t', "\\t");
        ReplacePairAbsent('\\', 'n', '"', "\\\"");
      } else {
        ReplaceChar(c, '\t', "\\t");
        if c == '\t' {
          assert x3 == ['\\', 't'];
          ReplacePairAbsent('\\', 't', '"', "\\\"");
        } else {
          ReplaceChar(c, '"', "\\\"");
        }
      }
    }
  }

  /** The chain distributes over concatenation. */
  lemma EscapedAppend(a: string, b: string)
    ensures Escaped(a + b) == Escaped(a) + Escaped(b)
  {
    ReplaceAppend(a, b, '\\', "\\\\");
    var a1, b1 := Replace(a, "\\", "\\\\"), Replace(b, "\\", "\\\\");
    ReplaceAppend(a1, b1, '\n', "\\n");
    var a2, b2 := Replace(a1, "\n", "\\n"), Replace(b1, "\n", "\\n");
    ReplaceAppend(a2, b2, '\t', "\\t");
    var a3, b3 := Replace(a2, "\t", "\\t"), Replace(b2, "\t", "\\t");
    ReplaceAppend(a3, b3, '"', "\\\"");
  }

  /**
   * Replacing `\` first makes the chain an escape of each character on
   * its own: no replacement introduces a character a later step replaces.
   */
  lemma {:induction false} EscapedIsEscape(s: string)
    ensures Escaped(s) == Escape(s)
    decreases |s|
  {
    if s != [] {
      assert s == [s[0]] + s[1..];
      EscapedAppend([s[0]], s[1..]);
      EscapedChar(s[0]);
      EscapedIsEscape(s[1..]);
    } else {
      assert Replace(s, "\\", "\\\\") == s;
    }
  }

  /** `t` holds the escape of `c` at `k`. */
  ghost predicate CharEscapedAt(t: string, k: nat, c: char) {
    var e := EscapeChar(c);
    k + |e| <= |t| && t[k] == e[0] && (|e| == 2 ==> t[k + 1] == e[1])
  }

  /** `t` holds, from `k`, the escape of each character of `s`, one after another. */
  ghost predicate EscapedAt(t: string, k: nat, s: string)
    decreases |s|
  {
    s == [] || (CharEscapedAt(t, k, s[0]) && EscapedAt(t, k + |EscapeChar(s[0])|, s[1..]))
  }

  /** The length of the escapes of the characters of `s`. */
  ghost function EscapedLength(s: string): nat
    decreases |s|
  {
    if s == [] then 0 else |EscapeChar(s[0])| + EscapedLength(s[1..])
  }

  /** `Escape(s)` found at `k` is the escapes of the characters of `s`, one after another. */
  lemma {:induction false} EscapedAtOf(t: string, k: nat, s: string)
    requires k <= |t| && StartsWith(t, k, Escape(s))
    ensures EscapedAt(t, k, s) && EscapedLength(s) == |Escape(s)|
    decreases |s|
  {
    if s != [] {
      var e := EscapeChar(s[0]);
      var r := Escape(s[1..]);
      assert Escape(s) == e + r;
      StartsWithConcat(t, k, e, r);
      assert t[k] == e[0] by { assert t[k..k + |e|][0] == e[0]; }
      if |e| == 2 {
        assert t[k + 1] == e[1] by { assert t[k..k + |e|][1] == e[1]; }
      }
      EscapedAtOf(t, k + |e|, s[1..]);
    }
  }

  /** The scanner decodes the escape of one character back to the character. */
  lemma DecodeEscapeChar(t: string, k: nat, c: char, acc: string)
    requires CharEscapedAt(t, k, c)
    ensures V.QuotedFrom(t, k, acc) == V.QuotedFrom(t, k + |EscapeChar(c)|, acc + [c])
  {
    EscapeCharDecodes(c);
  }

  lemma AppendFirst(acc: string, s: string)
    requires s != []
    ensures acc + [s[0]] + s[1..] == acc + s
  {
    assert [s[0]] + s[1..] == s;
  }

  /** The quoted-string scanner decodes the escapes of the characters of `s` back to `s`. */
  lemma {:induction false} DecodeEscapes(t: string, k: nat, s: string, acc: string)
    requires k <= |t| && EscapedAt(t, k, s)
    ensures k + EscapedLength(s) <= |t|
    ensures V.QuotedFrom(t, k, acc) == V.QuotedFrom(t, k + EscapedLength(s), acc + s)
    decreases |s|
  {
    if s == [] {
      assert acc + s == acc && EscapedLength(s) == 0;
    } else {
      var e := EscapeChar(s[0]);
      var m := k + |e| + EscapedLength(s[1..]);
      assert m == k + EscapedLength(s);
      DecodeEscapeChar(t, k, s[0], acc);
      DecodeEscapes(t, k + |e|, s[1..], acc + [s[0]]);
      AppendFirst(acc, s);
      ScanChain(t, k, k + |e|, m, acc, acc + [s[0]], acc + [s[0]] + s[1..], acc + s);
    }
  }

  /** Two scanner steps in a row. */
  lemma ScanChain(t: string, k: nat, k1: nat, m: nat, acc: string, acc1: string, acc2: string, acc3: string)
    requires k <= |t| && k1 <= |t| && m <= |t| && acc2 == acc3
    requires V.QuotedFrom(t, k, acc) == V.QuotedFrom(t, k1, acc1)
    requires V.QuotedFrom(t, k1, acc1) == V.QuotedFrom(t, m, acc2)
    ensures V.QuotedFrom(t, k, acc) == V.QuotedFrom(t, m, acc3)
  {
  }

  /** A quote ends the quoted string. */
  lemma QuoteCloses(t: string, m: nat, acc: string)
    requires m < |t| && t[m] == '"'
    ensures V.QuotedFrom(t, m, acc) == Ok((acc, m + 1))
  {
  }

  /** The text `serialize_str` writes for `s`. */
  function Quoted(s: string): string {
    "\"" + Escaped(s) + "\""
  }

  /**
   * Writing a string and reading it back with either tokenizer gives the
   * string itself, whatever characters it holds.
   */
  lemma QuotedRoundTrip(s: string)
    ensures V.Tokenize(Quoted(s)) == Ok([V.QuotedString(s)])
    ensures LP.Tokenize(Quoted(s)) == Ok([V.QuotedString(s)])
  {
    var t := Quoted(s);
    var x := V.QuotedString(s);
    var n: nat := |t|;
    QuotedScan(s);
    assert t[0] == '"';
    assert V.NextToken(t, 0) == Ok((x, n));
    assert LP.NextToken(t, 0) == Ok((x, n));
    assert [] + [x] == [x];
    assert V.TokensFrom(t, 0, []) == V.TokensFrom(t, |t|, [x]);
    assert LP.TokensFrom(t, 0, []) == LP.TokensFrom(t, |t|, [x]);
  }

  lemma QuotedScan(s: string)
    ensures V.QuotedToken(Quoted(s), 0) == Ok((V.QuotedString(s), |Quoted(s)|))
  {
    var t := Quoted(s);
    var m := 1 + |Escape(s)|;
    assert EscapedAt(t, 1, s) && EscapedLength(s) == |Escape(s)| by {
      EscapedIsEscape(s);
      FoundAfter("\"", Escape(s), "\"");
      EscapedAtOf(t, 1, s);
    }
    assert m + 1 == |t| && t[m] == '"' by {
      EscapedIsEscape(s);
    }
    assert V.QuotedFrom(t, 1, []) == V.QuotedFrom(t, m, s) by {
      DecodeEscapes(t, 1, s, []);
      assert [] + s == s;
    }
    QuoteCloses(t, m, s);
  }

  // ---------------------------------------------------------------------
  // The serializer

  datatype Error = UnsupportedType(kind: string) | Message(text: string)

  /** The shapes of serde data the serializer refuses. */
  datatype Unsupported =
    | Bytes | NoneValue | SomeValue | Unit | UnitStruct | NewtypeVariant
    | Seq | Tuple | TupleStruct | TupleVariant | StructVariant

  /** The kind `UnsupportedType` names. */
  function KindName(u: Unsupported): string {
    match u
    case Bytes => "bytes"
    case NoneValue => "option"
    case SomeValue => "option"
    case Unit => "unit"
    case UnitStruct => "unit_struct"
    case NewtypeVariant => "newtype_variant"
    case Seq => "seq"
    case Tuple => "tuple"
    case TupleStruct => "tuple_struct"
    case TupleVariant => "tuple_variant"
    case StructVariant => "struct_variant"
  }

  /**
   * The serde data model as a value presents it: every integer width is
   * `Int`, map keys are data themselves, struct field names are static
   * strings. Floats are not modelled.
   */
  datatype Data =
    | Bool(b: bool)
    | Int(n: int)
    | Char(c: char)
    | Str(s: string)
    | UnitVariant(variant: string)
    | NewtypeStruct(name: string, inner: Data)
    | Map(entries: seq<(Data, Data)>)
    | Struct(name: string, fields: seq<(string, Data)>)
    | Other(kind: Unsupported)

  /** The serializer's two fields. */
  datatype State = State(output: string, indent: nat)

  /** The state after a call, and what the call returned. */
  datatype Outcome = Outcome(state: State, result: Result<(), Error>)

  function Tabs(n: nat): string {
    Repeat('\t', n)
  }

  /** `serialize_str`. */
  function WriteStr(st: State, s: string): State {
    State(st.output + Quoted(s), st.indent)
  }

  /** `serialize_map`: drop one trailing tab, then a line break, the indent, `{` and a line break; one level deeper. */
  function OpenMap(st: State): (r: State)
    ensures r.indent == st.indent + 1
  {
    var o := if |st.output| > 0 && st.output[|st.output| - 1] == '\t' then st.output[..|st.output| - 1] else st.output;
    State(o + "\n" + Tabs(st.indent) + "{\n", st.indent + 1)
  }

  /** `SerializeMap::end`: one level up (not below zero), the indent and `}`. */
  function EndMap(st: State): (r: State)
    ensures r.indent == if st.indent == 0 then 0 else st.indent - 1
  {
    var i := if st.indent == 0 then 0 else st.indent - 1;
    State(st.output + Tabs(i) + "}", i)
  }

  /** The struct name `serialize_struct` writes, only at the top level. */
  function StructHead(name: string, st: State): State {
    if st.indent == 0 then State(st.output + "\"" + name + "\"", st.indent) else st
  }

  /** The struct name and tab `serialize_newtype_struct` writes, only at the top level. */
  function NewtypeHead(name: string, st: State): State {
    if st.indent == 0 then State(st.output + "\"" + name + "\"\t", st.indent) else st
  }

  /** The indent `serialize_key` writes before a key. */
  function Indented(st: State): State {
    State(st.output + Tabs(st.indent), st.indent)
  }

  /** After a key: a tab, unless the key failed. */
  function AfterKey(o: Outcome): Outcome {
    if o.result.Err? then o else Outcome(State(o.state.output + "\t", o.state.indent), Ok(()))
  }

  /** After a value: a line break, unless the value failed. */
  function AfterValue(o: Outcome): Outcome {
    if o.result.Err? then o else Outcome(State(o.state.output + "\n", o.state.indent), Ok(()))
  }

  /** Number of entries or fields of a map or struct. */
  function Count(d: Data): nat
    requires d.Map? || d.Struct?
  {
    if d.Map? then |d.entries| else |d.fields|
  }

  /** Serializing `d` from state `st`. */
  function Ser(d: Data, st: State): Outcome
    decreases d, 1, 0
  {
    match d
    case Bool(b) => Outcome(WriteStr(st, if b then "1" else "0"), Ok(()))
    case Int(n) => Outcome(WriteStr(st, IntToString(n)), Ok(()))
    case Char(c) => Outcome(WriteStr(st, [c]), Ok(()))
    case Str(s) => Outcome(WriteStr(st, s), Ok(()))
    case UnitVariant(v) => Outcome(WriteStr(st, v), Ok(()))
    case NewtypeStruct(name, inner) => Ser(inner, NewtypeHead(name, st))
    case Map(_) => Entries(d, 0, OpenMap(st))
    case Struct(name, _) => Entries(d, 0, OpenMap(StructHead(name, st)))
    case Other(kind) => Outcome(st, Err(UnsupportedType(KindName(kind))))
  }

  /** `serialize_key` of the `k`-th key of a map or struct. */
  function KeyOut(d: Data, k: nat, st: State): Outcome
    requires d.Map? || d.Struct?
    requires k < Count(d)
    decreases d, 0, Count(d) - k, 0
  {
    match d
    case Map(es) => AfterKey(Ser(es[k].0, Indented(st)))
    case Struct(_, fs) => AfterKey(Outcome(WriteStr(Indented(st), fs[k].0), Ok(())))
  }

  /** `serialize_value` of the `k`-th value of a map or struct. */
  function ValueOut(d: Data, k: nat, st: State): Outcome
    requires d.Map? || d.Struct?
    requires k < Count(d)
    decreases d, 0, Count(d) - k, 0
  {
    match d
    case Map(es) => AfterValue(Ser(es[k].1, st))
    case Struct(_, fs) => AfterValue(Ser(fs[k].1, st))
  }

  /**
   * The entries of a map or struct from the `k`-th on, then `end`; the
   * first error stops the walk.
   */
  function Entries(d: Data, k: nat, st: State): Outcome
    requires d.Map? || d.Struct?
    requires k <= Count(d)
    decreases d, 0, Count(d) - k, 1
  {
    if k == Count(d) then Outcome(EndMap(st), Ok(()))
    else
      var key := KeyOut(d, k, st);
      if key.result.Err? then key
      else
        var value := ValueOut(d, k, key.state);
        if value.result.Err? then value
        else Entries(d, k + 1, value.state)
  }

  /** `to_string`: the output of a fresh serializer, or the error. */
  function Serialized(d: Data): Result<string, Error> {
    var o := Ser(d, State("", 0));
    if o.result.Ok? then Ok(o.state.output) else Err(o.result.error)
  }

  // ---------------------------------------------------------------------
  // Properties of the specification

  /**
   * A successful serialization leaves the indent where it was: every
   * `serialize_map` is matched by one `end`.
   */
  lemma {:induction false} SerKeepsIndent(d: Data, st: State)
    ensures Ser(d, st).result.Ok? ==> Ser(d, st).state.indent == st.indent
    decreases d, 1, 0
  {
    match d
    case NewtypeStruct(name, inner) => SerKeepsIndent(inner, NewtypeHead(name, st));
    case Map(_) => EntriesKeepIndent(d, 0, OpenMap(st));
    case Struct(name, _) => EntriesKeepIndent(d, 0, OpenMap(StructHead(name, st)));
    case _ =>
  }

  lemma {:induction false} EntryKeepsIndent(d: Data, k: nat, st: State)
    requires d.Map? || d.Struct?
    requires k < Count(d)
    ensures KeyOut(d, k, st).result.Ok? ==> KeyOut(d, k, st).state.indent == st.indent
    ensures ValueOut(d, k, st).result.Ok? ==> ValueOut(d, k, st).state.indent == st.indent
    decreases d, 0, Count(d) - k, 0
  {
    match d
    case Map(es) =>
      SerKeepsIndent(es[k].0, Indented(st));
      SerKeepsIndent(es[k].1, st);
    case Struct(_, fs) =>
      SerKeepsIndent(fs[k].1, st);
  }

  lemma {:induction false} EntriesKeepIndent(d: Data, k: nat, st: State)
    requires d.Map? || d.Struct?
    requires k <= Count(d)
    ensures Entries(d, k, st).result.Ok? ==>
            Entries(d, k, st).state.indent == if st.indent == 0 then 0 else st.indent - 1
    decreases d, 0, Count(d) - k, 1
  {
    if k < Count(d) {
      EntryKeepsIndent(d, k, st);
      var key := KeyOut(d, k, st);
      if key.result.Ok? {
        EntryKeepsIndent(d, k, key.state);
        var value := ValueOut(d, k, key.state);
        if value.result.Ok? {
          EntriesKeepIndent(d, k + 1, value.state);
        }
      }
    }
  }

  /** Below the top level a struct is written exactly like a map with its field names as string keys. */
  lemma NestedStructIsMap(name: string, fields: seq<(string, Data)>, st: State)
    requires st.indent > 0
    ensures Ser(Struct(name, fields), st) == Ser(Map(StrKeys(fields)), st)
  {
    EntriesStrKeys(name, fields, 0, OpenMap(st));
  }

  function StrKeys(fields: seq<(string, Data)>): (r: seq<(Data, Data)>)
    ensures |r| == |fields| && forall k :: 0 <= k < |fields| ==> r[k] == (Str(fields[k].0), fields[k].1)
  {
    seq(|fields|, k requires 0 <= k < |fields| => (Str(fields[k].0), fields[k].1))
  }

  lemma {:induction false} EntriesStrKeys(name: string, fields: seq<(string, Data)>, k: nat, st: State)
    requires k <= |fields|
    ensures Entries(Struct(name, fields), k, st) == Entries(Map(StrKeys(fields)), k, st)
    decreases |fields| - k
  {
    if k < |fields| {
      var d, m := Struct(name, fields), Map(StrKeys(fields));
      assert KeyOut(d, k, st) == KeyOut(m, k, st);
      var key := KeyOut(d, k, st);
      if key.result.Ok? {
        var value := ValueOut(d, k, key.state);
        if value.result.Ok? {
          EntriesStrKeys(name, fields, k + 1, value.state);
        }
      }
    }
  }

  /** Below the top level a newtype struct is transparent: only its content is written. */
  lemma {:induction false} NestedNewtypeIsTransparent(name: string, inner: Data, st: State)
    requires st.indent > 0
    ensures Ser(NewtypeStruct(name, inner), st) == Ser(inner, st)
  {
    assert NewtypeHead(name, st) == st;
  }

  /** An unsupported shape fails with its kind and writes nothing. */
  lemma UnsupportedWritesNothing(u: Unsupported, st: State)
    ensures Ser(Other(u), st).state == st
    ensures Ser(Other(u), st).result == Err(UnsupportedType(KindName(u)))
  {
  }

  /**
   * A top-level struct with one string field: its quoted name, then a
   * `{` block holding one tab-indented line with the quoted field name,
   * a tab and the quoted value.
   */
  lemma StructOneField(name: string, key: string, v: string)
    ensures Serialized(Struct(name, [(key, Str(v))]))
            == Ok("\"" + name + "\"\n{\n\t" + Quoted(key) + "\t" + Quoted(v) + "\n}")
  {
    var d := Struct(name, [(key, Str(v))]);
    var h := "\"" + name + "\"";
    var st := State(h + "\n{\n", 1);
    assert Ser(d, State("", 0)) == Entries(d, 0, st) by {
      assert StructHead(name, State("", 0)) == State(h, 0);
      assert h[|h| - 1] == '"';
      assert Tabs(0) == "";
      assert h + "\n" + "" + "{\n" == h + "\n{\n";
    }
    var st1 := State(h + "\n{\n" + "\t" + Quoted(key) + "\t", 1);
    assert KeyOut(d, 0, st) == Outcome(st1, Ok(())) by {
      assert Tabs(1) == "\t";
    }
    var st2 := State(st1.output + Quoted(v) + "\n", 1);
    assert ValueOut(d, 0, st1) == Outcome(st2, Ok(()));
    assert Entries(d, 1, st2) == Outcome(State(st2.output + "}", 0), Ok(())) by {
      assert Tabs(0) == "";
    }
    StructLayout(name, Quoted(key), Quoted(v));
  }

  lemma StructLayout(name: string, a: string, b: string)
    ensures "\"" + name + "\"" + "\n{\n" + "\t" + a + "\t" + b + "\n" + "}"
            == "\"" + name + "\"\n{\n\t" + a + "\t" + b + "\n}"
  {
  }

  // ---------------------------------------------------------------------
  // The serializer object

  class Serializer {
    var output: string
    var indentLevel: nat

    function St(): State
      reads this
    {
      State(output, indentLevel)
    }

    constructor ()
      ensures output == [] && indentLevel == 0
    {
      output := [];
      indentLevel := 0;
    }

    /** `serialize_str`: the escaped string between quotes. */
    method SerializeStr(v: string) returns (r: Result<(), Error>)
      modifies this
      ensures r == Ok(()) && St() == WriteStr(old(St()), v)
    {
      var escaped := Replace(Replace(Replace(Replace(v, "\\", "\\\\"), "\n", "\\n"), "\t", "\\t"), "\"", "\\\"");
      output := output + "\"" + escaped + "\"";
      r := Ok(());
    }

    /** `serialize_bool`: `"1"` or `"0"`. */
    method SerializeBool(v: bool) returns (r: Result<(), Error>)
      modifies this
      ensures Outcome(St(), r) == Ser(Bool(v), old(St()))
    {
      r := SerializeStr(if v then "1" else "0");
    }

    /** `serialize_i8` to `serialize_u64`: the decimal rendering as a string. */
    method SerializeInt(v: int) returns (r: Result<(), Error>)
      modifies this
      ensures Outcome(St(), r) == Ser(Int(v), old(St()))
    {
      r := SerializeStr(IntToString(v));
    }

    /** `serialize_char`: the one-character string. */
    method SerializeChar(v: char) returns (r: Result<(), Error>)
      modifies this
      ensures Outcome(St(), r) == Ser(Char(v), old(St()))
    {
      r := SerializeStr([v]);
    }

    /** `serialize_unit_variant`: the variant name as a string. */
    method SerializeUnitVariant(variant: string) returns (r: Result<(), Error>)
      modifies this
      ensures Outcome(St(), r) == Ser(UnitVariant(variant), old(St()))
    {
      r := SerializeStr(variant);
    }

    /** The refused shapes: an error naming the kind, and nothing written. */
    method Refuse(u: Unsupported) returns (r: Result<(), Error>)
      ensures r == Err(UnsupportedType(KindName(u)))
    {
      r := Err(UnsupportedType(KindName(u)));
    }

    /** `serialize_newtype_struct`: the name and a tab at the top level, then the content. */
    method SerializeNewtypeStruct(name: string, value: Data) returns (r: Result<(), Error>)
      modifies this
      ensures Outcome(St(), r) == Ser(NewtypeStruct(name, value), old(St()))
      decreases value, 3
    {
      if indentLevel == 0 {
        output := output + "\"" + name + "\"\t";
      }
      r := Serialize(value);
    }

    /** `serialize_map`: open a block one level deeper. */
    method SerializeMap() returns (r: Result<(), Error>)
      modifies this
      ensures r == Ok(()) && St() == OpenMap(old(St()))
    {
      if |output| > 0 && output[|output| - 1] == '\t' {
        output := output[..|output| - 1];
      }
      output := output + "\n" + Tabs(indentLevel) + "{\n";
      indentLevel := indentLevel + 1;
      r := Ok(());
    }

    /** `serialize_struct`: the name at the top level, then a map block. */
    method SerializeStruct(name: string) returns (r: Result<(), Error>)
      modifies this
      ensures r == Ok(()) && St() == OpenMap(StructHead(name, old(St())))
    {
      if indentLevel == 0 {
        output := output + "\"" + name + "\"";
      }
      r := SerializeMap();
    }

    /** `SerializeMap::serialize_key`: indent, the key, a tab. */
    method SerializeKey(key: Data) returns (r: Result<(), Error>)
      modifies this
      ensures Outcome(St(), r) == AfterKey(Ser(key, Indented(old(St()))))
      decreases key, 3
    {
      output := output + Tabs(indentLevel);
      r := Serialize(key);
      if r.Err? {
        return;
      }
      output := output + "\t";
      r := Ok(());
    }

    /** `serialize_key` for a struct's field name, which is a `&str`. */
    method SerializeFieldKey(key: string) returns (r: Result<(), Error>)
      modifies this
      ensures Outcome(St(), r) == AfterKey(Outcome(WriteStr(Indented(old(St())), key), Ok(())))
    {
      output := output + Tabs(indentLevel);
      r := SerializeStr(key);
      output := output + "\t";
    }

    /** `SerializeMap::serialize_value`: the value, then a line break. */
    method SerializeValue(value: Data) returns (r: Result<(), Error>)
      modifies this
      ensures Outcome(St(), r) == AfterValue(Ser(value, old(St())))
      decreases value, 3
    {
      r := Serialize(value);
      if r.Err? {
        return;
      }
      output := output + "\n";
      r := Ok(());
    }

    /** `SerializeMap::end`: one level up, saturating at zero, then the indent and `}`. */
    method End() returns (r: Result<(), Error>)
      modifies this
      ensures r == Ok(()) && St() == EndMap(old(St()))
    {
      indentLevel := if indentLevel == 0 then 0 else indentLevel - 1;
      output := output + Tabs(indentLevel) + "}";
      r := Ok(());
    }

    /** What a value's `Serialize` impl does with the serializer: dispatch on its shape. */
    method Serialize(d: Data) returns (r: Result<(), Error>)
      modifies this
      ensures Outcome(St(), r) == Ser(d, old(St()))
      decreases d, 2
    {
      match d
      case Bool(b) => r := SerializeBool(b);
      case Int(n) => r := SerializeInt(n);
      case Char(c) => r := SerializeChar(c);
      case Str(s) => r := SerializeStr(s);
      case UnitVariant(v) => r := SerializeUnitVariant(v);
      case NewtypeStruct(name, inner) => r := SerializeNewtypeStruct(name, inner);
      case Other(u) => r := Refuse(u);
      case Map(es) =>
        r := SerializeMap();
        ghost var start := St();
        var k := 0;
        while k < |es|
          invariant k <= |es|
          invariant Entries(d, k, St()) == Entries(d, 0, start)
          decreases |es| - k
        {
          r := SerializeKey(es[k].0);
          if r.Err? {
            return;
          }
          r := SerializeValue(es[k].1);
          if r.Err? {
            return;
          }
          k := k + 1;
        }
        r := End();
      case Struct(name, fs) =>
        r := SerializeStruct(name);
        ghost var start := St();
        var k := 0;
        while k < |fs|
          invariant k <= |fs|
          invariant Entries(d, k, St()) == Entries(d, 0, start)
          decreases |fs| - k
        {
          r := SerializeFieldKey(fs[k].0);
          r := SerializeValue(fs[k].1);
          if r.Err? {
            return;
          }
          k := k + 1;
        }
        r := End();
    }
  }

  /** `to_string`: serialize with a fresh serializer and return its output. */
  method ToString(d: Data) returns (r: Result<string, Error>)
    ensures r == Serialized(d)
  {
    var serializer := new Serializer();
    var result := serializer.Serialize(d);
    if result.Err? {
      return Err(result.error);
    }
    r := Ok(serializer.output);
  }
}
