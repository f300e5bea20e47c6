/**
 * The `steamkit-lang` code generator: every enum of a parsed document
 * becomes a newtype struct with one associated constant per variant, two
 * `PartialEq` impls against the underlying integer, and either a `BitOr`
 * impl (flags) or a `Default` impl naming the first variant.
 *
 * `heck`'s `to_shouty_snake_case` is outside this model: the generator
 * takes it as the parameter `shout`.
 */
module LangGenerator {
  import opened Wrappers
  import opened Text
  import LP = LangParser

  /* ---- Types ---- */

  /** The field types the generator knows how to spell. */
  datatype DataType =
    | I8 | I16 | I32 | I64 | U8 | U16 | U32 | U64 | F32 | F64
    | Reference(path: string)
    | FixedLengthArray(elem: DataType, length: nat)

  predicate HasReference(t: DataType) {
    match t
    case Reference(_) => true
    case FixedLengthArray(e, _) => HasReference(e)
    case _ => false
  }

  /**
   * `DataType::generate`: the Rust spelling of a type. Scalars keep their
   * Rust names, an array becomes `[T; n]`, and a reference anywhere in the
   * type is an error.
   */
  function TypeName(t: DataType): (r: Result<string, string>)
    ensures r.Ok? <==> !HasReference(t)
    ensures r.Ok? ==> |r.value| > 1 && (r.value[0] == '[' <==> t.FixedLengthArray?)
  {
    match t
    case I8 => Ok("i8")
    case I16 => Ok("i16")
    case I32 => Ok("i32")
    case I64 => Ok("i64")
    case U8 => Ok("u8")
    case U16 => Ok("u16")
    case U32 => Ok("u32")
    case U64 => Ok("u64")
    case F32 => Ok("f32")
    case F64 => Ok("f64")
    case Reference(_) => Err("todo")
    case FixedLengthArray(e, n) =>
      match TypeName(e)
      case Err(m) => Err(m)
      case Ok(x) => Ok("[" + x + "; " + NatToString(n) + "]")
  }

  /** In `[x; d]` with a decimal `d`, the last `; ` is the separator, so `x` and `d` are recovered. */
  lemma ArraySpellingSplit(x: string, d: string, y: string, e: string)
    requires AllDigits(d) && AllDigits(e)
    requires "[" + x + "; " + d + "]" == "[" + y + "; " + e + "]"
    ensures x == y && d == e
  {
    var s := "[" + x + "; " + d + "]";
    var t := "[" + y + "; " + e + "]";
    var k := |s| - 2 - |d|;
    assert s[k] == ' ';
    var m := |t| - 2 - |e|;
    assert t[m] == ' ';
    assert d == s[|s| - 1 - |d|..|s| - 1];
    assert e == t[|t| - 1 - |e|..|t| - 1];
    assert x == s[1..1 + |x|];
    assert y == t[1..1 + |y|];
  }

  /** Different types are spelled differently. */
  lemma {:induction false} TypeNameInjective(a: DataType, b: DataType)
    requires TypeName(a).Ok? && TypeName(b).Ok? && TypeName(a).value == TypeName(b).value
    ensures a == b
    decreases a
  {
    if a.FixedLengthArray? {
      var x := TypeName(a.elem).value;
      var y := TypeName(b.elem).value;
      ArraySpellingSplit(x, NatToString(a.length), y, NatToString(b.length));
      TypeNameInjective(a.elem, b.elem);
      DigitsValueOfNatToString(a.length);
      DigitsValueOfNatToString(b.length);
    }
  }

  /* ---- One variant ---- */

  /** `Self::name` for every name of a union. */
  function SelfPaths(names: seq<string>): (r: seq<string>)
    ensures |r| == |names| && forall k {:trigger r[k]} :: 0 <= k < |r| ==> r[k] == "Self::" + names[k]
  {
    seq(|names|, k requires 0 <= k < |names| => "Self::" + names[k])
  }

  /** The constant expression of a variant value. */
  function ValueRender(v: LP.EnumVariantValue): string {
    match v
    case Number(n) => "Self(" + n + ")"
    case Hex(h) => "Self(0x" + h + ")"
    case Union(names) => Join(SelfPaths(names), " | ")
  }

  /** `pub const NAME: Self = value;` and its line break. */
  function ConstDecl(v: LP.EnumVariant, shout: string -> string): string {
    "pub const " + shout(v.name) + ": Self = " + ValueRender(v.value) + ";\n"
  }

  /** The lines written before a variant's constant: a reason comment, or a deprecation attribute. */
  function Attribute(v: LP.EnumVariant): string {
    if v.removed then
      (if v.reason.Some? then "    // " + v.reason.value + "\n" else "")
    else if v.obsolete then
      (if v.reason.Some? then "    #[deprecated = \"" + v.reason.value + "\"]\n" else "    #[deprecated]\n")
    else ""
  }

  /** The constant line of a variant; a removed one is commented out. */
  function Decl(v: LP.EnumVariant, shout: string -> string): string {
    (if v.removed then "// " else "") + ConstDecl(v, shout)
  }

  /** Everything one variant contributes to the `impl` block. */
  function VariantBlock(v: LP.EnumVariant, shout: string -> string): string {
    Attribute(v) + "    " + Decl(v, shout)
  }

  /** Every variant's block ends with its constant, commented out exactly when the variant is removed. */
  lemma VariantBlockEndsWithConst(v: LP.EnumVariant, shout: string -> string)
    ensures EndsWith(VariantBlock(v, shout), ConstDecl(v, shout))
    ensures EndsWith(VariantBlock(v, shout), "// " + ConstDecl(v, shout)) <==> v.removed
  {
    var a := Attribute(v);
    var c := ConstDecl(v, shout);
    var b := VariantBlock(v, shout);
    if v.removed {
      assert b == (a + "    ") + ("// " + c);
    } else {
      assert b == (a + "    ") + c;
      assert b[|b| - |c| - 3] == ' ';
    }
  }

  /** A deprecation attribute opens a variant's block exactly when the variant is obsolete and not removed. */
  lemma VariantBlockDeprecated(v: LP.EnumVariant, shout: string -> string)
    ensures StartsWith(VariantBlock(v, shout), 0, "    #[deprecated") <==> v.obsolete && !v.removed
  {
    var a := Attribute(v);
    var b := VariantBlock(v, shout);
    var rest := "    " + Decl(v, shout);
    assert b == a + rest;
    if v.removed || !v.obsolete {
      assert a == "" || a[4] == '/';
      assert rest[4] == '/' || rest[4] == 'p';
      assert |b| > 4 && b[4] != '#';
    } else {
      assert a[..16] == "    #[deprecated";
      assert b[..16] == a[..16];
    }
  }

  /** A reason is written on its own line before the constant: as a comment when removed, in the attribute when obsolete. */
  lemma VariantBlockReason(v: LP.EnumVariant, shout: string -> string)
    requires v.reason.Some? && (v.removed || v.obsolete)
    ensures v.removed ==> StartsWith(VariantBlock(v, shout), 0, "    // " + v.reason.value + "\n")
    ensures !v.removed ==> StartsWith(VariantBlock(v, shout), 0, "    #[deprecated = \"" + v.reason.value + "\"]\n")
  {
    var a := Attribute(v);
    var b := VariantBlock(v, shout);
    assert b == a + ("    " + Decl(v, shout));
    assert b[..|a|] == a;
  }

  /** The block of every variant, in source order. */
  function Blocks(vs: seq<LP.EnumVariant>, shout: string -> string): (r: seq<string>)
    ensures |r| == |vs| && forall k {:trigger r[k]} :: 0 <= k < |vs| ==> r[k] == VariantBlock(vs[k], shout)
  {
    seq(|vs|, k requires 0 <= k < |vs| => VariantBlock(vs[k], shout))
  }

  /** The variant lines: the blocks one after the other. */
  function VariantsText(vs: seq<LP.EnumVariant>, shout: string -> string): string {
    Concat(Blocks(vs, shout))
  }

  /**
   * The `k`-th variant's block follows the blocks of the variants before
   * it and precedes those after it: one block per variant, in source order.
   */
  lemma VariantBlockInOrder(vs: seq<LP.EnumVariant>, k: nat, shout: string -> string)
    requires k < |vs|
    ensures VariantsText(vs, shout) ==
            VariantsText(vs[..k], shout) + VariantBlock(vs[k], shout) + VariantsText(vs[k + 1..], shout)
  {
    BlocksSlices(vs, k, shout);
    ConcatSplit(Blocks(vs, shout), k);
  }

  lemma BlocksSlices(vs: seq<LP.EnumVariant>, k: nat, shout: string -> string)
    requires k < |vs|
    ensures Blocks(vs, shout)[..k] == Blocks(vs[..k], shout)
    ensures Blocks(vs, shout)[k + 1..] == Blocks(vs[k + 1..], shout)
  {
  }

  /* ---- One enum ---- */

  /** The underlying integer type: the generic as written, or `i32`. */
  function UnderlyingType(e: LP.Enum): (ty: string)
    ensures e.generic.Some? ==> ty == e.generic.value
    ensures e.generic.None? ==> ty == "i32"
  {
    if e.generic.Some? then e.generic.value else "i32"
  }

  const DeriveLine: string := "#[derive(Debug, Clone, Copy, PartialEq, Eq, PartialOrd, Ord, Hash)]\n"
  const SelfEqOther: string := "        self.0 == *other\n    }\n}\n\n"
  const OtherEqSelf: string := "        *self == other.0\n    }\n}\n"
  const BitOrBody: string :=
    "    type Output = Self;\n    fn bitor(self, rhs: Self) -> Self::Output {\n        Self(self.0 | rhs.0)\n    }\n}\n"
  const DefaultFn: string := "    fn default() -> Self {\n"
  const DefaultClose: string := "\n    }\n}\n"

  function StructHeader(name: string, ty: string): string {
    DeriveLine + "pub struct " + name + "(pub " + ty + ");\n\n" + "impl " + name + " {\n"
  }

  /** `impl PartialEq<ty> for name`. */
  function EqWithType(name: string, ty: string): string {
    "impl PartialEq<" + ty + "> for " + name + " {\n" +
    "    fn eq(&self, other: &" + ty + ") -> bool {\n" + SelfEqOther
  }

  /** `impl PartialEq<name> for ty`. */
  function EqWithName(name: string, ty: string): string {
    "impl PartialEq<" + name + "> for " + ty + " {\n" +
    "    fn eq(&self, other: &" + name + ") -> bool {\n" + OtherEqSelf
  }

  function BitOrImpl(name: string): string {
    "\nimpl ops::BitOr for " + name + " {\n" + BitOrBody
  }

  function DefaultImpl(name: string, variant: string): string {
    "\nimpl Default for " + name + " {\n" + DefaultFn + "        Self::" + variant + DefaultClose
  }

  /** What follows the `PartialEq` impls: `BitOr` for flags, else `Default` when there is a first variant. */
  function Closing(e: LP.Enum, shout: string -> string): string {
    if e.flags then BitOrImpl(e.name)
    else if |e.variants| > 0 then DefaultImpl(e.name, shout(e.variants[0].name))
    else ""
  }

  /** The brace closing the `impl` block of the constants. */
  const ImplClose: string := "}\n\n"

  /**
   * The pieces `Enum::generate` writes, in order: the struct and the opening
   * of its `impl` block, one block per variant, the closing brace, the two
   * `PartialEq` impls and the closing impl.
   */
  function EnumParts(e: LP.Enum, shout: string -> string): seq<string> {
    var ty := UnderlyingType(e);
    [StructHeader(e.name, ty)] + Blocks(e.variants, shout) +
    [ImplClose, EqWithType(e.name, ty), EqWithName(e.name, ty), Closing(e, shout)]
  }

  /** `Enum::generate`. */
  function EnumText(e: LP.Enum, shout: string -> string): string {
    Concat(EnumParts(e, shout))
  }

  /** Where the pieces of `[h] + bs + [x, t, n, c]` sit once written one after the other. */
  lemma PartsLayout(h: string, bs: seq<string>, x: string, t: string, n: string, c: string)
    ensures Concat([h] + bs + [x, t, n, c]) == h + Concat(bs) + x + t + n + c
  {
    var parts := [h] + bs + [x, t, n, c];
    var m := |bs|;
    assert parts[..m + 1] == [h] + bs;
    ConcatAppend([h], bs);
    ConcatSingle(h);
    ConcatPrefixSnoc(parts, m + 1);
    ConcatPrefixSnoc(parts, m + 2);
    ConcatPrefixSnoc(parts, m + 3);
    ConcatPrefixSnoc(parts, m + 4);
    assert parts[..m + 5] == parts;
  }

  /** The same layout, read as positions. */
  lemma PartsPositions(w: string, h: string, vt: string, x: string, t: string, n: string, c: string)
    requires w == h + vt + x + t + n + c
    ensures var o := |h| + |vt| + |x|;
            o + |t| + |n| + |c| == |w| &&
            StartsWith(w, 0, h + vt + x) && StartsWith(w, o, t) && StartsWith(w, o + |t|, n) &&
            EndsWith(w, c) && (c == "" ==> EndsWith(w, n))
  {
    FoundAfter(h + vt + x, t, n + c);
    AppendAssoc(h + vt + x, t, n);
    AppendAssoc(h + vt + x + t, n, c);
    AppendAssoc(h + vt + x, t, n + c);
    FoundAfter(h + vt + x + t, n, c);
    FoundAfter(h + vt + x, t + n + c, "");
    assert w[|w| - |c|..] == c;
    assert c == "" ==> w[|w| - |n|..] == n;
  }

  /**
   * `EnumText` spelled out: the struct header, the variant lines, the brace
   * closing their `impl` block, both `PartialEq` impls (the one against the
   * underlying type first) and the closing impl, one after the other.
   */
  lemma EnumTextPieces(e: LP.Enum, shout: string -> string)
    ensures var ty := UnderlyingType(e);
            EnumText(e, shout) ==
            StructHeader(e.name, ty) + VariantsText(e.variants, shout) + ImplClose +
            EqWithType(e.name, ty) + EqWithName(e.name, ty) + Closing(e, shout)
  {
    var ty := UnderlyingType(e);
    PartsLayout(StructHeader(e.name, ty), Blocks(e.variants, shout), ImplClose,
                EqWithType(e.name, ty), EqWithName(e.name, ty), Closing(e, shout));
  }

  /**
   * The generated code opens with the struct over the generic (or over
   * `i32` when there is none), then the variant lines, then the brace that
   * closes their `impl` block.
   */
  lemma EnumTextHeader(e: LP.Enum, shout: string -> string)
    ensures StartsWith(EnumText(e, shout), 0,
                       StructHeader(e.name, UnderlyingType(e)) + VariantsText(e.variants, shout) + ImplClose)
  {
    var ty := UnderlyingType(e);
    EnumTextPieces(e, shout);
    PartsPositions(EnumText(e, shout), StructHeader(e.name, ty), VariantsText(e.variants, shout), ImplClose,
                   EqWithType(e.name, ty), EqWithName(e.name, ty), Closing(e, shout));
  }

  /**
   * A flags enum ends with its `BitOr` impl; any other enum with a first
   * variant ends with a `Default` returning that variant, whether or not it
   * is removed; an enum with neither ends with the second `PartialEq` impl.
   */
  lemma EnumTextClosing(e: LP.Enum, shout: string -> string)
    ensures e.flags ==> EndsWith(EnumText(e, shout), BitOrImpl(e.name))
    ensures !e.flags && |e.variants| > 0 ==> EndsWith(EnumText(e, shout), DefaultImpl(e.name, shout(e.variants[0].name)))
    ensures !e.flags && e.variants == [] ==> EndsWith(EnumText(e, shout), EqWithName(e.name, UnderlyingType(e)))
  {
    var ty := UnderlyingType(e);
    EnumTextPieces(e, shout);
    PartsPositions(EnumText(e, shout), StructHeader(e.name, ty), VariantsText(e.variants, shout), ImplClose,
                   EqWithType(e.name, ty), EqWithName(e.name, ty), Closing(e, shout));
  }

  /** One more variant adds its block at the end. */
  lemma VariantsTextSnoc(vs: seq<LP.EnumVariant>, i: nat, shout: string -> string)
    requires i < |vs|
    ensures VariantsText(vs[..i + 1], shout) == VariantsText(vs[..i], shout) + VariantBlock(vs[i], shout)
  {
    var b := VariantBlock(vs[i], shout);
    assert Blocks(vs[..i + 1], shout) == Blocks(vs[..i], shout) + [b];
    ConcatSnoc(Blocks(vs[..i], shout), b);
  }

  /**
   * `Enum::generate` as it runs: a `String` written piece by piece, one
   * iteration per variant.
   */
  method GenerateEnum(e: LP.Enum, shout: string -> string) returns (w: string)
    ensures w == EnumText(e, shout)
  {
    var ty := if e.generic.Some? then e.generic.value else "i32";
    w := StructHeader(e.name, ty);
    assert VariantsText(e.variants[..0], shout) == "";
    assert w == StructHeader(e.name, ty) + "";
    var i := 0;
    while i < |e.variants|
      invariant 0 <= i <= |e.variants|
      invariant w == StructHeader(e.name, ty) + VariantsText(e.variants[..i], shout)
    {
      var block := GenerateVariant(e.variants[i], shout);
      VariantsTextSnoc(e.variants, i, shout);
      AppendAssoc(StructHeader(e.name, ty), VariantsText(e.variants[..i], shout), block);
      w := w + block;
      i := i + 1;
    }
    assert e.variants[..i] == e.variants;
    w := w + ImplClose;
    w := w + EqWithType(e.name, ty);
    w := w + EqWithName(e.name, ty);
    var closing := "";
    if e.flags {
      closing := BitOrImpl(e.name);
    } else if |e.variants| > 0 {
      closing := DefaultImpl(e.name, shout(e.variants[0].name));
    }
    w := w + closing;
    EnumTextPieces(e, shout);
  }

  /** One iteration of the loop over the variants in `Enum::generate`. */
  method GenerateVariant(v: LP.EnumVariant, shout: string -> string) returns (block: string)
    ensures block == VariantBlock(v, shout)
  {
    var decl := ConstDecl(v, shout);
    var attr := "";
    if v.removed {
      if v.reason.Some? {
        attr := "    // " + v.reason.value + "\n";
      }
      // the constant is commented out
      decl := "// " + decl;
    } else if v.obsolete {
      match v.reason {
        case Some(reason) => attr := "    #[deprecated = \"" + reason + "\"]\n";
        case None => attr := "    #[deprecated]\n";
      }
    }
    block := attr + "    " + decl;
  }

  /* ---- Documents and modules ---- */

  /** What one document entry contributes: an enum's code; imports and classes contribute nothing. */
  function EntryText(x: LP.DocumentEntry, shout: string -> string): string {
    if x.EnumEntry? then EnumText(x.enum_, shout) else ""
  }

  /** `Document::generate`: the entries' code in document order. */
  function DocumentText(es: seq<LP.DocumentEntry>, shout: string -> string): string
    decreases |es|
  {
    if es == [] then "" else DocumentText(es[..|es| - 1], shout) + EntryText(es[|es| - 1], shout)
  }

  /** The enums of a document, in order. */
  function EnumsOf(es: seq<LP.DocumentEntry>): (r: seq<LP.Enum>)
    ensures |r| <= |es|
    decreases |es|
  {
    if es == [] then []
    else
      var x := es[|es| - 1];
      EnumsOf(es[..|es| - 1]) + (if x.EnumEntry? then [x.enum_] else [])
  }

  /** The code of a list of enums, one after the other. */
  function EnumsText(list: seq<LP.Enum>, shout: string -> string): string
    decreases |list|
  {
    if list == [] then "" else EnumsText(list[..|list| - 1], shout) + EnumText(list[|list| - 1], shout)
  }

  /** A document's code is the code of its enums, in order: imports and classes are skipped. */
  lemma {:induction false} DocumentTextIsEnumsText(es: seq<LP.DocumentEntry>, shout: string -> string)
    ensures DocumentText(es, shout) == EnumsText(EnumsOf(es), shout)
    decreases |es|
  {
    if es != [] {
      var n := |es| - 1;
      var x := es[n];
      var a := EnumsOf(es[..n]);
      DocumentTextIsEnumsText(es[..n], shout);
      if x.EnumEntry? {
        assert EnumsOf(es) == a + [x.enum_];
        assert (a + [x.enum_])[..|a|] == a;
      } else {
        assert EnumsOf(es) == a + [];
        assert a + [] == a;
      }
    }
  }

  /** `Document::generate` as it runs: the writer grows entry by entry. */
  method GenerateDocument(d: LP.Document, shout: string -> string) returns (w: string)
    ensures w == DocumentText(d.entries, shout)
  {
    w := "";
    var i := 0;
    while i < |d.entries|
      invariant 0 <= i <= |d.entries|
      invariant w == DocumentText(d.entries[..i], shout)
    {
      assert d.entries[..i + 1][..i] == d.entries[..i];
      match d.entries[i] {
        case EnumEntry(e) =>
          var code := GenerateEnum(e, shout);
          w := w + code;
        case Import(_) =>
        case ClassEntry(_) =>
      }
      i := i + 1;
    }
    assert d.entries[..i] == d.entries;
  }

  /**
   * `generate`: one output per module name, each the generated code of
   * that module's document. The modules are visited in an order the model
   * leaves open, as a `HashMap` does.
   */
  method Generate(modules: map<string, LP.Document>, shout: string -> string) returns (outputs: map<string, string>)
    ensures outputs.Keys == modules.Keys
    ensures forall name :: name in outputs ==> outputs[name] == DocumentText(modules[name].entries, shout)
  {
    outputs := map[];
    var todo := modules.Keys;
    while todo != {}
      invariant todo <= modules.Keys
      invariant outputs.Keys == modules.Keys - todo
      invariant forall name :: name in outputs ==> outputs[name] == DocumentText(modules[name].entries, shout)
      decreases |todo|
    {
      var name :| name in todo;
      // The first run's output is discarded; only its failure would matter.
      var _ := GenerateDocument(modules[name], shout);
      var code := GenerateDocument(modules[name], shout);
      outputs := outputs[name := code];
      todo := todo - {name};
    }
  }
}
