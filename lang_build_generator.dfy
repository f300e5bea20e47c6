/**
 * The code generator of the `steamkit-lang` build script. A `Generator`
 * collects a set of `use` paths and a body; documents push their enums
 * into it, as `bitflags!` structs (flags) or as `#[repr]` enums whose
 * duplicate discriminants are commented out.
 *
 * The generator reads the parsed types of `LangParser` (whose values have
 * the `Or` list the generator matches on, there called `Union`), and
 * `heck`'s `to_shouty_snake_case` is the parameter `shout`. A `panic!`
 * or failed `unwrap` is the result `false` (or `None`) of the operation.
 */
module LangBuildGenerator {
  import opened Wrappers
  import opened Text
  import LP = LangParser

  const I64Min: int := -0x8000_0000_0000_0000
  const I64Max: int := 0x7FFF_FFFF_FFFF_FFFF

  /* ---- Discriminants ---- */

  function HexDigitValue(c: char): (d: nat)
    requires IsHexDigit(c)
    ensures d < 16
  {
    if '0' <= c <= '9' then c as int - '0' as int
    else if 'a' <= c <= 'f' then c as int - 'a' as int + 10
    else c as int - 'A' as int + 10
  }

  predicate AllHexDigits(s: string) { forall k :: 0 <= k < |s| ==> IsHexDigit(s[k]) }

  /** The value of a string of hexadecimal digits. */
  function HexValue(s: string): nat
    requires AllHexDigits(s)
    decreases |s|
  {
    if s == [] then 0 else HexValue(s[..|s| - 1]) * 16 + HexDigitValue(s[|s| - 1])
  }

  /**
   * `i64::from_str_radix(s, 16)`: an optional `+` or `-`, then one or more
   * hexadecimal digits, and a value in the range of `i64`.
   */
  function ParseHexI64(s: string): (r: Option<int>)
    ensures r.Some? ==> I64Min <= r.value <= I64Max
  {
    if |s| == 0 then None
    else if (s[0] == '+' || s[0] == '-') && |s| == 1 then None
    else
      var neg := s[0] == '-';
      var d := if s[0] == '+' || s[0] == '-' then s[1..] else s;
      if !AllHexDigits(d) then None
      else
        var v: int := if neg then 0 - HexValue(d) else HexValue(d);
        if I64Min <= v <= I64Max then Some(v) else None
  }

  /**
   * The discriminant `unique_variants` computes: hexadecimal digits through
   * `from_str_radix`, a number through `parse::<i64>`; an `Or` list has none.
   */
  function Discriminant(v: LP.EnumVariantValue): (r: Option<int>)
    ensures r.Some? ==> I64Min <= r.value <= I64Max
    ensures v.Union? ==> r.None?
  {
    match v
    case Hex(h) => ParseHexI64(h)
    case Number(t) => ParseSigned(t, I64Min, I64Max)
    case Union(_) => None
  }

  /** A number written in decimal has that number as its discriminant. */
  lemma NumberDiscriminant(n: int)
    requires I64Min <= n <= I64Max
    ensures Discriminant(LP.EnumVariantValue.Number(IntToString(n))) == Some(n)
  {
    ParseSignedOfIntToString(n, I64Min, I64Max);
  }

  /** Hexadecimal digits have their value as discriminant exactly when it fits in `i64`. */
  lemma HexDiscriminant(h: string)
    requires |h| > 0 && AllHexDigits(h)
    ensures Discriminant(LP.EnumVariantValue.Hex(h)).Some? <==> HexValue(h) <= I64Max
    ensures Discriminant(LP.EnumVariantValue.Hex(h)).Some? ==> Discriminant(LP.EnumVariantValue.Hex(h)).value == HexValue(h)
  {
    assert IsHexDigit(h[0]);
  }

  /* ---- Types ---- */

  /** `convert_type`: the SteamLanguage integer types and their Rust names. */
  function ConvertType(t: string): (r: Option<string>)
    ensures r.Some? <==> t in {"char", "short", "int", "long", "byte", "ushort", "uint", "ulong"}
    ensures r.Some? ==> r.value in {"i8", "i16", "i32", "i64", "u8", "u16", "u32", "u64"}
  {
    match t
    case "char" => Some("i8")
    case "short" => Some("i16")
    case "int" => Some("i32")
    case "long" => Some("i64")
    case "byte" => Some("u8")
    case "ushort" => Some("u16")
    case "uint" => Some("u32")
    case "ulong" => Some("u64")
    case _ => None
  }

  /**
   * The pairing of `convert_type`: `char` and `byte` are the 8-bit
   * types, signed and unsigned, and each `u`-prefixed name is the
   * unsigned type of the name without it.
   */
  lemma ConvertTypeTable()
    ensures ConvertType("char") == Some("i8") && ConvertType("byte") == Some("u8")
    ensures ConvertType("short") == Some("i16") && ConvertType("ushort") == Some("u16")
    ensures ConvertType("int") == Some("i32") && ConvertType("uint") == Some("u32")
    ensures ConvertType("long") == Some("i64") && ConvertType("ulong") == Some("u64")
  {
  }

  /** The `#[repr]` of an enum: its generic converted, `int` when there is none. */
  function Repr(e: LP.Enum): (r: Option<string>)
    ensures e.generic.None? ==> r == Some("i32")
    ensures e.generic.Some? ==> r == ConvertType(e.generic.value)
  {
    ConvertType(if e.generic.Some? then e.generic.value else "int")
  }

  /* ---- unique_variants ---- */

  /**
   * `unique_variants`, read from the last variant to the first: a variant
   * not yet removed whose discriminant a later kept variant already claims
   * is marked removed. The set holds the discriminants claimed so far;
   * `None` is the `panic!` on a kept variant without a discriminant.
   */
  function Dedup(vs: seq<LP.EnumVariant>): (r: Option<(seq<LP.EnumVariant>, set<int>)>)
    ensures r.Some? ==> |r.value.0| == |vs|
    ensures r.Some? ==> forall k {:trigger r.value.0[k]} :: 0 <= k < |vs| ==> r.value.0[k] == vs[k].(removed := r.value.0[k].removed)
    ensures r.Some? ==> forall k {:trigger r.value.0[k]} :: 0 <= k < |vs| && vs[k].removed ==> r.value.0[k].removed
    decreases |vs|
  {
    if vs == [] then Some(([], {}))
    else
      var v := vs[0];
      match Dedup(vs[1..])
      case None => None
      case Some((rest, seen)) =>
        if v.removed then Some(([v] + rest, seen))
        else
          match Discriminant(v.value)
          case None => None
          case Some(d) =>
            if d in seen then Some(([v.(removed := true)] + rest, seen))
            else Some(([v] + rest, seen + {d}))
  }

  /**
   * `unique_variants` panics exactly when some variant that was not removed
   * in the input has no discriminant.
   */
  lemma {:induction false} DedupNoneIff(vs: seq<LP.EnumVariant>)
    ensures Dedup(vs).None? <==>
            exists k :: 0 <= k < |vs| && !vs[k].removed && Discriminant(vs[k].value).None?
    decreases |vs|
  {
    if vs != [] {
      var tail := vs[1..];
      DedupNoneIff(tail);
      if exists k :: 0 <= k < |tail| && !tail[k].removed && Discriminant(tail[k].value).None? {
        var k :| 0 <= k < |tail| && !tail[k].removed && Discriminant(tail[k].value).None?;
        assert vs[k + 1] == tail[k];
      }
      if exists k :: 0 <= k < |vs| && !vs[k].removed && Discriminant(vs[k].value).None? {
        var k :| 0 <= k < |vs| && !vs[k].removed && Discriminant(vs[k].value).None?;
        if k > 0 {
          assert tail[k - 1] == vs[k];
        }
      }
    }
  }

  /** One step of `Dedup`: the first variant is decided after all later ones. */
  lemma DedupStep(vs: seq<LP.EnumVariant>)
    requires vs != [] && Dedup(vs).Some?
    ensures Dedup(vs[1..]).Some?
    ensures Dedup(vs).value.0[1..] == Dedup(vs[1..]).value.0
    ensures vs[0].removed ==> Dedup(vs).value.0[0].removed && Dedup(vs).value.1 == Dedup(vs[1..]).value.1
    ensures !vs[0].removed ==>
              Discriminant(vs[0].value).Some? &&
              (Dedup(vs).value.0[0].removed <==> Discriminant(vs[0].value).value in Dedup(vs[1..]).value.1) &&
              Dedup(vs).value.1 == Dedup(vs[1..]).value.1 + {Discriminant(vs[0].value).value}
  {
  }

  /** The claimed set holds exactly the discriminants of the kept variants. */
  lemma {:induction false} DedupSeen(vs: seq<LP.EnumVariant>, d: int)
    requires Dedup(vs).Some?
    ensures d in Dedup(vs).value.1 <==> SomeKeeps(vs, Dedup(vs).value.0, d)
    decreases |vs|
  {
    if vs != [] {
      var r := Dedup(vs).value.0;
      DedupStep(vs);
      DedupSeen(vs[1..], d);
      SomeKeepsShift(vs, r, d);
    }
  }

  lemma SomeKeepsShift(vs: seq<LP.EnumVariant>, r: seq<LP.EnumVariant>, d: int)
    requires |r| == |vs| && 0 < |vs|
    ensures SomeKeeps(vs, r, d) <==>
            (!r[0].removed && Discriminant(vs[0].value) == Some(d)) || SomeKeeps(vs[1..], r[1..], d)
  {
    if SomeKeeps(vs, r, d) {
      var j :| 0 <= j < |vs| && !r[j].removed && Discriminant(vs[j].value) == Some(d);
      if j > 0 {
        assert r[1..][j - 1] == r[j] && vs[1..][j - 1] == vs[j];
      }
    }
    if SomeKeeps(vs[1..], r[1..], d) {
      var j :| 0 <= j < |vs| - 1 && !r[1..][j].removed && Discriminant(vs[1..][j].value) == Some(d);
      assert r[1..][j] == r[j + 1] && vs[1..][j] == vs[j + 1];
    }
  }

  /** Every kept variant has a discriminant. */
  lemma {:induction false} DedupKeptHasValue(vs: seq<LP.EnumVariant>, k: nat)
    requires Dedup(vs).Some? && k < |vs| && !Dedup(vs).value.0[k].removed
    ensures Discriminant(vs[k].value).Some?
    decreases |vs|
  {
    var r := Dedup(vs).value.0;
    assert !vs[k].removed;
    if k == 0 {
      DedupStep(vs);
    } else {
      var tail := vs[1..];
      assert Dedup(tail).value.0[k - 1] == r[k] by {
        DedupStep(vs);
      }
      DedupKeptHasValue(tail, k - 1);
      assert tail[k - 1] == vs[k];
    }
  }

  /** Some variant after the `k`-th is kept in `r` and has the `k`-th variant's discriminant. */
  predicate LaterKeeps(vs: seq<LP.EnumVariant>, r: seq<LP.EnumVariant>, k: nat)
    requires |r| == |vs| && k < |vs|
  {
    exists j :: k < j < |vs| && !r[j].removed && Discriminant(vs[j].value) == Discriminant(vs[k].value)
  }

  /** Some variant is kept in `r` and has the discriminant `d`. */
  predicate SomeKeeps(vs: seq<LP.EnumVariant>, r: seq<LP.EnumVariant>, d: int)
    requires |r| == |vs|
  {
    exists j :: 0 <= j < |vs| && !r[j].removed && Discriminant(vs[j].value) == Some(d)
  }

  lemma LaterKeepsShift(vs: seq<LP.EnumVariant>, r: seq<LP.EnumVariant>, k: nat)
    requires |r| == |vs| && 0 < k < |vs|
    ensures LaterKeeps(vs, r, k) <==> LaterKeeps(vs[1..], r[1..], k - 1)
  {
    if LaterKeeps(vs, r, k) {
      var j :| k < j < |vs| && !r[j].removed && Discriminant(vs[j].value) == Discriminant(vs[k].value);
      assert r[1..][j - 1] == r[j] && vs[1..][j - 1] == vs[j];
    }
    if LaterKeeps(vs[1..], r[1..], k - 1) {
      var j :| k - 1 < j < |vs| - 1 && !r[1..][j].removed && Discriminant(vs[1..][j].value) == Discriminant(vs[1..][k - 1].value);
      assert r[1..][j] == r[j + 1] && vs[1..][j] == vs[j + 1];
    }
  }

  lemma LaterKeepsFirst(vs: seq<LP.EnumVariant>, r: seq<LP.EnumVariant>, d: int)
    requires |r| == |vs| && 0 < |vs| && Discriminant(vs[0].value) == Some(d)
    ensures LaterKeeps(vs, r, 0) <==> SomeKeeps(vs[1..], r[1..], d)
  {
    if LaterKeeps(vs, r, 0) {
      var j :| 0 < j < |vs| && !r[j].removed && Discriminant(vs[j].value) == Discriminant(vs[0].value);
      assert r[1..][j - 1] == r[j] && vs[1..][j - 1] == vs[j];
    }
    if SomeKeeps(vs[1..], r[1..], d) {
      var j :| 0 <= j < |vs| - 1 && !r[1..][j].removed && Discriminant(vs[1..][j].value) == Some(d);
      assert r[1..][j] == r[j + 1] && vs[1..][j] == vs[j + 1];
    }
  }

  /**
   * A variant that was not removed in the input is marked removed exactly
   * when a later variant keeps the same discriminant.
   */
  lemma {:induction false} DedupMarkedAt(vs: seq<LP.EnumVariant>, k: nat)
    requires Dedup(vs).Some? && k < |vs| && !vs[k].removed
    ensures Dedup(vs).value.0[k].removed <==> LaterKeeps(vs, Dedup(vs).value.0, k)
    decreases |vs|
  {
    if k == 0 {
      DedupMarkedFirst(vs);
    } else {
      var r := Dedup(vs).value.0;
      DedupStep(vs);
      assert vs[1..][k - 1] == vs[k] && r[1..][k - 1] == r[k];
      DedupMarkedAt(vs[1..], k - 1);
      LaterKeepsShift(vs, r, k);
    }
  }

  /** The first variant, decided last, is marked exactly when a later variant keeps its discriminant. */
  lemma DedupMarkedFirst(vs: seq<LP.EnumVariant>)
    requires Dedup(vs).Some? && 0 < |vs| && !vs[0].removed
    ensures Dedup(vs).value.0[0].removed <==> LaterKeeps(vs, Dedup(vs).value.0, 0)
  {
    DedupStep(vs);
    var d := Discriminant(vs[0].value).value;
    DedupSeen(vs[1..], d);
    LaterKeepsFirst(vs, Dedup(vs).value.0, d);
  }

  /** After `unique_variants`, no two kept variants share a discriminant. */
  lemma DedupDistinct(vs: seq<LP.EnumVariant>, j: nat, k: nat)
    requires Dedup(vs).Some? && j < k < |vs|
    requires !Dedup(vs).value.0[j].removed && !Dedup(vs).value.0[k].removed
    ensures Discriminant(vs[j].value).Some? && Discriminant(vs[j].value) != Discriminant(vs[k].value)
  {
    DedupKeptHasValue(vs, j);
    assert !vs[j].removed;
    DedupMarkedAt(vs, j);
  }

  /** `Dedup` of a suffix, one variant longer than a suffix already deduplicated. */
  lemma DedupUnfold(vs: seq<LP.EnumVariant>, i: nat, rest: seq<LP.EnumVariant>, seen: set<int>)
    requires i < |vs| && Dedup(vs[i + 1..]) == Some((rest, seen))
    ensures vs[i].removed ==> Dedup(vs[i..]) == Some(([vs[i]] + rest, seen))
    ensures !vs[i].removed && Discriminant(vs[i].value).None? ==> Dedup(vs[i..]).None?
    ensures !vs[i].removed && Discriminant(vs[i].value).Some? ==>
              var d := Discriminant(vs[i].value).value;
              Dedup(vs[i..]) ==
              if d in seen then Some(([vs[i].(removed := true)] + rest, seen)) else Some(([vs[i]] + rest, seen + {d}))
  {
    assert vs[i..][1..] == vs[i + 1..];
  }

  /** A panic on a suffix is a panic on the whole list. */
  lemma DedupSuffixNone(vs: seq<LP.EnumVariant>, i: nat)
    requires i <= |vs| && Dedup(vs[i..]).None?
    ensures Dedup(vs).None?
  {
    DedupNoneIff(vs[i..]);
    var k :| 0 <= k < |vs[i..]| && !vs[i..][k].removed && Discriminant(vs[i..][k].value).None?;
    assert vs[i + k] == vs[i..][k];
    DedupNoneIff(vs);
  }

  lemma SliceCons<T>(s: seq<T>, i: nat)
    requires i < |s|
    ensures s[i..] == [s[i]] + s[i + 1..]
  {
  }

  /**
   * `unique_variants` as it runs: a copy of the list, visited from the last
   * variant to the first, with the set of discriminants seen so far.
   */
  method UniqueVariants(variants: seq<LP.EnumVariant>) returns (ok: bool, unique: seq<LP.EnumVariant>)
    ensures ok <==> Dedup(variants).Some?
    ensures ok ==> unique == Dedup(variants).value.0
  {
    unique := variants;
    var discriminants: set<int> := {};
    var i := |variants|;
    assert variants[i..] == [] && unique[i..] == [];
    while i > 0
      invariant 0 <= i <= |variants| && |unique| == |variants|
      invariant forall k :: 0 <= k < i ==> unique[k] == variants[k]
      invariant Dedup(variants[i..]) == Some((unique[i..], discriminants))
    {
      i := i - 1;
      DedupUnfold(variants, i, unique[i + 1..], discriminants);
      assert unique[i] == variants[i];
      if unique[i].removed {
        SliceCons(unique, i);
        continue;
      }
      var value := Discriminant(unique[i].value);
      if value.None? {
        DedupSuffixNone(variants, i);
        return false, unique;
      }
      if value.value in discriminants {
        unique := unique[i := unique[i].(removed := true)];
      } else {
        discriminants := discriminants + {value.value};
      }
      SliceCons(unique, i);
    }
    assert variants[0..] == variants && unique[0..] == unique;
    ok := true;
  }

  /* ---- The code of one enum ---- */

  const FlagsOpen: string := "bitflags! {\n"
  const FlagsDerive: string := "    #[derive(Debug, Clone, Copy, PartialEq, Eq, PartialOrd, Ord, Hash)]\n"
  const FlagsClose: string := "    }\n}\n\n"
  const EnumDerive: string := "#[derive(Default, Debug, Clone, Copy, PartialEq, Eq, PartialOrd, Ord, Hash)]\n"
  const PrimitiveDerive: string := "#[derive(FromPrimitive, ToPrimitive)]\n"
  const EnumClose: string := "}\n\n"
  const Indent: string := "    "
  const FlagsIndent: string := "        "

  /** The paths a flags enum imports, and those any other enum imports. */
  const BitflagsPath: string := "bitflags::bitflags"
  const FromPrimitivePath: string := "num_derive::FromPrimitive"
  const ToPrimitivePath: string := "num_derive::ToPrimitive"
  const FlagsImports: set<string> := {BitflagsPath}
  const PlainImports: set<string> := {FromPrimitivePath, ToPrimitivePath}

  /** The value of a variant as written in the code: the number, `0x` and the digits, or nothing for an `Or` list. */
  function ValueText(v: LP.EnumVariantValue): string {
    match v
    case Number(t) => t
    case Hex(h) => "0x" + h
    case Union(_) => ""
  }

  /** `Self::NAME.bits()` for every name of an `Or` list. */
  function BitsPaths(names: seq<string>, shout: string -> string): (r: seq<string>)
    ensures |r| == |names| && forall k {:trigger r[k]} :: 0 <= k < |r| ==> r[k] == "Self::" + shout(names[k]) + ".bits()"
  {
    seq(|names|, k requires 0 <= k < |names| => "Self::" + shout(names[k]) + ".bits()")
  }

  /** The value of a flag: an `Or` list becomes the union of the named flags' bits. */
  function FlagValue(v: LP.EnumVariantValue, shout: string -> string): string {
    if v.Union? then Join(BitsPaths(v.names, shout), " | ") else ValueText(v)
  }

  /** What precedes a variant's entry: a reason and `// ` when removed, a deprecation when obsolete, `#[default]` when it is the default. */
  function Status(v: LP.EnumVariant, isDefault: bool, indent: string): string {
    if v.removed then
      (if v.reason.Some? then "// " + v.reason.value + "\n" + indent else "") + "// "
    else if v.obsolete then
      (if v.reason.Some? then "#[deprecated = \"" + v.reason.value + "\"]\n" + indent else "#[deprecated]\n" + indent)
    else if isDefault then "#[default]\n" + indent
    else ""
  }

  /** `const NAME = value;` inside `bitflags!`. */
  function FlagEntry(v: LP.EnumVariant, shout: string -> string): string {
    "const " + shout(v.name) + " = " + FlagValue(v.value, shout) + ";\n"
  }

  /** One variant inside `bitflags!`. */
  function FlagLine(v: LP.EnumVariant, shout: string -> string): string {
    FlagsIndent + Status(v, false, FlagsIndent) + FlagEntry(v, shout)
  }

  function FlagLines(vs: seq<LP.EnumVariant>, shout: string -> string): (r: seq<string>)
    ensures |r| == |vs| && forall k {:trigger r[k]} :: 0 <= k < |vs| ==> r[k] == FlagLine(vs[k], shout)
  {
    seq(|vs|, k requires 0 <= k < |vs| => FlagLine(vs[k], shout))
  }

  function FlagsHeader(name: string, repr: string): string {
    FlagsOpen + FlagsDerive + "    pub struct " + name + ": " + repr + " {\n"
  }

  /** The pieces of a flags enum: the struct header, one line per variant, duplicates included, and the closing braces. */
  function FlagsParts(name: string, repr: string, vs: seq<LP.EnumVariant>, shout: string -> string): seq<string> {
    [FlagsHeader(name, repr)] + FlagLines(vs, shout) + [FlagsClose]
  }

  /** A variant neither removed nor obsolete. */
  predicate IsPlain(v: LP.EnumVariant) { !v.removed && !v.obsolete }

  /** The `k`-th variant is the first one that is neither removed nor obsolete. */
  predicate IsFirstPlain(us: seq<LP.EnumVariant>, k: nat)
    requires k < |us|
  {
    IsPlain(us[k]) && forall j :: 0 <= j < k ==> !IsPlain(us[j])
  }

  /** `Name = value,` and the variant's comment, if any. */
  function PlainEntry(v: LP.EnumVariant): string {
    v.name + " = " + ValueText(v.value) + "," +
    (if v.comment.Some? then " // " + v.comment.value + "\n" else "\n")
  }

  /** One variant of a `#[repr]` enum. */
  function PlainLine(v: LP.EnumVariant, isDefault: bool): string {
    Indent + Status(v, isDefault, Indent) + PlainEntry(v)
  }

  function PlainLines(us: seq<LP.EnumVariant>): (r: seq<string>)
    ensures |r| == |us| && forall k {:trigger r[k]} :: 0 <= k < |us| ==> r[k] == PlainLine(us[k], IsFirstPlain(us, k))
  {
    seq(|us|, k requires 0 <= k < |us| => PlainLine(us[k], IsFirstPlain(us, k)))
  }

  function PlainHeader(name: string, repr: string): string {
    EnumDerive + PrimitiveDerive + "#[repr(" + repr + ")]\n" + "pub enum " + name + " {\n"
  }

  /** The pieces of a `#[repr]` enum over its unique variants. */
  function PlainParts(name: string, repr: string, us: seq<LP.EnumVariant>): seq<string> {
    [PlainHeader(name, repr)] + PlainLines(us) + [EnumClose]
  }

  /**
   * `Generate for Enum`: the code the enum appends to the body, or `None`
   * when it panics (an unknown generic; in a `#[repr]` enum, a kept variant
   * without a discriminant or an `Or` list among the unique variants).
   */
  function EnumCode(e: LP.Enum, shout: string -> string): Option<string> {
    match Repr(e)
    case None => None
    case Some(repr) =>
      if e.flags then Some(Concat(FlagsParts(e.name, repr, e.variants, shout)))
      else
        match Dedup(e.variants)
        case None => None
        case Some((us, _)) =>
          if exists k :: 0 <= k < |us| && us[k].value.Union? then None
          else Some(Concat(PlainParts(e.name, repr, us)))
  }

  /** The imports `Generate for Enum` inserts. */
  function EnumImports(e: LP.Enum): set<string> {
    if e.flags then FlagsImports else PlainImports
  }

  predicate AllSpaces(t: string) { forall k :: 0 <= k < |t| ==> t[k] == ' ' }

  /**
   * Every line ends with its entry, and the entry is commented out with
   * `// ` exactly when the variant is removed.
   */
  lemma StatusCommentsOut(v: LP.EnumVariant, isDefault: bool, indent: string, entry: string)
    requires |indent| >= 2 && AllSpaces(indent)
    ensures EndsWith(indent + Status(v, isDefault, indent) + entry, entry)
    ensures EndsWith(indent + Status(v, isDefault, indent) + entry, "// " + entry) <==> v.removed
  {
    var st := Status(v, isDefault, indent);
    EndsWithSuffix(indent + st, entry);
    if v.removed {
      var pre := if v.reason.Some? then "// " + v.reason.value + "\n" + indent else "";
      assert indent + st + entry == (indent + pre) + ("// " + entry);
      EndsWithSuffix(indent + pre, "// " + entry);
    } else {
      StatusEndsWithIndent(v, isDefault, indent);
      SpaceBeforeEntry(indent, st);
      NotCommented(indent + st, entry);
    }
  }

  lemma EndsWithSuffix(x: string, y: string)
    ensures EndsWith(x + y, y)
  {
    assert (x + y)[|x + y| - |y|..] == y;
  }

  /** Text whose last-but-one character is a space cannot end in `// ` right before `entry`. */
  lemma NotCommented(p: string, entry: string)
    requires |p| >= 2 && p[|p| - 2] == ' '
    ensures !EndsWith(p + entry, "// " + entry)
  {
    var line := p + entry;
    if |line| >= |entry| + 3 {
      assert line[|line| - |entry| - 3..][1] == line[|line| - |entry| - 2] == p[|p| - 2];
      assert ("// " + entry)[1] == '/';
    }
  }

  /** Unless the variant is removed, the status is empty or ends with the indentation. */
  lemma StatusEndsWithIndent(v: LP.EnumVariant, isDefault: bool, indent: string)
    requires !v.removed
    ensures Status(v, isDefault, indent) == "" || EndsWith(Status(v, isDefault, indent), indent)
  {
    var st := Status(v, isDefault, indent);
    if st != "" {
      var head := if v.obsolete then
                    (if v.reason.Some? then "#[deprecated = \"" + v.reason.value + "\"]\n" else "#[deprecated]\n")
                  else "#[default]\n";
      assert st == head + indent;
      EndsWithSuffix(head, indent);
    }
  }

  lemma SpaceBeforeEntry(indent: string, st: string)
    requires |indent| >= 2 && AllSpaces(indent)
    requires st == "" || EndsWith(st, indent)
    ensures |indent + st| >= 2 && (indent + st)[|indent + st| - 2] == ' '
  {
    var p := indent + st;
    if st == "" {
      assert p[|p| - 2] == indent[|indent| - 2];
    } else {
      assert p[|p| - 2] == st[|st| - 2] == st[|st| - |indent|..][|indent| - 2];
    }
  }

  /** A flag line ends with its `const`, commented out exactly when the variant is removed. */
  lemma FlagLineShape(v: LP.EnumVariant, shout: string -> string)
    ensures EndsWith(FlagLine(v, shout), FlagEntry(v, shout))
    ensures EndsWith(FlagLine(v, shout), "// " + FlagEntry(v, shout)) <==> v.removed
  {
    StatusCommentsOut(v, false, FlagsIndent, FlagEntry(v, shout));
  }

  /** A `#[repr]` enum line ends with its entry, commented out exactly when the variant is removed. */
  lemma PlainLineShape(v: LP.EnumVariant, isDefault: bool)
    ensures EndsWith(PlainLine(v, isDefault), PlainEntry(v))
    ensures EndsWith(PlainLine(v, isDefault), "// " + PlainEntry(v)) <==> v.removed
  {
    StatusCommentsOut(v, isDefault, Indent, PlainEntry(v));
  }

  /** A line opens with `#[default]` exactly when it is asked to and the variant is neither removed nor obsolete. */
  lemma PlainLineDefault(v: LP.EnumVariant, isDefault: bool)
    requires LP.AllIdentChars(v.name)
    ensures StartsWith(PlainLine(v, isDefault), 0, Indent + "#[default]") <==> isDefault && IsPlain(v)
  {
    var line := PlainLine(v, isDefault);
    var st := Status(v, isDefault, Indent);
    assert line == Indent + st + PlainEntry(v);
    if isDefault && IsPlain(v) {
      assert line[..14] == Indent + "#[default]";
    } else if v.removed {
      assert line[4] == '/';
    } else if v.obsolete {
      assert line[8] == 'p';
    } else {
      assert |line| > 4 && line[4] != '#' by {
        if |v.name| > 0 {
          assert line[4] == v.name[0];
          assert LP.IsIdentChar(v.name[0]);
        } else {
          assert line[4] == ' ';
        }
      }
    }
  }

  /** At most one variant is the first that is neither removed nor obsolete. */
  lemma FirstPlainUnique(us: seq<LP.EnumVariant>, j: nat, k: nat)
    requires j < |us| && k < |us| && IsFirstPlain(us, j) && IsFirstPlain(us, k)
    ensures j == k
  {
  }

  /** When some variant is neither removed nor obsolete, one of them is the first. */
  lemma {:induction false} FirstPlainExists(us: seq<LP.EnumVariant>, m: nat)
    requires m < |us| && IsPlain(us[m])
    ensures exists k :: 0 <= k <= m && IsFirstPlain(us, k)
    decreases m
  {
    if !IsFirstPlain(us, m) {
      var j :| 0 <= j < m && IsPlain(us[j]);
      FirstPlainExists(us, j);
    }
  }

  /**
   * A flags enum writes every variant, duplicates included, one line each
   * and in order, right after the lines of the variants before it.
   */
  lemma FlagsLineAt(name: string, repr: string, vs: seq<LP.EnumVariant>, shout: string -> string, k: nat)
    requires k < |vs|
    ensures var parts := FlagsParts(name, repr, vs, shout);
            Concat(parts) == Concat(parts[..k + 1]) + FlagLine(vs[k], shout) + Concat(parts[k + 2..])
  {
    ConcatSplitAt(FlagsParts(name, repr, vs, shout), k + 1, FlagLine(vs[k], shout));
  }

  /**
   * A `#[repr]` enum writes one line per unique variant, in order; the line
   * carries `#[default]` exactly when its variant is the first unique one
   * that is neither removed nor obsolete.
   */
  lemma PlainLineAt(name: string, repr: string, us: seq<LP.EnumVariant>, k: nat)
    requires k < |us|
    ensures var parts := PlainParts(name, repr, us);
            Concat(parts) == Concat(parts[..k + 1]) + PlainLine(us[k], IsFirstPlain(us, k)) + Concat(parts[k + 2..])
  {
    ConcatSplitAt(PlainParts(name, repr, us), k + 1, PlainLine(us[k], IsFirstPlain(us, k)));
  }

  /* ---- Documents ---- */

  const SteamdSuffix: string := ".steamd"

  /** The `use` path an import becomes: the file name without `.steamd`, under `super`. */
  function ImportPath(file: string): string {
    "super::" + Replace(file, SteamdSuffix, "") + "::*"
  }

  /** Importing `m.steamd`, for a module name `m` without a dot, uses `super::m::*`. */
  lemma ImportPathOfModule(m: string)
    requires forall k :: 0 <= k < |m| ==> m[k] != '.'
    ensures ImportPath(m + SteamdSuffix) == "super::" + m + "::*"
  {
    ReplaceDropsSuffix(m, SteamdSuffix);
  }

  /** The imports one entry inserts. */
  function EntryImports(x: LP.DocumentEntry): set<string> {
    match x
    case Import(f) => {ImportPath(f)}
    case EnumEntry(e) => EnumImports(e)
    case ClassEntry(_) => {}
  }

  /** The code one entry appends: an enum's code, nothing for the others, `None` on a panic. */
  function EntryCode(x: LP.DocumentEntry, shout: string -> string): Option<string> {
    match x
    case EnumEntry(e) => EnumCode(e, shout)
    case _ => Some("")
  }

  /** The imports a document's entries insert. */
  function DocImports(es: seq<LP.DocumentEntry>): set<string>
    decreases |es|
  {
    if es == [] then {}
    else DocImports(es[..|es| - 1]) + EntryImports(es[|es| - 1])
  }

  /** The imports of the first `i + 1` entries are those of the first `i` and of entry `i`. */
  lemma DocImportsStep(es: seq<LP.DocumentEntry>, i: nat)
    requires i < |es|
    ensures DocImports(es[..i + 1]) == DocImports(es[..i]) + EntryImports(es[i])
  {
    assert es[..i + 1][..i] == es[..i];
  }

  /** The code of each entry of a document, in order. */
  function EntryCodes(es: seq<LP.DocumentEntry>, shout: string -> string): (r: seq<Option<string>>)
    ensures |r| == |es| && forall k {:trigger r[k]} :: 0 <= k < |es| ==> r[k] == EntryCode(es[k], shout)
  {
    seq(|es|, k requires 0 <= k < |es| => EntryCode(es[k], shout))
  }

  /** Pieces of code appended one after the other; `None` once one of them is a panic. */
  function Appended(cs: seq<Option<string>>): Option<string>
    decreases |cs|
  {
    if cs == [] then Some("")
    else
      match Appended(cs[..|cs| - 1])
      case None => None
      case Some(b) =>
        match cs[|cs| - 1]
        case None => None
        case Some(c) => Some(b + c)
  }

  /** The code a document's entries append, or `None` when one of its enums panics. */
  function DocBody(es: seq<LP.DocumentEntry>, shout: string -> string): Option<string> {
    Appended(EntryCodes(es, shout))
  }

  /** Appending the first `i + 1` pieces is appending the first `i`, then piece `i`. */
  lemma AppendedStep(cs: seq<Option<string>>, i: nat)
    requires i < |cs|
    ensures Appended(cs[..i + 1]) ==
            if Appended(cs[..i]).Some? && cs[i].Some? then Some(Appended(cs[..i]).value + cs[i].value) else None
  {
    assert cs[..i + 1][..i] == cs[..i];
  }

  /** Appending panics exactly when one of the pieces does. */
  lemma {:induction false} AppendedNoneIff(cs: seq<Option<string>>)
    ensures Appended(cs).None? <==> exists k :: 0 <= k < |cs| && cs[k].None?
    decreases |cs|
  {
    if cs != [] {
      var n := |cs| - 1;
      AppendedNoneIff(cs[..n]);
      if exists k :: 0 <= k < n && cs[..n][k].None? {
        var k :| 0 <= k < n && cs[..n][k].None?;
        assert cs[k] == cs[..n][k];
      }
      if exists k :: 0 <= k < |cs| && cs[k].None? {
        var k :| 0 <= k < |cs| && cs[k].None?;
        if k < n {
          assert cs[..n][k] == cs[k];
        }
      }
    }
  }

  /** A document panics exactly when one of its entries does; only an enum can. */
  lemma DocBodyNoneIff(es: seq<LP.DocumentEntry>, shout: string -> string)
    ensures DocBody(es, shout).None? <==>
            exists k :: 0 <= k < |es| && es[k].EnumEntry? && EnumCode(es[k].enum_, shout).None?
  {
    var cs := EntryCodes(es, shout);
    AppendedNoneIff(cs);
    if exists k :: 0 <= k < |es| && es[k].EnumEntry? && EnumCode(es[k].enum_, shout).None? {
      var k :| 0 <= k < |es| && es[k].EnumEntry? && EnumCode(es[k].enum_, shout).None?;
      assert cs[k].None?;
    }
  }

  /** The text of the `use` lines, one per import, in the given order. */
  function UseParts(order: seq<string>): (r: seq<string>)
    ensures |r| == |order| && forall k {:trigger r[k]} :: 0 <= k < |order| ==> r[k] == "use " + order[k] + ";\n"
  {
    seq(|order|, k requires 0 <= k < |order| => "use " + order[k] + ";\n")
  }

  const AllowLines: string :=
    "#![allow(non_camel_case_types)]\n#![allow(deprecated)]\n#![allow(unused_imports)]\n\n"

  /** `order` lists every element of `s` once: the iteration order of a `HashSet`, which the model leaves open. */
  ghost predicate Enumerates(order: seq<string>, s: set<string>) {
    (forall x :: x in s <==> x in order) &&
    (forall i, j :: 0 <= i < j < |order| ==> order[i] != order[j])
  }

  lemma ConcatNonEmptyParts(parts: seq<string>)
    requires forall k :: 0 <= k < |parts| ==> |parts[k]| > 0
    ensures |Concat(parts)| >= |parts|
    decreases |parts|
  {
    if parts != [] {
      ConcatNonEmptyParts(parts[..|parts| - 1]);
    }
  }

  /**
   * The generator of the build script: the set of paths to `use` and the
   * code written so far.
   */
  class Generator {
    var imports: set<string>
    var body: string

    /** `Generator::default`. */
    constructor ()
      ensures imports == {} && body == ""
    {
      imports := {};
      body := "";
    }

    /**
     * `to_string`: the body alone when there is nothing to import;
     * otherwise the three `allow` lines, one `use` line per import in
     * `order`, a blank line and the body.
     */
    function ToString(order: seq<string>): (r: string)
      reads this
      requires Enumerates(order, imports)
      ensures EndsWith(r, body)
      ensures r == body <==> imports == {}
      ensures imports != {} ==> StartsWith(r, 0, AllowLines)
    {
      var uses := Concat(UseParts(order));
      ConcatNonEmptyParts(UseParts(order));
      assert imports == {} <==> order == [] by {
        if order != [] { assert order[0] in imports; }
      }
      assert order == [] ==> UseParts(order) == [];
      var r := if uses == [] then body else AllowLines + uses + "\n" + body;
      assert r[|r| - |body|..] == body;
      r
    }

    /** Every import has its `use` line in the output. */
    lemma ToStringUses(order: seq<string>, x: string)
      requires Enumerates(order, imports) && x in imports
      ensures exists i: nat :: i <= |ToString(order)| && StartsWith(ToString(order), i, "use " + x + ";\n")
    {
      var k :| 0 <= k < |order| && order[k] == x;
      var parts := UseParts(order);
      ConcatPartAt(parts, k);
      ConcatNonEmptyParts(parts);
      var uses := Concat(parts);
      var j := |Concat(parts[..k])|;
      StartsWithWithin(AllowLines, uses, "\n" + body, j, parts[k]);
      assert ToString(order) == AllowLines + uses + ("\n" + body);
    }

    /**
     * `Generate for Document`: every entry in order; `false` at the first
     * enum that panics.
     */
    method GenerateDocument(d: LP.Document, shout: string -> string) returns (ok: bool)
      modifies this
      ensures ok <==> DocBody(d.entries, shout).Some?
      ensures ok ==> imports == old(imports) + DocImports(d.entries) && body == old(body) + DocBody(d.entries, shout).value
    {
      var es := d.entries;
      ghost var cs := EntryCodes(es, shout);
      var i := 0;
      assert es[..0] == [] && cs[..0] == [];
      while i < |es|
        invariant 0 <= i <= |es|
        invariant Appended(cs[..i]).Some?
        invariant imports == old(imports) + DocImports(es[..i])
        invariant body == old(body) + Appended(cs[..i]).value
      {
        DocImportsStep(es, i);
        AppendedStep(cs, i);
        ok := GenerateEntry(es[i], shout);
        if !ok {
          AppendedNoneIff(cs);
          return;
        }
        AppendAssoc(old(body), Appended(cs[..i]).value, cs[i].value);
        i := i + 1;
      }
      assert es[..i] == es && cs[..i] == cs;
      ok := true;
    }

    /** One document entry: an import inserts its `use` path, an enum generates itself; any other entry writes nothing. */
    method GenerateEntry(x: LP.DocumentEntry, shout: string -> string) returns (ok: bool)
      modifies this
      ensures ok <==> EntryCode(x, shout).Some?
      ensures ok ==> imports == old(imports) + EntryImports(x) && body == old(body) + EntryCode(x, shout).value
    {
      match x {
        case EnumEntry(e) =>
          ok := GenerateEnum(e, shout);
        case ClassEntry(_) =>
          ok := true;
        case Import(file) =>
          var moduleName := Replace(file, SteamdSuffix, "");
          imports := imports + {"super::" + moduleName + "::*"};
          ok := true;
      }
    }

    /**
     * `Generate for Enum`: on success the enum's imports are inserted and
     * its code is appended to the body; `false` is a panic, after which the
     * state is not described.
     */
    method GenerateEnum(e: LP.Enum, shout: string -> string) returns (ok: bool)
      modifies this
      ensures ok <==> EnumCode(e, shout).Some?
      ensures ok ==> imports == old(imports) + EnumImports(e) && body == old(body) + EnumCode(e, shout).value
    {
      var repr := ConvertType(if e.generic.Some? then e.generic.value else "int");
      EnumCodeOf(e, shout, repr);
      if repr.None? {
        return false;
      }
      var code;
      if e.flags {
        imports := imports + {BitflagsPath};
        code := FlagsCode(e.name, repr.value, e.variants, shout);
        ok := true;
      } else {
        imports := imports + {FromPrimitivePath};
        imports := imports + {ToPrimitivePath};
        ok, code := PlainCode(e.name, repr.value, e.variants);
      }
      if ok {
        body := body + code;
      }
    }
  }

  /** `EnumCode` once the representation is known, in the shape the generator computes it. */
  lemma EnumCodeOf(e: LP.Enum, shout: string -> string, repr: Option<string>)
    requires repr == ConvertType(if e.generic.Some? then e.generic.value else "int")
    ensures repr.None? ==> EnumCode(e, shout).None?
    ensures repr.Some? && e.flags ==> EnumCode(e, shout) == Some(Concat(FlagsParts(e.name, repr.value, e.variants, shout)))
    ensures repr.Some? && !e.flags ==>
      EnumCode(e, shout) ==
      (if Dedup(e.variants).Some? && forall k :: 0 <= k < |Dedup(e.variants).value.0| ==> !Dedup(e.variants).value.0[k].value.Union?
       then Some(Concat(PlainParts(e.name, repr.value, Dedup(e.variants).value.0)))
       else None)
  {
  }

  /** The `Status` prefix of a line, written branch by branch. */
  method WriteStatus(v: LP.EnumVariant, isDefault: bool, indent: string) returns (s: string)
    ensures s == Status(v, isDefault, indent)
  {
    s := "";
    if v.removed {
      if v.reason.Some? {
        s := s + ("// " + v.reason.value + "\n" + indent);
      }
      s := s + "// ";
    } else if v.obsolete {
      match v.reason {
        case Some(reason) => s := s + ("#[deprecated = \"" + reason + "\"]\n" + indent);
        case None => s := s + ("#[deprecated]\n" + indent);
      }
    } else if isDefault {
      s := s + ("#[default]\n" + indent);
    }
  }

  /** The `bitflags!` block of a flags enum, one line per variant in order. */
  method FlagsCode(name: string, repr: string, vs: seq<LP.EnumVariant>, shout: string -> string) returns (code: string)
    ensures code == Concat(FlagsParts(name, repr, vs, shout))
  {
    code := FlagsOpen;
    code := code + FlagsDerive;
    code := code + ("    pub struct " + name + ": " + repr + " {\n");
    assert code == FlagsHeader(name, repr);
    var lines := FlagVariants(vs, shout);
    ConcatFramed(code, FlagLines(vs, shout), FlagsClose);
    code := code + lines;
    code := code + FlagsClose;
  }

  /** The lines of all the variants of a flags enum, in order. */
  method FlagVariants(vs: seq<LP.EnumVariant>, shout: string -> string) returns (lines: string)
    ensures lines == Concat(FlagLines(vs, shout))
  {
    ghost var ls := FlagLines(vs, shout);
    lines := "";
    var i := 0;
    while i < |vs|
      invariant 0 <= i <= |vs|
      invariant lines == Concat(ls[..i])
    {
      var line := FlagLineText(vs[i], shout);
      ConcatStep(ls, i, lines, line);
      lines := lines + line;
      i := i + 1;
    }
    assert ls[..i] == ls;
  }

  /** One variant inside `bitflags!`, written as the build script pushes it. */
  method FlagLineText(v: LP.EnumVariant, shout: string -> string) returns (line: string)
    ensures line == FlagLine(v, shout)
  {
    var name := shout(v.name);
    var value := FlagValue(v.value, shout);
    var status := WriteStatus(v, false, FlagsIndent);
    line := FlagsIndent + status;
    line := line + ("const " + name + " = " + value + ";\n");
  }

  /**
   * The `#[repr]` enum of the unique variants: `false` when two variants
   * cannot be told apart or a kept variant is a union, which panics.
   */
  method PlainCode(name: string, repr: string, vs: seq<LP.EnumVariant>) returns (ok: bool, code: string)
    ensures ok <==> Dedup(vs).Some? && forall k :: 0 <= k < |Dedup(vs).value.0| ==> !Dedup(vs).value.0[k].value.Union?
    ensures ok ==> code == Concat(PlainParts(name, repr, Dedup(vs).value.0))
  {
    code := EnumDerive;
    code := code + PrimitiveDerive;
    code := code + ("#[repr(" + repr + ")]\n");
    code := code + ("pub enum " + name + " {\n");
    assert code == PlainHeader(name, repr);
    var unique;
    ok, unique := UniqueVariants(vs);
    if !ok {
      return;
    }
    var lines;
    ok, lines := PlainVariants(unique);
    if !ok {
      return;
    }
    ConcatFramed(code, PlainLines(unique), EnumClose);
    code := code + lines;
    code := code + EnumClose;
  }

  /**
   * The lines of the unique variants, the first plain one marked
   * `#[default]`; `false` at the first union, which panics.
   */
  method PlainVariants(us: seq<LP.EnumVariant>) returns (ok: bool, lines: string)
    ensures ok <==> forall k :: 0 <= k < |us| ==> !us[k].value.Union?
    ensures ok ==> lines == Concat(PlainLines(us))
  {
    ghost var ls := PlainLines(us);
    lines := "";
    var first := true;
    var i := 0;
    while i < |us|
      invariant 0 <= i <= |us|
      invariant lines == Concat(ls[..i])
      invariant forall j :: 0 <= j < i ==> !us[j].value.Union?
      invariant first <==> forall j :: 0 <= j < i ==> !IsPlain(us[j])
    {
      if us[i].value.Union? {
        return false, lines;
      }
      var line;
      line, first := PlainLineText(us, i, first);
      ConcatStep(ls, i, lines, line);
      lines := lines + line;
      i := i + 1;
    }
    assert ls[..i] == ls;
    ok := true;
  }

  /** Tracking `first` across the loop marks exactly the first plain variant as the default. */
  lemma FirstPlainStep(us: seq<LP.EnumVariant>, i: nat, first: bool)
    requires i < |us|
    requires first <==> forall j :: 0 <= j < i ==> !IsPlain(us[j])
    ensures (first && !IsPlain(us[i])) <==> forall j :: 0 <= j < i + 1 ==> !IsPlain(us[j])
    ensures PlainLine(us[i], first) == PlainLine(us[i], IsFirstPlain(us, i))
  {
  }

  /**
   * The line of the `i`-th unique variant; `first` says that no earlier
   * variant took `#[default]`, and `firstAfter` says the same after this one.
   */
  method PlainLineText(us: seq<LP.EnumVariant>, i: nat, first: bool) returns (line: string, firstAfter: bool)
    requires i < |us|
    requires first <==> forall j :: 0 <= j < i ==> !IsPlain(us[j])
    ensures firstAfter <==> forall j :: 0 <= j < i + 1 ==> !IsPlain(us[j])
    ensures line == PlainLines(us)[i]
  {
    FirstPlainStep(us, i, first);
    var v := us[i];
    var status := WriteStatus(v, first, Indent);
    firstAfter := first && !IsPlain(v);
    line := Indent + status + (v.name + " = " + ValueText(v.value) + ",");
    if v.comment.Some? {
      line := line + (" // " + v.comment.value + "\n");
    } else {
      line := line + "\n";
    }
  }

  /** `generate_stream`: a fresh generator that has generated the document. */
  method GenerateStream(d: LP.Document, shout: string -> string) returns (g: Generator, ok: bool)
    ensures fresh(g)
    ensures ok <==> DocBody(d.entries, shout).Some?
    ensures ok ==> g.imports == DocImports(d.entries) && g.body == DocBody(d.entries, shout).value
  {
    g := new Generator();
    ok := g.GenerateDocument(d, shout);
  }
}
