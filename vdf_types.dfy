/**
 * The entry-list value tree of the `steamkit-vdf` crate: a group is a
 * list of named entries in which a name may repeat. `get` follows the
 * first entry with each name; `get_all` collects the values of every
 * matching entry, depth first and in entry order. `TryFrom` extracts the
 * payload of one variant.
 */
module VdfTypes {
  import opened Wrappers
  import T = VdfToken

  /** `Int` without the `precision` feature. */
  newtype Int32 = x: int | -0x8000_0000 <= x < 0x8000_0000

  /** `Float` is an `f32`, kept as its bit pattern: nothing here computes with it. */
  datatype Value = Float(bits: bv32) | Int(i: Int32) | String(s: string) | Bool(b: bool) | Group(group: Group)

  datatype Entry = Entry(name: string, value: Value)

  datatype Group = Group(entries: seq<Entry>)

  /** `iter().find(|e| e.name == name)`: the position of the first entry with that name. */
  function Find(es: seq<Entry>, name: string): (r: Option<nat>)
    ensures r.Some? ==> r.value < |es| && es[r.value].name == name &&
                        forall k :: 0 <= k < r.value ==> es[k].name != name
    ensures r.None? <==> forall k :: 0 <= k < |es| ==> es[k].name != name
    decreases |es|
  {
    if es == [] then None
    else if es[0].name == name then Some(0)
    else match Find(es[1..], name)
      case None => None
      case Some(k) => Some(k + 1)
  }

  /**
   * `Accessor::get`: an empty path finds nothing; otherwise the first
   * entry named `key[0]` is taken, and with path left only a group is
   * descended into.
   */
  function Get(g: Group, key: seq<string>): (r: Option<Value>)
    ensures key == [] ==> r.None?
    ensures key != [] && Find(g.entries, key[0]).None? ==> r.None?
    ensures |key| == 1 && Find(g.entries, key[0]).Some? ==> r == Some(g.entries[Find(g.entries, key[0]).value].value)
    ensures |key| > 1 && Find(g.entries, key[0]).Some? ==>
              var e := g.entries[Find(g.entries, key[0]).value];
              r == if e.value.Group? then Get(e.value.group, key[1..]) else None
    decreases |key|
  {
    if key == [] then None
    else match Find(g.entries, key[0])
      case None => None
      case Some(k) =>
        var e := g.entries[k];
        if |key| == 1 then Some(e.value)
        else match e.value
          case Group(h) => Get(h, key[1..])
          case _ => None
  }

  /** Where a value sits: one entry position per level. */
  type Location = seq<nat>

  /** The value at a location. */
  function At(g: Group, loc: Location): Option<Value>
    decreases |loc|
  {
    if loc == [] || loc[0] >= |g.entries| then None
    else
      var v := g.entries[loc[0]].value;
      if |loc| == 1 then Some(v)
      else match v
        case Group(h) => At(h, loc[1..])
        case _ => None
  }

  /** `Accessor::get_mut`: the walk of `get`, answering with where the value is. */
  function GetMut(g: Group, key: seq<string>): (r: Option<Location>)
    ensures r.Some? ==> |r.value| == |key|
    decreases |key|
  {
    if key == [] then None
    else match Find(g.entries, key[0])
      case None => None
      case Some(k) =>
        if |key| == 1 then Some([k])
        else match g.entries[k].value
          case Group(h) =>
            (match GetMut(h, key[1..])
             case None => None
             case Some(loc) => Some([k] + loc))
          case _ => None
  }

  /** `get_mut` finds the value `get` returns. */
  lemma {:induction false} GetMutAgrees(g: Group, key: seq<string>)
    ensures GetMut(g, key).Some? <==> Get(g, key).Some?
    ensures GetMut(g, key).Some? ==> At(g, GetMut(g, key).value) == Get(g, key)
    decreases |key|
  {
    if key != [] {
      match Find(g.entries, key[0])
      case None =>
      case Some(k) =>
        if |key| > 1 && g.entries[k].value.Group? {
          var h := g.entries[k].value.group;
          GetMutAgrees(h, key[1..]);
          match GetMut(h, key[1..])
          case None =>
          case Some(loc) =>
            assert ([k] + loc)[1..] == loc;
        }
    }
  }

  /** The values one entry contributes to `get_all`. */
  function Contribution(e: Entry, key: seq<string>): seq<Value>
    requires |key| > 0
    decreases |key|, 0, 0
  {
    if e.name != key[0] then []
    else if |key| == 1 then [e.value]
    else match e.value
      case Group(h) => GetAllFrom(h.entries, key[1..])
      case _ => []
  }

  /** What `get_all` collects from the entries `es`, in entry order. */
  function GetAllFrom(es: seq<Entry>, key: seq<string>): seq<Value>
    requires |key| > 0
    decreases |key|, |es|, 1
  {
    if es == [] then [] else GetAllFrom(es[..|es| - 1], key) + Contribution(es[|es| - 1], key)
  }

  /** `Accessor::get_all`: an empty path is a panic in the crate (it indexes `key[0]`). */
  method GetAll(g: Group, key: seq<string>) returns (v: seq<Value>)
    requires |key| > 0
    ensures v == GetAllFrom(g.entries, key)
    decreases |key|
  {
    v := [];
    var rest := key[1..];
    for n := 0 to |g.entries|
      invariant v == GetAllFrom(g.entries[..n], key)
    {
      var entry := g.entries[n];
      assert g.entries[..n + 1][..n] == g.entries[..n];
      if entry.name == key[0] {
        if rest == [] {
          v := v + [entry.value];
        } else {
          match entry.value {
            case Group(h) =>
              var inner := GetAll(h, rest);
              v := v + inner;
            case _ =>
          }
        }
      }
    }
    assert g.entries[..|g.entries|] == g.entries;
  }

  lemma {:induction false} GetAllFromAppend(a: seq<Entry>, b: seq<Entry>, key: seq<string>)
    requires |key| > 0
    ensures GetAllFrom(a + b, key) == GetAllFrom(a, key) + GetAllFrom(b, key)
    decreases |b|
  {
    if b == [] {
      assert a + b == a;
    } else {
      assert (a + b)[..|a + b| - 1] == a + b[..|b| - 1];
      GetAllFromAppend(a, b[..|b| - 1], key);
    }
  }

  /** The first-match value that `get` returns is among the values `get_all` collects. */
  lemma {:induction false} GetInGetAll(g: Group, key: seq<string>)
    requires |key| > 0
    ensures Get(g, key).Some? ==> Get(g, key).value in GetAllFrom(g.entries, key)
    decreases |key|
  {
    match Find(g.entries, key[0])
    case None =>
    case Some(k) =>
      var es := g.entries;
      var e := es[k];
      if |key| > 1 && e.value.Group? {
        GetInGetAll(e.value.group, key[1..]);
      }
      assert es == es[..k] + [e] + es[k + 1..];
      GetAllFromAppend(es[..k] + [e], es[k + 1..], key);
      GetAllFromAppend(es[..k], [e], key);
      assert GetAllFrom([e], key) == Contribution(e, key) by {
        assert [e][..0] == [];
      }
  }

  /** With a single key, `get_all` is non-empty exactly when `get` finds something, and starts with it. */
  lemma {:induction false} GetAllSingle(es: seq<Entry>, name: string)
    ensures |GetAllFrom(es, [name])| > 0 <==> Find(es, name).Some?
    ensures Find(es, name).Some? ==> GetAllFrom(es, [name])[0] == es[Find(es, name).value].value
    decreases |es|
  {
    if es != [] {
      var init := es[..|es| - 1];
      GetAllSingle(init, name);
      if Find(init, name).Some? {
        assert Find(es, name) == Find(init, name) by {
          FindPrefix(es, |es| - 1, name);
        }
      } else {
        assert GetAllFrom(init, [name]) == [];
        if es[|es| - 1].name == name {
          assert Find(es, name) == Some(|es| - 1);
        } else {
          assert Find(es, name).None?;
        }
      }
    }
  }

  /** A match in a prefix is the first match of the whole. */
  lemma FindPrefix(es: seq<Entry>, n: nat, name: string)
    requires n <= |es| && Find(es[..n], name).Some?
    ensures Find(es, name) == Find(es[..n], name)
  {
    var k := Find(es[..n], name).value;
    assert es[..n][k] == es[k];
    assert forall m :: 0 <= m < k ==> es[..n][m] == es[m];
  }

  /** Only the first entry of a name is followed: a later group of the same name is not consulted. */
  lemma FirstMatchOnly()
    ensures var g := Group.Group([Entry("a", String("x")), Entry("a", Value.Group(Group.Group([Entry("b", String("y"))])))]);
            Get(g, ["a", "b"]) == None &&
            GetAllFrom(g.entries, ["a", "b"]) == [String("y")]
  {
    var inner := Group.Group([Entry("b", String("y"))]);
    var es := [Entry("a", String("x")), Entry("a", Value.Group(inner))];
    assert GetAllFrom(inner.entries, ["b"]) == [String("y")] by {
      assert inner.entries[..0] == [];
    }
    assert ["a", "b"][1..] == ["b"];
    assert es[..1] == [Entry("a", String("x"))] && es[..1][..0] == [];
    assert GetAllFrom(es[..1], ["a", "b"]) == [];
  }

  /** `get_all_mut`: the locations of the values `get_all` collects, in the same order. */
  function LocationsFrom(es: seq<Entry>, key: seq<string>): seq<Location>
    requires |key| > 0
    decreases |key|, |es|, 1
  {
    if es == [] then []
    else
      var n := |es| - 1;
      LocationsFrom(es[..n], key) + Prefixed(n, EntryLocations(es[n], key))
  }

  /** The locations, relative to the entry, that one entry contributes. */
  function EntryLocations(e: Entry, key: seq<string>): seq<Location>
    requires |key| > 0
    decreases |key|, 0, 0
  {
    if e.name != key[0] then []
    else if |key| == 1 then [[]]
    else match e.value
      case Group(h) => LocationsFrom(h.entries, key[1..])
      case _ => []
  }

  function Prefixed(n: nat, locs: seq<Location>): (r: seq<Location>)
    ensures |r| == |locs| && forall k :: 0 <= k < |locs| ==> r[k] == [n] + locs[k]
  {
    seq(|locs|, k requires 0 <= k < |locs| => [n] + locs[k])
  }

  /** The value at an entry-relative location. */
  function AtEntry(e: Entry, loc: Location): Option<Value> {
    if loc == [] then Some(e.value)
    else match e.value
      case Group(h) => At(h, loc)
      case _ => None
  }

  /** `get_all_mut` reaches exactly the values `get_all` returns, one location per value. */
  lemma {:induction false} LocationsAgree(es: seq<Entry>, key: seq<string>)
    requires |key| > 0
    ensures |LocationsFrom(es, key)| == |GetAllFrom(es, key)|
    ensures forall k :: 0 <= k < |LocationsFrom(es, key)| ==>
              At(Group.Group(es), LocationsFrom(es, key)[k]) == Some(GetAllFrom(es, key)[k])
    decreases |key|, |es|
  {
    if es != [] {
      var n := |es| - 1;
      var init := es[..n];
      LocationsAgree(init, key);
      EntryLocationsAgree(es[n], key);
      var a := LocationsFrom(init, key);
      var b := Prefixed(n, EntryLocations(es[n], key));
      var va := GetAllFrom(init, key);
      var vb := Contribution(es[n], key);
      forall k | 0 <= k < |a| + |b|
        ensures At(Group.Group(es), (a + b)[k]) == Some((va + vb)[k])
      {
        if k < |a| {
          AtPrefix(es, n, a[k]);
        } else {
          var loc := EntryLocations(es[n], key)[k - |a|];
          AtStep(es, n, loc);
        }
      }
    }
  }

  lemma {:induction false} EntryLocationsAgree(e: Entry, key: seq<string>)
    requires |key| > 0
    ensures |EntryLocations(e, key)| == |Contribution(e, key)|
    ensures forall k :: 0 <= k < |EntryLocations(e, key)| ==>
              AtEntry(e, EntryLocations(e, key)[k]) == Some(Contribution(e, key)[k])
    decreases |key|, 0
  {
    if e.name == key[0] && |key| > 1 && e.value.Group? {
      LocationsAgree(e.value.group.entries, key[1..]);
    }
  }

  /** A location inside the first `n` entries means the same in the whole group. */
  lemma AtPrefix(es: seq<Entry>, n: nat, loc: Location)
    requires n <= |es| && At(Group.Group(es[..n]), loc).Some?
    ensures At(Group.Group(es), loc) == At(Group.Group(es[..n]), loc)
  {
  }

  /** One step of `At` into entry `n`. */
  lemma AtStep(es: seq<Entry>, n: nat, loc: Location)
    requires n < |es|
    ensures At(Group.Group(es), [n] + loc) == AtEntry(es[n], loc)
  {
    assert ([n] + loc)[1..] == loc;
  }

  /** The crate's test: `get(["key", "key"])` in `key { key "hello" }` converts to the `str` "hello". */
  lemma NestedKeyExample()
    ensures var g := Group.Group([Entry("key", Value.Group(Group.Group([Entry("key", String("hello"))])))]);
            Get(g, ["key", "key"]) == Some(String("hello")) &&
            TryFrom(String("hello"), ToStr) == Ok(String("hello"))
  {
    assert ["key", "key"][1..] == ["key"];
  }

  // ---------------------------------------------------------------------
  // TryFrom<&Value>

  /** The target types of the conversions, with the names the error reports. */
  datatype Target = ToFloat | ToInt | ToBool | ToString | ToStr | ToGroup

  /** The variant each target is generated for. */
  function TargetVariant(t: Target): string {
    match t
    case ToFloat => "Float"
    case ToInt => "Int"
    case ToBool => "Bool"
    case ToString => "String"
    case ToStr => "String"
    case ToGroup => "Group"
  }

  /** The `output_type` of each target, with `Int` and `Float` at their 32-bit widths. */
  function TargetName(t: Target): string {
    match t
    case ToFloat => "f32"
    case ToInt => "i32"
    case ToBool => "bool"
    case ToString => "String"
    case ToStr => "str"
    case ToGroup => "Group"
  }

  function VariantOf(v: Value): string {
    match v
    case Float(_) => "Float"
    case Int(_) => "Int"
    case String(_) => "String"
    case Bool(_) => "Bool"
    case Group(_) => "Group"
  }

  /**
   * `TryFrom<&Value>` for the target: the value itself when it is of the
   * target's variant (its payload is the result), or `InvalidConversion`
   * naming the variant the target expects and the target type.
   */
  function TryFrom(v: Value, t: Target): (r: Result<Value, T.Error>)
    ensures r.Ok? <==> VariantOf(v) == TargetVariant(t)
    ensures r.Ok? ==> r.value == v
    ensures r.Err? ==> r.error == T.InvalidConversion(TargetVariant(t), TargetName(t))
  {
    match (v, t)
    case (Float(_), ToFloat) => Ok(v)
    case (Int(_), ToInt) => Ok(v)
    case (Bool(_), ToBool) => Ok(v)
    case (String(_), ToString) => Ok(v)
    case (String(_), ToStr) => Ok(v)
    case (Group(_), ToGroup) => Ok(v)
    case _ => Err(T.InvalidConversion(TargetVariant(t), TargetName(t)))
  }

  /** The error reports the expected variant, not the one found: converting a string to `i32` names `Int`. */
  lemma ErrorNamesExpectedVariant()
    ensures TryFrom(String("1"), ToInt) == Err(T.InvalidConversion("Int", "i32"))
  {
  }
}
