/**
 * The map/string value container of `src/vdf/value/mod.rs`: a value is a
 * string or an insertion-ordered map from keys to values. Keys arrive
 * through `ToString` (integers in decimal), `bool` is written `1`/`0`,
 * and the accessors that panic in the crate take their panic-free
 * condition as a precondition.
 *
 * The crate changes a value in place through `&mut self`; here each such
 * operation returns the new value, and a `get_mut`/`index_mut` reference
 * is the position of the entry it points at.
 */
module LegacyValue {
  import opened Wrappers
  import opened Text
  import IM = IndexMaps

  datatype Value = String(text: string) | Map(entries: IM.IndexMap<string, Value>)

  /** A map value keeps its keys unique (what `IndexMap` guarantees). */
  predicate Valid(v: Value) {
    v.Map? ==> IM.UniqueKeys(v.entries)
  }

  /** `Value::new` and `Default::default`: an empty map. */
  function New(): Value {
    Map([])
  }

  /** `From<S: ToString>`: a string value. */
  function FromText(s: string): Value {
    String(s)
  }

  /** `get`: no child in a string; the child under `key` in a map. */
  function Get(v: Value, key: string): (r: Option<Value>)
    ensures v.String? ==> r.None?
    ensures r.Some? ==> v.Map? && IM.HasKey(v.entries, key)
    ensures v.Map? ==> (r.Some? <==> IM.HasKey(v.entries, key))
    ensures r.Some? ==> r.value == v.entries[IM.IndexOf(v.entries, key).value].1
  {
    match v
    case String(_) => None
    case Map(m) => IM.Get(m, key)
  }

  /** `get_mut`: the position of the child under `key`. */
  function GetMut(v: Value, key: string): (r: Option<nat>)
    ensures r.Some? ==> v.Map? && r.value < |v.entries| && v.entries[r.value].0 == key
    ensures r.Some? <==> Get(v, key).Some?
    ensures r.Some? ==> Get(v, key) == Some(v.entries[r.value].1)
  {
    match v
    case String(_) => None
    case Map(m) => IM.IndexOf(m, key)
  }

  /** Writing `x` through the reference `get_mut` returned at position `p`. */
  function Assign(v: Value, p: nat, x: Value): Value
    requires v.Map? && p < |v.entries|
  {
    Map(v.entries[p := (v.entries[p].0, x)])
  }

  /** `insert`: `false` and no change on a string; on a map, `true` and the key maps to `x`. */
  function Insert(v: Value, key: string, x: Value): (r: (Value, bool))
    ensures r.1 <==> v.Map?
    ensures !r.1 ==> r.0 == v
    ensures r.1 ==> r.0.Map? && |r.0.entries| == |v.entries| + (if IM.HasKey(v.entries, key) then 0 else 1)
  {
    match v
    case String(_) => (v, false)
    case Map(m) => (Map(IM.Insert(m, key, x)), true)
  }

  /** `set`: on a string, `true` and the text becomes `text`; on a map, `false` and no change. */
  function Set(v: Value, text: string): (r: (Value, bool))
    ensures r.1 <==> v.String?
    ensures r.1 ==> r.0 == String(text)
    ensures !r.1 ==> r.0 == v
  {
    match v
    case String(_) => (String(text), true)
    case Map(_) => (v, false)
  }

  /** `Index`: panics on a string or a missing key, so both are excluded. */
  function Index(v: Value, key: string): (r: Value)
    requires v.Map? && IM.HasKey(v.entries, key)
    ensures Get(v, key) == Some(r)
  {
    v.entries[IM.IndexOf(v.entries, key).value].1
  }

  /** `IndexMut`: the position `index` reads, under the same precondition. */
  function IndexMut(v: Value, key: string): (r: nat)
    requires v.Map? && IM.HasKey(v.entries, key)
    ensures GetMut(v, key) == Some(r)
  {
    IM.IndexOf(v.entries, key).value
  }

  /** `to::<T>`: the string read with `T`'s `FromStr`; on a map the crate panics. */
  function To<T, E>(v: Value, fromStr: string -> Result<T, E>): Result<T, E>
    requires v.String?
  {
    fromStr(v.text)
  }

  /** `ToString for bool`. */
  function BoolToString(b: bool): (r: string)
    ensures r == (if b then "1" else "0")
  {
    if b then "1" else "0"
  }

  datatype ParseBoolError = ParseBoolError

  /** `FromStr for bool`: exactly `1` or `0`. */
  function BoolFromStr(s: string): (r: Result<bool, ParseBoolError>)
    ensures r.Ok? <==> s == "1" || s == "0"
  {
    if s == "1" then Ok(true) else if s == "0" then Ok(false) else Err(ParseBoolError)
  }

  /** The bool codec round-trips, and the only strings that parse are the two it writes. */
  lemma BoolRoundTrip(b: bool, s: string)
    ensures BoolFromStr(BoolToString(b)) == Ok(b)
    ensures BoolFromStr(s) == Ok(b) ==> BoolToString(b) == s
  {
  }

  /** The pairs `From<Vec<Value>>` builds: element `k` under the key `k.to_string()`. */
  function Indexed(items: seq<Value>): (r: IM.IndexMap<string, Value>)
    ensures |r| == |items|
    ensures forall k :: 0 <= k < |items| ==> r[k] == (NatToString(k), items[k])
  {
    seq(|items|, k requires 0 <= k < |items| => (NatToString(k), items[k]))
  }

  /** Distinct numbers have distinct decimal renderings. */
  lemma NatToStringInjective(a: nat, b: nat)
    requires NatToString(a) == NatToString(b)
    ensures a == b
  {
    DigitsValueOfNatToString(a);
    DigitsValueOfNatToString(b);
  }

  lemma IndexedUnique(items: seq<Value>)
    ensures IM.UniqueKeys(Indexed(items))
  {
    var m := Indexed(items);
    forall i, j | 0 <= i < j < |m|
      ensures m[i].0 != m[j].0
    {
      if m[i].0 == m[j].0 {
        NatToStringInjective(i, j);
      }
    }
  }

  /** `From<Vec<Value>>`: start from an empty map and insert each element under its index. */
  method FromVec(items: seq<Value>) returns (v: Value)
    ensures v == Map(Indexed(items)) && Valid(v)
  {
    v := New();
    for n := 0 to |items|
      invariant v == Map(Indexed(items[..n]))
    {
      var key := NatToString(n);
      assert !IM.HasKey(v.entries, key) by {
        forall k | 0 <= k < n
          ensures v.entries[k].0 != key
        {
          if v.entries[k].0 == key {
            NatToStringInjective(k, n);
          }
        }
      }
      var inserted := Insert(v, key, items[n]);
      v := inserted.0;
      assert Indexed(items[..n + 1]) == Indexed(items[..n]) + [(key, items[n])];
    }
    assert items[..|items|] == items;
    IndexedUnique(items);
  }

  /** Element `k` of the vector is found under the key `k` in decimal. */
  lemma FromVecGet(items: seq<Value>, k: nat)
    requires k < |items|
    ensures Get(Map(Indexed(items)), NatToString(k)) == Some(items[k])
  {
    IndexedUnique(items);
    IM.GetAt(Indexed(items), k);
  }

  /** `new`/`default` holds no key, and neither does a string. */
  lemma NothingInNewOrString(key: string, s: string)
    ensures Get(New(), key).None? && Get(FromText(s), key).None?
  {
  }

  /** `insert` keeps the map valid. */
  lemma InsertValid(v: Value, key: string, x: Value)
    requires Valid(v)
    ensures Valid(Insert(v, key, x).0)
  {
    if v.Map? {
      IM.InsertUnique(v.entries, key, x);
    }
  }

  /** Reading after `insert`: the key maps to the new value, the other keys are unchanged. */
  lemma GetAfterInsert(v: Value, key: string, x: Value, other: string)
    requires Valid(v) && v.Map?
    ensures Get(Insert(v, key, x).0, other) == if other == key then Some(x) else Get(v, other)
  {
    IM.GetInsert(v.entries, key, x, other);
  }

  /** An existing key keeps its position; a new key goes last. */
  lemma InsertKeepsOrder(v: Value, key: string, x: Value)
    requires v.Map?
    ensures IM.Keys(Insert(v, key, x).0.entries) ==
            if IM.HasKey(v.entries, key) then IM.Keys(v.entries) else IM.Keys(v.entries) + [key]
  {
    IM.KeysInsert(v.entries, key, x);
  }

  /** Writing through `get_mut` is `insert` on a key that is already there. */
  lemma AssignIsInsert(v: Value, key: string, x: Value)
    requires GetMut(v, key).Some?
    ensures Assign(v, GetMut(v, key).value, x) == Insert(v, key, x).0
  {
  }

  /** After `set` on a string, `to` reads the new text. */
  lemma ToAfterSet<T, E>(v: Value, text: string, fromStr: string -> Result<T, E>)
    requires v.String?
    ensures To(Set(v, text).0, fromStr) == fromStr(text)
  {
  }

  /** A bool stored as its string reads back with `to::<bool>`. */
  lemma BoolValueRoundTrip(b: bool)
    ensures To(FromText(BoolToString(b)), BoolFromStr) == Ok(b)
  {
  }
}
