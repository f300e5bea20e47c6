/**
 * The earlier container of `src/vdf.rs`: a `VDF` is a string value or an
 * insertion-ordered map of keys. Unlike the later `Value`, `insert` on a
 * string panics (a precondition here) and there is no `set`. Its
 * `ToString for bool`/`FromStr for bool` are the same codec as the later
 * container's and are shared with it.
 */
module LegacyVdf {
  import opened Wrappers
  import opened Text
  import IM = IndexMaps
  import LV = LegacyValue

  datatype Vdf = Value(text: string) | Keys(entries: IM.IndexMap<string, Vdf>)

  predicate Valid(v: Vdf) {
    v.Keys? ==> IM.UniqueKeys(v.entries)
  }

  /** `VDF::new` and `Default::default`: an empty map of keys. */
  function New(): Vdf {
    Keys([])
  }

  /** `get`: no child in a value; the child under `key` in a map. */
  function Get(v: Vdf, key: string): (r: Option<Vdf>)
    ensures v.Value? ==> r.None?
    ensures r.Some? ==> v.Keys? && IM.HasKey(v.entries, key)
    ensures v.Keys? ==> (r.Some? <==> IM.HasKey(v.entries, key))
    ensures r.Some? ==> r.value == v.entries[IM.IndexOf(v.entries, key).value].1
  {
    match v
    case Value(_) => None
    case Keys(m) => IM.Get(m, key)
  }

  /** `get_mut`: the position of the child under `key`. */
  function GetMut(v: Vdf, key: string): (r: Option<nat>)
    ensures r.Some? ==> v.Keys? && r.value < |v.entries| && v.entries[r.value].0 == key
    ensures r.Some? <==> Get(v, key).Some?
    ensures r.Some? ==> Get(v, key) == Some(v.entries[r.value].1)
  {
    match v
    case Value(_) => None
    case Keys(m) => IM.IndexOf(m, key)
  }

  /** `insert`: panics on a value; on a map the key maps to `x`, in place if present. */
  function Insert(v: Vdf, key: string, x: Vdf): (r: Vdf)
    requires v.Keys?
    ensures r.Keys? && |r.entries| == |v.entries| + (if IM.HasKey(v.entries, key) then 0 else 1)
  {
    Keys(IM.Insert(v.entries, key, x))
  }

  /** `Index`: panics on a value or a missing key. */
  function Index(v: Vdf, key: string): (r: Vdf)
    requires v.Keys? && IM.HasKey(v.entries, key)
    ensures Get(v, key) == Some(r)
  {
    v.entries[IM.IndexOf(v.entries, key).value].1
  }

  /** `IndexMut`: the position `index` reads. */
  function IndexMut(v: Vdf, key: string): (r: nat)
    requires v.Keys? && IM.HasKey(v.entries, key)
    ensures GetMut(v, key) == Some(r)
  {
    IM.IndexOf(v.entries, key).value
  }

  /** `to::<T>`: panics on a map. */
  function To<T, E>(v: Vdf, fromStr: string -> Result<T, E>): Result<T, E>
    requires v.Value?
  {
    fromStr(v.text)
  }

  /** The pairs `From<Vec<VDF>>` builds: element `k` under `k` in decimal. */
  function Indexed(items: seq<Vdf>): (r: IM.IndexMap<string, Vdf>)
    ensures |r| == |items|
    ensures forall k :: 0 <= k < |items| ==> r[k] == (NatToString(k), items[k])
  {
    seq(|items|, k requires 0 <= k < |items| => (NatToString(k), items[k]))
  }

  /** `From<Vec<VDF>>`: insert each element under its index into an empty map. */
  method FromVec(items: seq<Vdf>) returns (v: Vdf)
    ensures v == Keys(Indexed(items)) && Valid(v)
  {
    v := New();
    for n := 0 to |items|
      invariant v == Keys(Indexed(items[..n]))
    {
      var key := NatToString(n);
      assert !IM.HasKey(v.entries, key) by {
        forall k | 0 <= k < n
          ensures v.entries[k].0 != key
        {
          if v.entries[k].0 == key {
            LV.NatToStringInjective(k, n);
          }
        }
      }
      v := Insert(v, key, items[n]);
      assert Indexed(items[..n + 1]) == Indexed(items[..n]) + [(key, items[n])];
    }
    assert items[..|items|] == items;
    forall i, j | 0 <= i < j < |v.entries|
      ensures v.entries[i].0 != v.entries[j].0
    {
      if v.entries[i].0 == v.entries[j].0 {
        LV.NatToStringInjective(i, j);
      }
    }
  }

  /** Element `k` of the vector is found under the key `k` in decimal. */
  lemma FromVecGet(items: seq<Vdf>, k: nat)
    requires k < |items|
    ensures Get(Keys(Indexed(items)), NatToString(k)) == Some(items[k])
  {
    var m := Indexed(items);
    forall i, j | 0 <= i < j < |m|
      ensures m[i].0 != m[j].0
    {
      if m[i].0 == m[j].0 {
        LV.NatToStringInjective(i, j);
      }
    }
    IM.GetAt(m, k);
  }

  /** Reading after `insert`: the key maps to the new value, the other keys are unchanged. */
  lemma GetAfterInsert(v: Vdf, key: string, x: Vdf, other: string)
    requires Valid(v) && v.Keys?
    ensures Valid(Insert(v, key, x))
    ensures Get(Insert(v, key, x), other) == if other == key then Some(x) else Get(v, other)
  {
    IM.InsertUnique(v.entries, key, x);
    IM.GetInsert(v.entries, key, x, other);
  }

  /** An existing key keeps its position; a new key goes last. */
  lemma InsertKeepsOrder(v: Vdf, key: string, x: Vdf)
    requires v.Keys?
    ensures IM.Keys(Insert(v, key, x).entries) ==
            if IM.HasKey(v.entries, key) then IM.Keys(v.entries) else IM.Keys(v.entries) + [key]
  {
    IM.KeysInsert(v.entries, key, x);
  }

  /** A bool stored as its string reads back with `to::<bool>`. */
  lemma BoolValueRoundTrip(b: bool)
    ensures To(Value(LV.BoolToString(b)), LV.BoolFromStr) == Ok(b)
  {
  }

  /** `new`/`default` holds no key, and neither does a value. */
  lemma NothingInNewOrValue(key: string, s: string)
    ensures Get(New(), key).None? && Get(Value(s), key).None?
  {
  }
}
