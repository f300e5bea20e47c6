/**
 * The public side of `steamkit-kv/src/lib.rs`: the duplicate-key `merge`
 * that folds the raw entry tree into an order-preserving `KeyValue`
 * tree, `KeyValue::parse`, the path lookups `get` and `get_mut`, and the
 * separate `FlatKeyValues` view that maps every root-to-leaf key path of
 * the raw tree to its string.
 */
module KvLib {
  import opened Wrappers
  import opened Text
  import opened Nom
  import P = KvParser
  import IM = IndexMaps

  datatype KeyValue = String(text: string) | Map(entries: IM.IndexMap<string, KeyValue>)

  datatype Error = Parse | UnexpectedInput(rest: string)

  type Path = seq<string>

  // ---------------------------------------------------------------------
  // merge

  /** What an entry's value becomes: a string as it is, a block merged. */
  function Convert(v: P.Value): KeyValue
    decreases v
  {
    match v
    case String(t) => String(t)
    case Map(es) => Map(MergeInto([], es))
  }

  /** One iteration of `merge`'s loop: fold one converted entry into `acc`. */
  function Step(acc: IM.IndexMap<string, KeyValue>, key: string, kv: KeyValue): IM.IndexMap<string, KeyValue> {
    if !IM.HasKey(acc, key) then IM.Insert(acc, key, kv)
    else if kv.String? then IM.Insert(acc, key, kv)
    else match IM.Get(acc, key).value
      case Map(m) => IM.Insert(acc, key, Map(IM.Extend(m, kv.entries)))
      case String(_) => IM.Insert(acc, key, kv)
  }

  /** `merge` continued from `acc` over the remaining entries `es`. */
  function MergeInto(acc: IM.IndexMap<string, KeyValue>, es: seq<P.Entry>): IM.IndexMap<string, KeyValue>
    decreases es
  {
    if es == [] then acc else MergeInto(Step(acc, es[0].key, Convert(es[0].value)), es[1..])
  }

  /**
   * `merge`, as the code runs it: a loop over the entries that inserts
   * new keys, overwrites on a later string, extends an existing map with
   * a later map and replaces an existing string with a later map.
   */
  method MergeEntries(entries: seq<P.Entry>) returns (m: IM.IndexMap<string, KeyValue>)
    ensures m == MergeInto([], entries)
    decreases entries
  {
    m := [];
    var k := 0;
    while k < |entries|
      invariant k <= |entries|
      invariant MergeInto(m, entries[k..]) == MergeInto([], entries)
    {
      var entry := entries[k];
      var kv: KeyValue;
      match entry.value {
        case String(t) =>
          kv := String(t);
        case Map(children) =>
          var inner := MergeEntries(children);
          kv := Map(inner);
      }
      assert kv == Convert(entry.value);
      assert entries[k..][1..] == entries[k + 1..];
      if !IM.HasKey(m, entry.key) {
        m := IM.Insert(m, entry.key, kv);
      } else if kv.String? {
        m := IM.Insert(m, entry.key, kv);
      } else {
        var existing := IM.Get(m, entry.key).value;
        match existing {
          case Map(inner) =>
            m := IM.Insert(m, entry.key, Map(IM.Extend(inner, kv.entries)));
          case String(_) =>
            m := IM.Insert(m, entry.key, kv);
        }
      }
      k := k + 1;
    }
  }

  /**
   * How one key's value evolves: the first entry sets it, a later string
   * replaces it, a later map extends an existing map and replaces an
   * existing string.
   */
  function Combine(prev: Option<KeyValue>, kv: KeyValue): KeyValue {
    match prev
    case None => kv
    case Some(o) =>
      if kv.String? then kv
      else if o.Map? then Map(IM.Extend(o.entries, kv.entries))
      else kv
  }

  /** The value of key `k` after folding `Combine` over the entries with that key, in order. */
  function ValueOf(prev: Option<KeyValue>, es: seq<P.Entry>, k: string): Option<KeyValue>
    decreases |es|
  {
    if es == [] then prev
    else ValueOf(if es[0].key == k then Some(Combine(prev, Convert(es[0].value))) else prev, es[1..], k)
  }

  /** The entries' keys, in order, duplicates included. */
  function EntryKeys(es: seq<P.Entry>): (ks: seq<string>)
    ensures |ks| == |es| && forall i :: 0 <= i < |es| ==> ks[i] == es[i].key
  {
    seq(|es|, i requires 0 <= i < |es| => es[i].key)
  }

  /** `acc` followed by the keys of `ks` not seen before, each at its first occurrence. */
  function FirstOccurrences(acc: seq<string>, ks: seq<string>): seq<string>
    decreases |ks|
  {
    if ks == [] then acc
    else FirstOccurrences(if ks[0] in acc then acc else acc + [ks[0]], ks[1..])
  }

  lemma HasKeyIffInKeys(m: IM.IndexMap<string, KeyValue>, k: string)
    ensures IM.HasKey(m, k) <==> k in IM.Keys(m)
  {
    if k in IM.Keys(m) {
      var i :| 0 <= i < |m| && IM.Keys(m)[i] == k;
      assert m[i].0 == k;
    }
  }

  lemma StepFacts(acc: IM.IndexMap<string, KeyValue>, key: string, kv: KeyValue)
    requires IM.UniqueKeys(acc)
    ensures IM.UniqueKeys(Step(acc, key, kv))
    ensures IM.Keys(Step(acc, key, kv)) == if key in IM.Keys(acc) then IM.Keys(acc) else IM.Keys(acc) + [key]
    ensures forall k2 :: IM.Get(Step(acc, key, kv), k2) ==
                         if k2 == key then Some(Combine(IM.Get(acc, key), kv)) else IM.Get(acc, k2)
  {
    var v := Combine(IM.Get(acc, key), kv);
    assert Step(acc, key, kv) == IM.Insert(acc, key, v);
    IM.InsertUnique(acc, key, v);
    IM.KeysInsert(acc, key, v);
    HasKeyIffInKeys(acc, key);
    forall k2 ensures IM.Get(IM.Insert(acc, key, v), k2) == if k2 == key then Some(v) else IM.Get(acc, k2) {
      IM.GetInsert(acc, key, v, k2);
    }
  }

  /** `merge` leaves every key once. */
  lemma {:induction false} MergeUnique(acc: IM.IndexMap<string, KeyValue>, es: seq<P.Entry>)
    requires IM.UniqueKeys(acc)
    ensures IM.UniqueKeys(MergeInto(acc, es))
    decreases |es|
  {
    if es != [] {
      StepFacts(acc, es[0].key, Convert(es[0].value));
      MergeUnique(Step(acc, es[0].key, Convert(es[0].value)), es[1..]);
    }
  }

  /**
   * The keys of `merge`'s result are the entries' keys in the order of
   * their first occurrence: a later entry never moves a key.
   */
  lemma {:induction false} MergeKeys(acc: IM.IndexMap<string, KeyValue>, es: seq<P.Entry>)
    requires IM.UniqueKeys(acc)
    ensures IM.Keys(MergeInto(acc, es)) == FirstOccurrences(IM.Keys(acc), EntryKeys(es))
    decreases |es|
  {
    if es != [] {
      var acc1 := Step(acc, es[0].key, Convert(es[0].value));
      StepFacts(acc, es[0].key, Convert(es[0].value));
      MergeKeys(acc1, es[1..]);
      assert EntryKeys(es)[1..] == EntryKeys(es[1..]);
    }
  }

  /** The value `merge` leaves at each key is the fold of `Combine` over that key's entries. */
  lemma {:induction false} MergeValues(acc: IM.IndexMap<string, KeyValue>, es: seq<P.Entry>, k: string)
    requires IM.UniqueKeys(acc)
    ensures IM.Get(MergeInto(acc, es), k) == ValueOf(IM.Get(acc, k), es, k)
    decreases |es|
  {
    if es != [] {
      var acc1 := Step(acc, es[0].key, Convert(es[0].value));
      StepFacts(acc, es[0].key, Convert(es[0].value));
      MergeValues(acc1, es[1..], k);
    }
  }

  /** Every map in the tree has unique keys. */
  predicate Valid(kv: KeyValue)
    decreases kv
  {
    kv.Map? ==> IM.UniqueKeys(kv.entries) && forall i :: 0 <= i < |kv.entries| ==> Valid(kv.entries[i].1)
  }

  /** The merged tree has unique keys at every level. */
  lemma {:induction false} ConvertValid(v: P.Value)
    ensures Valid(Convert(v))
    decreases v
  {
    match v
    case String(_) =>
    case Map(es) =>
      MergeIntoValid([], es);
  }

  lemma {:induction false} MergeIntoValid(acc: IM.IndexMap<string, KeyValue>, es: seq<P.Entry>)
    requires IM.UniqueKeys(acc) && IM.AllValues(acc, Valid)
    ensures IM.UniqueKeys(MergeInto(acc, es)) && IM.AllValues(MergeInto(acc, es), Valid)
    ensures Valid(Map(MergeInto(acc, es)))
    decreases es
  {
    if es == [] {
      assert Valid(Map(acc));
    } else {
      var key := es[0].key;
      var kv := Convert(es[0].value);
      ConvertValid(es[0].value);
      var v := Combine(IM.Get(acc, key), kv);
      assert Valid(v) by {
        if IM.Get(acc, key).Some? && kv.Map? && IM.Get(acc, key).value.Map? {
          var o := IM.Get(acc, key).value;
          var i := IM.IndexOf(acc, key).value;
          assert o == acc[i].1;
          IM.ExtendUnique(o.entries, kv.entries);
          IM.ExtendAllValues(o.entries, kv.entries, Valid);
        }
      }
      assert Step(acc, key, kv) == IM.Insert(acc, key, v);
      IM.InsertUnique(acc, key, v);
      IM.InsertAllValues(acc, key, v, Valid);
      MergeIntoValid(Step(acc, key, kv), es[1..]);
    }
  }

  // ---------------------------------------------------------------------
  // KeyValue::parse

  /**
   * `KeyValue::parse`: trim, read one entry, reject anything left over,
   * and return a root map that holds the merged entry.
   */
  function ParseKeyValue(input: string): (r: Result<KeyValue, Error>)
    ensures var d := P.KeyValue(Trim(input), 0);
            match r
            case Ok(kv) => d.Done? && d.pos == |Trim(input)| && kv == Map([(d.value.key, Convert(d.value.value))])
            case Err(Parse) => !d.Done?
            case Err(UnexpectedInput(rest)) => d.Done? && d.pos < |Trim(input)| && rest == Trim(input)[d.pos..]
  {
    var t := Trim(input);
    match P.KeyValue(t, 0)
    case Done(e, j) =>
      if j < |t| then Err(UnexpectedInput(t[j..]))
      else
        assert MergeInto([], [e]) == [(e.key, Convert(e.value))] by {
          assert Step([], e.key, Convert(e.value)) == [(e.key, Convert(e.value))];
        }
        Ok(Map(MergeInto([], [e])))
    case Backtrack => Err(Parse)
    case Fatal => Err(Parse)
  }

  // ---------------------------------------------------------------------
  // get and get_mut

  /**
   * `KeyValue::get`: an empty path is the node itself; a string with
   * segments left, or a missing key, is `None`; otherwise descend one
   * segment.
   */
  function Get(kv: KeyValue, path: Path): (r: Option<KeyValue>)
    ensures path == [] ==> r == Some(kv)
    ensures path != [] && kv.String? ==> r.None?
    ensures path != [] && kv.Map? && !IM.HasKey(kv.entries, path[0]) ==> r.None?
    ensures |path| == 1 && kv.Map? ==> r == IM.Get(kv.entries, path[0])
    decreases |path|
  {
    if path == [] then Some(kv)
    else match kv
      case String(_) => None
      case Map(m) =>
        match IM.Get(m, path[0])
        case None => None
        case Some(child) => if |path| > 1 then Get(child, path[1..]) else Some(child)
  }

  /** Looking up `p + q` is looking up `p` and then `q` from there. */
  lemma {:induction false} GetAppend(kv: KeyValue, p: Path, q: Path)
    ensures Get(kv, p + q) == match Get(kv, p) case None => None case Some(x) => Get(x, q)
    decreases |p|
  {
    if p != [] && kv.Map? && IM.Get(kv.entries, p[0]).Some? {
      var child := IM.Get(kv.entries, p[0]).value;
      assert (p + q)[0] == p[0];
      if |p| > 1 {
        assert (p + q)[1..] == p[1..] + q;
        GetAppend(child, p[1..], q);
      } else if q != [] {
        assert (p + q)[1..] == q;
      }
    } else if p == [] {
      assert p + q == q;
    }
  }

  /** A location inside a tree: the positions of the pairs to follow from the root. */
  type Location = seq<nat>

  /** The node at a location. */
  function At(kv: KeyValue, loc: Location): Option<KeyValue>
    decreases |loc|
  {
    if loc == [] then Some(kv)
    else if kv.Map? && loc[0] < |kv.entries| then At(kv.entries[loc[0]].1, loc[1..])
    else None
  }

  /** `KeyValue::get_mut`: the same walk as `get`, answering with where the node is rather than what it is. */
  function GetMut(kv: KeyValue, path: Path): (r: Option<Location>)
    ensures r.Some? ==> |r.value| == |path|
    decreases |path|
  {
    if path == [] then Some([])
    else match kv
      case String(_) => None
      case Map(m) =>
        match IM.IndexOf(m, path[0])
        case None => None
        case Some(i) =>
          if |path| > 1 then
            match GetMut(m[i].1, path[1..])
            case None => None
            case Some(loc) => Some([i] + loc)
          else Some([i])
  }

  /** `get_mut` finds exactly the node `get` finds. */
  lemma {:induction false} GetMutAgrees(kv: KeyValue, path: Path)
    ensures GetMut(kv, path).Some? <==> Get(kv, path).Some?
    ensures GetMut(kv, path).Some? ==> At(kv, GetMut(kv, path).value) == Get(kv, path)
    decreases |path|
  {
    if path != [] && kv.Map? && IM.IndexOf(kv.entries, path[0]).Some? {
      var i := IM.IndexOf(kv.entries, path[0]).value;
      if |path| > 1 {
        GetMutAgrees(kv.entries[i].1, path[1..]);
        if GetMut(kv.entries[i].1, path[1..]).Some? {
          var loc := GetMut(kv.entries[i].1, path[1..]).value;
          assert ([i] + loc)[1..] == loc;
        }
      }
    }
  }

  // ---------------------------------------------------------------------
  // FlatKeyValues

  /** The string leaves under an entry, in document order, each with its key path. */
  function Leaves(e: P.Entry, prefix: Path): seq<(Path, string)>
    decreases e
  {
    match e.value
    case String(t) => [(prefix + [e.key], t)]
    case Map(es) => LeavesAll(es, prefix + [e.key])
  }

  function LeavesAll(es: seq<P.Entry>, prefix: Path): seq<(Path, string)>
    decreases es
  {
    if es == [] then [] else Leaves(es[0], prefix) + LeavesAll(es[1..], prefix)
  }

  lemma {:induction false} LeavesAllAppend(a: seq<P.Entry>, b: seq<P.Entry>, prefix: Path)
    ensures LeavesAll(a + b, prefix) == LeavesAll(a, prefix) + LeavesAll(b, prefix)
    decreases |a|
  {
    if a == [] {
      assert a + b == b;
    } else {
      assert (a + b)[0] == a[0] && (a + b)[1..] == a[1..] + b;
      LeavesAllAppend(a[1..], b, prefix);
    }
  }

  /** `HashMap::insert` of each pair in turn: a later pair wins. */
  function InsertAll(m: map<Path, string>, ls: seq<(Path, string)>): map<Path, string>
    decreases |ls|
  {
    if ls == [] then m else InsertAll(m[ls[0].0 := ls[0].1], ls[1..])
  }

  lemma {:induction false} InsertAllAppend(m: map<Path, string>, a: seq<(Path, string)>, b: seq<(Path, string)>)
    ensures InsertAll(m, a + b) == InsertAll(InsertAll(m, a), b)
    decreases |a|
  {
    if a == [] {
      assert a + b == b;
    } else {
      assert (a + b)[0] == a[0] && (a + b)[1..] == a[1..] + b;
      InsertAllAppend(m[a[0].0 := a[0].1], a[1..], b);
    }
  }

  /**
   * After inserting the pairs, a path is present exactly when it was
   * before or some pair has it, and it holds the string of the last such
   * pair.
   */
  lemma {:induction false} InsertAllLookup(m: map<Path, string>, ls: seq<(Path, string)>, q: Path)
    ensures q in InsertAll(m, ls) <==> q in m || exists i :: 0 <= i < |ls| && ls[i].0 == q
    ensures forall i :: 0 <= i < |ls| && ls[i].0 == q && (forall j :: i < j < |ls| ==> ls[j].0 != q) ==>
              InsertAll(m, ls)[q] == ls[i].1
    ensures (forall i :: 0 <= i < |ls| ==> ls[i].0 != q) && q in m ==> InsertAll(m, ls)[q] == m[q]
    decreases |ls|
  {
    if ls != [] {
      InsertAllLookup(m[ls[0].0 := ls[0].1], ls[1..], q);
      if q in InsertAll(m, ls) && q !in m {
        if q != ls[0].0 {
          var i :| 0 <= i < |ls| - 1 && ls[1..][i].0 == q;
          assert ls[i + 1].0 == q;
        }
      }
      forall i | 0 <= i < |ls| && ls[i].0 == q && (forall j :: i < j < |ls| ==> ls[j].0 != q)
        ensures InsertAll(m, ls)[q] == ls[i].1
      {
        if i > 0 {
          assert ls[1..][i - 1] == ls[i];
        } else {
          assert forall j :: 0 <= j < |ls| - 1 ==> ls[1..][j].0 != q by {
            forall j | 0 <= j < |ls| - 1 ensures ls[1..][j].0 != q { assert ls[1..][j] == ls[j + 1]; }
          }
        }
      }
    }
  }

  /** `FlatKeyValues`: a map from each root-to-leaf key path of the raw tree to its string. */
  class FlatKeyValues {
    var paths: map<Path, string>

    constructor()
      ensures paths == map[]
    {
      paths := map[];
    }

    /** `process`: add the leaves under `e`, whose parent has key path `prefix`. */
    method Process(e: P.Entry, prefix: Path)
      modifies this
      ensures paths == InsertAll(old(paths), Leaves(e, prefix))
      decreases e
    {
      var path := prefix + [e.key];
      match e.value {
        case String(t) =>
          paths := paths[path := t];
        case Map(children) =>
          var k := 0;
          while k < |children|
            invariant k <= |children|
            invariant paths == InsertAll(old(paths), LeavesAll(children[..k], path))
          {
            assert children[..k + 1] == children[..k] + [children[k]];
            LeavesAllAppend(children[..k], [children[k]], path);
            assert LeavesAll([children[k]], path) == Leaves(children[k], path);
            InsertAllAppend(old(paths), LeavesAll(children[..k], path), Leaves(children[k], path));
            Process(children[k], path);
            k := k + 1;
          }
          assert children[..k] == children;
      }
    }

    /** `FlatKeyValues::get` and `get_str`: exact-path lookup. */
    function Get(path: Path): (r: Option<string>)
      reads this
      ensures r.Some? <==> path in paths
      ensures r.Some? ==> r.value == paths[path]
    {
      if path in paths then Some(paths[path]) else None
    }

    /** `FlatKeyValues::get_mut`, used to write: replace the string at an existing path. */
    method GetMut(path: Path, value: string) returns (found: bool)
      modifies this
      ensures found <==> path in old(paths)
      ensures paths == if found then old(paths)[path := value] else old(paths)
    {
      found := path in paths;
      if found {
        paths := paths[path := value];
      }
    }
  }

  /**
   * `FlatKeyValues::parse`: the same trimming and the same errors as
   * `KeyValue::parse`, then the leaves of the raw, unmerged entry.
   */
  method ParseFlat(input: string) returns (r: Result<FlatKeyValues, Error>)
    ensures r.Err? <==> ParseKeyValue(input).Err?
    ensures r.Err? ==> r.error == ParseKeyValue(input).error
    ensures r.Ok? ==> fresh(r.value) &&
                      r.value.paths == InsertAll(map[], Leaves(P.KeyValue(Trim(input), 0).value, []))
  {
    var t := Trim(input);
    match P.KeyValue(t, 0) {
      case Done(e, j) =>
        if j < |t| {
          r := Err(UnexpectedInput(t[j..]));
        } else {
          var flat := new FlatKeyValues();
          flat.Process(e, []);
          r := Ok(flat);
        }
      case Backtrack =>
        r := Err(Parse);
      case Fatal =>
        r := Err(Parse);
    }
  }

  // ---------------------------------------------------------------------
  // Worked examples

  /** The entry tree of the crate's own parse test, `key1 { key2 value1  key3 { key4 value2 } }`, written out by hand rather than parsed. */
  function SampleEntry(): P.Entry {
    P.Entry("key1", P.Map([
      P.Entry("key2", P.String("value1"), None),
      P.Entry("key3", P.Map([P.Entry("key4", P.String("value2"), None)]), None)]), None)
  }

  /** The merged tree of the sample has `value1` at `key1/key2` and `value2` at `key1/key3/key4`. */
  lemma SampleMergedLookups()
    ensures var root := Map(MergeInto([], [SampleEntry()]));
            Get(root, ["key1", "key2"]) == Some(String("value1")) &&
            Get(root, ["key1", "key3", "key4"]) == Some(String("value2"))
  {
    var key3 := Map([("key4", String("value2"))]);
    var key1 := Map([("key2", String("value1")), ("key3", key3)]);
    assert MergeInto([], [P.Entry("key4", P.String("value2"), None)]) == key3.entries;
    assert MergeInto([], SampleEntry().value.entries) == key1.entries;
    assert MergeInto([], [SampleEntry()]) == [("key1", key1)];
  }

  /** The flat view of the sample has the same two leaves under the same paths. */
  lemma SampleFlatLookups()
    ensures var flat := InsertAll(map[], Leaves(SampleEntry(), []));
            ["key1", "key2"] in flat && flat[["key1", "key2"]] == "value1" &&
            ["key1", "key3", "key4"] in flat && flat[["key1", "key3", "key4"]] == "value2"
  {
    var k4 := P.Entry("key4", P.String("value2"), None);
    var k3 := P.Entry("key3", P.Map([k4]), None);
    var k2 := P.Entry("key2", P.String("value1"), None);
    assert [] + ["key1"] == ["key1"];
    assert ["key1"] + ["key2"] == ["key1", "key2"] && ["key1"] + ["key3"] == ["key1", "key3"];
    assert ["key1", "key3"] + ["key4"] == ["key1", "key3", "key4"];
    assert [k4][1..] == [] && [k3][1..] == [] && [k2, k3][1..] == [k3];
    assert Leaves(k2, ["key1"]) == [(["key1", "key2"], "value1")];
    assert LeavesAll([k4], ["key1", "key3"]) == [(["key1", "key3", "key4"], "value2")];
    assert Leaves(k3, ["key1"]) == [(["key1", "key3", "key4"], "value2")];
    assert LeavesAll([k3], ["key1"]) == [(["key1", "key3", "key4"], "value2")];
    var ls := [(["key1", "key2"], "value1"), (["key1", "key3", "key4"], "value2")];
    assert LeavesAll([k2, k3], ["key1"]) == ls;
    assert Leaves(SampleEntry(), []) == ls;
    assert InsertAll(map[], ls) == map[["key1", "key2"] := "value1", ["key1", "key3", "key4"] := "value2"];
  }

  /**
   * A later block for an existing block extends it one level deep: inner
   * keys are overwritten where they stand, new inner keys are appended,
   * and a nested block of the same name is replaced whole.
   */
  lemma ExtendIsOneLevel()
    ensures MergeInto([], [
              P.Entry("s", P.Map([P.Entry("x", P.String("1"), None), P.Entry("t", P.Map([P.Entry("y", P.String("1"), None)]), None)]), None),
              P.Entry("s", P.Map([P.Entry("t", P.Map([P.Entry("z", P.String("2"), None)]), None), P.Entry("x", P.String("3"), None)]), None)])
            == [("s", Map([("x", String("3")), ("t", Map([("z", String("2"))]))]))]
  {
    ExtendParts();
    var first := [("x", String("1")), ("t", Map([("y", String("1"))]))];
    var second := [("t", Map([("z", String("2"))])), ("x", String("3"))];
    assert IM.Extend(first, second) == [("x", String("3")), ("t", Map([("z", String("2"))]))];
  }

  /** The two blocks of `ExtendIsOneLevel`, each merged on its own. */
  lemma ExtendParts()
    ensures MergeInto([], [P.Entry("x", P.String("1"), None), P.Entry("t", P.Map([P.Entry("y", P.String("1"), None)]), None)])
            == [("x", String("1")), ("t", Map([("y", String("1"))]))]
    ensures MergeInto([], [P.Entry("t", P.Map([P.Entry("z", P.String("2"), None)]), None), P.Entry("x", P.String("3"), None)])
            == [("t", Map([("z", String("2"))])), ("x", String("3"))]
  {
    assert MergeInto([], [P.Entry("y", P.String("1"), None)]) == [("y", String("1"))];
    assert MergeInto([], [P.Entry("z", P.String("2"), None)]) == [("z", String("2"))];
  }

  /**
   * When a block is later replaced by a string of the same name, the
   * merged tree loses the block's paths but the flat view keeps them.
   */
  lemma FlatKeepsReplacedBlock()
    ensures var e := ReplacedBlock();
            Get(Map(MergeInto([], [e])), ["r", "a", "b"]) == None &&
            Get(Map(MergeInto([], [e])), ["r", "a"]) == Some(String("2")) &&
            var flat := InsertAll(map[], Leaves(e, []));
            ["r", "a", "b"] in flat && flat[["r", "a", "b"]] == "1" &&
            ["r", "a"] in flat && flat[["r", "a"]] == "2"
  {
    ReplacedBlockMerged();
    ReplacedBlockLeaves();
    var ls := [(["r", "a", "b"], "1"), (["r", "a"], "2")];
    assert InsertAll(map[], ls) == map[["r", "a", "b"] := "1", ["r", "a"] := "2"];
  }

  /** Block `r` holding a block `a` (with `b` = `1`) and then a string `a` = `2`. */
  function ReplacedBlock(): P.Entry {
    P.Entry("r", P.Map([
      P.Entry("a", P.Map([P.Entry("b", P.String("1"), None)]), None),
      P.Entry("a", P.String("2"), None)]), None)
  }

  /** The merged tree of `ReplacedBlock` keeps only the later string `a`. */
  lemma ReplacedBlockMerged()
    ensures MergeInto([], [ReplacedBlock()]) == [("r", Map([("a", String("2"))]))]
  {
    var e := ReplacedBlock();
    assert MergeInto([], [P.Entry("b", P.String("1"), None)]) == [("b", String("1"))];
    assert MergeInto([], e.value.entries) == [("a", String("2"))];
  }

  /** The leaves of `ReplacedBlock`, in order: `r.a.b` = `1`, then `r.a` = `2`. */
  lemma ReplacedBlockLeaves()
    ensures Leaves(ReplacedBlock(), []) == [(["r", "a", "b"], "1"), (["r", "a"], "2")]
  {
    var e := ReplacedBlock();
    var b := P.Entry("b", P.String("1"), None);
    var a1 := P.Entry("a", P.Map([b]), None);
    var a2 := P.Entry("a", P.String("2"), None);
    assert [] + ["r"] == ["r"];
    assert ["r"] + ["a"] == ["r", "a"] && ["r", "a"] + ["b"] == ["r", "a", "b"];
    assert [b][1..] == [] && [a2][1..] == [] && [a1, a2][1..] == [a2];
    assert LeavesAll([b], ["r", "a"]) == [(["r", "a", "b"], "1")];
    assert Leaves(a1, ["r"]) == [(["r", "a", "b"], "1")];
    assert LeavesAll([a2], ["r"]) == [(["r", "a"], "2")];
    assert LeavesAll([a1, a2], ["r"]) == [(["r", "a", "b"], "1"), (["r", "a"], "2")];
  }
}
