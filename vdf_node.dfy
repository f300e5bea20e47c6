/**
 * The recursive-descent reader of the `steamkit-vdf` crate: it walks a
 * token stream with a peekable cursor and builds a tree of nodes, each
 * level a hash map from key to node, plus the dotted-path `lookup`.
 *
 * The cursor is the token sequence `ts` and a position `i`. Each reader
 * returns the position it has moved the cursor to. The readers that loop
 * are methods proved against specification functions of the same shape.
 */
module VdfNode {
  import opened Wrappers
  import opened Text
  import T = VdfToken

  datatype Node = Node(key: string, value: NodeValue, condition: Option<string>)

  datatype NodeValue = Map(nodes: map<string, Node>) | String(text: string)

  // ---------------------------------------------------------------------
  // Building a level: a later node replaces an earlier one with the same key

  /** The hash map a level's loop fills: each node inserted under its key, in reading order. */
  function Collect(ns: seq<Node>): map<string, Node>
    decreases |ns|
  {
    if ns == [] then map[] else Collect(ns[..|ns| - 1])[ns[|ns| - 1].key := ns[|ns| - 1]]
  }

  /** The last node of `ns` whose key is `k`. */
  function LastWithKey(ns: seq<Node>, k: string): (r: Option<Node>)
    ensures r.Some? ==> r.value in ns && r.value.key == k
    ensures r.None? <==> forall n :: n in ns ==> n.key != k
    decreases |ns|
  {
    if ns == [] then None
    else if ns[|ns| - 1].key == k then Some(ns[|ns| - 1])
    else
      var r := LastWithKey(ns[..|ns| - 1], k);
      assert forall n :: n in ns ==> n in ns[..|ns| - 1] || n == ns[|ns| - 1];
      r
  }

  /** A level holds, for every key read, exactly the last node read with that key; nothing is merged. */
  lemma {:induction false} CollectKeepsLast(ns: seq<Node>, k: string)
    ensures k in Collect(ns) <==> LastWithKey(ns, k).Some?
    ensures k in Collect(ns) ==> Collect(ns)[k] == LastWithKey(ns, k).value
    decreases |ns|
  {
    if ns != [] {
      CollectKeepsLast(ns[..|ns| - 1], k);
    }
  }

  // ---------------------------------------------------------------------
  // Specification of the readers

  predicate IsTrivia(t: T.Token) { t.Whitespace? || t.Comment? || t.NewLine? }

  predicate IsLineTrivia(t: T.Token) { t.Whitespace? || t.Comment? }

  /** Where `read_comment` stops: past every whitespace, comment and newline token. */
  function SkipTrivia(ts: seq<T.Token>, i: nat): (j: nat)
    requires i <= |ts|
    ensures i <= j <= |ts| && (j == |ts| || !IsTrivia(ts[j]))
    ensures forall k {:trigger IsTrivia(ts[k])} :: i <= k < j ==> IsTrivia(ts[k])
    decreases |ts| - i
  {
    if i < |ts| && IsTrivia(ts[i]) then SkipTrivia(ts, i + 1) else i
  }

  /** Past the whitespace and comment tokens from `i`. */
  function SkipLineTrivia(ts: seq<T.Token>, i: nat): (j: nat)
    requires i <= |ts|
    ensures i <= j <= |ts| && (j == |ts| || !IsLineTrivia(ts[j]))
    ensures forall k {:trigger IsLineTrivia(ts[k])} :: i <= k < j ==> IsLineTrivia(ts[k])
    decreases |ts| - i
  {
    if i < |ts| && IsLineTrivia(ts[i]) then SkipLineTrivia(ts, i + 1) else i
  }

  /**
   * `read_whitespace`: consume one whitespace token and answer `true`.
   * Otherwise fail with `EndOfFile` or `UnexpectedToken`, unless the
   * whitespace is optional, in which case answer `false` and consume
   * nothing.
   */
  function ReadWhitespace(ts: seq<T.Token>, i: nat, optional: bool): (r: (Result<bool, T.Error>, nat))
    requires i <= |ts|
    ensures r.0 == Ok(true) <==> i < |ts| && ts[i].Whitespace?
    ensures r.0 == Ok(true) ==> r.1 == i + 1
    ensures r.0 != Ok(true) ==> r.1 == i
    ensures optional ==> r.0.Ok?
    ensures !optional && r.0.Err? ==> r.0.error == (if i == |ts| then T.EndOfFile else T.UnexpectedToken(ts[i]))
  {
    var res: Result<bool, T.Error> :=
      if i == |ts| then Err(T.EndOfFile)
      else if ts[i].Whitespace? then Ok(true)
      else Err(T.UnexpectedToken(ts[i]));
    var j := if res.Ok? then i + 1 else i;
    if optional && res.Err? then (Ok(false), j) else (res, j)
  }

  /**
   * `read_eol`: skip whitespace and comments, then take one newline
   * token, or accept the end of the tokens; any other token is unexpected.
   */
  function ReadEolSpec(ts: seq<T.Token>, i: nat): (r: Result<nat, T.Error>)
    requires i <= |ts|
    ensures r.Ok? ==> i <= r.value <= |ts| && (r.value == |ts| || (i < r.value && ts[r.value - 1].NewLine?))
    ensures r.Ok? ==> forall k {:trigger IsLineTrivia(ts[k])} :: i <= k < r.value - 1 ==> IsLineTrivia(ts[k])
    ensures r.Err? ==> r.error.UnexpectedToken? && !IsTrivia(r.error.token)
  {
    var k := SkipLineTrivia(ts, i);
    if k == |ts| then Ok(k)
    else if ts[k].NewLine? then Ok(k + 1)
    else Err(T.UnexpectedToken(ts[k]))
  }

  /** `read_string`: a quoted or unquoted string token; anything else is unexpected. */
  function ReadString(ts: seq<T.Token>, i: nat): (r: Result<(string, nat), T.Error>)
    requires i <= |ts|
    ensures r.Ok? <==> i < |ts| && (ts[i].String? || ts[i].QuotedString?)
    ensures r.Ok? ==> r.value == (ts[i].text, i + 1)
    ensures r.Err? ==> r.error == (if i == |ts| then T.EndOfFile else T.UnexpectedToken(ts[i]))
  {
    if i == |ts| then Err(T.EndOfFile)
    else if ts[i].String? || ts[i].QuotedString? then Ok((ts[i].text, i + 1))
    else Err(T.UnexpectedToken(ts[i]))
  }

  /** After the key: whitespace, then a string value if one follows (a failed read is dropped). */
  function ValueAfterKey(ts: seq<T.Token>, k: nat): (r: (Option<string>, nat))
    requires k <= |ts|
    ensures k <= r.1 <= |ts|
    ensures r.0.Some? <==> k + 1 < |ts| && ts[k].Whitespace? && (ts[k + 1].String? || ts[k + 1].QuotedString?)
    ensures r.0.Some? ==> r.0.value == ts[k + 1].text && r.1 == k + 2
    ensures r.0.None? ==> r.1 == (if k < |ts| && ts[k].Whitespace? then k + 1 else k)
  {
    var w := ReadWhitespace(ts, k, true);
    if w.0 == Ok(true) then
      match ReadString(ts, w.1)
      case Ok((v, j)) => (Some(v), j)
      case Err(_) => (None, w.1)
    else (None, w.1)
  }

  /** After a scalar value: whitespace, then a condition token if one follows. */
  function ConditionAfterValue(ts: seq<T.Token>, k: nat): (r: (Option<string>, nat))
    requires k <= |ts|
    ensures k <= r.1 <= |ts|
    ensures r.0.Some? <==> k + 1 < |ts| && ts[k].Whitespace? && ts[k + 1].Condition?
    ensures r.0.Some? ==> r.0.value == ts[k + 1].text && r.1 == k + 2
    ensures r.0.None? ==> r.1 == (if k < |ts| && ts[k].Whitespace? then k + 1 else k)
  {
    var w := ReadWhitespace(ts, k, true);
    if w.0 == Ok(true) && w.1 < |ts| && ts[w.1].Condition? then (Some(ts[w.1].text), w.1 + 1)
    else (None, w.1)
  }

  /**
   * `read_node`: a key; then either a scalar (whitespace, a string value,
   * an optional whitespace-separated condition, end of line) or a block
   * (end of line, then a group).
   */
  function NodeAt(ts: seq<T.Token>, i: nat): (r: Result<(Node, nat), T.Error>)
    requires i <= |ts|
    ensures r.Ok? ==> i < r.value.1 <= |ts| && (r.value.1 == |ts| || ts[r.value.1 - 1].NewLine?)
    ensures r.Ok? && r.value.0.condition.Some? ==> r.value.0.value.String?
    decreases |ts| - i, 1
  {
    var k := SkipTrivia(ts, i);
    match ReadString(ts, k)
    case Err(e) => Err(e)
    case Ok((key, k1)) =>
      var va := ValueAfterKey(ts, k1);
      match va.0
      case Some(v) =>
        var ca := ConditionAfterValue(ts, va.1);
        (match ReadEolSpec(ts, ca.1)
         case Err(e) => Err(e)
         case Ok(e) => Ok((Node(key, String(v), ca.0), e)))
      case None =>
        match ReadEolSpec(ts, va.1)
        case Err(e) => Err(e)
        case Ok(e) =>
          match GroupAt(ts, e)
          case Err(err) => Err(err)
          case Ok((m, g)) => Ok((Node(key, Map(m), None), g))
  }

  /** `read_group`: optional whitespace, a `{` token, then the group's nodes. */
  function GroupAt(ts: seq<T.Token>, i: nat): (r: Result<(map<string, Node>, nat), T.Error>)
    requires i <= |ts|
    ensures r.Ok? ==> i < r.value.1 <= |ts| && (r.value.1 == |ts| || ts[r.value.1 - 1].NewLine?)
    decreases |ts| - i, 3
  {
    var k := ReadWhitespace(ts, i, true).1;
    if k == |ts| then Err(T.EndOfFile)
    else if !ts[k].GroupStart? then Err(T.UnexpectedToken(ts[k]))
    else match GroupBody(ts, k + 1, [])
      case Err(e) => Err(e)
      case Ok((ns, j)) => Ok((Collect(ns), j))
  }

  /** The loop of `read_group` from `i`, with the nodes `acc` read so far: nodes until `}` and its end of line. */
  function GroupBody(ts: seq<T.Token>, i: nat, acc: seq<Node>): (r: Result<(seq<Node>, nat), T.Error>)
    requires i <= |ts|
    ensures r.Ok? ==> i < r.value.1 <= |ts| && (r.value.1 == |ts| || ts[r.value.1 - 1].NewLine?)
    decreases |ts| - i, 2
  {
    var k := SkipTrivia(ts, i);
    if k < |ts| && ts[k].GroupEnd? then
      match ReadEolSpec(ts, k + 1)
      case Err(e) => Err(e)
      case Ok(e) => Ok((acc, e))
    else
      match NodeAt(ts, k)
      case Err(e) => Err(e)
      case Ok((n, j)) => GroupBody(ts, j, acc + [n])
  }

  /** The loop of `read_root` from `i`: nodes until the tokens run out. */
  function RootBody(ts: seq<T.Token>, i: nat, acc: seq<Node>): (r: Result<seq<Node>, T.Error>)
    requires i <= |ts|
    decreases |ts| - i
  {
    var k := SkipTrivia(ts, i);
    if k == |ts| then Ok(acc)
    else match NodeAt(ts, k)
      case Err(e) => Err(e)
      case Ok((n, j)) => RootBody(ts, j, acc + [n])
  }

  /** `Nodes::try_from(&Tokens)`: the root level of the token stream. */
  function RootAt(ts: seq<T.Token>): Result<map<string, Node>, T.Error> {
    match RootBody(ts, 0, [])
    case Err(e) => Err(e)
    case Ok(ns) => Ok(Collect(ns))
  }

  // ---------------------------------------------------------------------
  // The readers

  /** `read_comment`. */
  method ReadComment(ts: seq<T.Token>, i: nat) returns (j: nat)
    requires i <= |ts|
    ensures j == SkipTrivia(ts, i)
  {
    j := i;
    while j < |ts| && IsTrivia(ts[j])
      invariant i <= j <= |ts| && SkipTrivia(ts, j) == SkipTrivia(ts, i)
    {
      j := j + 1;
    }
  }

  /** `read_eol`. */
  method ReadEol(ts: seq<T.Token>, i: nat) returns (r: Result<nat, T.Error>)
    requires i <= |ts|
    ensures r == ReadEolSpec(ts, i)
  {
    var j := i;
    while true
      invariant i <= j <= |ts| && SkipLineTrivia(ts, j) == SkipLineTrivia(ts, i)
      decreases |ts| - j
    {
      if j < |ts| && (ts[j].Comment? || ts[j].Whitespace?) {
        j := j + 1;
        continue;
      }
      if j == |ts| {
        return Ok(j);
      }
      if ts[j].NewLine? {
        return Ok(j + 1);
      }
      return Err(T.UnexpectedToken(ts[j]));
    }
  }

  /** `read_node`. */
  method ReadNode(ts: seq<T.Token>, i: nat) returns (r: Result<(Node, nat), T.Error>)
    requires i <= |ts|
    ensures r == NodeAt(ts, i)
    decreases |ts| - i, 1
  {
    var k := ReadComment(ts, i);
    var key := ReadString(ts, k);
    if key.Err? {
      return Err(key.error);
    }
    k := key.value.1;
    var value: Option<string> := None;
    var condition: Option<string> := None;
    var ws := ReadWhitespace(ts, k, true);
    k := ws.1;
    if ws.0 == Ok(true) {
      var v := ReadString(ts, k);
      if v.Ok? {
        value := Some(v.value.0);
        k := v.value.1;
      }
    }
    assert (value, k) == ValueAfterKey(ts, key.value.1);
    if value.Some? {
      var ws2 := ReadWhitespace(ts, k, true);
      k := ws2.1;
      if ws2.0 == Ok(true) && k < |ts| && ts[k].Condition? {
        condition := Some(ts[k].text);
        k := k + 1;
      }
      var eol := ReadEol(ts, k);
      if eol.Err? {
        return Err(eol.error);
      }
      return Ok((Node(key.value.0, String(value.value), condition), eol.value));
    } else {
      var eol := ReadEol(ts, k);
      if eol.Err? {
        return Err(eol.error);
      }
      var group := ReadGroup(ts, eol.value);
      if group.Err? {
        return Err(group.error);
      }
      return Ok((Node(key.value.0, Map(group.value.0), None), group.value.1));
    }
  }

  /** `read_group`: the opening of the group. */
  method ReadGroup(ts: seq<T.Token>, i: nat) returns (r: Result<(map<string, Node>, nat), T.Error>)
    requires i <= |ts|
    ensures r == GroupAt(ts, i)
    decreases |ts| - i, 3
  {
    var k := ReadWhitespace(ts, i, true).1;
    if k == |ts| {
      return Err(T.EndOfFile);
    }
    if !ts[k].GroupStart? {
      return Err(T.UnexpectedToken(ts[k]));
    }
    r := ReadGroupItems(ts, k + 1);
  }

  /** The loop of `read_group`: read nodes into the level's map until `}` and its end of line. */
  method ReadGroupItems(ts: seq<T.Token>, start: nat) returns (r: Result<(map<string, Node>, nat), T.Error>)
    requires start <= |ts|
    ensures var body := GroupBody(ts, start, []);
            r == if body.Err? then Err(body.error) else Ok((Collect(body.value.0), body.value.1))
    decreases |ts| - start, 2
  {
    ghost var body := GroupBody(ts, start, []);
    var k := start;
    var m: map<string, Node> := map[];
    ghost var ns: seq<Node> := [];
    while true
      invariant start <= k <= |ts|
      invariant m == Collect(ns)
      invariant GroupBody(ts, k, ns) == body
      decreases |ts| - k
    {
      ghost var k0 := k;
      k := ReadComment(ts, k);
      if k < |ts| && ts[k].GroupEnd? {
        var eol := ReadEol(ts, k + 1);
        GroupBodyAtEnd(ts, k0, ns, k, eol);
        if eol.Err? {
          return Err(eol.error);
        }
        return Ok((m, eol.value));
      }
      var node := ReadNode(ts, k);
      GroupBodyNode(ts, k0, ns, k, node);
      if node.Err? {
        return Err(node.error);
      }
      m := m[node.value.0.key := node.value.0];
      ns := ns + [node.value.0];
      k := node.value.1;
    }
  }

  /** One step of `GroupBody` at a `}`: the end of line after it decides the result. */
  lemma GroupBodyAtEnd(ts: seq<T.Token>, i: nat, acc: seq<Node>, k: nat, e: Result<nat, T.Error>)
    requires i <= |ts| && k == SkipTrivia(ts, i) && k < |ts| && ts[k].GroupEnd? && e == ReadEolSpec(ts, k + 1)
    ensures e.Err? ==> GroupBody(ts, i, acc) == Err(e.error)
    ensures e.Ok? ==> GroupBody(ts, i, acc) == Ok((acc, e.value))
  {
  }

  /** One step of `GroupBody` at anything else: a node is read and the loop goes on after it. */
  lemma GroupBodyNode(ts: seq<T.Token>, i: nat, acc: seq<Node>, k: nat, n: Result<(Node, nat), T.Error>)
    requires i <= |ts| && k == SkipTrivia(ts, i) && !(k < |ts| && ts[k].GroupEnd?) && n == NodeAt(ts, k)
    ensures n.Err? ==> GroupBody(ts, i, acc) == Err(n.error)
    ensures n.Ok? ==> GroupBody(ts, i, acc) == GroupBody(ts, n.value.1, acc + [n.value.0])
  {
  }

  /**
   * A node is a key, then, when whitespace and a string follow it, a
   * scalar: its value, the condition if whitespace and a condition token
   * follow, and the end of line, whose error is the node's. Otherwise it
   * is a block: the end of line, then a group, each failing the node
   * with its own error; the block holds the group's map and ends where
   * the group ends.
   */
  lemma NodeRead(ts: seq<T.Token>, i: nat)
    requires i <= |ts|
    ensures var key := ReadString(ts, SkipTrivia(ts, i));
            key.Err? ==> NodeAt(ts, i) == Err(key.error)
    ensures var key := ReadString(ts, SkipTrivia(ts, i));
            key.Ok? && ValueAfterKey(ts, key.value.1).0.Some? ==>
              var va := ValueAfterKey(ts, key.value.1);
              var ca := ConditionAfterValue(ts, va.1);
              var eol := ReadEolSpec(ts, ca.1);
              (NodeAt(ts, i).Ok? <==> eol.Ok?) &&
              (eol.Err? ==> NodeAt(ts, i) == Err(eol.error)) &&
              (eol.Ok? ==> NodeAt(ts, i).value == (Node(key.value.0, String(va.0.value), ca.0), eol.value))
    ensures var key := ReadString(ts, SkipTrivia(ts, i));
            key.Ok? && ValueAfterKey(ts, key.value.1).0.None? ==>
              var eol := ReadEolSpec(ts, ValueAfterKey(ts, key.value.1).1);
              (NodeAt(ts, i).Ok? <==> eol.Ok? && GroupAt(ts, eol.value).Ok?) &&
              (eol.Err? ==> NodeAt(ts, i) == Err(eol.error)) &&
              (eol.Ok? && GroupAt(ts, eol.value).Err? ==> NodeAt(ts, i) == Err(GroupAt(ts, eol.value).error)) &&
              (eol.Ok? && GroupAt(ts, eol.value).Ok? ==>
                 NodeAt(ts, i).value == (Node(key.value.0, Map(GroupAt(ts, eol.value).value.0), None), GroupAt(ts, eol.value).value.1))
  {
  }

  /**
   * A group is an optional whitespace token, then a `{`: the end of the
   * tokens there is `EndOfFile` and any other token is unexpected. After
   * the `{` the loop decides: its error is the group's, and otherwise the
   * group is the map of the nodes it read and ends where it ends.
   */
  lemma GroupRead(ts: seq<T.Token>, i: nat)
    requires i <= |ts|
    ensures var k := if i < |ts| && ts[i].Whitespace? then i + 1 else i;
            (k == |ts| ==> GroupAt(ts, i) == Err(T.EndOfFile)) &&
            (k < |ts| && !ts[k].GroupStart? ==> GroupAt(ts, i) == Err(T.UnexpectedToken(ts[k])))
    ensures var k := if i < |ts| && ts[i].Whitespace? then i + 1 else i;
            k < |ts| && ts[k].GroupStart? ==>
              var body := GroupBody(ts, k + 1, []);
              (GroupAt(ts, i).Ok? <==> body.Ok?) &&
              (body.Err? ==> GroupAt(ts, i) == Err(body.error)) &&
              (body.Ok? ==> GroupAt(ts, i).value == (Collect(body.value.0), body.value.1))
  {
  }

  /** The group loop only adds to the nodes it was given: what it returns starts with them. */
  lemma {:induction false} GroupBodyExtends(ts: seq<T.Token>, i: nat, acc: seq<Node>)
    requires i <= |ts|
    ensures GroupBody(ts, i, acc).Ok? ==> acc <= GroupBody(ts, i, acc).value.0
    decreases |ts| - i
  {
    var k := SkipTrivia(ts, i);
    if !(k < |ts| && ts[k].GroupEnd?) {
      match NodeAt(ts, k)
      case Err(_) =>
      case Ok((n, j)) =>
        GroupBodyExtends(ts, j, acc + [n]);
    }
  }

  /** `read_root`. */
  method ReadRoot(ts: seq<T.Token>) returns (r: Result<map<string, Node>, T.Error>)
    ensures r == RootAt(ts)
  {
    var k := 0;
    var m: map<string, Node> := map[];
    ghost var ns: seq<Node> := [];
    while true
      invariant k <= |ts|
      invariant m == Collect(ns)
      invariant RootBody(ts, k, ns) == RootBody(ts, 0, [])
      decreases |ts| - k
    {
      k := ReadComment(ts, k);
      if k == |ts| {
        break;
      }
      var node := ReadNode(ts, k);
      if node.Err? {
        return Err(node.error);
      }
      m := m[node.value.0.key := node.value.0];
      ns := ns + [node.value.0];
      k := node.value.1;
    }
    r := Ok(m);
  }

  // ---------------------------------------------------------------------
  // Dotted-path lookup

  predicate IsNotDot(c: char) { c != '.' }

  /** `split_once(".")`, or the whole path and `""` when there is no dot. */
  function SplitOnce(path: string): (r: (string, string))
    ensures '.' !in r.0
    ensures r.1 == [] ==> r.0 == path || r.0 + "." == path
    ensures r.1 != [] ==> path == r.0 + "." + r.1
  {
    var k := Span(path, 0, IsNotDot);
    SpanAll(path, 0, IsNotDot);
    assert forall c :: c in path[..k] ==> IsNotDot(c);
    if k == |path| then
      assert path[..k] == path;
      (path, "")
    else
      assert path == path[..k] + "." + path[k + 1..];
      (path[..k], path[k + 1..])
  }

  /** `Nodes::lookup`: the head key of the path, then the rest of it inside that node's map. */
  function Lookup(nodes: map<string, Node>, path: string): (r: Result<Option<Node>, T.Error>)
    ensures r.Err? ==> r.error == T.Lookup
    decreases |path|
  {
    var sp := SplitOnce(path);
    if sp.0 !in nodes then Ok(None)
    else if sp.1 != "" then
      match nodes[sp.0].value
      case Map(m) => Lookup(m, sp.1)
      case String(_) => Err(T.Lookup)
    else Ok(Some(nodes[sp.0]))
  }

  /** Lookup by a list of keys, one level per key: the reference the dotted form is checked against. */
  function LookupPath(nodes: map<string, Node>, keys: seq<string>): Result<Option<Node>, T.Error>
    requires |keys| > 0
    decreases |keys|
  {
    if keys[0] !in nodes then Ok(None)
    else if |keys| == 1 then Ok(Some(nodes[keys[0]]))
    else match nodes[keys[0]].value
      case Map(m) => LookupPath(m, keys[1..])
      case String(_) => Err(T.Lookup)
  }

  lemma SplitOnceJoin(keys: seq<string>)
    requires |keys| > 1 && forall k :: 0 <= k < |keys| ==> '.' !in keys[k]
    ensures SplitOnce(Join(keys, ".")) == (keys[0], Join(keys[1..], "."))
  {
    var p := Join(keys, ".");
    assert p == keys[0] + "." + Join(keys[1..], ".");
    assert p[|keys[0]|] == '.';
    assert forall k :: 0 <= k < |keys[0]| ==> p[k] == keys[0][k];
    assert Span(p, 0, IsNotDot) == |keys[0]| by {
      SpanStopsAt(p, |keys[0]|);
    }
    assert p[..|keys[0]|] == keys[0];
    assert p[|keys[0]| + 1..] == Join(keys[1..], ".");
  }

  lemma SpanStopsAt(p: string, n: nat)
    requires n < |p| && p[n] == '.' && forall k :: 0 <= k < n ==> p[k] != '.'
    ensures Span(p, 0, IsNotDot) == n
  {
    SpanAt(p, 0, IsNotDot, n);
  }

  lemma {:induction false} JoinNonEmpty(keys: seq<string>)
    requires |keys| > 1
    ensures Join(keys, ".") != ""
  {
    assert Join(keys, ".") == keys[0] + "." + Join(keys[1..], ".");
  }

  /**
   * The dotted path `k1.k2.…` looks up `k1`, then `k2` inside it, and so
   * on, as long as no key contains a dot and the last key is not empty.
   */
  lemma {:induction false} LookupJoin(nodes: map<string, Node>, keys: seq<string>)
    requires |keys| > 0 && forall k :: 0 <= k < |keys| ==> '.' !in keys[k]
    requires |keys| > 1 ==> keys[|keys| - 1] != ""
    ensures Lookup(nodes, Join(keys, ".")) == LookupPath(nodes, keys)
    decreases |keys|
  {
    if |keys| == 1 {
      assert Join(keys, ".") == keys[0];
      assert SplitOnce(keys[0]).0 == keys[0];
    } else {
      SplitOnceJoin(keys);
      var rest := keys[1..];
      if |rest| > 1 {
        JoinNonEmpty(rest);
      } else {
        assert Join(rest, ".") == rest[0];
      }
      if keys[0] in nodes && nodes[keys[0]].value.Map? {
        LookupJoin(nodes[keys[0]].value.nodes, rest);
      }
    }
  }

  /** A trailing dot is ignored: `k.` finds the same node as `k`. */
  lemma LookupTrailingDot(nodes: map<string, Node>, k: string)
    requires '.' !in k
    ensures Lookup(nodes, k + ".") == Lookup(nodes, k)
  {
    var p := k + ".";
    assert p[|k|] == '.' && forall m :: 0 <= m < |k| ==> p[m] == k[m];
    SpanStopsAt(p, |k|);
    assert p[..|k|] == k;
    assert p[|k| + 1..] == "";
    assert Span(k, 0, IsNotDot) == |k|;
    assert k[..|k|] == k;
  }

  // ---------------------------------------------------------------------
  // Worked examples over token streams

  /** `k "v" [$X]` then a newline: a scalar with its condition. */
  lemma ScalarWithCondition()
    ensures NodeAt([T.String("k"), T.Whitespace(" "), T.QuotedString("v"), T.Whitespace(" "), T.Condition("$X"), T.NewLine("\n")], 0)
            == Ok((Node("k", String("v"), Some("$X")), 6))
  {
  }

  /** A condition must be separated from the value by whitespace; otherwise it is an unexpected token. */
  lemma ConditionNeedsWhitespace()
    ensures NodeAt([T.String("k"), T.Whitespace(" "), T.String("v"), T.Condition("$X"), T.NewLine("\n")], 0)
            == Err(T.UnexpectedToken(T.Condition("$X")))
  {
  }

  /** `k {` on one line: the key of a block must end its line. */
  lemma BraceOnKeyLine()
    ensures NodeAt([T.String("k"), T.Whitespace(" "), T.GroupStart, T.NewLine("\n"), T.GroupEnd], 0)
            == Err(T.UnexpectedToken(T.GroupStart))
  {
  }

  /** Running out of tokens before the closing brace is `EndOfFile`. */
  lemma UnclosedGroup()
    ensures NodeAt([T.String("k"), T.NewLine("\n"), T.GroupStart, T.NewLine("\n")], 0) == Err(T.EndOfFile)
  {
    var ts := [T.String("k"), T.NewLine("\n"), T.GroupStart, T.NewLine("\n")];
    assert GroupBody(ts, 3, []) == Err(T.EndOfFile);
  }

  function SmallBlockTokens(): seq<T.Token> {
    [T.String("b"), T.NewLine("\n"), T.GroupStart, T.NewLine("\n"),
     T.String("k"), T.Whitespace(" "), T.String("v"), T.NewLine("\n"), T.GroupEnd]
  }

  /** A group of one scalar line (`{`, a line end, `key value`, a line end, `}`) ending the tokens. */
  lemma OneScalarGroup(ts: seq<T.Token>, i: nat)
    requires i + 7 == |ts|
    requires ts[i].GroupStart? && ts[i + 1].NewLine? && ts[i + 2].String? && ts[i + 3].Whitespace?
    requires ts[i + 4].String? && ts[i + 5].NewLine? && ts[i + 6].GroupEnd?
    ensures GroupAt(ts, i) == Ok((map[ts[i + 2].text := Node(ts[i + 2].text, String(ts[i + 4].text), None)], i + 7))
  {
    var kv := Node(ts[i + 2].text, String(ts[i + 4].text), None);
    var e: nat := i + 7;
    var close: nat := i + 6;
    assert NodeAt(ts, i + 2) == Ok((kv, close)) by {
      ScalarLineNode(ts, i + 2);
    }
    assert GroupBody(ts, close, [kv]) == Ok(([kv], e)) by {
      assert SkipTrivia(ts, close) == close;
      assert ReadEolSpec(ts, e) == Ok(e);
    }
    assert GroupBody(ts, i + 1, []) == Ok(([kv], e)) by {
      assert SkipTrivia(ts, i + 2) == i + 2;
      assert SkipTrivia(ts, i + 1) == i + 2;
      assert [] + [kv] == [kv];
    }
    assert ReadWhitespace(ts, i, true).1 == i;
    assert Collect([kv]) == map[kv.key := kv];
  }

  /** A block: the key, its line end, `{`, a scalar, `}`. */
  lemma SmallBlock()
    ensures NodeAt(SmallBlockTokens(), 0) == Ok((Node("b", Map(map["k" := Node("k", String("v"), None)]), None), 9))
  {
    var ts := SmallBlockTokens();
    assert SkipTrivia(ts, 0) == 0;
    assert ReadString(ts, 0) == Ok(("b", 1));
    assert ValueAfterKey(ts, 1) == (None, 1);
    assert ReadEolSpec(ts, 1) == Ok(2);
    OneScalarGroup(ts, 2);
  }

  /** A line `key value` ending in a newline is one scalar node without a condition. */
  lemma ScalarLineNode(ts: seq<T.Token>, i: nat)
    requires i + 4 <= |ts|
    requires ts[i].String? && ts[i + 1].Whitespace? && ts[i + 2].String? && ts[i + 3].NewLine?
    ensures NodeAt(ts, i) == Ok((Node(ts[i].text, String(ts[i + 2].text), None), i + 4))
  {
    assert SkipTrivia(ts, i) == i;
    assert ValueAfterKey(ts, i + 1) == (Some(ts[i + 2].text), i + 3);
    assert ConditionAfterValue(ts, i + 3) == (None, i + 3);
    assert SkipLineTrivia(ts, i + 3) == i + 3;
    assert ReadEolSpec(ts, i + 3) == Ok(i + 4);
  }

  /** A second node with the same key at the same level replaces the first. */
  lemma DuplicateKeyReplaces(k: string, v1: string, v2: string, w: string, nl: string)
    ensures RootAt([T.String(k), T.Whitespace(w), T.String(v1), T.NewLine(nl),
                    T.String(k), T.Whitespace(w), T.String(v2), T.NewLine(nl)])
            == Ok(map[k := Node(k, String(v2), None)])
  {
    var ts := [T.String(k), T.Whitespace(w), T.String(v1), T.NewLine(nl),
               T.String(k), T.Whitespace(w), T.String(v2), T.NewLine(nl)];
    var n1 := Node(k, String(v1), None);
    var n2 := Node(k, String(v2), None);
    assert RootBody(ts, 8, [n1, n2]) == Ok([n1, n2]) by {
      assert SkipTrivia(ts, 8) == 8;
    }
    assert RootBody(ts, 4, [n1]) == Ok([n1, n2]) by {
      assert SkipTrivia(ts, 4) == 4;
      ScalarLineNode(ts, 4);
      assert [n1] + [n2] == [n1, n2];
    }
    assert RootBody(ts, 0, []) == Ok([n1, n2]) by {
      assert SkipTrivia(ts, 0) == 0;
      ScalarLineNode(ts, 0);
      assert [] + [n1] == [n1];
    }
    assert Collect([n1, n2]) == map[k := n2] by {
      assert [n1, n2][..1] == [n1];
      assert Collect([n1]) == map[k := n1];
    }
  }
}
