/** Flattening a YAML tree into dotted keys, and reloading. */
module Config {
  import opened Common
  import Decimal

  /** A key of a YAML map; one that is not a scalar makes the conversion to text throw. */
  datatype Key = TextKey(text: string) | OtherKey

  datatype Node =
    | Scalar(text: string)
    | Map(entries: seq<(Key, Node)>)
    | Sequence(items: seq<Node>)
    | Other

  datatype Value = IntValue(i: int) | DoubleValue(d: real) | BoolValue(b: bool) | TextValue(s: string)

  /** The library's text conversions, which may throw. */
  datatype Texts = Texts(stoi: string -> Option<int>, stod: string -> Option<real>)

  type Configs = map<string, Value>

  function Convert(c: Texts, s: string): Value {
    if c.stoi(s).Some? then IntValue(c.stoi(s).value)
    else if c.stod(s).Some? then DoubleValue(c.stod(s).value)
    else if s == "true" || s == "True" || s == "1" then BoolValue(true)
    else if s == "false" || s == "False" || s == "0" then BoolValue(false)
    else TextValue(s)
  }

  /** `v` is what the text of a scalar stands for: a whole number if it reads as one, else a
      decimal one if it reads as that, else a truth value if it is one of six words, else itself. */
  ghost predicate StandsFor(c: Texts, text: string, v: Value) {
    match v
    case IntValue(i) => c.stoi(text) == Some(i)
    case DoubleValue(d) => c.stoi(text) == None && c.stod(text) == Some(d)
    case BoolValue(b) =>
      && c.stoi(text) == None && c.stod(text) == None
      && text in if b then {"true", "True", "1"} else {"false", "False", "0"}
    case TextValue(s) =>
      && s == text && c.stoi(text) == None && c.stod(text) == None
      && text !in {"true", "True", "1", "false", "False", "0"}
  }

  /** Every text stands for exactly one value, the one it is converted to. */
  lemma ConvertExactly(c: Texts, text: string, v: Value)
    ensures StandsFor(c, text, v) <==> v == Convert(c, text)
  {
    assert "true" != "false" && "true" != "False" && "true" != "0";
    assert "True" != "false" && "True" != "False" && "True" != "0";
    assert "1" != "false" && "1" != "False" && "1" != "0";
  }

  // ---------------------------------------------------------------- the tree

  function Arity(node: Node): nat {
    match node
    case Map(entries) => |entries|
    case Sequence(items) => |items|
    case _ => 0
  }

  function Child(node: Node, j: nat): (child: Node)
    requires j < Arity(node)
    ensures child < node
  {
    match node
    case Map(entries) => entries[j].1
    case Sequence(items) => items[j]
  }

  predicate Named(node: Node, j: nat)
    requires j < Arity(node)
  {
    node.Map? ==> node.entries[j].0.TextKey?
  }

  /** One step of a path: a map key or the decimal position in a sequence. */
  function Name(node: Node, j: nat): string
    requires j < Arity(node) && Named(node, j)
  {
    match node
    case Map(entries) => entries[j].0.text
    case Sequence(_) => Decimal.Text(j)
  }

  /** `text` is the scalar found by following `path` down the tree. */
  ghost predicate IsLeaf(node: Node, path: seq<string>, text: string)
    decreases node
  {
    if node.Scalar? then path == [] && text == node.text
    else path != [] && exists j: nat :: LeafVia(node, j, path, text)
  }

  ghost predicate LeafVia(node: Node, j: nat, path: seq<string>, text: string)
    decreases node, 0
  {
    path != [] && j < Arity(node) && Named(node, j) && Name(node, j) == path[0]
    && IsLeaf(Child(node, j), path[1..], text)
  }

  // ---------------------------------------------------------------- flattening

  function Under(prefix: string, node: Node, name: string): string {
    if prefix == "" && node.Map? then name else prefix + "." + name
  }

  /** What parsing `node` under `prefix` makes of the configuration; false when a key threw, which
      leaves what was written before. */
  function Flatten(c: Texts, prefix: string, node: Node, m: Configs): (bool, Configs)
    decreases node, Arity(node) + 1
  {
    if node.Scalar? then (true, m[if prefix == "" then "root" else prefix := Convert(c, node.text)])
    else FlattenUpTo(c, prefix, node, Arity(node), m)
  }

  /** The first `n` children, in order. */
  function FlattenUpTo(c: Texts, prefix: string, node: Node, n: nat, m: Configs): (bool, Configs)
    requires n <= Arity(node)
    decreases node, n
  {
    if n == 0 then (true, m)
    else
      var before := FlattenUpTo(c, prefix, node, n - 1, m);
      if !before.0 || !Named(node, n - 1) then (false, before.1)
      else Flatten(c, Under(prefix, node, Name(node, n - 1)), Child(node, n - 1), before.1)
  }

  /** Once a child failed, the rest is never looked at. */
  lemma {:induction false} FailureStops(c: Texts, prefix: string, node: Node, k: nat, n: nat, m: Configs)
    requires k <= n <= Arity(node) && !FlattenUpTo(c, prefix, node, k, m).0
    ensures FlattenUpTo(c, prefix, node, n, m) == FlattenUpTo(c, prefix, node, k, m)
    decreases n
  {
    if k < n {
      FailureStops(c, prefix, node, k, n - 1, m);
    }
  }

  class ConfigStore {
    var configs: Configs
    var callbacks: map<string, nat>
    const texts: Texts

    constructor (texts: Texts)
      ensures configs == map[] && callbacks == map[] && this.texts == texts
    {
      configs, callbacks := map[], map[];
      this.texts := texts;
    }

    method ParseYamlNode(prefix: string, node: Node) returns (ok: bool)
      modifies this`configs
      ensures (ok, configs) == Flatten(texts, prefix, node, old(configs))
      decreases node, 1
    {
      match node
      case Scalar(text) =>
        var key := if prefix == "" then "root" else prefix;
        configs := configs[key := Convert(texts, text)];
        ok := true;
      case Map(_) => ok := ParseMap(prefix, node);
      case Sequence(_) => ok := ParseSequence(prefix, node);
      case Other => ok := true;
    }

    method ParseMap(prefix: string, node: Node) returns (ok: bool)
      requires node.Map?
      modifies this`configs
      ensures (ok, configs) == FlattenUpTo(texts, prefix, node, |node.entries|, old(configs))
      decreases node, 0
    {
      hide Flatten;
      for i := 0 to |node.entries|
        invariant (true, configs) == FlattenUpTo(texts, prefix, node, i, old(configs))
      {
        if node.entries[i].0.OtherKey? {
          FailureStops(texts, prefix, node, i + 1, |node.entries|, old(configs));
          return false;
        }
        var key := node.entries[i].0.text;
        var child := node.entries[i].1;
        assert Child(node, i) == child && Name(node, i) == key;
        ok := ParseYamlNode(if prefix == "" then key else prefix + "." + key, child);
        if !ok {
          FailureStops(texts, prefix, node, i + 1, |node.entries|, old(configs));
          return;
        }
      }
      ok := true;
    }

    method ParseSequence(prefix: string, node: Node) returns (ok: bool)
      requires node.Sequence?
      modifies this`configs
      ensures (ok, configs) == FlattenUpTo(texts, prefix, node, |node.items|, old(configs))
      decreases node, 0
    {
      hide Flatten;
      for i := 0 to |node.items|
        invariant (true, configs) == FlattenUpTo(texts, prefix, node, i, old(configs))
      {
        assert Child(node, i) == node.items[i];
        ok := ParseYamlNode(prefix + "." + Decimal.Text(i), node.items[i]);
        if !ok {
          FailureStops(texts, prefix, node, i + 1, |node.items|, old(configs));
          return;
        }
      }
      ok := true;
    }

    /** `file` is what the YAML library makes of the file, if it can be read at all. */
    method LoadFromFile(file: Option<Node>) returns (ok: bool)
      modifies this`configs
      ensures file.None? ==> !ok && configs == old(configs)
      ensures file.Some? ==> (ok, configs) == Flatten(texts, "", file.value, old(configs))
    {
      match file
      case None => ok := false;
      case Some(root) => ok := ParseYamlNode("", root);
    }

    method OnChange(key: string)
      modifies this`callbacks
      ensures callbacks == old(callbacks)[key := if key in old(callbacks) then old(callbacks)[key] + 1 else 1]
    {
      callbacks := callbacks[key := if key in callbacks then callbacks[key] + 1 else 1];
    }

    /** All or nothing: a failed reload restores every old value and tells nobody; a successful
        one keeps nothing old and tells exactly the watchers of changed keys, each once. */
    method Reload(file: Option<Node>) returns (ok: bool, told: map<string, nat>)
      modifies this`configs
      ensures ok == (file.Some? && Flatten(texts, "", file.value, map[]).0)
      ensures !ok ==> configs == old(configs) && told == map[]
      ensures ok ==> configs == Flatten(texts, "", file.value, map[]).1
      ensures ok ==> told == map key | key in callbacks && Changed(key, old(configs), configs) :: callbacks[key]
    {
      hide Flatten, Changed;
      var oldConfigs := configs;
      configs := map[];
      ok := LoadFromFile(file);
      told := map[];
      if !ok {
        configs := oldConfigs;
        return;
      }
      told := Notify(oldConfigs);
    }

    /** Visits every watched key, in some order. */
    method Notify(oldConfigs: Configs) returns (told: map<string, nat>)
      ensures told == map key | key in callbacks && Changed(key, oldConfigs, configs) :: callbacks[key]
    {
      hide Changed;
      told := map[];
      var todo := callbacks.Keys;
      while todo != {}
        invariant todo <= callbacks.Keys
        invariant forall key :: key in told <==> key in callbacks && key !in todo && Changed(key, oldConfigs, configs)
        invariant forall key :: key in told ==> told[key] == callbacks[key]
        decreases |todo|
      {
        var key :| key in todo;
        todo := todo - {key};
        if Changed(key, oldConfigs, configs) {
          told := told[key := callbacks[key]];
        }
      }
    }
  }

  predicate Changed(key: string, oldConfigs: Configs, newConfigs: Configs) {
    if (key in oldConfigs) != (key in newConfigs) then true
    else if key !in oldConfigs then false
    else
      match (oldConfigs[key], newConfigs[key])
      case (IntValue(a), IntValue(b)) => a != b
      case (DoubleValue(a), DoubleValue(b)) => (if a < b then b - a else a - b) > 0.000000001
      case (BoolValue(a), BoolValue(b)) => a != b
      case (TextValue(a), TextValue(b)) => a != b
      case _ => true
  }

  predicate Close(a: real, b: real) {
    -0.000000001 <= a - b <= 0.000000001
  }

  /** A key is unchanged exactly when it is absent on both sides or holds the same value on both,
      where two doubles count as the same up to a distance of 1e-9. */
  lemma ChangedExactly(key: string, a: Configs, b: Configs)
    ensures !Changed(key, a, b) <==>
      (key !in a && key !in b) ||
      (key in a && key in b &&
       (a[key] == b[key] || (a[key].DoubleValue? && b[key].DoubleValue? && Close(a[key].d, b[key].d))))
  {}

  // ---------------------------------------------------------------- nothing is lost

  predicate Plain(name: string) {
    name != "" && '.' !in name
  }

  /** The keys of every map are texts that are not empty, free of dots and distinct. */
  predicate WellFormed(node: Node)
    decreases node
  {
    && (forall j :: 0 <= j < Arity(node) ==> Named(node, j))
    && (node.Map? ==> forall j :: 0 <= j < Arity(node) ==> Plain(Name(node, j)))
    && (node.Map? ==> forall i, j :: 0 <= i < j < Arity(node) ==> Name(node, i) != Name(node, j))
    && (forall j :: 0 <= j < Arity(node) ==> WellFormed(Child(node, j)))
  }

  /** In a well-formed tree the names below every node, keys or positions, are plain and distinct. */
  lemma NamesDistinct(node: Node)
    requires WellFormed(node)
    ensures forall j :: 0 <= j < Arity(node) ==> Plain(Name(node, j))
    ensures forall i, j :: 0 <= i < j < Arity(node) ==> Name(node, i) != Name(node, j)
  {
    if node.Sequence? {
      forall i, j | 0 <= i < j < Arity(node)
        ensures Name(node, i) != Name(node, j)
      {
        if Decimal.Text(i) == Decimal.Text(j) {
          Decimal.TextInjective(i, j);
        }
      }
    }
  }

  function Dotted(path: seq<string>): string {
    if path == [] then "" else "." + path[0] + Dotted(path[1..])
  }

  /** The key that the leaf at `path` below `node` gets. */
  function KeyOf(prefix: string, node: Node, path: seq<string>): string {
    if path == [] then (if prefix == "" then "root" else prefix)
    else Under(prefix, node, path[0]) + Dotted(path[1..])
  }

  lemma FirstDot(a: string, r: string)
    requires '.' !in a && (r == "" || r[0] == '.')
    ensures var t := a + r;
      && |a| <= |t| && t[..|a|] == a && t[|a|..] == r
      && (forall k :: 0 <= k < |a| ==> t[k] != '.')
      && (|a| < |t| ==> t[|a|] == '.')
  {}

  /** A plain name followed by nothing or a dot can be read back. */
  lemma SplitName(a: string, r: string, b: string, s: string)
    requires '.' !in a && '.' !in b && a + r == b + s
    requires (r == "" || r[0] == '.') && (s == "" || s[0] == '.')
    ensures a == b && r == s
  {
    FirstDot(a, r);
    FirstDot(b, s);
    assert |a| == |b|;
  }

  lemma {:induction false} DottedInjective(p: seq<string>, q: seq<string>)
    requires (forall n :: n in p ==> Plain(n)) && (forall n :: n in q ==> Plain(n))
    requires Dotted(p) == Dotted(q)
    ensures p == q
  {
    if p != [] && q != [] {
      assert Dotted(p)[1..] == p[0] + Dotted(p[1..]) && Dotted(q)[1..] == q[0] + Dotted(q[1..]);
      assert p[0] in p && q[0] in q;
      SplitName(p[0], Dotted(p[1..]), q[0], Dotted(q[1..]));
      DottedInjective(p[1..], q[1..]);
      assert p == [p[0]] + p[1..] && q == [q[0]] + q[1..];
    }
  }

  lemma UnderShape(prefix: string, node: Node, name: string, rest: string)
    ensures var front := Under(prefix, node, "");
      Under(prefix, node, name) + rest == front + (name + rest)
  {}

  lemma KeyInjective(prefix: string, node: Node, p: seq<string>, q: seq<string>)
    requires (forall n :: n in p ==> Plain(n)) && (forall n :: n in q ==> Plain(n))
    requires p != [] && q != [] && KeyOf(prefix, node, p) == KeyOf(prefix, node, q)
    ensures p == q
  {
    hide Under;
    var k := |Under(prefix, node, "")|;
    var key := KeyOf(prefix, node, p);
    UnderShape(prefix, node, p[0], Dotted(p[1..]));
    UnderShape(prefix, node, q[0], Dotted(q[1..]));
    assert key[k..] == p[0] + Dotted(p[1..]) && key[k..] == q[0] + Dotted(q[1..]);
    assert p[0] in p && q[0] in q;
    SplitName(p[0], Dotted(p[1..]), q[0], Dotted(q[1..]));
    DottedInjective(p[1..], q[1..]);
    assert p == [p[0]] + p[1..] && q == [q[0]] + q[1..];
  }

  lemma {:induction false} LeafNames(node: Node, path: seq<string>, text: string)
    requires WellFormed(node) && IsLeaf(node, path, text)
    ensures forall n :: n in path ==> Plain(n)
    decreases node
  {
    if !node.Scalar? {
      NamesDistinct(node);
      var j: nat :| LeafVia(node, j, path, text);
      LeafNames(Child(node, j), path[1..], text);
      assert path == [path[0]] + path[1..];
    }
  }

  /** A path leads to one leaf. */
  lemma {:induction false} LeafUnique(node: Node, path: seq<string>, s: string, t: string)
    requires WellFormed(node) && IsLeaf(node, path, s) && IsLeaf(node, path, t)
    ensures s == t
    decreases node
  {
    if !node.Scalar? {
      NamesDistinct(node);
      var i: nat :| LeafVia(node, i, path, s);
      var j: nat :| LeafVia(node, j, path, t);
      assert i == j;
      LeafUnique(Child(node, i), path[1..], s, t);
    }
  }

  /** The leaf at `path` lies in one of the first `n` children of `node`, or is `node` itself. */
  ghost predicate LeafWithin(node: Node, n: nat, path: seq<string>, text: string) {
    if node.Scalar? then IsLeaf(node, path, text) else exists j: nat :: j < n && LeafVia(node, j, path, text)
  }

  lemma FindLeaf(node: Node, path: seq<string>, text: string) returns (j: nat)
    requires !node.Scalar? && IsLeaf(node, path, text)
    ensures LeafVia(node, j, path, text) && j < Arity(node)
  {
    j :| LeafVia(node, j, path, text);
  }

  lemma LeafWithinAll(node: Node, path: seq<string>, text: string)
    ensures LeafWithin(node, Arity(node), path, text) <==> IsLeaf(node, path, text)
  {
    if !node.Scalar? && IsLeaf(node, path, text) {
      var j := FindLeaf(node, path, text);
    }
  }

  /** No leaf of the first `n` children gets `key`. */
  ghost predicate Free(prefix: string, node: Node, n: nat, key: string) {
    forall path, text :: LeafWithin(node, n, path, text) ==> KeyOf(prefix, node, path) != key
  }

  /** `after` is `m` with every leaf of the first `n` children written under its own key and
      nothing else changed. */
  ghost predicate Writes(c: Texts, prefix: string, node: Node, n: nat, m: Configs, after: Configs) {
    && (forall path, text :: LeafWithin(node, n, path, text) ==>
          KeyOf(prefix, node, path) in after && after[KeyOf(prefix, node, path)] == Convert(c, text))
    && (forall key :: Free(prefix, node, n, key) ==>
          (key in after <==> key in m) && (key in m ==> after[key] == m[key]))
  }

  lemma ChildKey(prefix: string, node: Node, j: nat, path: seq<string>)
    requires WellFormed(node) && j < Arity(node)
    ensures var name := Name(node, j);
      KeyOf(Under(prefix, node, name), Child(node, j), path) == KeyOf(prefix, node, [name] + path)
      && ([name] + path)[1..] == path
  {
    hide Child, Dotted;
    NamesDistinct(node);
    var name := Name(node, j);
    assert ([name] + path)[1..] == path;
    hide Name;
    var under := Under(prefix, node, name);
    if path == [] {
      NoDots(under, path);
    } else {
      DottedStep(under, path);
    }
  }

  lemma NoDots(prefix: string, path: seq<string>)
    requires path == []
    ensures prefix + Dotted(path) == prefix
  {}

  lemma {:induction false} FlattenWrites(c: Texts, prefix: string, node: Node, m: Configs)
    requires WellFormed(node)
    ensures var (ok, after) := Flatten(c, prefix, node, m);
      ok && Writes(c, prefix, node, Arity(node), m, after)
    decreases node, Arity(node) + 1
  {
    if node.Scalar? {
      var key := KeyOf(prefix, node, []);
      assert LeafWithin(node, 0, [], node.text);
    } else {
      UpToWrites(c, prefix, node, Arity(node), m);
    }
  }

  lemma {:induction false} UpToWrites(c: Texts, prefix: string, node: Node, n: nat, m: Configs)
    requires WellFormed(node) && !node.Scalar? && n <= Arity(node)
    ensures var (ok, after) := FlattenUpTo(c, prefix, node, n, m);
      ok && Writes(c, prefix, node, n, m, after)
    decreases node, n
  {
    if n > 0 {
      var j := n - 1;
      var name, child := Name(node, j), Child(node, j);
      var mid := FlattenUpTo(c, prefix, node, j, m).1;
      UpToWrites(c, prefix, node, j, m);
      FlattenWrites(c, Under(prefix, node, name), child, mid);
      var after := FlattenUpTo(c, prefix, node, n, m).1;
      OneMoreChild(c, prefix, node, j, m, mid, after);
    }
  }

  lemma OneMoreChild(c: Texts, prefix: string, node: Node, j: nat, m: Configs, mid: Configs, after: Configs)
    requires WellFormed(node) && !node.Scalar? && j < Arity(node)
    requires Writes(c, prefix, node, j, m, mid)
    requires Writes(c, Under(prefix, node, Name(node, j)), Child(node, j), Arity(Child(node, j)), mid, after)
    ensures Writes(c, prefix, node, j + 1, m, after)
  {
    hide KeyOf, Under, Name, Child, IsLeaf, LeafVia, LeafWithin, Free, Writes, Convert;
    var n := j + 1;
    forall path, text | LeafWithin(node, n, path, text)
      ensures KeyOf(prefix, node, path) in after && after[KeyOf(prefix, node, path)] == Convert(c, text)
    {
      OneMoreLeaf(c, prefix, node, j, m, mid, after, path, text);
    }
    forall key | Free(prefix, node, n, key)
      ensures (key in after <==> key in m) && (key in m ==> after[key] == m[key])
    {
      FreeBelow(prefix, node, j, key);
      FreeKept(c, prefix, node, j, m, mid, key);
      FreeKept(c, Under(prefix, node, Name(node, j)), Child(node, j), Arity(Child(node, j)), mid, after, key);
    }
    WritesBoth(c, prefix, node, n, m, after);
  }

  lemma WritesBoth(c: Texts, prefix: string, node: Node, n: nat, m: Configs, after: Configs)
    requires forall path, text :: LeafWithin(node, n, path, text) ==>
      KeyOf(prefix, node, path) in after && after[KeyOf(prefix, node, path)] == Convert(c, text)
    requires forall key :: Free(prefix, node, n, key) ==>
      (key in after <==> key in m) && (key in m ==> after[key] == m[key])
    ensures Writes(c, prefix, node, n, m, after)
  {
    hide KeyOf, LeafWithin, Free, Convert;
  }

  lemma FreeKept(c: Texts, prefix: string, node: Node, n: nat, m: Configs, after: Configs, key: string)
    requires Writes(c, prefix, node, n, m, after) && Free(prefix, node, n, key)
    ensures (key in after <==> key in m) && (key in m ==> after[key] == m[key])
  {
    hide KeyOf, LeafWithin, Free, Convert;
  }

  lemma OneMoreLeaf(c: Texts, prefix: string, node: Node, j: nat, m: Configs, mid: Configs, after: Configs,
                    path: seq<string>, text: string)
    requires WellFormed(node) && !node.Scalar? && j < Arity(node)
    requires Writes(c, prefix, node, j, m, mid)
    requires Writes(c, Under(prefix, node, Name(node, j)), Child(node, j), Arity(Child(node, j)), mid, after)
    requires LeafWithin(node, j + 1, path, text)
    ensures KeyOf(prefix, node, path) in after && after[KeyOf(prefix, node, path)] == Convert(c, text)
  {
    hide KeyOf, Under, Name, Child, Writes, Convert;
    var child, under := Child(node, j), Under(prefix, node, Name(node, j));
    var i: nat :| i < j + 1 && LeafVia(node, i, path, text);
    if i == j {
      LeafWithinAll(child, path[1..], text);
      ChildKey(prefix, node, j, path[1..]);
      assert [path[0]] + path[1..] == path;
      LeafWritten(c, under, child, Arity(child), mid, after, path[1..], text);
    } else {
      assert LeafWithin(node, j, path, text);
      LeafWritten(c, prefix, node, j, m, mid, path, text);
      OthersFree(prefix, node, i, j, path, text);
      FreeKept(c, under, child, Arity(child), mid, after, KeyOf(prefix, node, path));
    }
  }

  lemma LeafWritten(c: Texts, prefix: string, node: Node, n: nat, m: Configs, after: Configs,
                    path: seq<string>, text: string)
    requires Writes(c, prefix, node, n, m, after) && LeafWithin(node, n, path, text)
    ensures KeyOf(prefix, node, path) in after && after[KeyOf(prefix, node, path)] == Convert(c, text)
  {
    hide KeyOf, LeafWithin, Free, Convert;
  }

  lemma OthersFree(prefix: string, node: Node, i: nat, j: nat, p: seq<string>, s: string)
    requires WellFormed(node) && !node.Scalar? && i != j && j < Arity(node) && LeafVia(node, i, p, s)
    ensures Free(Under(prefix, node, Name(node, j)), Child(node, j), Arity(Child(node, j)), KeyOf(prefix, node, p))
  {
    hide KeyOf, Under, Name, Child;
    var child, under := Child(node, j), Under(prefix, node, Name(node, j));
    forall q, t | LeafWithin(child, Arity(child), q, t)
      ensures KeyOf(under, child, q) != KeyOf(prefix, node, p)
    {
      LeafWithinAll(child, q, t);
      ChildKey(prefix, node, j, q);
      assert LeafVia(node, j, [Name(node, j)] + q, t);
      SiblingsDiffer(prefix, node, i, j, p, s, [Name(node, j)] + q, t);
    }
  }

  lemma FreeBelow(prefix: string, node: Node, j: nat, key: string)
    requires WellFormed(node) && !node.Scalar? && j < Arity(node) && Free(prefix, node, j + 1, key)
    ensures Free(prefix, node, j, key)
    ensures Free(Under(prefix, node, Name(node, j)), Child(node, j), Arity(Child(node, j)), key)
  {
    hide KeyOf, Under, Name, Child;
    var child, under, n := Child(node, j), Under(prefix, node, Name(node, j)), j + 1;
    forall q, t | LeafWithin(node, j, q, t)
      ensures KeyOf(prefix, node, q) != key
    {
      var i: nat :| i < j && LeafVia(node, i, q, t);
      assert i < n && LeafVia(node, i, q, t);
      assert LeafWithin(node, n, q, t);
    }
    forall q, t | LeafWithin(child, Arity(child), q, t)
      ensures KeyOf(under, child, q) != key
    {
      LeafWithinAll(child, q, t);
      ChildKey(prefix, node, j, q);
      assert j < n && LeafVia(node, j, [Name(node, j)] + q, t);
      assert LeafWithin(node, n, [Name(node, j)] + q, t);
    }
  }

  /** Leaves of different children never share a key. */
  lemma SiblingsDiffer(prefix: string, node: Node, i: nat, j: nat, p: seq<string>, s: string,
                       q: seq<string>, t: string)
    requires WellFormed(node) && !node.Scalar? && i != j
    requires LeafVia(node, i, p, s) && LeafVia(node, j, q, t)
    ensures KeyOf(prefix, node, p) != KeyOf(prefix, node, q)
  {
    assert IsLeaf(node, p, s) && IsLeaf(node, q, t);
    LeafNames(node, p, s);
    LeafNames(node, q, t);
    NamesDistinct(node);
    if KeyOf(prefix, node, p) == KeyOf(prefix, node, q) {
      KeyInjective(prefix, node, p, q);
    }
  }

  ghost predicate SomeLeafHas(root: Node, key: string) {
    exists path, text :: IsLeaf(root, path, text) && KeyOf("", root, path) == key
  }

  /** For every well-formed tree: loading succeeds, the keys written are exactly the keys of the
      leaves, and each holds what its own leaf's text stands for. */
  lemma FlatteningLosesNothing(c: Texts, root: Node)
    requires WellFormed(root)
    ensures var (ok, m) := Flatten(c, "", root, map[]);
      && ok
      && (forall path, text :: IsLeaf(root, path, text) ==>
            KeyOf("", root, path) in m && StandsFor(c, text, m[KeyOf("", root, path)]))
      && (forall key :: key in m ==> SomeLeafHas(root, key))
  {
    hide KeyOf, Flatten, WellFormed, Convert, StandsFor, Arity, Writes, LeafWithin;
    FlattenWrites(c, "", root, map[]);
    var m := Flatten(c, "", root, map[]).1;
    forall path, text | IsLeaf(root, path, text)
      ensures KeyOf("", root, path) in m && StandsFor(c, text, m[KeyOf("", root, path)])
    {
      LeafWithinAll(root, path, text);
      LeafWritten(c, "", root, Arity(root), map[], m, path, text);
      ConvertExactly(c, text, Convert(c, text));
    }
    forall key | key in m
      ensures SomeLeafHas(root, key)
    {
      var path, text := KeyFromLeaf(c, root, m, key);
    }
  }

  lemma KeyFromLeaf(c: Texts, root: Node, after: Configs, key: string) returns (path: seq<string>, text: string)
    requires Writes(c, "", root, Arity(root), map[], after) && key in after
    ensures IsLeaf(root, path, text) && KeyOf("", root, path) == key
  {
    hide IsLeaf, KeyOf, Convert, Arity, LeafWithin;
    assert !Free("", root, Arity(root), key);
    path, text :| LeafWithin(root, Arity(root), path, text) && KeyOf("", root, path) == key;
    LeafWithinAll(root, path, text);
  }

  /** Different leaves of a well-formed tree have different keys. */
  lemma KeysDistinct(root: Node, p: seq<string>, s: string, q: seq<string>, t: string)
    requires WellFormed(root) && IsLeaf(root, p, s) && IsLeaf(root, q, t)
    requires KeyOf("", root, p) == KeyOf("", root, q)
    ensures p == q && s == t
  {
    hide KeyOf;
    if !root.Scalar? {
      LeafNames(root, p, s);
      LeafNames(root, q, t);
      KeyInjective("", root, p, q);
    }
    LeafUnique(root, p, s, t);
  }

  // ---------------------------------------------------------------- a key read back

  /** The pieces of a key between its dots. */
  function Split(s: string): (parts: seq<string>)
    ensures |parts| > 0
  {
    if s == "" then [""]
    else
      var rest := Split(s[1..]);
      if s[0] == '.' then [""] + rest else [[s[0]] + rest[0]] + rest[1..]
  }

  lemma {:induction false} SplitPlain(name: string, rest: string)
    requires '.' !in name
    ensures Split(name + rest) == [name + Split(rest)[0]] + Split(rest)[1..]
    decreases |name|
  {
    var parts := Split(rest);
    if name == "" {
      assert name + rest == rest && name + parts[0] == parts[0];
    } else {
      SplitPlain(name[1..], rest);
      SplitFirst(name[0], name[1..] + rest);
      assert name + rest == [name[0]] + (name[1..] + rest);
      assert [name[0]] + (name[1..] + parts[0]) == name + parts[0];
    }
  }

  lemma SplitFirst(c: char, s: string)
    ensures var parts := Split(s);
      Split([c] + s) == if c == '.' then [""] + parts else [[c] + parts[0]] + parts[1..]
  {
    assert ([c] + s)[1..] == s;
  }

  lemma {:induction false} SplitDotted(path: seq<string>)
    requires forall n :: n in path ==> '.' !in n
    ensures Split(Dotted(path)) == [""] + path
    decreases |path|, 0
  {
    if path != [] {
      hide Split;
      SplitNames(path[0], path[1..]);
      SplitFirst('.', path[0] + Dotted(path[1..]));
      assert Dotted(path) == ['.'] + (path[0] + Dotted(path[1..]));
      assert [path[0]] + path[1..] == path;
    }
  }

  lemma {:induction false} SplitNames(name: string, path: seq<string>)
    requires '.' !in name && forall n :: n in path ==> '.' !in n
    ensures Split(name + Dotted(path)) == [name] + path
    decreases |path|, 1
  {
    hide Split, Dotted;
    SplitDotted(path);
    SplitPlain(name, Dotted(path));
    assert name + "" == name;
  }

  /** Cut at its dots a key is the path to its leaf again, below a sequence at the top with an empty
      piece in front; a file that is one scalar is stored under "root". */
  lemma KeyReadsBack(root: Node, path: seq<string>, text: string)
    requires WellFormed(root) && IsLeaf(root, path, text)
    ensures root.Scalar? ==> KeyOf("", root, path) == "root"
    ensures root.Map? ==> Split(KeyOf("", root, path)) == path
    ensures root.Sequence? ==> Split(KeyOf("", root, path)) == [""] + path
  {
    if !root.Scalar? {
      hide Split, Dotted;
      LeafNames(root, path, text);
      assert path[0] in path && forall n :: n in path[1..] ==> n in path;
      SplitNames(path[0], path[1..]);
      SplitFirst('.', path[0] + Dotted(path[1..]));
      assert [path[0]] + path[1..] == path;
      assert "" + "." + path[0] + Dotted(path[1..]) == ['.'] + (path[0] + Dotted(path[1..]));
    }
  }

  // ---------------------------------------------------------------- keys that are not text

  /** Every key of every map below is a text. */
  predicate AllText(node: Node)
    decreases node
  {
    forall j :: 0 <= j < Arity(node) ==> Named(node, j) && AllText(Child(node, j))
  }

  /** Loading succeeds exactly when every key is a text. */
  lemma {:induction false} LoadsExactly(c: Texts, prefix: string, node: Node, m: Configs)
    ensures Flatten(c, prefix, node, m).0 <==> AllText(node)
    decreases node, Arity(node) + 1
  {
    if !node.Scalar? {
      LoadsUpTo(c, prefix, node, Arity(node), m);
    }
  }

  lemma {:induction false} LoadsUpTo(c: Texts, prefix: string, node: Node, n: nat, m: Configs)
    requires n <= Arity(node)
    ensures FlattenUpTo(c, prefix, node, n, m).0 <==>
      forall j :: 0 <= j < n ==> Named(node, j) && AllText(Child(node, j))
    decreases node, n
  {
    hide AllText, Flatten;
    if n > 0 {
      var before := FlattenUpTo(c, prefix, node, n - 1, m);
      LoadsUpTo(c, prefix, node, n - 1, m);
      if before.0 && Named(node, n - 1) {
        LoadsExactly(c, Under(prefix, node, Name(node, n - 1)), Child(node, n - 1), before.1);
      }
    }
  }

  /** A map with a key that is no text leaves what the map of the entries before it writes, even
      when one of these fails first. */
  lemma BadKeyKeepsFront(c: Texts, prefix: string, front: seq<(Key, Node)>, child: Node,
                         back: seq<(Key, Node)>, m: Configs)
    ensures var all := Map(front + [(OtherKey, child)] + back);
      Flatten(c, prefix, all, m) == (false, Flatten(c, prefix, Map(front), m).1)
  {
    var all := Map(front + [(OtherKey, child)] + back);
    var n := |front|;
    SameFront(c, prefix, all, Map(front), n, m);
    assert all.entries[n] == (OtherKey, child);
    FailureStops(c, prefix, all, n + 1, Arity(all), m);
  }

  lemma {:induction false} SameFront(c: Texts, prefix: string, a: Node, b: Node, n: nat, m: Configs)
    requires a.Map? && b.Map? && n <= |b.entries| <= |a.entries|
    requires a.entries[..n] == b.entries[..n]
    ensures FlattenUpTo(c, prefix, a, n, m) == FlattenUpTo(c, prefix, b, n, m)
    decreases n
  {
    if n > 0 {
      assert a.entries[..n - 1] == a.entries[..n][..n - 1] && b.entries[..n - 1] == b.entries[..n][..n - 1];
      SameFront(c, prefix, a, b, n - 1, m);
      assert a.entries[n - 1] == a.entries[..n][n - 1] == b.entries[n - 1];
    }
  }

  // ---------------------------------------------------------------- why the conditions are needed

  /** A chain of maps down `path` to one leaf. */
  function Nest(path: seq<string>, text: string): Node {
    if path == [] then Scalar(text) else Map([(TextKey(path[0]), Nest(path[1..], text))])
  }

  lemma {:induction false} FlattenNest(c: Texts, prefix: string, path: seq<string>, text: string, m: Configs)
    requires prefix != ""
    ensures Flatten(c, prefix, Nest(path, text), m) == (true, m[prefix + Dotted(path) := Convert(c, text)])
    decreases |path|
  {
    if path == [] {
      NoDots(prefix, path);
    } else {
      hide Flatten, Dotted;
      var under := prefix + "." + path[0];
      FlattenNest(c, under, path[1..], text, m);
      OneChild(c, prefix, Nest(path, text), m);
      DottedStep(prefix, path);
    }
  }

  lemma DottedStep(prefix: string, path: seq<string>)
    requires path != []
    ensures prefix + Dotted(path) == prefix + "." + path[0] + Dotted(path[1..])
  {
    var rest := Dotted(path[1..]);
    assert prefix + ("." + path[0] + rest) == prefix + "." + path[0] + rest;
  }

  lemma OneChild(c: Texts, prefix: string, node: Node, m: Configs)
    requires node.Map? && |node.entries| == 1 && node.entries[0].0.TextKey?
    ensures Flatten(c, prefix, node, m)
      == Flatten(c, Under(prefix, node, node.entries[0].0.text), node.entries[0].1, m)
  {
    assert FlattenUpTo(c, prefix, node, 0, m) == (true, m);
    assert Child(node, 0) == node.entries[0].1;
  }

  /** A map with two text keys is flattened one after the other. */
  lemma TwoChildren(c: Texts, k: string, a: Node, l: string, b: Node, m: Configs)
    requires Flatten(c, k, a, m).0
    ensures Flatten(c, "", Map([(TextKey(k), a), (TextKey(l), b)]), m) == Flatten(c, l, b, Flatten(c, k, a, m).1)
  {
    var node := Map([(TextKey(k), a), (TextKey(l), b)]);
    assert FlattenUpTo(c, "", node, 0, m) == (true, m);
    assert Child(node, 0) == a && Child(node, 1) == b;
    assert FlattenUpTo(c, "", node, 1, m) == Flatten(c, k, a, m);
  }

  lemma {:induction false} NestPlain(path: seq<string>, text: string)
    requires forall n :: n in path ==> Plain(n)
    ensures WellFormed(Nest(path, text))
    decreases |path|
  {
    if path != [] {
      NestPlain(path[1..], text);
      assert path[0] in path;
    }
  }

  /** No key with a dot between plain names can be allowed: whatever the names, such a key and the
      nested maps it spells stand side by side in a tree whose other keys are all plain, and one
      of the two values is lost. */
  lemma DottedKeyCollides(first: string, path: seq<string>, s: string, t: string)
    requires path != [] && Plain(first) && forall n :: n in path ==> Plain(n)
    ensures var joined := first + Dotted(path);
      var tree := Map([(TextKey(joined), Scalar(s)), (TextKey(first), Nest(path, t))]);
      && joined != first && WellFormed(Nest(path, t))
      && forall c :: Flatten(c, "", tree, map[]) == (true, map[joined := Convert(c, t)])
  {
    var joined := first + Dotted(path);
    var tree := Map([(TextKey(joined), Scalar(s)), (TextKey(first), Nest(path, t))]);
    NestPlain(path, t);
    assert |joined| > |first|;
    forall c: Texts
      ensures Flatten(c, "", tree, map[]) == (true, map[joined := Convert(c, t)])
    {
      var one: Configs := map[joined := Convert(c, s)];
      assert Flatten(c, joined, Scalar(s), map[]) == (true, one);
      TwoChildren(c, joined, Scalar(s), first, Nest(path, t), map[]);
      FlattenNest(c, first, path, t, one);
      assert one[joined := Convert(c, t)] == map[joined := Convert(c, t)];
    }
  }

  /** Nor an empty key: what is under it is flattened as if it stood at the top, where any plain
      name can stand too. */
  lemma EmptyKeyCollides(name: string, s: string, t: string)
    requires Plain(name)
    ensures var tree := Map([(TextKey(name), Scalar(s)), (TextKey(""), Nest([name], t))]);
      WellFormed(Nest([name], t)) &&
      forall c :: Flatten(c, "", tree, map[]) == (true, map[name := Convert(c, t)])
  {
    var below := Nest([name], t);
    var tree := Map([(TextKey(name), Scalar(s)), (TextKey(""), below)]);
    NestPlain([name], t);
    forall c: Texts
      ensures Flatten(c, "", tree, map[]) == (true, map[name := Convert(c, t)])
    {
      var one: Configs := map[name := Convert(c, s)];
      assert Flatten(c, name, Scalar(s), map[]) == (true, one);
      TwoChildren(c, name, Scalar(s), "", below, map[]);
      OneChild(c, "", below, one);
      assert [name][1..] == [] && Nest([name][1..], t) == Scalar(t);
      assert below.entries[0].1 == Scalar(t);
      assert one[name := Convert(c, t)] == map[name := Convert(c, t)];
    }
  }

  /** Nor a key twice in one map. */
  lemma RepeatedKeyCollides(name: string, s: string, t: string)
    requires Plain(name)
    ensures var tree := Map([(TextKey(name), Scalar(s)), (TextKey(name), Scalar(t))]);
      forall c :: Flatten(c, "", tree, map[]) == (true, map[name := Convert(c, t)])
  {
    var tree := Map([(TextKey(name), Scalar(s)), (TextKey(name), Scalar(t))]);
    forall c: Texts
      ensures Flatten(c, "", tree, map[]) == (true, map[name := Convert(c, t)])
    {
      var one: Configs := map[name := Convert(c, s)];
      assert Flatten(c, name, Scalar(s), map[]) == (true, one);
      TwoChildren(c, name, Scalar(s), name, Scalar(t), map[]);
      assert one[name := Convert(c, t)] == map[name := Convert(c, t)];
    }
  }
}
