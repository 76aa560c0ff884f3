/**
 * The resolver of packages/env-spec-parser/src/simple-resolver.ts.
 *
 * `EvalNode(w, Passed(3), n)` is `valueResolver` itself. At `Passed(k)` for `k < 3` the same resolver
 * runs on a tree on which only the first `k` expansion passes have run: a string leaf then stands for
 * what the remaining passes would make of its text. At `AtOnce` it runs on the tree as written.
 */
module EnvSpecResolve {
  import opened Outcomes
  import opened Strings
  import opened EnvSpecNodes
  import opened EnvSpecHoles
  import opened EnvSpecExpand
  import opened EnvSpecStrings

  /** `===` on resolved values; lists and records are fresh objects. */
  predicate StrictlyEqual(a: Value, b: Value) {
    a == b && !a.List? && !a.Record?
  }

  // ----- trees

  function EvalNode(w: World, stage: Stage, n: Node): Outcome<Value>
    decreases n, 1
  {
    match n
    case Leaf(st) => LeafValue(w, stage, st)
    case Array(elems) =>
      var vs :- EvalElems(w, stage, elems);
      Ok(List(vs))
    case Object(entries) =>
      var fields :- EvalEntries(w, stage, entries, map[]);
      Ok(Record(fields))
    case ArgList(_) => Ok(Undefined)
    case Call(name, args) =>
      if name == "ref" then
        var key :- RefKey(w, stage, args);
        Ok(w.Lookup(key))
      else if name == "concat" then
        var text :- EvalConcat(w, stage, args);
        Ok(Str(text))
      else if name == "exec" then EvalExec(w, stage, args)
      else if name == "fallback" then EvalFallback(w, stage, args)
      else if name == "remap" then EvalRemap(w, stage, args)
      else Throw("Unknown function: " + name)
  }

  function EvalElems(w: World, stage: Stage, items: seq<Item>): Outcome<seq<Value>>
    decreases items, 0
  {
    if items == [] then Ok([])
    else
      var item := items[0];
      assert item.node < item;
      if item.key.Some? then Throw("Unexpected key-value pair in array literal")
      else
        var v :- EvalNode(w, stage, item.node);
        var rest :- EvalElems(w, stage, items[1..]);
        Ok([v] + rest)
  }

  /** Later entries overwrite earlier ones. The node types rule out an entry without a key. */
  function EvalEntries(w: World, stage: Stage, items: seq<Item>, fields: map<string, Value>): Outcome<map<string,
                       Value>>
    decreases items, 0
  {
    if items == [] then Ok(fields)
    else
      var item := items[0];
      assert item.node < item;
      if item.key.None? then Throw("Not an object entry")
      else
        var v :- EvalNode(w, stage, item.node);
        EvalEntries(w, stage, items[1..], fields[item.key.value := v])
  }

  /** No later pass would turn the leaf into a function call. */
  predicate StaysStatic(w: World, stage: Stage, item: Item) {
    && item.key.None? && item.node.Leaf?
    && var v := StaticValue(w.exact, item.node.st);
       v.Str? && QuoteOf(item.node.st) != SingleQuote ==> NoHoles(stage, v.s)
  }

  /** The key `ref` reads from its `simplifiedArgs`. */
  function RefKey(w: World, stage: Stage, args: seq<Item>): Outcome<string> {
    if args == [] then Ok("undefined")
    else if forall a | a in args :: StaysStatic(w, stage, a) then
      assert StaysStatic(w, stage, args[0]);
      Ok(StringOf(StaticValue(w.exact, args[0].node.st)))
    else if forall a | a in args :: a.key.Some? then Throw("Invalid `ref` args")
    else Throw("Invalid function args")
  }

  predicate IsScalarArg(item: Item) {
    item.key.None? && (item.node.Leaf? || item.node.Call?)
  }

  function EvalConcat(w: World, stage: Stage, args: seq<Item>): Outcome<string>
    decreases args, 0
  {
    if args == [] then Ok("")
    else
      var item := args[0];
      assert item.node < item;
      if !IsScalarArg(item) then Throw("Invalid concat args")
      else
        var v :- EvalNode(w, stage, item.node);
        var rest :- EvalConcat(w, stage, args[1..]);
        Ok(TextOf(v) + rest)
  }

  function EvalExec(w: World, stage: Stage, args: seq<Item>): Outcome<Value>
    decreases args, 0
  {
    if |args| == 1 && IsScalarArg(args[0]) then
      var item := args[0];
      assert item.node < item;
      var command :- EvalNode(w, stage, item.node);
      w.Run(command)
    else Throw("Invalid `exec` args")
  }

  function EvalFallback(w: World, stage: Stage, args: seq<Item>): Outcome<Value>
    decreases args, 0
  {
    if args == [] then Ok(Undefined)
    else
      var item := args[0];
      assert item.node < item;
      if item.key.Some? then Throw("Invalid `fallback` arg - should not be key-value pair")
      else
        var v :- EvalNode(w, stage, item.node);
        if Filled(v) then Ok(v) else EvalFallback(w, stage, args[1..])
  }

  function EvalRemap(w: World, stage: Stage, args: seq<Item>): Outcome<Value>
    decreases args, 1
  {
    if args == [] || !IsScalarArg(args[0]) then Throw("Expected first arg to be a static value or function call")
    else
      var item := args[0];
      assert item.node < item;
      var v :- EvalNode(w, stage, item.node);
      RemapPairs(w, stage, v, args[1..])
  }

  /** Pairs of match and result, with an optional default at the end. */
  function RemapPairs(w: World, stage: Stage, v: Value, args: seq<Item>): Outcome<Value>
    decreases args, 0
  {
    if args == [] then Ok(v)
    else
      var item := args[0];
      assert item.node < item;
      if item.key.Some? then Throw("`remap` args should not be key-value pairs")
      else if |args| == 1 then EvalNode(w, stage, item.node)
      else
        var result := args[1];
        assert result.node < result;
        if result.key.Some? then Throw("`remap` args should not be key-value pairs")
        else
          var m :- EvalNode(w, stage, item.node);
          if StrictlyEqual(v, m) then EvalNode(w, stage, result.node) else RemapPairs(w, stage, v, args[2..])
  }

  /** `valueResolver`: the value of a fully expanded tree. */
  function Resolve(w: World, n: Node): Outcome<Value> {
    EvalNode(w, Passed(3), n)
  }

  /** What `valueResolver` returns for a static value is its `unescapedValue`. */
  lemma ResolvedStatic(w: World, st: Static)
    ensures Resolve(w, Leaf(st)) == Ok(UnescapedValue(w.exact, st))
  {
  }

  // ----- the item loop

  datatype ConfigItem = ConfigItem(key: string, value: Option<Node>)

  /** What one config item contributes, given the items before it. */
  function ItemValue(w: World, stage: Stage, stringify: bool, item: ConfigItem): Outcome<Value> {
    if item.key in w.env && w.env[item.key] != "" then Ok(Str(w.env[item.key]))
    else
      var v :- if item.value.Some? then EvalNode(w, stage, item.value.value) else Ok(Undefined);
      Ok(if stringify then Str(TextOf(v)) else v)
  }

  function EvalFile(w: World, stage: Stage, stringify: bool, items: seq<ConfigItem>): Outcome<map<string, Value>>
    decreases |items|
  {
    if items == [] then Ok(w.resolved)
    else
      var v :- ItemValue(w, stage, stringify, items[0]);
      EvalFile(w.(resolved := w.resolved[items[0].key := v]), stage, stringify, items[1..])
  }

  /** `simpleResolver`: fills `resolved` item by item. */
  method SimpleResolver(w: World, stringify: bool, items: seq<ConfigItem>) returns (r: Outcome<map<string, Value>>)
    requires w.resolved == map[]
    ensures r == EvalFile(w, Passed(3), stringify, items)
  {
    var resolved: map<string, Value> := map[];
    var i := 0;
    while i < |items|
      invariant 0 <= i <= |items|
      invariant EvalFile(w.(resolved := resolved), Passed(3), stringify, items[i..]) ==
        EvalFile(w, Passed(3), stringify, items)
    {
      var item := items[i];
      var here := w.(resolved := resolved);
      assert items[i..][0] == item && items[i..][1..] == items[i + 1..];
      if item.key in w.env && w.env[item.key] != "" {
        resolved := resolved[item.key := Str(w.env[item.key])];
      } else {
        var value := Undefined;
        if item.value.Some? {
          var resolvedValue := Resolve(here, item.value.value);
          if resolvedValue.Throw? { return Throw(resolvedValue.message); }
          value := resolvedValue.value;
        }
        if stringify {
          resolved := resolved[item.key := Str(if value == Undefined then "" else StringOf(value))];
        } else {
          resolved := resolved[item.key := value];
        }
      }
      i := i + 1;
    }
    r := Ok(resolved);
  }
}
