/**
 * What each kind of value and function call resolves to, by the position of its arguments
 * (packages/env-spec-parser/src/simple-resolver.ts).
 */
module EnvSpecCalls {
  import opened Outcomes
  import opened Sequences
  import opened Strings
  import opened EnvSpecNodes
  import opened EnvSpecHoles
  import opened EnvSpecExpand
  import opened EnvSpecStrings
  import opened EnvSpecResolve

  /** What argument `i` resolves to. */
  function Arg(w: World, stage: Stage, args: seq<Item>, i: nat): Outcome<Value>
    requires i < |args|
  {
    EvalNode(w, stage, args[i].node)
  }

  predicate IsKeyed(args: seq<Item>, i: nat)
    requires i < |args|
  {
    args[i].key.Some?
  }

  lemma ArgsFrom(w: World, stage: Stage, args: seq<Item>, n: nat, i: nat)
    requires n <= i < |args|
    ensures args[n..][i - n] == args[i] && Arg(w, stage, args[n..], i - n) == Arg(w, stage, args, i)
  {
  }

  // ----- remap

  /** `===` on values: the same text, number or boolean, or both undefined; never two lists or records. */
  predicate Same(a: Value, b: Value) {
    || (a.Str? && b.Str? && a.s == b.s) || (a.Num? && b.Num? && a.text == b.text)
    || (a.Bool? && b.Bool? && a.b == b.b) || (a.Undefined? && b.Undefined?)
  }

  /** Pair `j` of the arguments evaluates and does not match `v`. */
  predicate PairMisses(w: World, stage: Stage, args: seq<Item>, v: Value, j: nat)
    requires 2 * j + 2 < |args|
  {
    && !IsKeyed(args, 2 * j + 1) && !IsKeyed(args, 2 * j + 2)
    && Arg(w, stage, args, 2 * j + 1).Ok? && !Same(v, Arg(w, stage, args, 2 * j + 1).value)
  }

  /** The first `i` pairs of a `remap` call evaluate and match nothing. */
  ghost predicate PairsMiss(w: World, stage: Stage, args: seq<Item>, i: nat) {
    && 2 * i < |args| && args[0].key.None? && (args[0].node.Leaf? || args[0].node.Call?) && Arg(w, stage, args, 0).Ok?
    && forall j: nat | j < i :: PairMisses(w, stage, args, Arg(w, stage, args, 0).value, j)
  }

  /** After pairs that miss the call is worth what the rest of its arguments is. */
  lemma {:induction false} RemapFrom(w: World, stage: Stage, args: seq<Item>, i: nat)
    requires PairsMiss(w, stage, args, i)
    ensures EvalNode(w, stage, Call("remap", args))
         == RemapPairs(w, stage, Arg(w, stage, args, 0).value, args[2 * i + 1..])
  {
    if i > 0 {
      RemapFrom(w, stage, args, i - 1);
      var rest := args[2 * i - 1..];
      assert PairMisses(w, stage, args, Arg(w, stage, args, 0).value, i - 1);
      assert rest[0] == args[2 * i - 1] && rest[1] == args[2 * i] && rest[2..] == args[2 * i + 1..];
    }
  }

  /** `remap` gives the result of the first pair whose match value is `===` to its first argument. */
  lemma RemapPicks(w: World, stage: Stage, args: seq<Item>, i: nat)
    requires PairsMiss(w, stage, args, i) && 2 * i + 2 < |args|
    requires !IsKeyed(args, 2 * i + 1) && !IsKeyed(args, 2 * i + 2) && Arg(w, stage, args, 2 * i + 1).Ok?
    requires Same(Arg(w, stage, args, 0).value, Arg(w, stage, args, 2 * i + 1).value)
    ensures EvalNode(w, stage, Call("remap", args)) == Arg(w, stage, args, 2 * i + 2)
  {
    RemapFrom(w, stage, args, i);
    var rest := args[2 * i + 1..];
    assert rest[0] == args[2 * i + 1] && rest[1] == args[2 * i + 2];
  }

  /** Without one it gives an odd last argument, else its first argument. */
  lemma RemapFallsThrough(w: World, stage: Stage, args: seq<Item>, i: nat)
    requires PairsMiss(w, stage, args, i) && |args| <= 2 * i + 2
    ensures |args| == 2 * i + 1 ==> EvalNode(w, stage, Call("remap", args)) == Arg(w, stage, args, 0)
    ensures |args| == 2 * i + 2 && !IsKeyed(args, 2 * i + 1) ==>
      EvalNode(w, stage, Call("remap", args)) == Arg(w, stage, args, 2 * i + 1)
    ensures |args| == 2 * i + 2 && IsKeyed(args, 2 * i + 1) ==> EvalNode(w, stage, Call("remap", args)).Throw?
  {
    RemapFrom(w, stage, args, i);
    var rest := args[2 * i + 1..];
    assert |args| == 2 * i + 2 ==> rest[0] == args[2 * i + 1];
  }

  /** It fails where it meets a key-value pair in a pair or a match value that fails. */
  lemma RemapFails(w: World, stage: Stage, args: seq<Item>, i: nat)
    requires PairsMiss(w, stage, args, i) && 2 * i + 2 < |args|
    ensures IsKeyed(args, 2 * i + 1) || IsKeyed(args, 2 * i + 2) ==> EvalNode(w, stage, Call("remap", args)).Throw?
    ensures !IsKeyed(args, 2 * i + 1) && !IsKeyed(args, 2 * i + 2) && Arg(w, stage, args, 2 * i + 1).Throw? ==>
      EvalNode(w, stage, Call("remap", args)) == Arg(w, stage, args, 2 * i + 1)
  {
    RemapFrom(w, stage, args, i);
    var rest := args[2 * i + 1..];
    assert rest[0] == args[2 * i + 1] && rest[1] == args[2 * i + 2];
  }

  /** Its first argument is a value or a call, and fails the call when it fails. */
  lemma RemapNeedsValue(w: World, stage: Stage, args: seq<Item>)
    ensures var r := EvalNode(w, stage, Call("remap", args));
      if args == [] || args[0].key.Some? || !(args[0].node.Leaf? || args[0].node.Call?)
      then r == Throw("Expected first arg to be a static value or function call")
      else Arg(w, stage, args, 0).Throw? ==> r == Arg(w, stage, args, 0)
  {
  }

  // ----- fallback

  predicate IsEmptyArg(w: World, stage: Stage, args: seq<Item>, j: nat)
    requires j < |args|
  {
    !IsKeyed(args, j) && (Arg(w, stage, args, j) == Ok(Undefined) || Arg(w, stage, args, j) == Ok(Str("")))
  }

  lemma {:induction false} FallbackFrom(w: World, stage: Stage, args: seq<Item>, i: nat)
    requires i <= |args| && forall j: nat | j < i :: IsEmptyArg(w, stage, args, j)
    ensures EvalNode(w, stage, Call("fallback", args)) == EvalFallback(w, stage, args[i..])
  {
    if i == 0 {
      assert args[0..] == args;
    } else {
      FallbackFrom(w, stage, args, i - 1);
      assert IsEmptyArg(w, stage, args, i - 1);
      assert args[i - 1..][0] == args[i - 1] && args[i - 1..][1..] == args[i..];
    }
  }

  /**
   * `fallback` gives its first argument that is neither undefined nor empty, and undefined without one; it fails
   * where it first meets a key-value pair or an argument that fails.
   */
  lemma FallbackPicks(w: World, stage: Stage, args: seq<Item>, i: nat)
    requires i <= |args| && forall j: nat | j < i :: IsEmptyArg(w, stage, args, j)
    ensures i == |args| ==> EvalNode(w, stage, Call("fallback", args)) == Ok(Undefined)
    ensures i < |args| && !IsKeyed(args, i) && !IsEmptyArg(w, stage, args, i) ==>
      EvalNode(w, stage, Call("fallback", args)) == Arg(w, stage, args, i)
    ensures i < |args| && IsKeyed(args, i) ==> EvalNode(w, stage, Call("fallback", args)).Throw?
  {
    FallbackFrom(w, stage, args, i);
    assert i < |args| ==> args[i..][0] == args[i];
  }

  // ----- lists and records

  ghost predicate AllResolve(w: World, stage: Stage, items: seq<Item>, keyed: bool) {
    forall i | 0 <= i < |items| :: IsKeyed(items, i) == keyed && Arg(w, stage, items, i).Ok?
  }

  lemma {:induction false} ElemsByIndex(w: World, stage: Stage, items: seq<Item>) returns (vs: seq<Value>)
    requires AllResolve(w, stage, items, false)
    ensures EvalElems(w, stage, items) == Ok(vs) && |vs| == |items|
    ensures forall i | 0 <= i < |items| :: Arg(w, stage, items, i) == Ok(vs[i])
  {
    vs := [];
    if items != [] {
      var rest := items[1..];
      assert IsKeyed(items, 0) == false && Arg(w, stage, items, 0).Ok?;
      forall i | 0 <= i < |rest| ensures IsKeyed(rest, i) == false && Arg(w, stage, rest, i).Ok? {
        assert rest[i] == items[i + 1] && IsKeyed(items, i + 1) == false && Arg(w, stage, items, i + 1).Ok?;
      }
      var later := ElemsByIndex(w, stage, rest);
      vs := [Arg(w, stage, items, 0).value] + later;
      forall i | 0 <= i < |items| ensures Arg(w, stage, items, i) == Ok(vs[i]) {
        if i > 0 {
          assert rest[i - 1] == items[i] && Arg(w, stage, rest, i - 1) == Ok(later[i - 1]);
        }
      }
    }
  }

  /** A list resolves to the values of its elements in their order. */
  lemma ListResolves(w: World, stage: Stage, items: seq<Item>) returns (vs: seq<Value>)
    requires AllResolve(w, stage, items, false)
    ensures EvalNode(w, stage, Array(items)) == Ok(List(vs)) && |vs| == |items|
    ensures forall i | 0 <= i < |items| :: Arg(w, stage, items, i) == Ok(vs[i])
  {
    vs := ElemsByIndex(w, stage, items);
  }

  /** Entry `i` is the last one of its key. */
  predicate IsLast(items: seq<Item>, i: nat)
    requires i < |items|
  {
    forall j | i < j < |items| :: items[j].key != items[i].key
  }

  /** Entry `i` is what the record holds under its key. */
  predicate IsField(w: World, stage: Stage, items: seq<Item>, i: nat, fields: map<string, Value>)
    requires i < |items|
  {
    items[i].key.Some? && items[i].key.value in fields && Arg(w, stage, items, i) == Ok(fields[items[i].key.value])
  }

  lemma {:induction false} EntriesByKey(w: World, stage: Stage, items: seq<Item>, before: map<string, Value>)
    returns (fields: map<string, Value>)
    requires AllResolve(w, stage, items, true)
    ensures EvalEntries(w, stage, items, before) == Ok(fields)
    ensures forall i | 0 <= i < |items| && IsLast(items, i) :: IsField(w, stage, items, i, fields)
    ensures forall key :: (forall i | 0 <= i < |items| :: items[i].key != Some(key)) ==>
      (key in fields <==> key in before) && (key in before ==> fields[key] == before[key])
    ensures forall key :: key in fields ==> key in before || exists i :: 0 <= i < |items| && items[i].key == Some(key)
    decreases |items|
  {
    fields := before;
    if items != [] {
      var first, rest := items[0], items[1..];
      assert IsKeyed(items, 0) == true && Arg(w, stage, items, 0).Ok?;
      forall i | 0 <= i < |rest| ensures IsKeyed(rest, i) == true && Arg(w, stage, rest, i).Ok? {
        assert rest[i] == items[i + 1] && IsKeyed(items, i + 1) == true && Arg(w, stage, items, i + 1).Ok?;
      }
      fields := EntriesByKey(w, stage, rest, before[first.key.value := Arg(w, stage, items, 0).value]);
      forall i | 0 <= i < |items| && IsLast(items, i) ensures IsField(w, stage, items, i, fields) {
        if i > 0 {
          assert rest[i - 1] == items[i];
          assert IsLast(rest, i - 1) by {
            forall j | i - 1 < j < |rest| ensures rest[j].key != rest[i - 1].key {
              assert items[j + 1].key != items[i].key;
            }
          }
          assert IsField(w, stage, rest, i - 1, fields);
        } else {
          forall j | 0 <= j < |rest| ensures rest[j].key != Some(first.key.value) {
            assert items[j + 1].key != items[0].key;
          }
        }
      }
      forall key | forall i | 0 <= i < |items| :: items[i].key != Some(key)
        ensures (key in fields <==> key in before) && (key in before ==> fields[key] == before[key])
      {
        assert items[0].key != Some(key);
        assert forall i | 0 <= i < |rest| :: rest[i].key == items[i + 1].key != Some(key);
      }
      forall key | key in fields && key !in before ensures exists i :: 0 <= i < |items| && items[i].key == Some(key) {
        if items[0].key != Some(key) {
          var i :| 0 <= i < |rest| && rest[i].key == Some(key);
          assert items[i + 1].key == Some(key);
        }
      }
    }
  }

  /** An object resolves to a record of its keys, each with the value of its last entry. */
  lemma ObjectResolves(w: World, stage: Stage, items: seq<Item>) returns (fields: map<string, Value>)
    requires AllResolve(w, stage, items, true)
    ensures EvalNode(w, stage, Object(items)) == Ok(Record(fields))
    ensures forall key :: key in fields <==> exists i :: 0 <= i < |items| && items[i].key == Some(key)
    ensures forall i | 0 <= i < |items| && IsLast(items, i) :: IsField(w, stage, items, i, fields)
  {
    fields := EntriesByKey(w, stage, items, map[]);
    forall i | 0 <= i < |items| ensures items[i].key.Some? && items[i].key.value in fields {
      assert IsKeyed(items, i) == true;
      var last := LastOf(items, i);
      assert IsField(w, stage, items, last, fields);
    }
  }

  lemma LastOf(items: seq<Item>, i: nat) returns (last: nat)
    requires i < |items|
    ensures i <= last < |items| && items[last].key == items[i].key && IsLast(items, last)
    decreases |items| - i
  {
    if IsLast(items, i) {
      last := i;
    } else {
      var j :| i < j < |items| && items[j].key == items[i].key;
      last := LastOf(items, j);
    }
  }

  // ----- the first argument that fails

  /** The items before `i` resolve, with or without keys as they should, and item `i` is the first that does not. */
  ghost predicate FirstBad(w: World, stage: Stage, items: seq<Item>, keyed: bool, i: nat) {
    && i < |items| && AllResolve(w, stage, items[..i], keyed)
    && (IsKeyed(items, i) != keyed || Arg(w, stage, items, i).Throw?)
  }

  lemma BadBehind(w: World, stage: Stage, items: seq<Item>, keyed: bool, i: nat)
    requires FirstBad(w, stage, items, keyed, i) && i > 0
    ensures IsKeyed(items, 0) == keyed && Arg(w, stage, items, 0).Ok? && FirstBad(w, stage, items[1..], keyed, i - 1)
  {
    var head := items[..i];
    assert head[0] == items[0] && IsKeyed(head, 0) == keyed && Arg(w, stage, head, 0).Ok?;
    assert items[1..][i - 1] == items[i];
    var later := items[1..][..i - 1];
    forall j | 0 <= j < |later| ensures IsKeyed(later, j) == keyed && Arg(w, stage, later, j).Ok? {
      assert later[j] == head[j + 1];
      assert IsKeyed(head, j + 1) == keyed && Arg(w, stage, head, j + 1).Ok?;
    }
  }

  /** The error of a failing argument, or of one that has a key where none may be or none where one must be. */
  predicate FailsWith(w: World, stage: Stage, items: seq<Item>, keyed: bool, i: nat, message: string)
    requires i < |items|
  {
    if IsKeyed(items, i) != keyed
    then message == if keyed then "Not an object entry" else "Unexpected key-value pair in array literal"
    else Arg(w, stage, items, i) == Throw(message)
  }

  /** A list fails with the first of its elements that does. */
  lemma {:induction false} ListFails(w: World, stage: Stage, items: seq<Item>, i: nat)
    requires FirstBad(w, stage, items, false, i)
    ensures EvalNode(w, stage, Array(items)).Throw?
    ensures FailsWith(w, stage, items, false, i, EvalNode(w, stage, Array(items)).message)
    decreases |items|
  {
    if i > 0 {
      BadBehind(w, stage, items, false, i);
      ListFails(w, stage, items[1..], i - 1);
      assert items[1..][i - 1] == items[i];
    }
  }

  lemma {:induction false} EntriesFail(w: World, stage: Stage, items: seq<Item>, i: nat, before: map<string, Value>)
    requires FirstBad(w, stage, items, true, i)
    ensures EvalEntries(w, stage, items, before).Throw?
    ensures FailsWith(w, stage, items, true, i, EvalEntries(w, stage, items, before).message)
    decreases |items|
  {
    if i > 0 {
      BadBehind(w, stage, items, true, i);
      EntriesFail(w, stage, items[1..], i - 1, before[items[0].key.value := Arg(w, stage, items, 0).value]);
      assert items[1..][i - 1] == items[i];
    }
  }

  /** And an object with the first of its entries. */
  lemma ObjectFails(w: World, stage: Stage, items: seq<Item>, i: nat)
    requires FirstBad(w, stage, items, true, i)
    ensures EvalNode(w, stage, Object(items)).Throw?
    ensures FailsWith(w, stage, items, true, i, EvalNode(w, stage, Object(items)).message)
  {
    EntriesFail(w, stage, items, i, map[]);
  }

  // ----- concat

  /** The texts of the arguments one after the other. */
  function Joined(texts: seq<string>): string {
    if texts == [] then "" else Joined(texts[..|texts| - 1]) + texts[|texts| - 1]
  }

  predicate IsTextArg(w: World, stage: Stage, args: seq<Item>, i: nat, text: string)
    requires i < |args|
  {
    && !IsKeyed(args, i) && (args[i].node.Leaf? || args[i].node.Call?)
    && Arg(w, stage, args, i).Ok? && TextOf(Arg(w, stage, args, i).value) == text
  }

  lemma {:induction false} JoinedFirst(texts: seq<string>)
    requires texts != []
    ensures Joined(texts) == texts[0] + Joined(texts[1..])
  {
    if |texts| > 1 {
      var init := texts[..|texts| - 1];
      JoinedFirst(init);
      assert texts[1..][..|texts| - 2] == init[1..];
      Associate(texts[0], Joined(init[1..]), texts[|texts| - 1]);
    } else {
      assert texts[..0] == [] && texts[1..] == [];
    }
  }

  /** `concat` joins the texts of its arguments in their order. */
  lemma {:induction false} ConcatJoins(w: World, stage: Stage, args: seq<Item>, texts: seq<string>)
    requires |texts| == |args| && forall i | 0 <= i < |args| :: IsTextArg(w, stage, args, i, texts[i])
    ensures EvalNode(w, stage, Call("concat", args)) == Ok(Str(Joined(texts)))
    decreases |args|
  {
    if args != [] {
      var rest := args[1..];
      assert IsTextArg(w, stage, args, 0, texts[0]);
      forall i | 0 <= i < |rest| ensures IsTextArg(w, stage, rest, i, texts[1..][i]) {
        assert rest[i] == args[i + 1] && IsTextArg(w, stage, args, i + 1, texts[i + 1]);
      }
      ConcatJoins(w, stage, rest, texts[1..]);
      JoinedFirst(texts);
    }
  }

  /** It fails with the first argument that does, or that is neither a value nor a call. */
  lemma {:induction false} ConcatFails(w: World, stage: Stage, args: seq<Item>, texts: seq<string>)
    requires |texts| < |args| && forall i | 0 <= i < |texts| :: IsTextArg(w, stage, args, i, texts[i])
    requires forall text :: !IsTextArg(w, stage, args, |texts|, text)
    ensures EvalNode(w, stage, Call("concat", args)).Throw?
    ensures args[|texts|].key.None? && (args[|texts|].node.Leaf? || args[|texts|].node.Call?) ==>
      EvalNode(w, stage, Call("concat", args)) == Arg(w, stage, args, |texts|)
    decreases |args|
  {
    if texts == [] {
      if Arg(w, stage, args, 0).Ok? {
        assert !IsTextArg(w, stage, args, 0, TextOf(Arg(w, stage, args, 0).value));
      }
    } else {
      var rest := args[1..];
      assert IsTextArg(w, stage, args, 0, texts[0]);
      forall i | 0 <= i < |texts| - 1 ensures IsTextArg(w, stage, rest, i, texts[1..][i]) {
        assert rest[i] == args[i + 1] && IsTextArg(w, stage, args, i + 1, texts[i + 1]);
      }
      var n := |texts| - 1;
      assert rest[n] == args[|texts|];
      forall text ensures !IsTextArg(w, stage, rest, n, text) {
        assert !IsTextArg(w, stage, args, |texts|, text);
      }
      ConcatFails(w, stage, rest, texts[1..]);
    }
  }

  /** The text of a list: its elements' texts with commas between; a record has one text for all. */
  lemma {:induction false} TextOfList(vs: seq<Value>, v: Value)
    ensures TextOf(List([])) == "" && TextOf(List([v])) == TextOf(v)
    ensures vs != [] ==> TextOf(List(vs + [v])) == TextOf(List(vs)) + "," + TextOf(v)
    ensures forall fields :: TextOf(Record(fields)) == "[object Object]"
    decreases |vs|
  {
    if |vs| > 1 {
      TextOfList(vs[1..], v);
      assert (vs + [v])[1..] == vs[1..] + [v];
      Associate(TextOf(vs[0]) + ",", CommaJoin(vs[1..]), "," + TextOf(v));
    } else if |vs| == 1 {
      assert vs + [v] == [vs[0], v] && [vs[0], v][1..] == [v];
    }
  }

  // ----- ref and exec

  /** A reference is worth the environment's value, else the earlier item's, else the empty string. */
  lemma RefReads(w: World, args: seq<Item>, st: Static)
    requires args != [] && args[0].node == Leaf(st) && forall a | a in args :: a.key.None? && a.node.Leaf?
    ensures var name := StringOf(StaticValue(w.exact, st));
      Resolve(w, Call("ref", args)) == Ok(
        if name in w.env then Str(w.env[name])
        else if name in w.resolved && w.resolved[name] != Undefined then w.resolved[name]
        else Str(""))
  {
    assert args[0] in args;
    assert forall a | a in args :: StaysStatic(w, Passed(3), a);
  }

  /** Without an argument the name looked up is `undefined`. */
  lemma RefOfNothing(w: World, stage: Stage)
    ensures EvalNode(w, stage, Call("ref", [])) == Ok(
      if "undefined" in w.env then Str(w.env["undefined"])
      else if "undefined" in w.resolved && w.resolved["undefined"] != Undefined then w.resolved["undefined"]
      else Str(""))
  {
  }

  /** With an argument that is a call, list, object or key-value pair there is no name to look up. */
  lemma RefFails(w: World, args: seq<Item>)
    requires exists a :: a in args && !(a.key.None? && a.node.Leaf?)
    ensures Resolve(w, Call("ref", args)) == Throw(
      if forall a | a in args :: a.key.Some? then "Invalid `ref` args" else "Invalid function args")
  {
    var a :| a in args && !(a.key.None? && a.node.Leaf?);
    assert !StaysStatic(w, Passed(3), a);
  }

  /** The environment a command runs in: the variables passed in, over the items resolved so far. */
  lemma CommandSees(w: World, key: string)
    ensures key in w.CommandEnv() <==> key in w.env || key in w.resolved
    ensures key in w.env ==> w.CommandEnv()[key] == Str(w.env[key])
    ensures key !in w.env && key in w.resolved ==> w.CommandEnv()[key] == w.resolved[key]
  {
  }

  /** `exec` takes one value or call, which must give a string, and gives the trimmed output of that command. */
  lemma ExecRuns(w: World, stage: Stage, args: seq<Item>)
    ensures var r := EvalNode(w, stage, Call("exec", args));
      if |args| != 1 || args[0].key.Some? || !(args[0].node.Leaf? || args[0].node.Call?)
      then r == Throw("Invalid `exec` args")
      else
        match Arg(w, stage, args, 0)
        case Throw(message) => r == Throw(message)
        case Ok(Str(command)) =>
          (match w.exec(command, w.CommandEnv())
           case Throw(message) => r == Throw(message)
           case Ok(output) => r == Ok(Str(Trim(output))))
        case Ok(_) => r == Throw("Invalid `exec` command")
  {
  }

  /** Any other function is unknown, and a bare argument list has no value. */
  lemma OtherwiseUnknown(w: World, stage: Stage, name: string, args: seq<Item>)
    requires name !in {"ref", "concat", "exec", "fallback", "remap"}
    ensures EvalNode(w, stage, Call(name, args)) == Throw("Unknown function: " + name)
    ensures EvalNode(w, stage, ArgList(args)) == Ok(Undefined)
  {
  }
}
