/**
 * Expansion preserves meaning: resolving the expanded tree gives the value of the tree as written.
 */
module EnvSpecMeaning {
  import opened Outcomes
  import opened Strings
  import opened EnvSpecNodes
  import opened EnvSpecHoles
  import opened EnvSpecSplitting
  import opened EnvSpecExpand
  import opened EnvSpecStrings
  import opened EnvSpecResolve

  // ----- concat

  function Chain(a: Outcome<string>, b: Outcome<string>): Outcome<string> {
    var x :- a;
    var y :- b;
    Ok(x + y)
  }

  function InText(v: Outcome<Value>): Outcome<string> {
    var x :- v;
    Ok(TextOf(x))
  }

  lemma ChainAssociates(a: Outcome<string>, b: Outcome<string>, c: Outcome<string>)
    ensures Chain(Chain(a, b), c) == Chain(a, Chain(b, c))
    ensures Chain(a, Ok("")) == a && Chain(Ok(""), a) == a
  {
    if a.Ok? {
      assert a.value + "" == a.value && "" + a.value == a.value;
      if b.Ok? && c.Ok? {
        assert (a.value + b.value) + c.value == a.value + (b.value + c.value);
      }
    }
  }

  /** The contribution of one argument to a `concat`. */
  function ArgText(w: World, stage: Stage, item: Item): Outcome<string> {
    if !IsScalarArg(item) then Throw("Invalid concat args") else InText(EvalNode(w, stage, item.node))
  }

  lemma ConcatCons(w: World, stage: Stage, x: Item, xs: seq<Item>)
    ensures EvalConcat(w, stage, [x] + xs) == Chain(ArgText(w, stage, x), EvalConcat(w, stage, xs))
  {
    assert ([x] + xs)[1..] == xs;
  }

  lemma {:induction false} ConcatAppend(w: World, stage: Stage, xs: seq<Item>, ys: seq<Item>)
    ensures EvalConcat(w, stage, xs + ys) == Chain(EvalConcat(w, stage, xs), EvalConcat(w, stage, ys))
  {
    if xs == [] {
      assert xs + ys == ys;
      ChainAssociates(EvalConcat(w, stage, ys), Ok(""), Ok(""));
    } else {
      assert xs + ys == [xs[0]] + (xs[1..] + ys) && xs == [xs[0]] + xs[1..];
      ConcatAppend(w, stage, xs[1..], ys);
      ConcatCons(w, stage, xs[0], xs[1..] + ys);
      ConcatCons(w, stage, xs[0], xs[1..]);
      ChainAssociates(ArgText(w, stage, xs[0]), EvalConcat(w, stage, xs[1..]), EvalConcat(w, stage, ys));
    }
  }

  /** Splicing the arguments of a nested `concat` in place leaves the text unchanged. */
  lemma SpliceKeepsText(w: World, stage: Stage, inner: seq<Item>, rest: seq<Item>)
    ensures EvalConcat(w, stage, inner + rest) == EvalConcat(w, stage, [Positional(Call("concat", inner))] + rest)
  {
    ConcatAppend(w, stage, inner, rest);
    ConcatCons(w, stage, Positional(Call("concat", inner)), rest);
  }

  // ----- string leaves

  ghost predicate GoodName(name: string) {
    name != "" && forall c | c in name :: IsNameChar(c, true)
  }

  ghost predicate WellFormed(p: Piece) {
    (p.Ref? || p.RefOr?) ==> GoodName(p.name)
  }

  lemma HoleIsWellFormed(kinds: Kinds, s: string, i: nat)
    requires HoleAt(kinds, s, i).Some?
    ensures WellFormed(HoleAt(kinds, s, i).value.piece)
  {
    var p := HoleAt(kinds, s, i).value.piece;
    if IsNameStart(s[i + 1]) {
      var end := NameEnd(s, i + 2, false);
      assert forall k | i + 1 <= k < end :: IsNameChar(s[k], true);
    } else if s[i + 1] == '{' {
      var n := NameEnd(s, i + 3, true);
      assert forall k | i + 2 <= k < n :: IsNameChar(s[k], true);
      assert p.name == s[i + 2..n];
    }
  }

  /** What the pieces of a split look like: holes are well formed and no literal is empty. */
  ghost predicate GoodPieces(ps: seq<Piece>) {
    forall p | p in ps :: WellFormed(p) && (p.Lit? ==> p.text != "")
  }

  lemma {:induction false} PartsAreGood(s: string, last: nat, end: nat, holes: seq<Hole>)
    requires end <= |s| && forall h | h in holes :: WellFormed(h.piece) && !h.piece.Lit?
    ensures GoodPieces(Parts(s, last, end, holes))
    decreases |holes|
  {
    if holes != [] {
      assert holes[0] in holes;
      PartsAreGood(s, holes[0].end, end, holes[1..]);
    }
  }

  lemma SplitIsGood(kinds: Kinds, s: string)
    ensures GoodPieces(Split(kinds, s))
  {
    forall h | h in Holes(kinds, s, 0) ensures WellFormed(h.piece) && !h.piece.Lit? {
      HoleOf(kinds, s, h);
      HoleIsWellFormed(kinds, s, h.start);
    }
    PartsAreGood(s, 0, |s|, Holes(kinds, s, 0));
  }

  /** A name survives as a `ref` argument even when it reads as `true`, `undefined` and the like. */
  lemma NameSurvives(w: World, k: nat, name: string)
    requires GoodName(name)
    ensures EvalNode(w, Passed(k), RefCall(name)) == Ok(w.Lookup(name))
  {
    var args := [Positional(Leaf(Text(name, NoQuote, false)))];
    assert name[0] in name && name[|name| - 1] in name;
    TrimNothing(name);
    CoercionKeepsText(w.exact, name);
    assert '$' !in name;
    NoDollarNoHoles(k, name);
    assert StaysStatic(w, Passed(k), args[0]);
    assert RefKey(w, Passed(k), args) == Ok(name);
  }

  lemma NoDollarNoHoles(k: nat, s: string)
    requires '$' !in s
    ensures NoHoles(Passed(k), s)
    decreases 3 - k
  {
    if k < 3 {
      NoDollar(Pass(k), s, 0);
      NoDollarNoHoles(k + 1, s);
    }
  }

  lemma {:induction false} NoDollar(kinds: Kinds, s: string, i: nat)
    requires '$' !in s
    ensures Holes(kinds, s, i) == []
    decreases |s| - i
  {
    if i < |s| {
      assert s[i] in s;
      NoDollar(if OpensExec(s, i) then kinds.(exec := false) else kinds, s, i + 1);
    }
  }

  lemma SliceLeaf(w: World, k: nat, q: Quote, t: string)
    ensures EvalNode(w, Passed(k), Leaf(Slice(t, q))) == ValueMeaning(w, k, q, SliceValue(w, q, t))
  {
  }

  function FirstFilled(a: Outcome<Value>, rest: Outcome<Value>): Outcome<Value> {
    if a.Throw? || Filled(a.value) then a else rest
  }

  lemma FallbackStep(w: World, k: nat, a: Node, rest: seq<Item>)
    ensures EvalFallback(w, Passed(k), [Positional(a)] + rest) ==
      FirstFilled(EvalNode(w, Passed(k), a), EvalFallback(w, Passed(k), rest))
  {
    assert ([Positional(a)] + rest)[1..] == rest;
  }

  lemma FallbackOfTwo(w: World, k: nat, a: Node, b: Node)
    ensures EvalNode(w, Passed(k), Call("fallback", [Positional(a), Positional(b)]))
      == FirstFilled(EvalNode(w, Passed(k), a), FirstFilled(EvalNode(w, Passed(k), b), Ok(Undefined)))
  {
    FallbackStep(w, k, a, [Positional(b)]);
    FallbackStep(w, k, b, []);
    assert [Positional(a), Positional(b)] == [Positional(a)] + [Positional(b)];
    assert [Positional(b)] == [Positional(b)] + [];
  }

  lemma ExecOfOne(w: World, k: nat, a: Node)
    requires a.Leaf?
    ensures EvalNode(w, Passed(k), Call("exec", [Positional(a)]))
      == if EvalNode(w, Passed(k), a).Ok? then w.Run(EvalNode(w, Passed(k), a).value) else EvalNode(w, Passed(k), a)
  {
  }

  lemma RefOrMeans(w: World, k: nat, q: Quote, name: string, d: string)
    requires k < 3 && GoodName(name)
    ensures EvalNode(w, Passed(k + 1), PieceNode(q, RefOr(name, d))) == PieceMeaning(w, k, q, RefOr(name, d))
  {
    NameSurvives(w, k + 1, name);
    SliceLeaf(w, k + 1, q, d);
    FallbackOfTwo(w, k + 1, RefCall(name), Leaf(Slice(d, q)));
    var given, dflt := w.Lookup(name), ValueMeaning(w, k + 1, q, SliceValue(w, q, d));
    assert PieceMeaning(w, k, q, RefOr(name, d)) == FirstFilled(Ok(given), FirstFilled(dflt, Ok(Undefined)));
  }

  lemma ExecMeans(w: World, k: nat, q: Quote, c: string)
    requires k < 3
    ensures EvalNode(w, Passed(k + 1), PieceNode(q, Exec(c))) == PieceMeaning(w, k, q, Exec(c))
  {
    SliceLeaf(w, k + 1, q, c);
    ExecOfOne(w, k + 1, Leaf(Slice(c, q)));
  }

  lemma PieceNodeMeans(w: World, k: nat, q: Quote, p: Piece)
    requires k < 3 && WellFormed(p)
    ensures EvalNode(w, Passed(k + 1), PieceNode(q, p)) == PieceMeaning(w, k, q, p)
  {
    match p
    case Lit(t) => SliceLeaf(w, k + 1, q, t);
    case Ref(name) => NameSurvives(w, k + 1, name);
    case RefOr(name, d) => RefOrMeans(w, k, q, name, d);
    case Exec(c) => ExecMeans(w, k, q, c);
  }

  lemma {:induction false} PieceItemsMean(w: World, k: nat, q: Quote, ps: seq<Piece>)
    requires k < 3 && GoodPieces(ps)
    ensures EvalConcat(w, Passed(k + 1), PieceItems(q, ps)) == PiecesText(w, k, q, ps)
    ensures |PieceItems(q, ps)| == |ps|
  {
    if ps != [] {
      assert ps[0] in ps;
      PieceNodeMeans(w, k, q, ps[0]);
      PieceItemsMean(w, k, q, ps[1..]);
      assert PieceItems(q, ps)[1..] == PieceItems(q, ps[1..]);
    }
  }

  /** A cut string: the tree of its pieces means what the pieces mean. */
  lemma CutMeans(w: World, k: nat, q: Quote, s: string)
    requires k < 3
    ensures EvalNode(w, Passed(k + 1), Wrap(PieceItems(q, Split(Pass(k), s)))) ==
      PiecesMeaning(w, k, q, Split(Pass(k), s))
  {
    var ps := Split(Pass(k), s);
    SplitIsGood(Pass(k), s);
    PieceItemsMean(w, k, q, ps);
    if |ps| == 1 {
      PieceNodeMeans(w, k, q, ps[0]);
      assert Wrap(PieceItems(q, ps)) == PieceNode(q, ps[0]);
    } else {
      assert Wrap(PieceItems(q, ps)) == Call("concat", PieceItems(q, ps));
    }
  }

  /** One pass over one leaf. */
  lemma StaticMeans(w: World, k: nat, st: Static)
    requires k < 3
    ensures EvalNode(w, Passed(k + 1), ExpandStatic(w.exact, Pass(k), st)) == EvalNode(w, Passed(k), Leaf(st))
  {
    var v := StaticValue(w.exact, st);
    var q := QuoteOf(st);
    assert EvalNode(w, Passed(k), Leaf(st)) == ValueMeaning(w, k, q, v);
    assert EvalNode(w, Passed(k + 1), Leaf(st)) == ValueMeaning(w, k + 1, q, v);
    if v.Str? {
      CutMeans(w, k, q, v.s);
      if q == SingleQuote || Holes(Pass(k), v.s, 0) == [] {
        assert StringMeaning(w, k, q, v.s) == StringMeaning(w, k + 1, q, v.s);
      } else {
        assert StringMeaning(w, k, q, v.s) == PiecesMeaning(w, k, q, Split(Pass(k), v.s));
      }
    }
  }

  // ----- trees

  lemma {:induction false} PassKeepsMeaning(w: World, k: nat, n: Node)
    requires k < 3
    ensures EvalNode(w, Passed(k + 1), ExpandNode(w.exact, Pass(k), n)) == EvalNode(w, Passed(k), n)
    decreases n, 2
  {
    match n
    case Leaf(st) => StaticMeans(w, k, st);
    case Array(elems) => PassKeepsElems(w, k, elems);
    case Object(entries) => PassKeepsEntries(w, k, entries, map[]);
    case ArgList(_) =>
    case Call(name, args) =>
      if name == "ref" {
        PassKeepsRefKey(w, k, args);
      } else if name == "concat" {
        PassKeepsConcat(w, k, args);
      } else if name == "exec" {
        PassKeepsExec(w, k, args);
      } else if name == "fallback" {
        PassKeepsFallback(w, k, args);
      } else if name == "remap" {
        PassKeepsRemap(w, k, args);
      }
  }

  function ExpandItem(w: World, k: nat, item: Item): Item {
    Item(item.key, ExpandNode(w.exact, Pass(k), item.node))
  }

  lemma ExpandFirst(w: World, k: nat, items: seq<Item>)
    requires items != []
    ensures ExpandItems(w.exact, Pass(k), items, false)
      == [ExpandItem(w, k, items[0])] + ExpandItems(w.exact, Pass(k), items[1..], false)
    ensures ExpandItems(w.exact, Pass(k), items, false)[1..] == ExpandItems(w.exact, Pass(k), items[1..], false)
    ensures IsScalarArg(ExpandItem(w, k, items[0])) <==> IsScalarArg(items[0])
  {
    StaticExpandsToScalar(w, k, items[0].node);
  }

  /** A leaf with holes becomes a call, never another leaf. */
  lemma StaticExpandsToScalar(w: World, k: nat, n: Node)
    ensures n.Leaf? ==>
      var v := StaticValue(w.exact, n.st);
      var e := ExpandNode(w.exact, Pass(k), n);
      if v.Str? && QuoteOf(n.st) != SingleQuote && Holes(Pass(k), v.s, 0) != [] then e.Call? else e == n
  {
    if n.Leaf? {
      var v := StaticValue(w.exact, n.st);
      if v.Str? && Holes(Pass(k), v.s, 0) != [] {
        var h := Holes(Pass(k), v.s, 0)[0];
        HolesInOrder(Pass(k), v.s, 0);
        assert h in Holes(Pass(k), v.s, 0) && !h.piece.Lit?;
        OnePieceIsHole(QuoteOf(n.st), v.s, Holes(Pass(k), v.s, 0));
      }
    }
  }

  lemma OnePieceIsHole(q: Quote, s: string, holes: seq<Hole>)
    requires holes != []
    ensures var ps := Parts(s, 0, |s|, holes);
      |ps| >= 1 && (|ps| == 1 ==> ps[0] == holes[0].piece) && |PieceItems(q, ps)| == |ps|
    ensures |Parts(s, 0, |s|, holes)| == 1 ==>
      Wrap(PieceItems(q, Parts(s, 0, |s|, holes))) == PieceNode(q, holes[0].piece)
  {
    CountItems(q, Parts(s, 0, |s|, holes));
  }

  lemma {:induction false} CountItems(q: Quote, ps: seq<Piece>)
    ensures |PieceItems(q, ps)| == |ps|
  {
    if ps != [] {
      CountItems(q, ps[1..]);
    }
  }

  lemma {:induction false} PassKeepsElems(w: World, k: nat, items: seq<Item>)
    requires k < 3
    ensures EvalElems(w, Passed(k + 1), ExpandItems(w.exact, Pass(k), items, false)) == EvalElems(w, Passed(k), items)
    decreases items, 0
  {
    if items != [] {
      ExpandFirst(w, k, items);
      var item := items[0];
      assert item.node < item;
      PassKeepsMeaning(w, k, item.node);
      PassKeepsElems(w, k, items[1..]);
    }
  }

  lemma {:induction false} PassKeepsEntries(w: World, k: nat, items: seq<Item>, fields: map<string, Value>)
    requires k < 3
    ensures EvalEntries(w, Passed(k + 1), ExpandItems(w.exact, Pass(k), items, false), fields) ==
      EvalEntries(w, Passed(k), items, fields)
    decreases items, 0
  {
    if items != [] && items[0].key.Some? {
      ExpandFirst(w, k, items);
      var item := items[0];
      assert item.node < item;
      PassKeepsMeaning(w, k, item.node);
      if EvalNode(w, Passed(k), item.node).Ok? {
        PassKeepsEntries(w, k, items[1..], fields[item.key.value := EvalNode(w, Passed(k), item.node).value]);
      }
    }
  }

  lemma {:induction false} ExpandPointwise(w: World, k: nat, items: seq<Item>)
    ensures var es := ExpandItems(w.exact, Pass(k), items, false);
      |es| == |items| && forall i | 0 <= i < |items| :: es[i] == ExpandItem(w, k, items[i])
  {
    if items != [] {
      ExpandFirst(w, k, items);
      ExpandPointwise(w, k, items[1..]);
    }
  }

  lemma StaysStaticKept(w: World, k: nat, item: Item)
    requires k < 3
    ensures StaysStatic(w, Passed(k + 1), ExpandItem(w, k, item)) <==> StaysStatic(w, Passed(k), item)
    ensures StaysStatic(w, Passed(k), item) ==> ExpandItem(w, k, item) == item
  {
    StaticExpandsToScalar(w, k, item.node);
  }

  lemma PassKeepsRefKey(w: World, k: nat, args: seq<Item>)
    requires k < 3
    ensures RefKey(w, Passed(k + 1), ExpandItems(w.exact, Pass(k), args, false)) == RefKey(w, Passed(k), args)
  {
    var es := ExpandItems(w.exact, Pass(k), args, false);
    ExpandPointwise(w, k, args);
    forall i | 0 <= i < |args|
      ensures StaysStatic(w, Passed(k + 1), es[i]) <==> StaysStatic(w, Passed(k), args[i])
      ensures StaysStatic(w, Passed(k), args[i]) ==> es[i] == args[i]
      ensures es[i].key.Some? <==> args[i].key.Some?
    {
      StaysStaticKept(w, k, args[i]);
    }
    assert (forall a | a in es :: StaysStatic(w, Passed(k + 1), a)) <==>
           (forall a | a in args :: StaysStatic(w, Passed(k), a)) by {
      assert forall i | 0 <= i < |args| :: es[i] in es && args[i] in args;
    }
    assert (forall a | a in es :: a.key.Some?) <==> (forall a | a in args :: a.key.Some?) by {
      assert forall i | 0 <= i < |args| :: es[i] in es && args[i] in args;
    }
  }

  /** The first argument of a `concat`, spliced or not, followed by the others. */
  lemma ConcatStep(w: World, stage: Stage, first: Item, rest: seq<Item>)
    ensures EvalConcat(w, stage, (if IsConcat(first) then first.node.args else [first]) + rest)
      == Chain(ArgText(w, stage, first), EvalConcat(w, stage, rest))
  {
    ConcatCons(w, stage, first, rest);
    if IsConcat(first) {
      SpliceKeepsText(w, stage, first.node.args, rest);
      assert first == Positional(Call("concat", first.node.args));
    }
  }

  lemma {:induction false} PassKeepsConcat(w: World, k: nat, args: seq<Item>)
    requires k < 3
    ensures EvalConcat(w, Passed(k + 1), ExpandItems(w.exact, Pass(k), args, true)) == EvalConcat(w, Passed(k), args)
    decreases args, 0
  {
    if args != [] {
      var item := args[0];
      assert item.node < item;
      ExpandFirst(w, k, args);
      PassKeepsMeaning(w, k, item.node);
      PassKeepsConcat(w, k, args[1..]);
      ConcatStep(w, Passed(k + 1), ExpandItem(w, k, item), ExpandItems(w.exact, Pass(k), args[1..], true));
    }
  }

  lemma {:induction false} PassKeepsExec(w: World, k: nat, args: seq<Item>)
    requires k < 3
    ensures EvalExec(w, Passed(k + 1), ExpandItems(w.exact, Pass(k), args, false)) == EvalExec(w, Passed(k), args)
    decreases args, 0
  {
    ExpandPointwise(w, k, args);
    if |args| == 1 {
      var item := args[0];
      assert item.node < item;
      ExpandFirst(w, k, args);
      PassKeepsMeaning(w, k, item.node);
    }
  }

  lemma {:induction false} PassKeepsFallback(w: World, k: nat, args: seq<Item>)
    requires k < 3
    ensures EvalFallback(w, Passed(k + 1), ExpandItems(w.exact, Pass(k), args, false)) ==
      EvalFallback(w, Passed(k), args)
    decreases args, 0
  {
    if args != [] {
      var item := args[0];
      assert item.node < item;
      ExpandFirst(w, k, args);
      PassKeepsMeaning(w, k, item.node);
      PassKeepsFallback(w, k, args[1..]);
    }
  }

  lemma {:induction false} PassKeepsRemap(w: World, k: nat, args: seq<Item>)
    requires k < 3
    ensures EvalRemap(w, Passed(k + 1), ExpandItems(w.exact, Pass(k), args, false)) == EvalRemap(w, Passed(k), args)
    decreases args, 1
  {
    if args != [] {
      var item := args[0];
      assert item.node < item;
      ExpandFirst(w, k, args);
      PassKeepsMeaning(w, k, item.node);
      if IsScalarArg(item) && EvalNode(w, Passed(k), item.node).Ok? {
        PassKeepsPairs(w, k, EvalNode(w, Passed(k), item.node).value, args[1..]);
      }
    }
  }

  lemma {:induction false} PassKeepsPairs(w: World, k: nat, v: Value, args: seq<Item>)
    requires k < 3
    ensures RemapPairs(w, Passed(k + 1), v, ExpandItems(w.exact, Pass(k), args, false)) ==
      RemapPairs(w, Passed(k), v, args)
    decreases args, 0
  {
    if args != [] {
      ExpandPointwise(w, k, args);
      var item := args[0];
      assert item.node < item;
      ExpandFirst(w, k, args);
      PassKeepsMeaning(w, k, item.node);
      if |args| > 1 {
        var result := args[1];
        assert result.node < result;
        ExpandFirst(w, k, args[1..]);
        PassKeepsMeaning(w, k, result.node);
        PassKeepsPairs(w, k, v, args[2..]);
        var es := ExpandItems(w.exact, Pass(k), args, false);
        assert args[1..][1..] == args[2..];
        assert es[2..] == es[1..][1..] == ExpandItems(w.exact, Pass(k), args[2..], false);
      }
    }
  }

  /** Compiling a tree and resolving the result is resolving the tree as written. */
  lemma ExpandKeepsMeaning(w: World, n: Node)
    ensures Resolve(w, Expand(w.exact, n)) == EvalNode(w, Passed(0), n)
  {
    var commands := ExpandNode(w.exact, EXECS, n);
    var simple := ExpandNode(w.exact, SIMPLE, commands);
    PassKeepsMeaning(w, 0, n);
    PassKeepsMeaning(w, 1, commands);
    PassKeepsMeaning(w, 2, simple);
  }

  function ExpandConfig(exact: string -> bool, items: seq<ConfigItem>): seq<ConfigItem> {
    if items == [] then []
    else
      [ConfigItem(items[0].key, if items[0].value.Some? then Some(Expand(exact, items[0].value.value)) else None)]
      + ExpandConfig(exact, items[1..])
  }

  /** The same for a whole file, where each item may refer to the ones before it. */
  lemma {:induction false} ExpandKeepsFile(w: World, stringify: bool, items: seq<ConfigItem>)
    ensures EvalFile(w, Passed(3), stringify, ExpandConfig(w.exact, items)) == EvalFile(w, Passed(0), stringify, items)
    decreases |items|
  {
    if items != [] {
      var es := ExpandConfig(w.exact, items);
      assert es[1..] == ExpandConfig(w.exact, items[1..]);
      if items[0].value.Some? {
        ExpandKeepsMeaning(w, items[0].value.value);
      }
      assert ItemValue(w, Passed(3), stringify, es[0]) == ItemValue(w, Passed(0), stringify, items[0]);
      if ItemValue(w, Passed(0), stringify, items[0]).Ok? {
        var later := w.(resolved := w.resolved[items[0].key := ItemValue(w, Passed(0), stringify, items[0]).value]);
        ExpandKeepsFile(later, stringify, items[1..]);
      }
    }
  }

  // ----- no concat directly inside a concat

  predicate FlatNode(n: Node)
    decreases n, 1
  {
    match n
    case Leaf(_) => true
    case Call(name, args) => (name == "concat" ==> forall a | a in args :: !IsConcat(a)) && FlatItems(args)
    case Object(entries) => FlatItems(entries)
    case Array(elems) => FlatItems(elems)
    case ArgList(args) => FlatItems(args)
  }

  predicate FlatItems(items: seq<Item>)
    decreases items, 0
  {
    items == [] || (var item := items[0]; assert item.node < item; FlatNode(item.node) && FlatItems(items[1..]))
  }

  lemma {:induction false} FlatAppend(xs: seq<Item>, ys: seq<Item>)
    ensures FlatItems(xs + ys) <==> FlatItems(xs) && FlatItems(ys)
  {
    if xs == [] {
      assert xs + ys == ys;
    } else {
      assert (xs + ys)[1..] == xs[1..] + ys;
      FlatAppend(xs[1..], ys);
    }
  }

  lemma {:induction false} PieceItemsFlat(q: Quote, ps: seq<Piece>)
    ensures FlatItems(PieceItems(q, ps)) && forall a | a in PieceItems(q, ps) :: !IsConcat(a) && FlatNode(a.node)
  {
    if ps != [] {
      PieceItemsFlat(q, ps[1..]);
      PieceNodeFlat(q, ps[0]);
      assert PieceItems(q, ps)[1..] == PieceItems(q, ps[1..]);
    }
  }

  lemma PieceNodeFlat(q: Quote, p: Piece)
    ensures FlatNode(PieceNode(q, p)) && !IsConcat(Positional(PieceNode(q, p)))
  {
    match p
    case Lit(_) =>
    case Ref(name) => RefCallFlat(name);
    case RefOr(name, d) =>
      RefCallFlat(name);
      var args := [Positional(RefCall(name)), Positional(Leaf(Slice(d, q)))];
      assert args[1..] == [Positional(Leaf(Slice(d, q)))] && args[1..][1..] == [];
      assert FlatItems(args[1..]);
    case Exec(c) =>
      var args := [Positional(Leaf(Slice(c, q)))];
      assert args[1..] == [];
  }

  lemma RefCallFlat(name: string)
    ensures FlatNode(RefCall(name))
  {
    var args := [Positional(Leaf(Text(name, NoQuote, false)))];
    assert args[1..] == [];
  }

  /** Whatever tree a pass is given, no `concat` in its result has a `concat` as a direct argument. */
  lemma {:induction false} PassFlattens(exact: string -> bool, kinds: Kinds, n: Node)
    ensures FlatNode(ExpandNode(exact, kinds, n))
    decreases n, 1
  {
    match n
    case Leaf(st) =>
      var v := StaticValue(exact, st);
      if v.Str? {
        PieceItemsFlat(QuoteOf(st), Split(kinds, v.s));
      }
    case Call(name, args) => ItemsFlatten(exact, kinds, args, name == "concat");
    case Object(entries) => ItemsFlatten(exact, kinds, entries, false);
    case Array(elems) => ItemsFlatten(exact, kinds, elems, false);
    case ArgList(args) => ItemsFlatten(exact, kinds, args, false);
  }

  lemma {:induction false} ItemsFlatten(exact: string -> bool, kinds: Kinds, items: seq<Item>, splice: bool)
    ensures var es := ExpandItems(exact, kinds, items, splice);
      FlatItems(es) && (splice ==> forall a | a in es :: !IsConcat(a))
    decreases items, 0
  {
    if items != [] {
      var item := items[0];
      assert item.node < item;
      PassFlattens(exact, kinds, item.node);
      ItemsFlatten(exact, kinds, items[1..], splice);
      var first := Item(item.key, ExpandNode(exact, kinds, item.node));
      var rest := ExpandItems(exact, kinds, items[1..], splice);
      assert FlatItems([first]) by { assert [first][1..] == []; }
      if splice && IsConcat(first) {
        FlatAppend(first.node.args, rest);
      } else {
        FlatAppend([first], rest);
      }
    }
  }
}
