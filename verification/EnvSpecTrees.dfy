/**
 * Whole trees and files: resolving the expanded form gives what the tree as written is worth when each of
 * its strings is read once.
 */
module EnvSpecTrees {
  import opened Outcomes
  import opened EnvSpecNodes
  import opened EnvSpecHoles
  import opened EnvSpecSplitting
  import opened EnvSpecCuts
  import opened EnvSpecExpand
  import opened EnvSpecStrings
  import opened EnvSpecResolve
  import opened EnvSpecMeaning
  import opened EnvSpecReading

  // ----- which texts hold no expansion

  lemma {:induction false} NothingFound(kinds: Kinds, s: string, i: nat)
    requires !kinds.exec
    ensures Holes(kinds, s, i) == [] <==> forall p | i <= p < |s| :: HoleAt(kinds, s, p).None?
    decreases |s| - i
  {
    if i < |s| {
      ReadOneAlone(kinds, s, i);
      if HoleAt(kinds, s, i).None? {
        NothingFound(kinds, s, i + 1);
      }
    }
  }

  lemma NoReferences(s: string, i: nat)
    ensures Holes(REFS, s, i) == [] <==> Holes(SIMPLE, s, i) == [] && Holes(BRACKETED, s, i) == []
  {
    NothingFound(REFS, s, i);
    NothingFound(SIMPLE, s, i);
    NothingFound(BRACKETED, s, i);
    assert forall p: nat :: HoleAt(REFS, s, p).None? <==> HoleAt(SIMPLE, s, p).None? && HoleAt(BRACKETED, s, p).None?;
  }

  lemma {:induction false} NoExpansions(s: string, i: nat)
    ensures Holes(ALL, s, i) == [] <==> Holes(EXECS, s, i) == [] && Holes(REFS, s, i) == []
    decreases |s| - i
  {
    if i < |s| {
      ReadOneAlone(REFS, s, i);
      if HoleAt(ALL, s, i).None? {
        if OpensExec(s, i) {
          NothingSought(s, i + 1);
          assert ALL.(exec := false) == REFS;
        } else {
          NoExpansions(s, i + 1);
        }
      } else {
        assert HoleAt(EXECS, s, i).Some? || HoleAt(REFS, s, i).Some?;
      }
    }
  }

  /** No pass finds anything in a text exactly when one reading finds nothing. */
  lemma NoHolesAtOnce(s: string)
    ensures NoHoles(Passed(0), s) <==> NoHoles(AtOnce, s)
  {
    NoExpansions(s, 0);
    NoReferences(s, 0);
    assert NoHoles(Passed(3), s);
    assert NoHoles(Passed(2), s) <==> Holes(BRACKETED, s, 0) == [];
    assert NoHoles(Passed(1), s) <==> Holes(SIMPLE, s, 0) == [] && NoHoles(Passed(2), s);
    assert NoHoles(Passed(0), s) <==> Holes(EXECS, s, 0) == [] && NoHoles(Passed(1), s);
  }

  // ----- trees

  /** A string that is expanded holds no backslash-quote pair, and no pass cuts into its references. */
  ghost predicate Readable(exact: string -> bool, st: Static) {
    var q, v := QuoteOf(st), StaticValue(exact, st);
    v.Str? && q != SingleQuote ==> st.Text? && Settled(q, v.s) && NothingCut(v.s)
  }

  ghost predicate AllReadable(exact: string -> bool, n: Node)
    decreases n, 1
  {
    match n
    case Leaf(st) => Readable(exact, st)
    case Call(_, args) => ItemsReadable(exact, args)
    case Object(entries) => ItemsReadable(exact, entries)
    case Array(elems) => ItemsReadable(exact, elems)
    case ArgList(args) => ItemsReadable(exact, args)
  }

  ghost predicate ItemsReadable(exact: string -> bool, items: seq<Item>)
    decreases items, 0
  {
    items == [] ||
    (var item := items[0]; assert item.node < item; AllReadable(exact, item.node) && ItemsReadable(exact, items[1..]))
  }

  /** The static values of a tree. */
  function Leaves(n: Node): set<Static>
    decreases n, 1
  {
    match n
    case Leaf(st) => {st}
    case Call(_, args) => LeavesOf(args)
    case Object(entries) => LeavesOf(entries)
    case Array(elems) => LeavesOf(elems)
    case ArgList(args) => LeavesOf(args)
  }

  function LeavesOf(items: seq<Item>): set<Static>
    decreases items, 0
  {
    if items == [] then {}
    else
      var item := items[0];
      assert item.node < item;
      Leaves(item.node) + LeavesOf(items[1..])
  }

  /** A tree is readable exactly when its static values are, wherever they stand. */
  lemma {:induction false} ReadableByLeaves(exact: string -> bool, n: Node)
    ensures AllReadable(exact, n) <==> forall st | st in Leaves(n) :: Readable(exact, st)
    decreases n, 1
  {
    match n
    case Leaf(st) =>
    case Call(_, args) => ItemsByLeaves(exact, args);
    case Object(entries) => ItemsByLeaves(exact, entries);
    case Array(elems) => ItemsByLeaves(exact, elems);
    case ArgList(args) => ItemsByLeaves(exact, args);
  }

  lemma {:induction false} ItemsByLeaves(exact: string -> bool, items: seq<Item>)
    ensures ItemsReadable(exact, items) <==> forall st | st in LeavesOf(items) :: Readable(exact, st)
    decreases items, 0
  {
    if items != [] {
      var item := items[0];
      assert item.node < item;
      ReadableByLeaves(exact, item.node);
      ItemsByLeaves(exact, items[1..]);
    }
  }

  /** Every written value without a backslash is readable when nothing is cut in it. */
  lemma UncutIsReadable(exact: string -> bool, raw: string, q: Quote, skipTrim: bool)
    requires var v := StaticValue(exact, Text(raw, q, skipTrim)); v.Str? ==> '\\' !in v.s && NothingCut(v.s)
    ensures Readable(exact, Text(raw, q, skipTrim))
  {
  }

  lemma LeafReadsOnce(w: World, st: Static)
    requires Readable(w.exact, st)
    ensures LeafValue(w, Passed(0), st) == LeafValue(w, AtOnce, st)
  {
    var q, v := QuoteOf(st), StaticValue(w.exact, st);
    if v.Str? && q != SingleQuote {
      LeafIsItsSlice(w, st);
      PassesReadOnce(w, q, v.s);
    }
  }

  /** Reading the strings of a tree once or in stages gives the same value. */
  lemma {:induction false} TreeReadsOnce(w: World, n: Node)
    requires AllReadable(w.exact, n)
    ensures EvalNode(w, Passed(0), n) == EvalNode(w, AtOnce, n)
    decreases n, 2
  {
    match n
    case Leaf(st) => LeafReadsOnce(w, st);
    case Array(elems) => ElemsReadOnce(w, elems);
    case Object(entries) => EntriesReadOnce(w, entries, map[]);
    case ArgList(_) =>
    case Call(name, args) =>
      if name == "ref" {
        RefKeyReadsOnce(w, args);
      } else if name == "concat" {
        ConcatReadsOnce(w, args);
      } else if name == "exec" {
        ExecReadsOnce(w, args);
      } else if name == "fallback" {
        FallbackReadsOnce(w, args);
      } else if name == "remap" {
        RemapReadsOnce(w, args);
      }
  }

  lemma {:induction false} ElemsReadOnce(w: World, items: seq<Item>)
    requires ItemsReadable(w.exact, items)
    ensures EvalElems(w, Passed(0), items) == EvalElems(w, AtOnce, items)
    decreases items, 0
  {
    if items != [] {
      var item := items[0];
      assert item.node < item;
      TreeReadsOnce(w, item.node);
      ElemsReadOnce(w, items[1..]);
    }
  }

  lemma {:induction false} EntriesReadOnce(w: World, items: seq<Item>, fields: map<string, Value>)
    requires ItemsReadable(w.exact, items)
    ensures EvalEntries(w, Passed(0), items, fields) == EvalEntries(w, AtOnce, items, fields)
    decreases items, 0
  {
    if items != [] && items[0].key.Some? {
      var item := items[0];
      assert item.node < item;
      TreeReadsOnce(w, item.node);
      if EvalNode(w, AtOnce, item.node).Ok? {
        EntriesReadOnce(w, items[1..], fields[item.key.value := EvalNode(w, AtOnce, item.node).value]);
      }
    }
  }

  lemma RefKeyReadsOnce(w: World, args: seq<Item>)
    ensures RefKey(w, Passed(0), args) == RefKey(w, AtOnce, args)
  {
    forall a | a in args ensures StaysStatic(w, Passed(0), a) <==> StaysStatic(w, AtOnce, a) {
      if a.node.Leaf? && StaticValue(w.exact, a.node.st).Str? {
        NoHolesAtOnce(StaticValue(w.exact, a.node.st).s);
      }
    }
  }

  lemma {:induction false} ConcatReadsOnce(w: World, args: seq<Item>)
    requires ItemsReadable(w.exact, args)
    ensures EvalConcat(w, Passed(0), args) == EvalConcat(w, AtOnce, args)
    decreases args, 0
  {
    if args != [] {
      var item := args[0];
      assert item.node < item;
      TreeReadsOnce(w, item.node);
      ConcatReadsOnce(w, args[1..]);
    }
  }

  lemma {:induction false} ExecReadsOnce(w: World, args: seq<Item>)
    requires ItemsReadable(w.exact, args)
    ensures EvalExec(w, Passed(0), args) == EvalExec(w, AtOnce, args)
    decreases args, 0
  {
    if |args| == 1 {
      var item := args[0];
      assert item.node < item;
      TreeReadsOnce(w, item.node);
    }
  }

  lemma {:induction false} FallbackReadsOnce(w: World, args: seq<Item>)
    requires ItemsReadable(w.exact, args)
    ensures EvalFallback(w, Passed(0), args) == EvalFallback(w, AtOnce, args)
    decreases args, 0
  {
    if args != [] {
      var item := args[0];
      assert item.node < item;
      TreeReadsOnce(w, item.node);
      FallbackReadsOnce(w, args[1..]);
    }
  }

  lemma {:induction false} RemapReadsOnce(w: World, args: seq<Item>)
    requires ItemsReadable(w.exact, args)
    ensures EvalRemap(w, Passed(0), args) == EvalRemap(w, AtOnce, args)
    decreases args, 1
  {
    if args != [] {
      var item := args[0];
      assert item.node < item;
      TreeReadsOnce(w, item.node);
      if EvalNode(w, AtOnce, item.node).Ok? {
        PairsReadOnce(w, EvalNode(w, AtOnce, item.node).value, args[1..]);
      }
    }
  }

  lemma {:induction false} PairsReadOnce(w: World, v: Value, args: seq<Item>)
    requires ItemsReadable(w.exact, args)
    ensures RemapPairs(w, Passed(0), v, args) == RemapPairs(w, AtOnce, v, args)
    decreases args, 0
  {
    if args != [] {
      var item := args[0];
      assert item.node < item;
      TreeReadsOnce(w, item.node);
      if |args| > 1 {
        var result := args[1];
        assert result.node < result && args[1..][0] == result && args[1..][1..] == args[2..];
        TreeReadsOnce(w, result.node);
        PairsReadOnce(w, v, args[2..]);
      }
    }
  }

  /**
   * Compiling a tree and resolving the result gives the value of the tree as written, whatever calls,
   * lists and objects it is made of, with each of its strings read once from left to right.
   */
  lemma ExpandedTreeReads(w: World, n: Node)
    requires AllReadable(w.exact, n)
    ensures Resolve(w, Expand(w.exact, n)) == EvalNode(w, AtOnce, n)
  {
    ExpandKeepsMeaning(w, n);
    TreeReadsOnce(w, n);
  }

  ghost predicate FileReadable(exact: string -> bool, items: seq<ConfigItem>) {
    forall i | 0 <= i < |items| && items[i].value.Some? :: AllReadable(exact, items[i].value.value)
  }

  /** The same for a whole file, where each item may refer to the ones before it. */
  lemma {:induction false} ExpandedFileReads(w: World, stringify: bool, items: seq<ConfigItem>)
    requires FileReadable(w.exact, items)
    ensures EvalFile(w, Passed(3), stringify, ExpandConfig(w.exact, items)) == EvalFile(w, AtOnce, stringify, items)
    decreases |items|
  {
    if items != [] {
      var es := ExpandConfig(w.exact, items);
      assert es[1..] == ExpandConfig(w.exact, items[1..]);
      if items[0].value.Some? {
        ExpandedTreeReads(w, items[0].value.value);
      }
      assert ItemValue(w, Passed(3), stringify, es[0]) == ItemValue(w, AtOnce, stringify, items[0]);
      if ItemValue(w, AtOnce, stringify, items[0]).Ok? {
        var later := w.(resolved := w.resolved[items[0].key := ItemValue(w, AtOnce, stringify, items[0]).value]);
        ExpandedFileReads(later, stringify, items[1..]);
      }
    }
  }
}
