/**
 * The expansion compiler of packages/env-spec-parser/src/expand.ts: string leaves become `exec`, `ref`,
 * `fallback` and `concat` calls in three ordered passes over the tree.
 */
module EnvSpecExpand {
  import opened Outcomes
  import opened Sequences
  import opened EnvSpecNodes
  import opened EnvSpecHoles
  import opened EnvSpecSplitting

  /** A static built from a slice: re-wrapped in its quotes, or unquoted with its spaces kept. */
  function Slice(text: string, q: Quote): Static {
    if q != NoQuote then Text(Mark(q) + text + Mark(q), q, false) else Text(text, NoQuote, true)
  }

  function Positional(n: Node): Item {
    Item(None, n)
  }

  function RefCall(name: string): Node {
    Call("ref", [Positional(Leaf(Text(name, NoQuote, false)))])
  }

  function PieceNode(q: Quote, p: Piece): Node {
    match p
    case Lit(t) => Leaf(Slice(t, q))
    case Ref(name) => RefCall(name)
    case RefOr(name, d) => Call("fallback", [Positional(RefCall(name)), Positional(Leaf(Slice(d, q)))])
    case Exec(c) => Call("exec", [Positional(Leaf(Slice(c, q)))])
  }

  function PieceItems(q: Quote, ps: seq<Piece>): seq<Item> {
    if ps == [] then [] else [Positional(PieceNode(q, ps[0]))] + PieceItems(q, ps[1..])
  }

  /** A single part stands alone; several become a `concat`. */
  function Wrap(parts: seq<Item>): Node {
    if |parts| == 1 then parts[0].node else Call("concat", parts)
  }

  /** What one pass makes of a static value. */
  function ExpandStatic(exact: string -> bool, kinds: Kinds, st: Static): Node {
    var v := StaticValue(exact, st);
    if v.Str? && QuoteOf(st) != SingleQuote && Holes(kinds, v.s, 0) != []
    then Wrap(PieceItems(QuoteOf(st), Split(kinds, v.s)))
    else Leaf(st)
  }

  /** `expandHelper`: one pass over a tree. */
  function ExpandNode(exact: string -> bool, kinds: Kinds, n: Node): Node
    decreases n, 1
  {
    match n
    case Leaf(st) => ExpandStatic(exact, kinds, st)
    case Call(name, args) => Call(name, ExpandItems(exact, kinds, args, name == "concat"))
    case Object(entries) => Object(ExpandItems(exact, kinds, entries, false))
    case Array(elems) => Array(ExpandItems(exact, kinds, elems, false))
    case ArgList(args) => ArgList(ExpandItems(exact, kinds, args, false))
  }

  predicate IsConcat(item: Item) {
    item.key.None? && item.node.Call? && item.node.name == "concat"
  }

  /** Expands each item; inside a `concat`, the arguments of a nested `concat` are spliced in. */
  function ExpandItems(exact: string -> bool, kinds: Kinds, items: seq<Item>, splice: bool): seq<Item>
    decreases items, 0
  {
    if items == [] then []
    else
      var item := items[0];
      assert item.node < item;
      var first := Item(item.key, ExpandNode(exact, kinds, item.node));
      (if splice && IsConcat(first) then first.node.args else [first])
      + ExpandItems(exact, kinds, items[1..], splice)
  }

  function Expand(exact: string -> bool, n: Node): Node {
    var commands := ExpandNode(exact, EXECS, n);
    var simple := ExpandNode(exact, SIMPLE, commands);
    ExpandNode(exact, BRACKETED, simple)
  }

  // ----- what a pass leaves of a tree

  /** Items expanded one by one, each under its own key. */
  ghost predicate ExpandedOneByOne(exact: string -> bool, kinds: Kinds, items: seq<Item>, xs: seq<Item>) {
    |xs| == |items| &&
    forall i | 0 <= i < |items| :: xs[i] == Item(items[i].key, ExpandNode(exact, kinds, items[i].node))
  }

  lemma {:induction false} ItemsOneByOne(exact: string -> bool, kinds: Kinds, items: seq<Item>)
    ensures ExpandedOneByOne(exact, kinds, items, ExpandItems(exact, kinds, items, false))
  {
    if items != [] {
      ItemsOneByOne(exact, kinds, items[1..]);
    }
  }

  /** A pass expands every argument, entry and element where it stands, in calls of every name but `concat`. */
  lemma PassIsPointwise(exact: string -> bool, kinds: Kinds, name: string, items: seq<Item>) returns (xs: seq<Item>)
    ensures ExpandedOneByOne(exact, kinds, items, xs)
    ensures name != "concat" ==> ExpandNode(exact, kinds, Call(name, items)) == Call(name, xs)
    ensures ExpandNode(exact, kinds, Object(items)) == Object(xs)
    ensures ExpandNode(exact, kinds, Array(items)) == Array(xs)
    ensures ExpandNode(exact, kinds, ArgList(items)) == ArgList(xs)
  {
    xs := ExpandItems(exact, kinds, items, false);
    ItemsOneByOne(exact, kinds, items);
  }

  /** What an argument of a `concat` leaves there. */
  function Spliced(key: Option<string>, n: Node): seq<Item> {
    if key.None? && n.Call? && n.name == "concat" then n.args else [Item(key, n)]
  }

  lemma {:induction false} SplicedLast(exact: string -> bool, kinds: Kinds, items: seq<Item>, item: Item)
    ensures ExpandItems(exact, kinds, items + [item], true)
      == ExpandItems(exact, kinds, items, true) + Spliced(item.key, ExpandNode(exact, kinds, item.node))
    decreases |items|
  {
    if items == [] {
      assert [item][1..] == [] && [] + [item] == [item];
      assert ExpandItems(exact, kinds, [item], true) == Spliced(item.key, ExpandNode(exact, kinds, item.node)) + [];
    } else {
      var more := items + [item];
      assert more[0] == items[0] && more[1..] == items[1..] + [item];
      SplicedLast(exact, kinds, items[1..], item);
      SplicedFirst(exact, kinds, items);
      SplicedFirst(exact, kinds, more);
    }
  }

  lemma SplicedFirst(exact: string -> bool, kinds: Kinds, items: seq<Item>)
    requires items != []
    ensures ExpandItems(exact, kinds, items, true)
      == Spliced(items[0].key, ExpandNode(exact, kinds, items[0].node)) + ExpandItems(exact, kinds, items[1..], true)
  {
  }

  /** In a `concat` an argument that becomes a `concat` is replaced by its arguments, any other by what it becomes. */
  lemma ConcatIsSpliced(exact: string -> bool, kinds: Kinds, items: seq<Item>, item: Item)
    ensures ExpandNode(exact, kinds, Call("concat", [])) == Call("concat", [])
    ensures var before := ExpandNode(exact, kinds, Call("concat", items));
      var n := ExpandNode(exact, kinds, item.node);
      before.Call? && ExpandNode(exact, kinds, Call("concat", items + [item])) == Call("concat", before.args +
        if item.key.None? && n.Call? && n.name == "concat" then n.args else [Item(item.key, n)])
  {
    SplicedLast(exact, kinds, items, item);
  }

  /** A value that is no string, a single-quoted one and one without a match stay as they are. */
  lemma LeafStays(exact: string -> bool, kinds: Kinds, st: Static)
    requires var v := StaticValue(exact, st);
      !v.Str? || (st.Text? && st.quote == SingleQuote) || Holes(kinds, v.s, 0) == []
    ensures ExpandNode(exact, kinds, Leaf(st)) == Leaf(st)
  {
  }

  // ----- the loops

  /** The command opened at `start` is reported if it closes; otherwise nothing after it is. */
  lemma CommandStep(s: string, start: nat)
    requires OpensExec(s, start)
    ensures var (i, st) := ScanFrom(s, start + 2, COMMAND_START);
      if st.depth == 0 then
        var found := Hole(start, i, Exec(s[start + 2..i - 1]));
        start + 2 < i <= |s| && Holes(EXECS, s, start) == [found] + Holes(EXECS, s, i)
      else
        i == |s| && Holes(EXECS, s, start) == [] == Holes(EXECS, s, i)
  {
    ScanIsFold(s, start + 2, start + 2);
    NothingSought(s, start + 1);
  }

  /** The inner loop: from just behind `$(` to where the parentheses balance, or to the end. */
  method ScanCommand(s: string, cmdStart: nat) returns (i: nat, depth: nat)
    requires cmdStart <= |s|
    ensures i == ScanFrom(s, cmdStart, COMMAND_START).0 && depth == ScanFrom(s, cmdStart, COMMAND_START).1.depth
  {
    i := cmdStart;
    depth := 1;
    var inQuote := Outside;
    var escaped := false;
    while i < |s| && depth > 0
      invariant cmdStart <= i <= |s|
      invariant ScanFrom(s, i, Scan(depth, inQuote, escaped)) == ScanFrom(s, cmdStart, COMMAND_START)
    {
      var c := s[i];
      if escaped {
        escaped := false;
      } else if c == '\\' && inQuote != Inside('\'') {
        escaped := true;
      } else if inQuote.Inside? {
        if c == inQuote.mark { inQuote := Outside; }
      } else if c == '"' || c == '\'' || c == '`' {
        inQuote := Inside(c);
      } else if c == '(' {
        depth := depth + 1;
      } else if c == ')' {
        depth := depth - 1;
      }
      i := i + 1;
    }
  }

  /** With what has been found so far the matches from `i` on make up all of them. */
  ghost predicate FoundBefore(s: string, i: nat, found: seq<Hole>) {
    found + Holes(EXECS, s, i) == Holes(EXECS, s, 0)
  }

  lemma NoCommandStep(s: string, i: nat, found: seq<Hole>)
    requires i < |s| && !OpensExec(s, i) && FoundBefore(s, i, found)
    ensures FoundBefore(s, i + 1, found)
  {
  }

  lemma FoundStep(s: string, start: nat, found: seq<Hole>)
    requires OpensExec(s, start) && FoundBefore(s, start, found)
    ensures var (i, st) := ScanFrom(s, start + 2, COMMAND_START);
      if st.depth == 0 then
        start + 2 < i <= |s| && FoundBefore(s, i, found + [Hole(start, i, Exec(s[start + 2..i - 1]))])
      else
        i == |s| && FoundBefore(s, i, found)
  {
    CommandStep(s, start);
    var (i, st) := ScanFrom(s, start + 2, COMMAND_START);
    if st.depth == 0 {
      Associate(found, [Hole(start, i, Exec(s[start + 2..i - 1]))], Holes(EXECS, s, i));
    }
  }

  /** `findExecExpansions`. */
  method FindExecExpansions(s: string) returns (found: seq<Hole>)
    ensures found == Holes(EXECS, s, 0)
  {
    found := [];
    var i := 0;
    while i < |s|
      invariant i <= |s|
      invariant FoundBefore(s, i, found)
    {
      if s[i] == '$' && i + 1 < |s| && s[i + 1] == '(' && (i == 0 || s[i - 1] != '\\') {
        var start, cmdStart := i, i + 2;
        var depth;
        i, depth := ScanCommand(s, cmdStart);
        FoundStep(s, start, found);
        if depth == 0 {
          found := found + [Hole(start, i, Exec(s[cmdStart..i - 1]))];
        }
      } else {
        NoCommandStep(s, i, found);
        i := i + 1;
      }
    }
  }

  lemma PieceItemsCons(q: Quote, p: Piece, ps: seq<Piece>)
    ensures PieceItems(q, [p] + ps) == [Positional(PieceNode(q, p))] + PieceItems(q, ps)
  {
    assert ([p] + ps)[1..] == ps;
  }

  /** The item of a literal slice, when there is one. */
  function SliceItems(q: Quote, s: string, from: nat, to: nat): seq<Item>
    requires to <= |s|
  {
    if from < to then [Positional(Leaf(Slice(s[from..to], q)))] else []
  }

  lemma SliceThenPieces(q: Quote, s: string, from: nat, to: nat, ps: seq<Piece>)
    requires to <= |s|
    ensures PieceItems(q, (if from < to then [Lit(s[from..to])] else []) + ps)
      == SliceItems(q, s, from, to) + PieceItems(q, ps)
  {
    if from < to {
      PieceItemsCons(q, Lit(s[from..to]), ps);
    } else {
      assert [] + ps == ps;
    }
  }

  /** One step of the loop that builds the parts: the slice before the first hole, then the hole. */
  lemma PartsStep(q: Quote, s: string, last: nat, h: Hole, holes: seq<Hole>)
    requires h.start <= |s|
    ensures PieceItems(q, Parts(s, last, |s|, [h] + holes))
      == SliceItems(q, s, last, h.start)
         + ([Positional(PieceNode(q, h.piece))] + PieceItems(q, Parts(s, h.end, |s|, holes)))
  {
    var rest := Parts(s, h.end, |s|, holes);
    var lit := if last < h.start then [Lit(s[last..h.start])] else [];
    PartsFirst(s, last, |s|, h, holes);
    SliceThenPieces(q, s, last, h.start, [h.piece] + rest);
    PieceItemsCons(q, h.piece, rest);
  }

  /** What the loop has built and what is still to come, before and after one hole. */
  lemma PartsPushed(q: Quote, s: string, last: nat, h: Hole, holes: seq<Hole>, parts: seq<Item>)
    requires h.start <= |s|
    ensures parts + PieceItems(q, Parts(s, last, |s|, [h] + holes))
      == (parts + SliceItems(q, s, last, h.start) + [Positional(PieceNode(q, h.piece))])
         + PieceItems(q, Parts(s, h.end, |s|, holes))
  {
    PartsStep(q, s, last, h, holes);
    var slice, piece := SliceItems(q, s, last, h.start), [Positional(PieceNode(q, h.piece))];
    var rest := PieceItems(q, Parts(s, h.end, |s|, holes));
    Associate(parts + slice, piece, rest);
    Associate(parts, slice, piece + rest);
  }

  /** The parts around the matches, built left to right by the loops of `expandExecs` and `expandRefs`. */
  method BuildParts(s: string, q: Quote, holes: seq<Hole>) returns (parts: seq<Item>)
    requires InOrder(s, 0, holes)
    ensures parts == PieceItems(q, Parts(s, 0, |s|, holes))
  {
    var lastIndex: nat := 0;
    parts := [];
    var k := 0;
    while k < |holes|
      invariant 0 <= k <= |holes| && lastIndex <= |s| && InOrder(s, lastIndex, holes[k..])
      invariant parts + PieceItems(q, Parts(s, lastIndex, |s|, holes[k..])) == PieceItems(q, Parts(s, 0, |s|, holes))
    {
      var hole := holes[k];
      assert holes[k..] == [hole] + holes[k + 1..];
      PartsPushed(q, s, lastIndex, hole, holes[k + 1..], parts);
      ghost var before := parts;
      if lastIndex < hole.start {
        parts := parts + [Positional(Leaf(Slice(s[lastIndex..hole.start], q)))];
      }
      assert parts == before + SliceItems(q, s, lastIndex, hole.start);
      parts := parts + [Positional(PieceNode(q, hole.piece))];
      lastIndex := hole.end;
      k := k + 1;
    }
    if lastIndex < |s| {
      parts := parts + [Positional(Leaf(Slice(s[lastIndex..], q)))];
      assert s[lastIndex..|s|] == s[lastIndex..];
    }
  }

  /** `expandExecs`. */
  method ExpandExecs(exact: string -> bool, st: Static) returns (n: Node)
    ensures n == ExpandStatic(exact, EXECS, st)
  {
    var v := StaticValue(exact, st);
    if !v.Str? { return Leaf(st); }
    var quote := QuoteOf(st);
    if quote == SingleQuote { return Leaf(st); }
    var matches := FindExecExpansions(v.s);
    if |matches| == 0 { return Leaf(st); }
    HolesInOrder(EXECS, v.s, 0);
    var parts := BuildParts(v.s, quote, matches);
    if |parts| == 1 { return parts[0].node; }
    return Call("concat", parts);
  }

  /** `expandRefs`, for the pattern of the given mode; the matches are those of the regular expression. */
  method ExpandRefs(exact: string -> bool, st: Static, mode: Kinds) returns (n: Node)
    requires mode == SIMPLE || mode == BRACKETED
    ensures n == ExpandStatic(exact, mode, st)
  {
    var v := StaticValue(exact, st);
    if !v.Str? { return Leaf(st); }
    var quote := QuoteOf(st);
    if quote == SingleQuote { return Leaf(st); }
    var matches := Holes(mode, v.s, 0);
    if |matches| == 0 { return Leaf(st); }
    HolesInOrder(mode, v.s, 0);
    var parts := BuildParts(v.s, quote, matches);
    if |parts| == 1 { return parts[0].node; }
    return Call("concat", parts);
  }
}
