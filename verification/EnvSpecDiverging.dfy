/**
 * Where two passes and one reading part: at the first place where the text of one goes on with literal
 * text and the other has a command or reference.
 */
module EnvSpecDiverging {
  import opened Outcomes
  import opened Sequences
  import opened Strings
  import opened EnvSpecNodes
  import opened EnvSpecHoles
  import opened EnvSpecSplitting

  // ----- the text of pieces, with every expansion marked

  /** What a literal slice contributes to the text. */
  function SliceText(q: Quote, t: string): string {
    if q == NoQuote && t == "undefined" then "" else Unescape(q, t)
  }

  /** The text of the pieces when every name is worth `#` and every command echoes its own text between two `#`. */
  function Shown(q: Quote, execs: bool, ps: seq<Piece>): string
    decreases if execs then 1 else 0, 1, |ps|
  {
    if ps == [] then "" else ShownPiece(q, execs, ps[0]) + Shown(q, execs, ps[1..])
  }

  function ShownPiece(q: Quote, execs: bool, p: Piece): string
    decreases if execs then 1 else 0, 0, 0
  {
    match p
    case Lit(t) => SliceText(q, t)
    case Exec(c) => "#" + ((if execs then Shown(q, false, Split(REFS, c)) else "") + "#")
    case _ => "#"
  }

  lemma ShownCons(q: Quote, execs: bool, p: Piece, ps: seq<Piece>)
    ensures Shown(q, execs, [p] + ps) == ShownPiece(q, execs, p) + Shown(q, execs, ps)
  {
    assert ([p] + ps)[1..] == ps;
  }

  lemma {:induction false} ShownAppend(q: Quote, execs: bool, xs: seq<Piece>, ys: seq<Piece>)
    ensures Shown(q, execs, xs + ys) == Shown(q, execs, xs) + Shown(q, execs, ys)
  {
    if xs == [] {
      assert xs + ys == ys;
    } else {
      assert xs + ys == [xs[0]] + (xs[1..] + ys);
      ShownCons(q, execs, xs[0], xs[1..] + ys);
      ShownAppend(q, execs, xs[1..], ys);
      Associate(ShownPiece(q, execs, xs[0]), Shown(q, execs, xs[1..]), Shown(q, execs, ys));
    }
  }

  lemma MarkedPiece(q: Quote, execs: bool, p: Piece)
    requires !p.Lit?
    ensures ShownPiece(q, execs, p) != "" && ShownPiece(q, execs, p)[0] == '#'
  {
  }

  // ----- one text is cut where the other has a mark

  /** After a common beginning `y` has a mark and `x` goes on with something else. */
  ghost predicate Cut(x: string, y: string) {
    exists k :: 0 <= k < |x| && k < |y| && x[..k] == y[..k] && x[k] != '#' && y[k] == '#'
  }

  lemma CutAt(head: string, x: string, y: string)
    requires x != "" && x[0] != '#' && y != "" && y[0] == '#'
    ensures Cut(head + x, head + y)
  {
    var k := |head|;
    assert (head + x)[..k] == (head + y)[..k] && (head + x)[k] != '#' && (head + y)[k] == '#';
  }

  lemma CutBehind(head: string, x: string, y: string)
    requires Cut(x, y)
    ensures Cut(head + x, head + y)
  {
    var k :| 0 <= k < |x| && k < |y| && x[..k] == y[..k] && x[k] != '#' && y[k] == '#';
    var n := |head| + k;
    assert (head + x)[..n] == head + x[..k] && (head + y)[..n] == head + y[..k];
    assert (head + x)[n] != '#' && (head + y)[n] == '#';
  }

  lemma CutBefore(x: string, y: string, a: string, b: string)
    requires Cut(x, y)
    ensures Cut(x + a, y + b)
  {
    var k :| 0 <= k < |x| && k < |y| && x[..k] == y[..k] && x[k] != '#' && y[k] == '#';
    assert (x + a)[..k] == x[..k] && (y + b)[..k] == y[..k] && (x + a)[k] != '#' && (y + b)[k] == '#';
  }

  lemma CutThrough(x: string, y: string, z: string)
    requires Cut(x, y) && Cut(y, z)
    ensures Cut(x, z)
  {
    var k :| 0 <= k < |x| && k < |y| && x[..k] == y[..k] && x[k] != '#' && y[k] == '#';
    var n :| 0 <= n < |y| && n < |z| && y[..n] == z[..n] && y[n] != '#' && z[n] == '#';
    var m := if k < n then k else n;
    assert x[..m] == y[..m] by { Earlier(x, y, k, m); }
    assert y[..m] == z[..m] by { Earlier(y, z, n, m); }
    assert k < n ==> y[k] == y[..n][k] && z[k] == z[..n][k];
    assert n < k ==> y[n] == y[..k][n] && x[n] == x[..k][n];
  }

  lemma Earlier(x: string, y: string, k: nat, m: nat)
    requires m <= k <= |x| && k <= |y| && x[..k] == y[..k]
    ensures x[..m] == y[..m]
  {
    assert x[..m] == x[..k][..m] && y[..m] == y[..k][..m];
  }

  /** The text of the pieces `xs` is cut where that of `ys` has an expansion. */
  ghost predicate Falls(q: Quote, execs: bool, xs: seq<Piece>, ys: seq<Piece>) {
    Cut(Shown(q, execs, xs), Shown(q, execs, ys))
  }

  lemma FallsBehind(q: Quote, execs: bool, head: seq<Piece>, xs: seq<Piece>, ys: seq<Piece>)
    requires Falls(q, execs, xs, ys)
    ensures Falls(q, execs, head + xs, head + ys)
  {
    ShownAppend(q, execs, head, xs);
    ShownAppend(q, execs, head, ys);
    CutBehind(Shown(q, execs, head), Shown(q, execs, xs), Shown(q, execs, ys));
  }

  lemma FallsApart(q: Quote, execs: bool, xs: seq<Piece>, ys: seq<Piece>)
    requires Falls(q, execs, xs, ys)
    ensures Shown(q, execs, xs) != Shown(q, execs, ys) && xs != ys
  {
  }

  // ----- a literal that goes on where the reading has an expansion

  lemma {:induction false} DollarStays(t: string, d: char, r: char)
    requires t != "" && t[0] == '$'
    ensures ReplaceAll(t, ['\\', d], [r]) != "" && ReplaceAll(t, ['\\', d], [r])[0] == '$'
  {
    if |t| >= 2 {
      PairPrefix(t, '\\', d);
    }
  }

  lemma UnescapedDollar(q: Quote, t: string)
    requires t != "" && t[0] == '$'
    ensures Unescape(q, t) != "" && Unescape(q, t)[0] == '$'
  {
    DollarStays(t, '$', '$');
    DollarStays(if q != SingleQuote then ReplaceAll(t, "\\$", "$") else t, 'n', '\n');
  }

  /** The slice that ends in front of a `$`, and the one that goes on behind it. */
  lemma SliceGoesOn(q: Quote, a: string, b: string, y: string)
    requires !EndsInBackslash(a) && b != "" && b[0] == '$' && y != "" && y[0] == '#'
    ensures Cut(SliceText(q, a + b), SliceText(q, a) + y)
  {
    assert (a + b)[|a|] == '$' && forall i | 0 <= i < |"undefined"| :: "undefined"[i] != '$';
    UnescapeSplits(q, a, b);
    UnescapedDollar(q, b);
    CutAt(Unescape(q, a), Unescape(q, b), y);
    if q == NoQuote && a == "undefined" {
      UndefinedStays(q);
      CutAt("", Unescape(q, a) + Unescape(q, b), y);
    }
  }

  lemma UndefinedStays(q: Quote)
    requires q == NoQuote
    ensures Unescape(q, "undefined") == "undefined"
  {
    ReplacePairFixed("undefined", '\\', '$');
  }

  /** The same with other pieces behind both. */
  lemma TextGoesOn(q: Quote, execs: bool, a: string, b: string, p: Piece, xs: seq<Piece>, ys: seq<Piece>)
    requires !EndsInBackslash(a) && b != "" && b[0] == '$' && !p.Lit?
    ensures Cut(Shown(q, execs, [Lit(a + b)] + xs), SliceText(q, a) + Shown(q, execs, [p] + ys))
  {
    var y := ShownPiece(q, execs, p);
    MarkedPiece(q, execs, p);
    SliceGoesOn(q, a, b, y);
    CutBefore(SliceText(q, a + b), SliceText(q, a) + y, Shown(q, execs, xs), Shown(q, execs, ys));
    ShownCons(q, execs, Lit(a + b), xs);
    ShownCons(q, execs, p, ys);
    Associate(SliceText(q, a), y, Shown(q, execs, ys));
  }

  lemma SliceInFront(q: Quote, execs: bool, a: string, ps: seq<Piece>)
    ensures Shown(q, execs, (if a != "" then [Lit(a)] else []) + ps) == SliceText(q, a) + Shown(q, execs, ps)
  {
    if a != "" {
      ShownCons(q, execs, Lit(a), ps);
    } else {
      NothingShown(q);
      assert [] + ps == ps;
    }
  }

  lemma CutSlice(s: string, last: nat, j: nat, e: nat)
    requires last <= j < e <= |s| && Dollar(s, j)
    ensures s[last..e] == s[last..j] + s[j..e] && !EndsInBackslash(s[last..j]) && s[j..e][0] == '$'
    ensures s[last..j] == "" <==> last == j
  {
  }

  lemma LiteralGoesOn(q: Quote, execs: bool, s: string, last: nat, j: nat, e: nat, p: Piece,
                      xs: seq<Piece>, ys: seq<Piece>)
    requires last <= j < e <= |s| && Dollar(s, j) && !p.Lit?
    ensures Falls(q, execs, [Lit(s[last..e])] + xs, (if last < j then [Lit(s[last..j])] else []) + ([p] + ys))
  {
    CutSlice(s, last, j, e);
    TextGoesOn(q, execs, s[last..j], s[j..e], p, xs, ys);
    SliceInFront(q, execs, s[last..j], [p] + ys);
  }

  lemma NothingShown(q: Quote)
    ensures SliceText(q, "") == ""
  {
  }

  /** Pieces that begin with a literal past the `$`, against those with a piece there. */
  lemma PiecesGoOn(q: Quote, execs: bool, s: string, last: nat, j: nat, e: nat, p: Piece, left: seq<Piece>,
                   xs: seq<Piece>, ys: seq<Piece>)
    requires last <= j < e <= |s| && Dollar(s, j) && !p.Lit? && left != [] && left[0] == Lit(s[last..e])
    ensures Falls(q, execs, left + xs, (if last < j then [Lit(s[last..j])] else []) + ([p] + ys))
  {
    assert left + xs == [left[0]] + (left[1..] + xs);
    LiteralGoesOn(q, execs, s, last, j, e, p, left[1..] + xs, ys);
  }

  // ----- the literal around holes

  lemma PartsHead(s: string, last: nat, end: nat, hs: seq<Hole>)
    requires last < end <= |s| && InOrder(s, last, hs) && (forall h | h in hs :: last < h.start <= end)
    ensures var ps := Parts(s, last, end, hs);
      ps != [] && ps[0] == Lit(s[last..if hs == [] then end else hs[0].start])
  {
    if hs != [] {
      assert hs[0] in hs;
    }
  }

  lemma HolesBefore(kinds: Kinds, s: string, j: nat)
    ensures forall h | h in Holes(kinds, s, j) :: j <= h.start < |s|
  {
    HolesInOrder(kinds, s, j);
    forall h | h in Holes(kinds, s, j) ensures j <= h.start < |s| {
      assert HoleAt(kinds, s, h.start) == Some(h);
    }
  }

  lemma CutIsNotFound(k2: Kinds, s: string, j: nat, b: nat, h: Hole)
    requires !k2.exec && j < b < |s| && s[b] == '$' && HoleAt(k2, s, j) == Some(h) && h.end > b
    ensures Holes(k2, s[..b], j) == Holes(k2, s[..b], j + 1)
  {
    HoleAtWindow(k2, s, b, j);
    ReadOneAlone(k2, s[..b], j);
  }

  lemma WidenOrder(u: string, s: string, last: nat, i: nat, hs: seq<Hole>)
    requires InOrder(u, i, hs) && last <= i && |u| <= |s|
    ensures InOrder(s, last, hs)
    decreases |hs|
  {
    if hs != [] {
      WidenOrder(u, s, hs[0].end, hs[0].end, hs[1..]);
    }
  }

  /** Around holes from `i` on the first piece is a literal that reaches up to `i` at least. */
  lemma LateStart(k2: Kinds, s: string, last: nat, i: nat, b: nat) returns (e: nat)
    requires last < i <= b <= |s|
    ensures var left := Parts(s, last, b, Holes(k2, s[..b], i));
      i <= e <= b && left != [] && left[0] == Lit(s[last..e])
  {
    var hs := Holes(k2, s[..b], i);
    HolesInOrder(k2, s[..b], i);
    HolesBefore(k2, s[..b], i);
    WidenOrder(s[..b], s, last, i, hs);
    PartsHead(s, last, b, hs);
    e := if hs == [] then b else hs[0].start;
  }

  /** A reference that was cut at `b` is part of the literal that starts at `last`. */
  lemma CutReferenceFalls(q: Quote, execs: bool, k2: Kinds, both: Kinds, s: string, last: nat, j: nat, b: nat,
                          h: Hole, xs: seq<Piece>)
    requires !k2.exec && last <= j < b < |s| && s[b] == '$'
    requires HoleAt(k2, s, j) == Some(h) == HoleAt(both, s, j) && h.end > b
    ensures Falls(q, execs, Parts(s, last, b, Holes(k2, s[..b], j)) + xs, Parts(s, last, |s|, Holes(both, s, j)))
  {
    CutIsNotFound(k2, s, j, b, h);
    var e := LateStart(k2, s, last, j + 1, b);
    PartsFirst(s, last, |s|, h, Holes(both, s, h.end));
    PiecesGoOn(q, execs, s, last, j, e, h.piece, Parts(s, last, b, Holes(k2, s[..b], j)), xs,
               Parts(s, h.end, |s|, Holes(both, s, h.end)));
  }

  // ----- the two passes against one reading

  /** The pieces of the two passes from `j` on, when the open literal starts at `last` and `g` comes first. */
  function TwoPasses(k1: Kinds, k2: Kinds, s: string, last: nat, j: nat, g: Hole): seq<Piece>
    requires g.start <= |s|
  {
    Parts(s, last, g.start, Holes(k2, s[..g.start], j))
    + ([g.piece] + Refine(k2, Parts(s, g.end, |s|, Holes(k1, s, g.end))))
  }

  lemma TwoPassesFirst(k1: Kinds, k2: Kinds, s: string, last: nat, j: nat, h: Hole, g: Hole)
    requires h.start <= g.start <= |s|
    requires Holes(k2, s[..g.start], j) == [h] + Holes(k2, s[..g.start], h.end)
    ensures TwoPasses(k1, k2, s, last, j, g)
      == (if last < h.start then [Lit(s[last..h.start])] else []) + ([h.piece] + TwoPasses(k1, k2, s, h.end, h.end, g))
  {
    var inner := Holes(k2, s[..g.start], h.end);
    PartsFirst(s, last, g.start, h, inner);
    var after := [g.piece] + Refine(k2, Parts(s, g.end, |s|, Holes(k1, s, g.end)));
    var tail := Parts(s, h.end, g.start, inner);
    Associate(if last < h.start then [Lit(s[last..h.start])] else [], [h.piece] + tail, after);
    Associate([h.piece], tail, after);
  }

  lemma {:induction false} Diverges(q: Quote, execs: bool, k1: Kinds, k2: Kinds, s: string, last: nat, j: nat, g: Hole)
    requires Successive(k1, k2) && last <= j <= |s| && !Uncut(k1, k2, s, j)
    requires Holes(k1, s, j) != [] && Holes(k1, s, j)[0] == g && g.start <= |s|
    ensures Falls(q, execs, TwoPasses(k1, k2, s, last, j, g), Parts(s, last, |s|, Holes(Both(k1, k2), s, j)))
    decreases |s| - j, 2
  {
    ReachFirst(k1, s, j);
    if j == g.start {
      DivergesAfter(q, execs, k1, k2, s, last, j, g);
    } else if After(k2, s, j) > g.start {
      DivergesInside(q, execs, k1, k2, s, last, j, g);
    } else {
      DivergesLater(q, execs, k1, k2, s, last, j, g);
    }
  }

  /** Both go on behind what the second pass finds at `j`. */
  lemma {:induction false} DivergesLater(q: Quote, execs: bool, k1: Kinds, k2: Kinds, s: string, last: nat, j: nat,
                                         g: Hole)
    requires Successive(k1, k2) && last <= j < g.start < |s| && !Uncut(k1, k2, s, j)
    requires Holes(k1, s, j) != [] && Holes(k1, s, j)[0] == g && After(k2, s, j) <= g.start
    ensures Falls(q, execs, TwoPasses(k1, k2, s, last, j, g), Parts(s, last, |s|, Holes(Both(k1, k2), s, j)))
    decreases |s| - j, 1
  {
    GapStep(k1, k2, s, j, g);
    match HoleAt(k2, s, j)
    case Some(h) => DivergesPast(q, execs, k1, k2, s, last, j, h, g);
    case None => Diverges(q, execs, k1, k2, s, last, j + 1, g);
  }

  /** The first hole of the first pass lies inside a reference of the second. */
  lemma DivergesInside(q: Quote, execs: bool, k1: Kinds, k2: Kinds, s: string, last: nat, j: nat, g: Hole)
    requires Successive(k1, k2) && last <= j < g.start < |s| && s[g.start] == '$'
    requires Quiet(k1, s, j, g.start) && After(k2, s, j) > g.start
    ensures Falls(q, execs, TwoPasses(k1, k2, s, last, j, g), Parts(s, last, |s|, Holes(Both(k1, k2), s, j)))
  {
    assert !Active(k1, s, j);
    SoughtBySecond(k1, k2, s, j);
    var after := Refine(k2, Parts(s, g.end, |s|, Holes(k1, s, g.end)));
    CutReferenceFalls(q, execs, k2, Both(k1, k2), s, last, j, g.start, HoleAt(k2, s, j).value, [g.piece] + after);
  }

  /** A hole of the second pass that ends in time is the same piece for both readings. */
  lemma {:induction false} DivergesPast(q: Quote, execs: bool, k1: Kinds, k2: Kinds, s: string, last: nat, j: nat,
                                        h: Hole, g: Hole)
    requires Successive(k1, k2) && last <= j < g.start <= |s| && HoleAt(k2, s, j) == Some(h) && h.end <= g.start
    requires !Uncut(k1, k2, s, h.end) && Holes(k1, s, h.end) != [] && Holes(k1, s, h.end)[0] == g
    requires Holes(Both(k1, k2), s, j) == [h] + Holes(Both(k1, k2), s, h.end)
    requires Holes(k2, s[..g.start], j) == [h] + Holes(k2, s[..g.start], h.end)
    ensures Falls(q, execs, TwoPasses(k1, k2, s, last, j, g), Parts(s, last, |s|, Holes(Both(k1, k2), s, j)))
    decreases |s| - j, 0
  {
    Diverges(q, execs, k1, k2, s, h.end, h.end, g);
    TwoPassesFirst(k1, k2, s, last, j, h, g);
    PartsFirst(s, last, |s|, h, Holes(Both(k1, k2), s, h.end));
    var two, one := TwoPasses(k1, k2, s, h.end, h.end, g), Parts(s, h.end, |s|, Holes(Both(k1, k2), s, h.end));
    FallsBehind(q, execs, [h.piece], two, one);
    FallsBehind(q, execs, if last < j then [Lit(s[last..j])] else [], [h.piece] + two, [h.piece] + one);
  }

  lemma {:induction false} DivergesAfter(q: Quote, execs: bool, k1: Kinds, k2: Kinds, s: string, last: nat, j: nat,
                                         g: Hole)
    requires Successive(k1, k2) && last <= j < |s| && !Uncut(k1, k2, s, j) && HoleAt(k1, s, j) == Some(g)
    ensures Falls(q, execs, TwoPasses(k1, k2, s, last, j, g), Parts(s, last, |s|, Holes(Both(k1, k2), s, j)))
    decreases |s| - j, 0
  {
    ReadHole(k1, k2, s, j, g);
    var rest := Holes(Both(k1, k2), s, g.end);
    DivergesFrom(q, execs, k1, k2, s, g.end);
    assert [] + ([g] + rest) == Holes(Both(k1, k2), s, j);
    PartsAppend(s, last, |s|, [], g, rest);
    assert Holes(k2, s[..j], j) == [];
    var two, one := Refine(k2, Parts(s, g.end, |s|, Holes(k1, s, g.end))), Parts(s, g.end, |s|, rest);
    FallsBehind(q, execs, [g.piece], two, one);
    FallsBehind(q, execs, Parts(s, last, j, []), [g.piece] + two, [g.piece] + one);
  }

  lemma {:induction false} DivergesFrom(q: Quote, execs: bool, k1: Kinds, k2: Kinds, s: string, i: nat)
    requires Successive(k1, k2) && i <= |s| && !Uncut(k1, k2, s, i) && (i == 0 || s[i - 1] != '\\')
    ensures Falls(q, execs, Refine(k2, Parts(s, i, |s|, Holes(k1, s, i))), Parts(s, i, |s|, Holes(Both(k1, k2), s, i)))
    decreases |s| - i, 3
  {
    if Holes(k1, s, i) == [] {
      if k1 == SIMPLE {
        NoSimpleIsUncut(s, i);
      } else {
        HiddenFalls(q, execs, s, i, i);
        RefineSlice(k2, s, i, |s|);
        SplitSlice(k2, s, i, |s|);
        assert s[..|s|] == s;
      }
    } else {
      var g := Holes(k1, s, i)[0];
      ReachFirst(k1, s, i);
      Diverges(q, execs, k1, k2, s, i, i, g);
      SkipQuiet(k1, s, i, g.start);
      ReadHole(k1, k2, s, g.start, g);
      PartsFirst(s, i, |s|, g, Holes(k1, s, g.end));
      RefineFirst(k2, s, i, g, Parts(s, g.end, |s|, Holes(k1, s, g.end)));
    }
  }

  lemma {:induction false} NothingSimple(s: string, i: nat)
    requires Holes(SIMPLE, s, i) == []
    ensures Quiet(SIMPLE, s, i, |s|)
    decreases |s| - i
  {
    if i < |s| {
      assert HoleAt(SIMPLE, s, i).None?;
      assert SIMPLE.(exec := false) == SIMPLE;
      NothingSimple(s, i + 1);
      assert !Active(SIMPLE, s, i);
    }
  }

  lemma {:induction false} NoneOfFirst(k1: Kinds, s: string, hs: seq<Hole>)
    requires forall h | h in hs :: HoleAt(k1, s, h.start).None?
    ensures OfFirst(k1, s, hs) == []
  {
    if hs != [] {
      NoneOfFirst(k1, s, hs[1..]);
    }
  }

  /** A simple reference is never hidden: where the simple pass finds nothing there is none. */
  lemma NoSimpleIsUncut(s: string, i: nat)
    requires Holes(SIMPLE, s, i) == []
    ensures Uncut(SIMPLE, BRACKETED, s, i)
  {
    NothingSimple(s, i);
    HolesBefore(REFS, s, i);
    forall h | h in Holes(REFS, s, i) ensures HoleAt(SIMPLE, s, h.start).None? {
      assert !Active(SIMPLE, s, h.start);
    }
    NoneOfFirst(SIMPLE, s, Holes(REFS, s, i));
  }

  lemma NoCommandHoles(s: string, i: nat)
    ensures OfFirst(EXECS, s, Holes(REFS, s, i)) == []
  {
    HolesInOrder(REFS, s, i);
    forall h | h in Holes(REFS, s, i) ensures HoleAt(EXECS, s, h.start).None? {
      assert HoleAt(REFS, s, h.start) == Some(h);
    }
    NoneOfFirst(EXECS, s, Holes(REFS, s, i));
  }

  lemma ReferenceIsElsewhere(s: string, i: nat)
    requires HoleAt(EXECS, s, i).Some?
    ensures HoleAt(REFS, s, i).None? && Dollar(s, i)
  {
  }

  /** A command that only the one reading makes is literal text to the reference passes. */
  lemma {:induction false} HiddenFalls(q: Quote, execs: bool, s: string, last: nat, i: nat)
    requires last <= i <= |s| && OfFirst(EXECS, s, Holes(ALL, s, i)) != []
    ensures Falls(q, execs, Parts(s, last, |s|, Holes(REFS, s, i)), Parts(s, last, |s|, Holes(ALL, s, i)))
    decreases |s| - i
  {
    if i < |s| {
      if HoleAt(EXECS, s, i).Some? {
        CommandFalls(q, execs, s, last, i, HoleAt(EXECS, s, i).value);
      } else if OpensExec(s, i) {
        UnclosedStep(EXECS, REFS, s, i);
        NoCommandHoles(s, i);
      } else {
        SecondStep(EXECS, REFS, s, i);
        ReadOneAlone(REFS, s, i);
        match HoleAt(REFS, s, i)
        case None => HiddenFalls(q, execs, s, last, i + 1);
        case Some(h) => HiddenPast(q, execs, s, last, i, h);
      }
    }
  }

  lemma {:induction false} HiddenPast(q: Quote, execs: bool, s: string, last: nat, i: nat, h: Hole)
    requires last <= i < h.end <= |s| && h.start == i && OfFirst(EXECS, s, Holes(ALL, s, h.end)) != []
    requires Holes(ALL, s, i) == [h] + Holes(ALL, s, h.end) && Holes(REFS, s, i) == [h] + Holes(REFS, s, h.end)
    ensures Falls(q, execs, Parts(s, last, |s|, Holes(REFS, s, i)), Parts(s, last, |s|, Holes(ALL, s, i)))
    decreases |s| - i, 0
  {
    HiddenFalls(q, execs, s, h.end, h.end);
    var two, one := Parts(s, h.end, |s|, Holes(REFS, s, h.end)), Parts(s, h.end, |s|, Holes(ALL, s, h.end));
    PartsFirst(s, last, |s|, h, Holes(REFS, s, h.end));
    PartsFirst(s, last, |s|, h, Holes(ALL, s, h.end));
    FallsBehind(q, execs, [h.piece], two, one);
    FallsBehind(q, execs, if last < i then [Lit(s[last..i])] else [], [h.piece] + two, [h.piece] + one);
  }

  lemma CommandFalls(q: Quote, execs: bool, s: string, last: nat, i: nat, g: Hole)
    requires last <= i < |s| && HoleAt(EXECS, s, i) == Some(g)
    ensures Falls(q, execs, Parts(s, last, |s|, Holes(REFS, s, i)), Parts(s, last, |s|, Holes(ALL, s, i)))
  {
    ReadHole(EXECS, REFS, s, i, g);
    ReferenceIsElsewhere(s, i);
    ReadOneAlone(REFS, s, i);
    assert s[..|s|] == s;
    var e := LateStart(REFS, s, last, i + 1, |s|);
    var left := Parts(s, last, |s|, Holes(REFS, s, i));
    PartsFirst(s, last, |s|, g, Holes(ALL, s, g.end));
    PiecesGoOn(q, execs, s, last, i, e, g.piece, left, [], Parts(s, g.end, |s|, Holes(ALL, s, g.end)));
    assert left + [] == left;
  }

  /** On every string that the first pass cuts into, the texts of two passes and one reading part. */
  lemma CutShows(q: Quote, execs: bool, k1: Kinds, k2: Kinds, s: string)
    requires Successive(k1, k2) && !Uncut(k1, k2, s, 0)
    ensures Falls(q, execs, Refine(k2, Split(k1, s)), Split(Both(k1, k2), s))
  {
    DivergesFrom(q, execs, k1, k2, s, 0);
  }

  /**
   * Two successive passes cut a string into the pieces of one left-to-right reading exactly when the
   * first makes the very holes of its kind that the one reading makes. Both pairs of passes are covered:
   * commands before references, and simple references before bracketed ones.
   */
  lemma PassesAgree(k1: Kinds, k2: Kinds, s: string)
    requires Successive(k1, k2)
    ensures Refine(k2, Split(k1, s)) == Split(Both(k1, k2), s) <==> Uncut(k1, k2, s, 0)
  {
    if Uncut(k1, k2, s, 0) {
      MergeFrom(k1, k2, s, 0);
    } else {
      CutShows(NoQuote, false, k1, k2, s);
      FallsApart(NoQuote, false, Refine(k2, Split(k1, s)), Split(Both(k1, k2), s));
    }
  }
}
