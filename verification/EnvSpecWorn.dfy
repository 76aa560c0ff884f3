/**
 * Quoted strings that hold a backslash and quote pair: every pass that cuts one unescapes the pairs in its
 * slices once more, and the compiled string falls short of plain substitution.
 */
module EnvSpecWorn {
  import opened Outcomes
  import opened Sequences
  import opened Strings
  import opened EnvSpecNodes
  import opened EnvSpecHoles
  import opened EnvSpecSplitting
  import opened EnvSpecDiverging
  import opened EnvSpecExpand
  import opened EnvSpecStrings
  import opened EnvSpecResolve
  import opened EnvSpecMeaning
  import opened EnvSpecReading
  import opened EnvSpecRewrap
  import opened EnvSpecPlain
  import opened EnvSpecTrees
  import opened EnvSpecExact

  // ----- pieces that have been rewrapped

  /** What is left of a text when one or both reference passes have cut it. */
  ghost predicate Worn(q: Quote, x: string, t: string)
    requires IsQuoted(q)
  {
    x == Rewrapped(q, t) || x == Rewrapped(q, Rewrapped(q, t))
  }

  ghost predicate WornPiece(q: Quote, x: Piece, p: Piece)
    requires IsQuoted(q)
  {
    match p
    case Lit(t) => x.Lit? && Worn(q, x.text, t)
    case RefOr(name, d) => x.RefOr? && x.name == name && Worn(q, x.dflt, d)
    case _ => x == p
  }

  ghost predicate WornPieces(q: Quote, xs: seq<Piece>, ps: seq<Piece>)
    requires IsQuoted(q)
  {
    |xs| == |ps| && forall i | 0 <= i < |xs| :: WornPiece(q, xs[i], ps[i])
  }

  lemma WornShortens(q: Quote, x: string, t: string)
    requires IsQuoted(q) && Worn(q, x, t)
    ensures |Unescape(q, x)| <= |Unescape(q, t)|
    ensures if HasPair(t, '\\', Mark(q)[0]) then |Unescape(q, x)| < |Unescape(q, t)| else x == t
  {
    RewrappedShortens(q, t);
    RewrappedShortens(q, Rewrapped(q, t));
    ReplacePairFixed(t, '\\', Mark(q)[0]);
  }

  lemma WornPieceShortens(w: World, q: Quote, x: Piece, p: Piece)
    requires IsQuoted(q) && WornPiece(q, x, p) && !p.Exec?
    ensures PlainPiece(w, false, q, x).Ok? && PlainPiece(w, false, q, p).Ok?
    ensures if HoldsPair(w, q, p) then |PlainPiece(w, false, q, x).value| < |PlainPiece(w, false, q, p).value|
      else PlainPiece(w, false, q, x) == PlainPiece(w, false, q, p)
  {
    match p
    case Lit(t) => WornShortens(q, x.text, t);
    case RefOr(_, d) => WornShortens(q, x.dflt, d);
    case _ =>
  }

  /** Worn pieces fall short of the text of the others exactly when a used one of these holds a pair. */
  lemma {:induction false} WornFallShort(w: World, q: Quote, xs: seq<Piece>, ps: seq<Piece>)
    requires IsQuoted(q) && WornPieces(q, xs, ps) && forall p | p in ps :: !p.Exec?
    ensures PlainText(w, false, q, xs).Ok? && PlainText(w, false, q, ps).Ok?
    ensures |PlainText(w, false, q, xs).value| <= |PlainText(w, false, q, ps).value|
    ensures PlainText(w, false, q, xs) == PlainText(w, false, q, ps) <==> forall p | p in ps :: !HoldsPair(w, q, p)
  {
    if ps != [] {
      assert ps == [ps[0]] + ps[1..] && WornPiece(q, xs[0], ps[0]);
      WornPieceShortens(w, q, xs[0], ps[0]);
      WornFallShort(w, q, xs[1..], ps[1..]);
      var head := PlainPiece(w, false, q, ps[0]).value;
      var worn, plain := PlainText(w, false, q, xs[1..]).value, PlainText(w, false, q, ps[1..]).value;
      if HoldsPair(w, q, ps[0]) {
        assert |PlainText(w, false, q, xs).value| < |head + plain|;
      } else {
        SameHead(head, worn, plain);
      }
    }
  }

  lemma {:induction false} RewrappedAt(q: Quote, ps: seq<Piece>)
    requires IsQuoted(q)
    ensures |RewrappedPieces(q, ps)| == |ps|
    ensures forall i | 0 <= i < |ps| :: RewrappedPieces(q, ps)[i] == RewrappedPiece(q, ps[i])
  {
    if ps != [] {
      RewrappedAt(q, ps[1..]);
    }
  }

  lemma RewrappedAreWorn(q: Quote, ps: seq<Piece>)
    requires IsQuoted(q)
    ensures WornPieces(q, RewrappedPieces(q, ps), ps)
    ensures WornPieces(q, RewrappedPieces(q, RewrappedPieces(q, ps)), ps)
  {
    RewrappedAt(q, ps);
    RewrappedAt(q, RewrappedPieces(q, ps));
  }

  lemma WornAppend(q: Quote, xs: seq<Piece>, ps: seq<Piece>, ys: seq<Piece>, rs: seq<Piece>)
    requires IsQuoted(q) && WornPieces(q, xs, ps) && WornPieces(q, ys, rs)
    ensures WornPieces(q, xs + ys, ps + rs)
  {
  }

  lemma {:induction false} PlainTextAppend(w: World, q: Quote, xs: seq<Piece>, ys: seq<Piece>)
    ensures PlainText(w, false, q, xs + ys) == Chain(PlainText(w, false, q, xs), PlainText(w, false, q, ys))
  {
    if xs == [] {
      assert xs + ys == ys;
      ChainAssociates(PlainText(w, false, q, ys), Ok(""), Ok(""));
    } else {
      assert (xs + ys)[1..] == xs[1..] + ys;
      PlainTextAppend(w, q, xs[1..], ys);
      ChainAssociates(PlainPiece(w, false, q, xs[0]), PlainText(w, false, q, xs[1..]), PlainText(w, false, q, ys));
    }
  }

  // ----- the two reference passes on a quoted string

  /** The last pass rewraps the pieces that it makes. */
  lemma {:induction false} LastPassWears(w: World, q: Quote, ps: seq<Piece>)
    requires IsQuoted(q) && forall p | p in ps :: !p.Exec?
    ensures PiecesText(w, 2, q, ps) == PlainText(w, false, q, RewrappedPieces(q, ps))
  {
    if ps != [] {
      assert ps[0] in ps;
      LastPiece(w, q, ps[0]);
      LastPassWears(w, q, ps[1..]);
    }
  }

  lemma LastLiteral(w: World, q: Quote, t: string)
    requires IsQuoted(q)
    ensures ValueMeaning(w, 3, q, SliceValue(w, q, t)) == Ok(Str(Unescape(q, Rewrapped(q, t))))
  {
    SliceIsRewrapped(w, q, t);
  }

  lemma DefaultText(x: string)
    ensures InText(Ok(if Filled(Str(x)) then Str(x) else Undefined)) == Ok(x)
  {
  }

  lemma LastDefault(w: World, q: Quote, name: string, d: string)
    requires IsQuoted(q) && !Filled(w.Lookup(name))
    ensures InText(PieceMeaning(w, 2, q, RefOr(name, d))) == Ok(Unescape(q, Rewrapped(q, d)))
  {
    var x := Unescape(q, Rewrapped(q, d));
    LastLiteral(w, q, d);
    assert PieceMeaning(w, 2, q, RefOr(name, d)) == Ok(if Filled(Str(x)) then Str(x) else Undefined);
    DefaultText(x);
  }

  lemma LastPiece(w: World, q: Quote, p: Piece)
    requires IsQuoted(q) && !p.Exec?
    ensures InText(PieceMeaning(w, 2, q, p)) == PlainPiece(w, false, q, RewrappedPiece(q, p))
  {
    if p.Lit? {
      LastLiteral(w, q, p.text);
    } else if p.RefOr? && !Filled(w.Lookup(p.name)) {
      LastDefault(w, q, p.name, p.dflt);
    }
  }

  lemma OneLiteralText(w: World, q: Quote, t: string)
    ensures PlainText(w, false, q, [Lit(t)]) == Ok(Unescape(q, t))
  {
    assert [Lit(t)][1..] == [];
    ChainAssociates(Ok(Unescape(q, t)), Ok(""), Ok(""));
  }

  lemma QuietSlice(w: World, q: Quote, t: string)
    requires IsQuoted(q) && t != "" && Holes(BRACKETED, Rewrapped(q, t), 0) == []
    ensures InText(PieceMeaning(w, 1, q, Lit(t))) == PlainText(w, false, q, RewrappedPieces(q, Split(BRACKETED, t)))
  {
    var r := Rewrapped(q, t);
    SliceIsRewrapped(w, q, t);
    FirstStays(q, t, '}');
    SplitRewrapped(q, t);
    UntouchedSplit(BRACKETED, r);
    OneLiteralText(w, q, r);
    assert StringMeaning(w, 3, q, r) == Ok(Str(Unescape(q, r)));
  }

  lemma BusySlice(w: World, q: Quote, t: string)
    requires IsQuoted(q) && Holes(BRACKETED, Rewrapped(q, t), 0) != []
    ensures InText(PieceMeaning(w, 1, q, Lit(t)))
         == PlainText(w, false, q, RewrappedPieces(q, Split(BRACKETED, Rewrapped(q, t))))
  {
    var r := Rewrapped(q, t);
    SliceIsRewrapped(w, q, t);
    NoCommands(BRACKETED, r);
    LastPassWears(w, q, Split(BRACKETED, r));
    TextOfPieces(w, 2, q, Split(BRACKETED, r));
    assert PieceMeaning(w, 1, q, Lit(t)) == StringMeaning(w, 2, q, r);
  }

  /** A slice of the simple pass: what the bracketed pass makes of it is worn. */
  lemma SliceWears(w: World, q: Quote, t: string) returns (xs: seq<Piece>)
    requires IsQuoted(q) && t != ""
    ensures InText(PieceMeaning(w, 1, q, Lit(t))) == PlainText(w, false, q, xs)
    ensures WornPieces(q, xs, Split(BRACKETED, t))
  {
    RewrappedAreWorn(q, Split(BRACKETED, t));
    if Holes(BRACKETED, Rewrapped(q, t), 0) == [] {
      xs := RewrappedPieces(q, Split(BRACKETED, t));
      QuietSlice(w, q, t);
    } else {
      xs := RewrappedPieces(q, RewrappedPieces(q, Split(BRACKETED, t)));
      SplitRewrapped(q, t);
      BusySlice(w, q, t);
    }
  }

  /** The pieces that one piece of the simple pass becomes. */
  lemma PieceWears(w: World, q: Quote, p: Piece) returns (xs: seq<Piece>)
    requires IsQuoted(q) && (p.Ref? || (p.Lit? && p.text != ""))
    ensures InText(PieceMeaning(w, 1, q, p)) == PlainText(w, false, q, xs)
    ensures WornPieces(q, xs, Refine(BRACKETED, [p]))
  {
    RefineOne(BRACKETED, p);
    if p.Lit? {
      xs := SliceWears(w, q, p.text);
    } else {
      xs := [p];
      assert xs[1..] == [];
      ChainAssociates(PlainPiece(w, false, q, p), Ok(""), Ok(""));
    }
  }

  lemma {:induction false} SlicesWear(w: World, q: Quote, ps: seq<Piece>) returns (xs: seq<Piece>)
    requires IsQuoted(q) && forall p | p in ps :: p.Ref? || (p.Lit? && p.text != "")
    ensures PiecesText(w, 1, q, ps) == PlainText(w, false, q, xs) && WornPieces(q, xs, Refine(BRACKETED, ps))
  {
    if ps == [] {
      xs := [];
    } else {
      assert ps[0] in ps && ps == [ps[0]] + ps[1..];
      var first := PieceWears(w, q, ps[0]);
      var rest := SlicesWear(w, q, ps[1..]);
      xs := first + rest;
      PlainTextAppend(w, q, first, rest);
      RefineAppend(BRACKETED, [ps[0]], ps[1..]);
      WornAppend(q, first, Refine(BRACKETED, [ps[0]]), rest, Refine(BRACKETED, ps[1..]));
    }
  }

  lemma SimplePieces(s: string)
    ensures forall p | p in Split(SIMPLE, s) :: p.Ref? || (p.Lit? && p.text != "")
  {
    SplitIsGood(SIMPLE, s);
    forall p | p in Split(SIMPLE, s) ensures p.Ref? || (p.Lit? && p.text != "") {
      NoDefaults(s, p);
    }
  }

  /** Where the reference passes find anything, what they leave of a quoted string is worn. */
  lemma PassesWear(w: World, q: Quote, s: string) returns (xs: seq<Piece>)
    requires IsQuoted(q) && !NoHoles(Passed(1), s)
    ensures InText(StringMeaning(w, 1, q, s)) == PlainText(w, false, q, xs) && WornPieces(q, xs, Twice(s))
  {
    if Holes(SIMPLE, s, 0) == [] {
      UntouchedSplit(SIMPLE, s);
      RefineOne(BRACKETED, Lit(s));
      NoCommands(BRACKETED, s);
      LastPassWears(w, q, Split(BRACKETED, s));
      TextOfPieces(w, 2, q, Split(BRACKETED, s));
      RewrappedAreWorn(q, Split(BRACKETED, s));
      xs := RewrappedPieces(q, Split(BRACKETED, s));
    } else {
      SimplePieces(s);
      xs := SlicesWear(w, q, Split(SIMPLE, s));
      TextOfPieces(w, 1, q, Split(SIMPLE, s));
    }
  }

  lemma {:induction false} NoCommandsRefined(kinds: Kinds, ps: seq<Piece>)
    requires !kinds.exec && forall p | p in ps :: !p.Exec?
    ensures forall p | p in Refine(kinds, ps) :: !p.Exec?
  {
    if ps != [] {
      assert ps[0] in ps;
      NoCommandsRefined(kinds, ps[1..]);
      if ps[0].Lit? {
        NoCommands(kinds, ps[0].text);
      }
    }
  }

  lemma NothingFoundText(w: World, q: Quote, s: string)
    requires IsQuoted(q) && NoHoles(Passed(1), s)
    ensures InText(StringMeaning(w, 1, q, s)) == PlainText(w, false, q, Twice(s))
  {
    assert StringMeaning(w, 3, q, s) == Ok(Str(Unescape(q, s)));
    if s == "" {
      assert Twice(s) == [];
    } else {
      UntouchedSplit(SIMPLE, s);
      UntouchedSplit(BRACKETED, s);
      RefineOne(BRACKETED, Lit(s));
      OneLiteralText(w, q, s);
    }
  }

  /**
   * Every quoted string, whatever it holds: the two reference passes give the text of plain substitution
   * into the pieces that they make exactly when they find nothing or no piece that is used holds a
   * backslash and quote pair.
   */
  lemma QuotedFallsShort(w: World, q: Quote, s: string)
    requires IsQuoted(q)
    ensures InText(StringMeaning(w, 1, q, s)) == PlainText(w, false, q, Twice(s)) <==>
      NoHoles(Passed(1), s) || forall p | p in Twice(s) :: !HoldsPair(w, q, p)
  {
    if NoHoles(Passed(1), s) {
      NothingFoundText(w, q, s);
    } else {
      var xs := PassesWear(w, q, s);
      NoCommands(SIMPLE, s);
      NoCommandsRefined(BRACKETED, Split(SIMPLE, s));
      WornFallShort(w, q, xs, Twice(s));
    }
  }

  /** The backslash in `\"$A` between double quotes is lost, as the slice in front of the reference is cut out. */
  const WORN := "\\\"$A"

  lemma WornPiecesOf()
    ensures Holes(SIMPLE, WORN, 0) == [Hole(2, 4, Ref("A"))] && Twice(WORN) == [Lit("\\\""), Ref("A")]
  {
    var s, h := WORN, Hole(2, 4, Ref("A"));
    assert NameEnd(s, 4, false) == 4 && s[3..4] == "A" && s[0..2] == "\\\"";
    OneHole(SIMPLE, s, 2, h);
    assert Split(SIMPLE, s) == [Lit("\\\""), Ref("A")] by {
      PartsFirst(s, 0, 4, h, []);
      assert [h] + [] == [h];
    }
    NoDollar(BRACKETED, "\\\"", 0);
    UntouchedSplit(BRACKETED, "\\\"");
    RefineOne(BRACKETED, Lit("\\\""));
    RefineOne(BRACKETED, Ref("A"));
    RefineAppend(BRACKETED, [Lit("\\\"")], [Ref("A")]);
    assert [Lit("\\\"")] + [Ref("A")] == [Lit("\\\""), Ref("A")];
  }

  lemma WornFallsShort(w: World)
    ensures InText(StringMeaning(w, 1, DoubleQuote, WORN)) != PlainText(w, false, DoubleQuote, Twice(WORN))
  {
    WornPiecesOf();
    QuotedFallsShort(w, DoubleQuote, WORN);
    var t := "\\\"";
    assert t[0] == '\\' && t[0 + 1] == '"' && HasPair(t, '\\', '"');
    assert Lit(t) in Twice(WORN) && HoldsPair(w, DoubleQuote, Lit(t));
  }

  // ----- the compiled string

  lemma {:induction false} PlainWithoutCommands(w: World, q: Quote, ps: seq<Piece>)
    requires forall p | p in ps :: !p.Exec?
    ensures PlainText(w, true, q, ps) == PlainText(w, false, q, ps)
  {
    if ps != [] {
      assert ps[0] in ps;
      PlainWithoutCommands(w, q, ps[1..]);
    }
  }

  lemma TwiceIsReading(s: string)
    requires Holes(EXECS, s, 0) == [] && NothingCut(s)
    ensures Twice(s) == Split(ALL, s)
  {
    PassesAgree(EXECS, REFS, s);
    PassesAgree(SIMPLE, BRACKETED, s);
    if s == "" {
      assert Twice(s) == [] == Split(ALL, s);
    } else {
      UntouchedSplit(EXECS, s);
      RefineOne(REFS, Lit(s));
      assert Lit(s) in Split(EXECS, s);
    }
  }

  /**
   * The text of an expanded quoted string without commands of which nothing is cut is that of plain
   * substitution into it exactly when nothing was expanded or no piece that is used holds a backslash and quote
   * pair.
   */
  lemma ExpandedQuotedExactly(w: World, st: Static)
    requires st.Text? && IsQuoted(QuoteOf(st))
    requires var s := StaticValue(w.exact, st).s; Holes(EXECS, s, 0) == [] && NothingCut(s)
    ensures var q, s := QuoteOf(st), StaticValue(w.exact, st).s;
      InText(Resolve(w, Expand(w.exact, Leaf(st)))) == PlainText(w, true, q, Split(ALL, s)) <==>
      Holes(ALL, s, 0) == [] || forall p | p in Split(ALL, s) :: !HoldsPair(w, q, p)
  {
    var q, s := QuoteOf(st), StaticValue(w.exact, st).s;
    ExpandKeepsMeaning(w, Leaf(st));
    QuotedFallsShort(w, q, s);
    TwiceIsReading(s);
    NoCommands(SIMPLE, s);
    NoCommandsRefined(BRACKETED, Split(SIMPLE, s));
    PlainWithoutCommands(w, q, Twice(s));
    NoHolesAtOnce(s);
    assert NoHoles(Passed(0), s) <==> NoHoles(Passed(1), s);
  }
}
