/**
 * What a string stands for when it is read once from left to right: its literal text, its references
 * and its commands in the order they stand. The three passes compute the same value.
 */
module EnvSpecReading {
  import opened Outcomes
  import opened Strings
  import opened EnvSpecNodes
  import opened EnvSpecHoles
  import opened EnvSpecSplitting
  import opened EnvSpecDiverging
  import opened EnvSpecCuts
  import opened EnvSpecExpand
  import opened EnvSpecStrings
  import opened EnvSpecResolve
  import opened EnvSpecMeaning

  // ----- re-wrapping a slice

  /** A quoted slice keeps its text exactly when it holds no escaped quote that a second unwrapping would eat. */
  lemma RewrapKeepsText(w: World, q: Quote, t: string)
    requires q != NoQuote
    ensures SliceValue(w, q, t) == Str(t) <==> !HasPair(t, '\\', Mark(q)[0])
  {
    var m := Mark(q);
    assert (m + t + m)[|m|..|m + t + m| - |m|] == t;
    ReplacePairFixed(t, '\\', m[0]);
  }

  /** No backslash-quote pair is left in a quoted text. */
  ghost predicate Settled(q: Quote, s: string) {
    q != NoQuote ==> !HasPair(s, '\\', Mark(q)[0])
  }

  lemma SettledSlice(w: World, q: Quote, t: string)
    requires Settled(q, t)
    ensures SliceValue(w, q, t) == Str(t) || (q == NoQuote && '$' !in t && !SliceValue(w, q, t).Str?)
  {
    if q != NoQuote {
      RewrapKeepsText(w, q, t);
    } else if !AutoCoerce(w.exact, t).Str? {
      CoercedTextIsPlain(w.exact, t);
    }
  }

  /** Every text inside the pieces is a slice of a settled text. */
  ghost predicate SettledPieces(q: Quote, ps: seq<Piece>) {
    forall p | p in ps :: SettledPiece(q, p)
  }

  ghost predicate SettledPiece(q: Quote, p: Piece) {
    match p
    case Lit(t) => Settled(q, t)
    case Ref(_) => true
    case RefOr(_, d) => Settled(q, d)
    case Exec(c) => Settled(q, c)
  }

  lemma SettledSub(q: Quote, s: string, i: nat, j: nat)
    requires Settled(q, s) && i <= j <= |s|
    ensures Settled(q, s[i..j])
  {
    if q != NoQuote {
      NoPairInPart(s, i, j, '\\', Mark(q)[0]);
    }
  }

  lemma DefaultIsSettled(q: Quote, s: string, start: nat, name: string, n: nat)
    requires Settled(q, s) && n <= |s| && AfterName(s, start, name, n).Some?
    ensures SettledPiece(q, AfterName(s, start, name, n).value.piece)
  {
    if s[n] != '}' {
      var dash := if s[n] == ':' then n + 1 else n;
      SettledSub(q, s, dash + 1, FindChar(s, '}', dash + 1));
    }
  }

  lemma HoleIsSettled(kinds: Kinds, q: Quote, s: string, i: nat)
    requires Settled(q, s) && HoleAt(kinds, s, i).Some?
    ensures SettledPiece(q, HoleAt(kinds, s, i).value.piece)
  {
    if s[i + 1] == '(' {
      SettledSub(q, s, i + 2, CloseOf(s, i).value - 1);
    } else if s[i + 1] == '{' {
      var n := NameEnd(s, i + 3, true);
      DefaultIsSettled(q, s, i, s[i + 2..n], n);
    }
  }

  lemma {:induction false} PartsSettled(q: Quote, s: string, last: nat, holes: seq<Hole>)
    requires Settled(q, s) && forall h | h in holes :: SettledPiece(q, h.piece)
    ensures SettledPieces(q, Parts(s, last, |s|, holes))
    decreases |holes|
  {
    if holes == [] {
      if last < |s| {
        SettledSub(q, s, last, |s|);
      }
    } else {
      assert holes[0] in holes;
      if last < holes[0].start <= |s| {
        SettledSub(q, s, last, holes[0].start);
      }
      PartsSettled(q, s, holes[0].end, holes[1..]);
    }
  }

  lemma SplitSettled(kinds: Kinds, q: Quote, s: string)
    requires Settled(q, s)
    ensures SettledPieces(q, Split(kinds, s))
  {
    forall h | h in Holes(kinds, s, 0) ensures SettledPiece(q, h.piece) {
      HoleOf(kinds, s, h);
      HoleIsSettled(kinds, q, s, h.start);
    }
    PartsSettled(q, s, 0, Holes(kinds, s, 0));
  }

  // ----- reading in stages

  lemma ReadTextCons(w: World, execs: bool, q: Quote, p: Piece, ps: seq<Piece>)
    ensures ReadText(w, execs, q, [p] + ps) == Chain(InText(ReadPiece(w, execs, q, p)), ReadText(w, execs, q, ps))
  {
    assert ([p] + ps)[1..] == ps;
  }

  lemma {:induction false} ReadTextAppend(w: World, execs: bool, q: Quote, xs: seq<Piece>, ys: seq<Piece>)
    ensures ReadText(w, execs, q, xs + ys) == Chain(ReadText(w, execs, q, xs), ReadText(w, execs, q, ys))
  {
    if xs == [] {
      assert xs + ys == ys;
      ChainAssociates(ReadText(w, execs, q, ys), Ok(""), Ok(""));
    } else {
      assert xs + ys == [xs[0]] + (xs[1..] + ys) && xs == [xs[0]] + xs[1..];
      ReadTextAppend(w, execs, q, xs[1..], ys);
      ReadTextCons(w, execs, q, xs[0], xs[1..] + ys);
      ReadTextCons(w, execs, q, xs[0], xs[1..]);
      ChainAssociates(InText(ReadPiece(w, execs, q, xs[0])), ReadText(w, execs, q, xs[1..]), ReadText(w, execs, q, ys));
    }
  }

  /** The text of a reading, whether it is one piece or several. */
  lemma TextOfReading(w: World, execs: bool, q: Quote, ps: seq<Piece>)
    ensures ReadText(w, execs, q, ps) == InText(ReadPieces(w, execs, q, ps))
  {
    if |ps| == 1 {
      assert ps == [ps[0]] + [];
      ReadTextCons(w, execs, q, ps[0], []);
      ChainAssociates(InText(ReadPiece(w, execs, q, ps[0])), Ok(""), Ok(""));
    }
  }

  /** What the later passes `k + 1..` make of piece `p` is the reading of its refinement. */
  ghost predicate Agrees(w: World, k: nat, execs: bool, kinds: Kinds, q: Quote, p: Piece)
    requires k < 3
  {
    PieceMeaning(w, k, q, p) == ReadPieces(w, execs, q, Refine(kinds, [p]))
  }

  lemma RefineOne(kinds: Kinds, p: Piece)
    ensures Refine(kinds, [p]) == if p.Lit? then Split(kinds, p.text) else [p]
  {
    assert [p][1..] == [];
  }

  lemma SplitNotEmpty(kinds: Kinds, s: string)
    ensures Split(kinds, s) == [] <==> s == ""
  {
    if Holes(kinds, s, 0) != [] {
      HolesInOrder(kinds, s, 0);
      assert s != "";
    }
  }

  lemma {:induction false} RefinedTexts(w: World, k: nat, execs: bool, kinds: Kinds, q: Quote, ps: seq<Piece>)
    requires k < 3 && GoodPieces(ps) && forall p | p in ps :: Agrees(w, k, execs, kinds, q, p)
    ensures PiecesText(w, k, q, ps) == ReadText(w, execs, q, Refine(kinds, ps))
    ensures |Refine(kinds, ps)| >= |ps|
  {
    if ps != [] {
      assert ps[0] in ps && Agrees(w, k, execs, kinds, q, ps[0]);
      RefinedTexts(w, k, execs, kinds, q, ps[1..]);
      RefineAppend(kinds, [ps[0]], ps[1..]);
      assert [ps[0]] + ps[1..] == ps;
      var first, rest := Refine(kinds, [ps[0]]), Refine(kinds, ps[1..]);
      RefineOne(kinds, ps[0]);
      if ps[0].Lit? {
        SplitNotEmpty(kinds, ps[0].text);
      }
      ReadTextAppend(w, execs, q, first, rest);
      TextOfReading(w, execs, q, first);
    }
  }

  lemma RefinedPieces(w: World, k: nat, execs: bool, kinds: Kinds, q: Quote, ps: seq<Piece>)
    requires k < 3 && GoodPieces(ps) && forall p | p in ps :: Agrees(w, k, execs, kinds, q, p)
    ensures PiecesMeaning(w, k, q, ps) == ReadPieces(w, execs, q, Refine(kinds, ps))
  {
    if |ps| == 1 {
      assert Agrees(w, k, execs, kinds, q, ps[0]) && ps == [ps[0]];
    } else {
      RefinedTexts(w, k, execs, kinds, q, ps);
      if ps == [] {
        assert Refine(kinds, ps) == [];
      }
    }
  }

  // ----- the bracketed pass

  lemma BracketedMeans(w: World, q: Quote, s: string)
    requires q != SingleQuote && Settled(q, s) && SliceValue(w, q, s) == Str(s)
    ensures StringMeaning(w, 2, q, s) == Read(w, BRACKETED, q, s)
  {
    var ps := Split(BRACKETED, s);
    NoCommands(BRACKETED, s);
    forall p | p in ps ensures PieceMeaning(w, 2, q, p) == ReadPiece(w, false, q, p) {
      LastPassPiece(w, q, p);
    }
    SamePieces(w, 2, false, q, ps);
    UncutString(w, 2, q, s);
  }

  lemma LastPassPiece(w: World, q: Quote, p: Piece)
    requires !p.Exec?
    ensures PieceMeaning(w, 2, q, p) == ReadPiece(w, false, q, p)
  {
  }

  lemma {:induction false} SamePieces(w: World, k: nat, execs: bool, q: Quote, ps: seq<Piece>)
    requires k < 3 && forall p | p in ps :: PieceMeaning(w, k, q, p) == ReadPiece(w, execs, q, p)
    ensures PiecesText(w, k, q, ps) == ReadText(w, execs, q, ps)
    ensures PiecesMeaning(w, k, q, ps) == ReadPieces(w, execs, q, ps)
    decreases |ps|
  {
    if ps != [] {
      assert ps[0] in ps;
      SamePieces(w, k, execs, q, ps[1..]);
    }
  }

  lemma NoCommands(kinds: Kinds, s: string)
    requires !kinds.exec
    ensures forall p | p in Split(kinds, s) :: !p.Exec?
  {
    forall h | h in Holes(kinds, s, 0) ensures !h.piece.Exec? {
      HoleOf(kinds, s, h);
    }
    NoCommandParts(s, 0, Holes(kinds, s, 0));
  }

  lemma {:induction false} NoCommandParts(s: string, last: nat, holes: seq<Hole>)
    requires forall h | h in holes :: !h.piece.Exec?
    ensures forall p | p in Parts(s, last, |s|, holes) :: !p.Exec?
    decreases |holes|
  {
    if holes != [] {
      assert holes[0] in holes;
      NoCommandParts(s, holes[0].end, holes[1..]);
    }
  }

  // ----- the two reference passes

  lemma NoDefaults(s: string, p: Piece)
    requires p in Split(SIMPLE, s)
    ensures p.Lit? || p.Ref?
  {
    forall h | h in Holes(SIMPLE, s, 0) ensures h.piece.Ref? {
      HoleOf(SIMPLE, s, h);
    }
    OnlyReferences(s, 0, Holes(SIMPLE, s, 0));
  }

  lemma {:induction false} OnlyReferences(s: string, last: nat, holes: seq<Hole>)
    requires forall h | h in holes :: h.piece.Ref?
    ensures forall p | p in Parts(s, last, |s|, holes) :: p.Lit? || p.Ref?
    decreases |holes|
  {
    if holes != [] {
      assert holes[0] in holes;
      OnlyReferences(s, holes[0].end, holes[1..]);
    }
  }

  lemma SimpleAgrees(w: World, q: Quote, p: Piece)
    requires q != SingleQuote && SettledPiece(q, p) && (p.Lit? || p.Ref?)
    ensures Agrees(w, 1, false, BRACKETED, q, p)
  {
    RefineOne(BRACKETED, p);
    if p.Lit? {
      SettledSlice(w, q, p.text);
      if SliceValue(w, q, p.text) == Str(p.text) {
        BracketedMeans(w, q, p.text);
      } else {
        PlainReading(w, BRACKETED, q, p.text);
      }
    }
  }

  /** A literal that coerces to another type holds no `$` and stays one piece. */
  lemma PlainReading(w: World, kinds: Kinds, q: Quote, t: string)
    requires '$' !in t && !SliceValue(w, q, t).Str?
    ensures Read(w, kinds, q, t) == Ok(SliceValue(w, q, t))
  {
    NoDollar(kinds, t, 0);
    assert t[0..|t|] == t;
    if t == "" {
      EmptySlice(w, q);
    }
    assert Split(kinds, t) == [Lit(t)];
  }

  lemma EmptySlice(w: World, q: Quote)
    ensures SliceValue(w, q, "") == Str("")
  {
    if q != NoQuote {
      RewrapKeepsText(w, q, "");
    }
  }

  /** The two reference passes read the pieces they leave. */
  lemma ReferencePassesRead(w: World, q: Quote, s: string)
    requires q != SingleQuote && Settled(q, s) && SliceValue(w, q, s) == Str(s)
    ensures StringMeaning(w, 1, q, s) == ReadPieces(w, false, q, Refine(BRACKETED, Split(SIMPLE, s)))
  {
    var ps := Split(SIMPLE, s);
    SplitIsGood(SIMPLE, s);
    SplitSettled(SIMPLE, q, s);
    forall p | p in ps ensures Agrees(w, 1, false, BRACKETED, q, p) {
      NoDefaults(s, p);
      SimpleAgrees(w, q, p);
    }
    RefinedPieces(w, 1, false, BRACKETED, q, ps);
    UncutString(w, 1, q, s);
  }

  lemma ReferencesMean(w: World, q: Quote, s: string)
    requires q != SingleQuote && Settled(q, s) && SliceValue(w, q, s) == Str(s)
    requires Uncut(SIMPLE, BRACKETED, s, 0)
    ensures StringMeaning(w, 1, q, s) == Read(w, REFS, q, s)
  {
    PassesAgree(SIMPLE, BRACKETED, s);
    ReferencePassesRead(w, q, s);
  }

  // ----- all three passes

  /** No simple reference cuts into a bracketed one in the text of the piece. */
  ghost predicate PieceUncut(p: Piece) {
    match p
    case Lit(t) => Uncut(SIMPLE, BRACKETED, t, 0)
    case Exec(c) => Uncut(SIMPLE, BRACKETED, c, 0)
    case _ => true
  }

  /**
   * No pass cuts into a reference that a later one would make: not the commands, nor the simple references in
   * any piece.
   */
  ghost predicate NothingCut(s: string) {
    Uncut(EXECS, REFS, s, 0) && forall p | p in Split(EXECS, s) :: PieceUncut(p)
  }

  /** That is so when no default holds a `$` that an earlier pass reacts to. */
  lemma PlainDefaultsAreUncut(s: string)
    requires Undisturbed(EXECS, REFS, s, 0)
    requires forall p | p in Split(EXECS, s) :: match p
      case Lit(t) => Undisturbed(SIMPLE, BRACKETED, t, 0)
      case Exec(c) => Undisturbed(SIMPLE, BRACKETED, c, 0)
      case _ => true
    ensures NothingCut(s)
  {
    UndisturbedIsUncut(EXECS, REFS, s, 0);
    forall p | p in Split(EXECS, s) ensures PieceUncut(p) {
      match p
      case Lit(t) => UndisturbedIsUncut(SIMPLE, BRACKETED, t, 0);
      case Exec(c) => UndisturbedIsUncut(SIMPLE, BRACKETED, c, 0);
      case _ =>
    }
  }

  lemma {:induction false} WithoutCommands(w: World, q: Quote, ps: seq<Piece>)
    requires forall p | p in ps :: !p.Exec?
    ensures ReadText(w, true, q, ps) == ReadText(w, false, q, ps)
    ensures ReadPieces(w, true, q, ps) == ReadPieces(w, false, q, ps)
  {
    if ps != [] {
      assert ps[0] in ps;
      WithoutCommands(w, q, ps[1..]);
    }
  }

  lemma {:induction false} OnlyCommands(s: string, last: nat, holes: seq<Hole>)
    requires forall h | h in holes :: h.piece.Exec?
    ensures forall p | p in Parts(s, last, |s|, holes) :: p.Lit? || p.Exec?
    decreases |holes|
  {
    if holes != [] {
      assert holes[0] in holes;
      OnlyCommands(s, holes[0].end, holes[1..]);
    }
  }

  lemma CommandPieces(s: string)
    ensures forall p | p in Split(EXECS, s) :: p.Lit? || p.Exec?
  {
    forall h | h in Holes(EXECS, s, 0) ensures h.piece.Exec? {
      HoleOf(EXECS, s, h);
    }
    OnlyCommands(s, 0, Holes(EXECS, s, 0));
  }

  lemma CommandAgrees(w: World, q: Quote, p: Piece)
    requires q != SingleQuote && SettledPiece(q, p)
    requires (p.Lit? || p.Exec?) && PieceUncut(p)
    ensures Agrees(w, 0, true, REFS, q, p)
  {
    RefineOne(REFS, p);
    var text := if p.Lit? then p.text else p.cmd;
    SettledSlice(w, q, text);
    if SliceValue(w, q, text) == Str(text) {
      ReferencesMean(w, q, text);
    } else {
      PlainReading(w, REFS, q, text);
    }
    if p.Lit? {
      NoCommands(REFS, text);
      WithoutCommands(w, q, Split(REFS, text));
    }
  }

  /**
   * The three passes compute the one left-to-right reading of a string: commands, references and literal
   * text in the order they stand, each literal slice coerced and unescaped by itself.
   */
  lemma PassesReadOnce(w: World, q: Quote, s: string)
    requires q != SingleQuote && Settled(q, s) && SliceValue(w, q, s) == Str(s)
    requires NothingCut(s)
    ensures StringMeaning(w, 0, q, s) == Read(w, ALL, q, s)
  {
    CommandPiecesAgree(w, q, s);
    SplitIsGood(EXECS, s);
    RefinedPieces(w, 0, true, REFS, q, Split(EXECS, s));
    UncutString(w, 0, q, s);
    PassesAgree(EXECS, REFS, s);
  }

  lemma CommandPiecesAgree(w: World, q: Quote, s: string)
    requires q != SingleQuote && Settled(q, s) && NothingCut(s)
    ensures forall p | p in Split(EXECS, s) :: Agrees(w, 0, true, REFS, q, p)
  {
    CommandPieces(s);
    SplitSettled(EXECS, q, s);
    forall p | p in Split(EXECS, s) ensures Agrees(w, 0, true, REFS, q, p) {
      CommandAgrees(w, q, p);
    }
  }

  lemma WholeString(w: World, k: nat, q: Quote, s: string)
    requires k < 3 && SliceValue(w, q, s) == Str(s)
    ensures PiecesMeaning(w, k, q, [Lit(s)]) == StringMeaning(w, k + 1, q, s)
  {
    assert PieceMeaning(w, k, q, Lit(s)) == ValueMeaning(w, k + 1, q, Str(s));
  }

  lemma UntouchedSplit(kinds: Kinds, s: string)
    requires Holes(kinds, s, 0) == []
    ensures Split(kinds, s) == if s == "" then [] else [Lit(s)]
  {
    assert s[0..|s|] == s;
  }

  /** A pass that finds nothing hands the whole string on as one literal piece. */
  lemma UncutString(w: World, k: nat, q: Quote, s: string)
    requires k < 3 && q != SingleQuote && SliceValue(w, q, s) == Str(s)
    ensures StringMeaning(w, k, q, s) == PiecesMeaning(w, k, q, Split(Pass(k), s))
  {
    if Holes(Pass(k), s, 0) == [] {
      UntouchedSplit(Pass(k), s);
      if s == "" {
        EmptyString(w, k, q);
      } else {
        WholeString(w, k, q, s);
      }
    }
  }

  lemma EmptyString(w: World, k: nat, q: Quote)
    ensures StringMeaning(w, k, q, "") == Ok(Str(""))
    decreases 3 - k
  {
    if k < 3 {
      EmptyString(w, k + 1, q);
    }
  }

  /** A string value written in the source survives being sliced out whole. */
  lemma LeafIsItsSlice(w: World, st: Static)
    requires st.Text? && StaticValue(w.exact, st).Str? && Settled(QuoteOf(st), StaticValue(w.exact, st).s)
    ensures SliceValue(w, QuoteOf(st), StaticValue(w.exact, st).s) == StaticValue(w.exact, st)
  {
    if QuoteOf(st) != NoQuote {
      RewrapKeepsText(w, QuoteOf(st), StaticValue(w.exact, st).s);
    }
  }

  /** Resolving an expanded string leaf gives the one left-to-right reading of its text. */
  lemma ExpandedLeafReads(w: World, st: Static)
    requires StaticValue(w.exact, st).Str? && QuoteOf(st) != SingleQuote && st.Text?
    requires Settled(QuoteOf(st), StaticValue(w.exact, st).s) && NothingCut(StaticValue(w.exact, st).s)
    ensures Resolve(w, Expand(w.exact, Leaf(st))) == Read(w, ALL, QuoteOf(st), StaticValue(w.exact, st).s)
  {
    ExpandKeepsMeaning(w, Leaf(st));
    LeafIsItsSlice(w, st);
    PassesReadOnce(w, QuoteOf(st), StaticValue(w.exact, st).s);
  }

  // ----- unescaping slice by slice

  function LiteralText(ps: seq<Piece>): string {
    if ps == [] then "" else (if ps[0].Lit? then ps[0].text else "") + LiteralText(ps[1..])
  }

  function UnescapedSlices(q: Quote, ps: seq<Piece>): string {
    if ps == [] then "" else (if ps[0].Lit? then Unescape(q, ps[0].text) else "") + UnescapedSlices(q, ps[1..])
  }

  lemma {:induction false} PartsUnescape(q: Quote, s: string, last: nat, holes: seq<Hole>)
    requires last <= |s| && InOrder(s, last, holes)
    requires forall h | h in holes :: Dollar(s, h.start) && !h.piece.Lit?
    ensures var ps := Parts(s, last, |s|, holes); Unescape(q, LiteralText(ps)) == UnescapedSlices(q, ps)
    decreases |holes|
  {
    if holes == [] {
      if last < |s| {
        var one := [Lit(s[last..|s|])];
        assert one[1..] == [] && LiteralText(one) == s[last..|s|] + "" == s[last..|s|];
        assert UnescapedSlices(q, one) == Unescape(q, s[last..|s|]) + "" == Unescape(q, s[last..|s|]);
      }
    } else {
      var h := holes[0];
      assert h in holes;
      PartsUnescape(q, s, h.end, holes[1..]);
      var rest := Parts(s, h.end, |s|, holes[1..]);
      var tail := [h.piece] + rest;
      assert holes == [h] + holes[1..] && tail[1..] == rest;
      PartsFirst(s, last, |s|, h, holes[1..]);
      assert LiteralText(tail) == "" + LiteralText(rest) == LiteralText(rest);
      assert UnescapedSlices(q, tail) == "" + UnescapedSlices(q, rest) == UnescapedSlices(q, rest);
      if last < h.start {
        var t := s[last..h.start];
        assert ([Lit(t)] + tail)[1..] == tail;
        UnescapeSplits(q, t, LiteralText(tail));
      } else {
        assert [] + tail == tail;
      }
    }
  }

  /** No piece begins after a backslash, so unescaping the slices is unescaping the literal text as a whole. */
  lemma SlicesUnescapeAlone(kinds: Kinds, q: Quote, s: string)
    ensures Unescape(q, LiteralText(Split(kinds, s))) == UnescapedSlices(q, Split(kinds, s))
  {
    HolesInOrder(kinds, s, 0);
    forall h | h in Holes(kinds, s, 0) ensures Dollar(s, h.start) && !h.piece.Lit? {
      HoleOf(kinds, s, h);
    }
    PartsUnescape(q, s, 0, Holes(kinds, s, 0));
  }

  // ----- where the passes and the one reading part

  const CUT_DEFAULT := "${A:-$B}"

  lemma CutDefaultRead()
    ensures HoleAt(REFS, CUT_DEFAULT, 0) == Some(Hole(0, 8, RefOr("A", "$B")))
    ensures Split(REFS, CUT_DEFAULT) == [RefOr("A", "$B")]
  {
    var s := CUT_DEFAULT;
    assert FindChar(s, '}', 7) == 7 && FindChar(s, '}', 6) == 7 && FindChar(s, '}', 5) == 7;
    assert NameEnd(s, 3, true) == 3;
    assert s[2..3] == "A" && s[5..7] == "$B";
    OneHole(REFS, s, 0, Hole(0, 8, RefOr("A", "$B")));
  }

  lemma CutDefaultSplit()
    ensures Active(SIMPLE, CUT_DEFAULT, 5) && Holes(SIMPLE, CUT_DEFAULT, 0) == [Hole(5, 7, Ref("B"))]
    ensures Split(SIMPLE, CUT_DEFAULT) == [Lit("${A:-"), Ref("B"), Lit("}")]
  {
    var s := CUT_DEFAULT;
    assert NameEnd(s, 7, false) == 7;
    assert s[6..7] == "B" && s[0..5] == "${A:-" && s[7..8] == "}";
    var g := Hole(5, 7, Ref("B"));
    assert HoleAt(SIMPLE, s, 5) == Some(g);
    OneHole(SIMPLE, s, 5, g);
    PartsFirst(s, 0, 8, g, []);
    assert Parts(s, 7, 8, []) == [Lit("}")];
    assert [g] + [] == [g];
  }

  /** `${A:-$B}` is one reference with the default `$B`; the passes make it text around a reference to `B`. */
  lemma DefaultReferenceDiffers()
    ensures !Undisturbed(SIMPLE, BRACKETED, CUT_DEFAULT, 0)
    ensures Split(REFS, CUT_DEFAULT) == [RefOr("A", "$B")]
    ensures Split(SIMPLE, CUT_DEFAULT) == [Lit("${A:-"), Ref("B"), Lit("}")]
    ensures Refine(BRACKETED, Split(SIMPLE, CUT_DEFAULT)) != Split(REFS, CUT_DEFAULT)
  {
    CutDefaultRead();
    CutDefaultSplit();
    var h := Hole(0, 8, RefOr("A", "$B"));
    assert Holes(REFS, CUT_DEFAULT, 0)[0] == h by { OneHole(REFS, CUT_DEFAULT, 0, h); }
    assert HoleAt(SIMPLE, CUT_DEFAULT, 0).None?;
    ReferencePassesAgree(CUT_DEFAULT);
  }

  /** A literal slice without expansions and escapes stands for itself in the last pass. */
  lemma PlainSliceMeans(w: World, t: string)
    requires SliceValue(w, NoQuote, t) == Str(t) && !HasPair(t, '\\', '$')
    requires forall p | 0 <= p < |t| :: HoleAt(BRACKETED, t, p).None?
    ensures ValueMeaning(w, 2, NoQuote, SliceValue(w, NoQuote, t)) == Ok(Str(t))
    ensures UnescapeValue(NoQuote, SliceValue(w, NoQuote, t)) == Str(t)
  {
    NoHoleFrom(BRACKETED, t, 0);
    ReplacePairFixed(t, '\\', '$');
    assert Unescape(NoQuote, t) == t;
    assert StringMeaning(w, 3, NoQuote, t) == Ok(Str(t));
    assert StringMeaning(w, 2, NoQuote, t) == Ok(Str(t));
  }

  lemma TextStays(w: World, t: string)
    requires t != "" && t[0] in {'$', '}'}
    ensures SliceValue(w, NoQuote, t) == Str(t)
  {
    assert DigitRun(t) == 0 && !NumberShape(t);
    assert "true"[0] == 't' && "false"[0] == 'f' && "undefined"[0] == 'u';
  }

  lemma DefaultRead(w: World)
    requires w.Lookup("A") == Str("")
    ensures Read(w, REFS, NoQuote, CUT_DEFAULT) == Ok(Str("$B"))
  {
    CutDefaultRead();
    TextStays(w, "$B");
    PlainSliceMeans(w, "$B");
    assert ReadPiece(w, false, NoQuote, RefOr("A", "$B")) == Ok(Str("$B"));
  }

  lemma ThreePieces(w: World, a: Piece, b: Piece, c: Piece, x: string, y: string, z: string)
    requires PieceMeaning(w, 1, NoQuote, a) == Ok(Str(x))
    requires PieceMeaning(w, 1, NoQuote, b) == Ok(Str(y))
    requires PieceMeaning(w, 1, NoQuote, c) == Ok(Str(z))
    ensures PiecesMeaning(w, 1, NoQuote, [a, b, c]) == Ok(Str(x + (y + z)))
  {
    assert [a, b, c][1..] == [b, c] && [b, c][1..] == [c] && [c][1..] == [];
    assert z + "" == z;
    assert PiecesText(w, 1, NoQuote, [c]) == Ok(z);
    assert PiecesText(w, 1, NoQuote, [b, c]) == Ok(y + z);
  }

  lemma SliceMeans(w: World, t: string)
    requires t == "${A:-" || t == "}"
    ensures PieceMeaning(w, 1, NoQuote, Lit(t)) == Ok(Str(t))
  {
    TextStays(w, t);
    PlainSliceMeans(w, t);
  }

  /** With neither name set the reference is worth its default, `$B`, but the passes leave the braces: `${A:-}`. */
  lemma DefaultReferenceValue(w: World)
    requires w.env == map[] && w.resolved == map[]
    ensures Read(w, REFS, NoQuote, CUT_DEFAULT) == Ok(Str("$B"))
    ensures StringMeaning(w, 1, NoQuote, CUT_DEFAULT) == Ok(Str("${A:-}"))
  {
    DefaultRead(w);
    CutDefaultSplit();
    SliceMeans(w, "${A:-");
    SliceMeans(w, "}");
    ThreePieces(w, Lit("${A:-"), Ref("B"), Lit("}"), "${A:-", "", "}");
    assert "${A:-" + ("" + "}") == "${A:-}";
  }

  /** No hole starts anywhere from `i` on. */
  lemma {:induction false} NoHoleFrom(kinds: Kinds, s: string, i: nat)
    requires !kinds.exec && forall p | i <= p < |s| :: HoleAt(kinds, s, p).None?
    ensures Holes(kinds, s, i) == []
    decreases |s| - i
  {
    if i < |s| {
      ReadOneAlone(kinds, s, i);
      NoHoleFrom(kinds, s, i + 1);
    }
  }

  /** The only hole of `s`. */
  lemma {:induction false} OneHole(kinds: Kinds, s: string, p: nat, h: Hole)
    requires !kinds.exec && p < |s| && HoleAt(kinds, s, p) == Some(h)
    requires forall i | 0 <= i < p || h.end <= i < |s| :: HoleAt(kinds, s, i).None?
    ensures Holes(kinds, s, 0) == [h]
  {
    NoHoleFrom(kinds, s, h.end);
    var i := p;
    ReadOneAlone(kinds, s, p);
    while i > 0
      invariant 0 <= i <= p && Holes(kinds, s, i) == [h]
    {
      i := i - 1;
      ReadOneAlone(kinds, s, i);
    }
  }
}
