/**
 * The condition on defaults is exact for values too: where a pass cuts into a reference, setting every
 * name to `#` and letting every command echo its text between two `#` makes the expanded string differ
 * from one reading.
 */
module EnvSpecExact {
  import opened Outcomes
  import opened Sequences
  import opened Strings
  import opened EnvSpecNodes
  import opened EnvSpecHoles
  import opened EnvSpecSplitting
  import opened EnvSpecDiverging
  import opened EnvSpecCuts
  import opened EnvSpecExpand
  import opened EnvSpecStrings
  import opened EnvSpecResolve
  import opened EnvSpecMeaning
  import opened EnvSpecReading
  import opened EnvSpecPlain

  // ----- the environment that tells the readings apart

  function Slices(s: string): set<string> {
    set i, j | 0 <= i <= j <= |s| :: s[i..j]
  }

  /** Every name that `s` can refer to is worth `#`, and a command echoes its own text between two `#`. */
  function MarkWorld(exact: string -> bool, s: string): World {
    World(map name | name in Slices(s) :: "#", map[], (command, env) => Ok("#" + (command + "#")), exact)
  }

  ghost predicate Marks(w: World, t: string) {
    forall i, j | 0 <= i <= j <= |t| :: w.Lookup(t[i..j]) == Str("#")
  }

  lemma SlicesAreMarked(exact: string -> bool, s: string)
    ensures Marks(MarkWorld(exact, s), s)
  {
    forall i, j | 0 <= i <= j <= |s| ensures MarkWorld(exact, s).Lookup(s[i..j]) == Str("#") {
      assert s[i..j] in Slices(s);
    }
  }

  lemma SliceOfSlice(s: string, a: nat, b: nat, i: nat, j: nat)
    requires a <= b <= |s| && i <= j <= b - a
    ensures s[a..b][i..j] == s[a + i..a + j]
  {
    assert s[a..b] == s[..b][a..];
    DropSlice(s[..b], a, i, j);
    TakeSlice(s, b, a + i, a + j);
  }

  lemma MarksPart(w: World, s: string, a: nat, b: nat)
    requires Marks(w, s) && a <= b <= |s|
    ensures Marks(w, s[a..b])
  {
    forall i: nat, j: nat | i <= j <= |s[a..b]| ensures w.Lookup(s[a..b][i..j]) == Str("#") {
      SliceOfSlice(s, a, b, i, j);
      assert w.Lookup(s[a + i..a + j]) == Str("#");
    }
  }

  /** The names of the piece are worth `#`, and its texts are settled. */
  ghost predicate Marked(w: World, q: Quote, p: Piece) {
    match p
    case Lit(t) => Settled(q, t) && Marks(w, t)
    case Ref(name) => w.Lookup(name) == Str("#")
    case RefOr(name, _) => w.Lookup(name) == Str("#")
    case Exec(c) => Settled(q, c) && Marks(w, c)
  }

  ghost predicate AllMarked(w: World, q: Quote, ps: seq<Piece>) {
    forall p | p in ps :: Marked(w, q, p)
  }

  lemma CommandIsSlice(s: string, i: nat, h: Hole)
    requires HoleAt(EXECS, s, i) == Some(h)
    ensures i + 2 <= h.end - 1 <= |s| && h.piece == Exec(s[i + 2..h.end - 1])
  {
  }

  lemma NameIsSlice(s: string, i: nat, h: Hole) returns (a: nat, b: nat)
    requires HoleAt(REFS, s, i) == Some(h)
    ensures a <= b <= |s| && (h.piece.Ref? || h.piece.RefOr?) && h.piece.name == s[a..b]
  {
    if s[i + 1] == '{' {
      a, b := i + 2, NameEnd(s, i + 3, true);
    } else {
      a, b := i + 1, NameEnd(s, i + 2, false);
    }
  }

  lemma EitherKind(kinds: Kinds, s: string, i: nat)
    requires HoleAt(kinds, s, i).Some?
    ensures HoleAt(kinds, s, i) == HoleAt(EXECS, s, i) || HoleAt(kinds, s, i) == HoleAt(REFS, s, i)
  {
  }

  lemma HoleIsMarked(kinds: Kinds, w: World, q: Quote, s: string, i: nat)
    requires Settled(q, s) && Marks(w, s) && HoleAt(kinds, s, i).Some?
    ensures Marked(w, q, HoleAt(kinds, s, i).value.piece)
  {
    var h := HoleAt(kinds, s, i).value;
    EitherKind(kinds, s, i);
    if HoleAt(EXECS, s, i) == Some(h) {
      CommandIsSlice(s, i, h);
      MarksPart(w, s, i + 2, h.end - 1);
      SettledSub(q, s, i + 2, h.end - 1);
    } else {
      var a, b := NameIsSlice(s, i, h);
      assert w.Lookup(s[a..b]) == Str("#");
    }
  }

  lemma {:induction false} PartsMarked(w: World, q: Quote, s: string, last: nat, holes: seq<Hole>)
    requires Settled(q, s) && Marks(w, s) && forall h | h in holes :: Marked(w, q, h.piece)
    ensures AllMarked(w, q, Parts(s, last, |s|, holes))
    decreases |holes|
  {
    if holes == [] {
      if last < |s| {
        SettledSub(q, s, last, |s|);
        MarksPart(w, s, last, |s|);
      }
    } else {
      assert holes[0] in holes;
      if last < holes[0].start <= |s| {
        SettledSub(q, s, last, holes[0].start);
        MarksPart(w, s, last, holes[0].start);
      }
      PartsMarked(w, q, s, holes[0].end, holes[1..]);
    }
  }

  lemma SplitMarked(kinds: Kinds, w: World, q: Quote, s: string)
    requires Settled(q, s) && Marks(w, s)
    ensures AllMarked(w, q, Split(kinds, s))
  {
    forall h | h in Holes(kinds, s, 0) ensures Marked(w, q, h.piece) {
      HoleOf(kinds, s, h);
      HoleIsMarked(kinds, w, q, s, h.start);
    }
    PartsMarked(w, q, s, 0, Holes(kinds, s, 0));
  }

  /** Pieces without commands, all marked. */
  ghost predicate References(w: World, q: Quote, ps: seq<Piece>) {
    AllMarked(w, q, ps) && forall p | p in ps :: !p.Exec?
  }

  lemma SplitReferences(kinds: Kinds, w: World, q: Quote, s: string)
    requires Settled(q, s) && Marks(w, s) && !kinds.exec
    ensures References(w, q, Split(kinds, s))
  {
    SplitMarked(kinds, w, q, s);
    NoCommands(kinds, s);
  }

  lemma {:induction false} RefinedReferences(kinds: Kinds, w: World, q: Quote, ps: seq<Piece>)
    requires References(w, q, ps) && !kinds.exec
    ensures References(w, q, Refine(kinds, ps))
  {
    if ps != [] {
      assert ps[0] in ps;
      RefinedReferences(kinds, w, q, ps[1..]);
      if ps[0].Lit? {
        SplitReferences(kinds, w, q, ps[0].text);
      }
    }
  }

  // ----- what one reading shows in it

  lemma ReferenceShows(w: World, q: Quote, execs: bool, p: Piece)
    requires q != SingleQuote && Marked(w, q, p) && !p.Exec?
    ensures InText(ReadPiece(w, execs, q, p)) == Ok(ShownPiece(q, execs, p))
  {
    if p.Lit? {
      SettledIsPlain(w, q, p.text);
    }
  }

  lemma {:induction false} TextShows(w: World, q: Quote, execs: bool, ps: seq<Piece>)
    requires forall p | p in ps :: InText(ReadPiece(w, execs, q, p)) == Ok(ShownPiece(q, execs, p))
    ensures ReadText(w, execs, q, ps) == Ok(Shown(q, execs, ps))
  {
    if ps != [] {
      assert ps[0] in ps;
      TextShows(w, q, execs, ps[1..]);
    }
  }

  lemma ReferencesShow(w: World, q: Quote, ps: seq<Piece>)
    requires q != SingleQuote && References(w, q, ps)
    ensures InText(ReadPieces(w, false, q, ps)) == Ok(Shown(q, false, ps))
  {
    forall p | p in ps ensures InText(ReadPiece(w, false, q, p)) == Ok(ShownPiece(q, false, p)) {
      ReferenceShows(w, q, false, p);
    }
    TextShows(w, q, false, ps);
    TextOfReading(w, false, q, ps);
  }

  /** The text of a command is not coerced to another type. */
  predicate Uncoerced(exact: string -> bool, q: Quote, c: string) {
    StaticValue(exact, Slice(c, q)).Str?
  }

  /** The one piece of a string with an expansion is that. */
  lemma OnePiece(kinds: Kinds, s: string)
    requires |Split(kinds, s)| == 1
    ensures Split(kinds, s)[0].Lit? <==> Holes(kinds, s, 0) == []
    ensures Holes(kinds, s, 0) == [] ==> Split(kinds, s) == [Lit(s)]
  {
    assert s[0..|s|] == s;
    if Holes(kinds, s, 0) != [] {
      var h := Holes(kinds, s, 0)[0];
      OnePieceIsHole(NoQuote, s, Holes(kinds, s, 0));
      HoleOf(kinds, s, h);
    }
  }

  /** A command that is not coerced reads as a string. */
  lemma CommandShows(w: World, q: Quote, c: string)
    requires q != SingleQuote && Settled(q, c) && Marks(w, c) && Uncoerced(w.exact, q, c)
    ensures Read(w, REFS, q, c) == Ok(Str(Shown(q, false, Split(REFS, c))))
  {
    var ps := Split(REFS, c);
    SplitReferences(REFS, w, q, c);
    ReferencesShow(w, q, ps);
    if |ps| == 1 {
      assert ps[0] in ps;
      OnePiece(REFS, c);
    }
  }

  lemma Echoes(exact: string -> bool, s: string, c: string)
    ensures MarkWorld(exact, s).Run(Str(c)) == Ok(Str("#" + (c + "#")))
  {
    TrimNothing("#" + (c + "#"));
  }

  lemma PieceShows(exact: string -> bool, s: string, q: Quote, p: Piece)
    requires q != SingleQuote && Marked(MarkWorld(exact, s), q, p) && (p.Exec? ==> Uncoerced(exact, q, p.cmd))
    ensures InText(ReadPiece(MarkWorld(exact, s), true, q, p)) == Ok(ShownPiece(q, true, p))
  {
    var w := MarkWorld(exact, s);
    if p.Exec? {
      CommandShows(w, q, p.cmd);
      Echoes(exact, s, Shown(q, false, Split(REFS, p.cmd)));
    } else {
      ReferenceShows(w, q, true, p);
    }
  }

  /** No command among the pieces is coerced. */
  predicate AllRun(exact: string -> bool, q: Quote, ps: seq<Piece>) {
    forall p | p in ps :: p.Exec? ==> Uncoerced(exact, q, p.cmd)
  }

  lemma ReadingShows(exact: string -> bool, q: Quote, s: string)
    requires q != SingleQuote && Settled(q, s) && AllRun(exact, q, Split(ALL, s))
    ensures InText(Read(MarkWorld(exact, s), ALL, q, s)) == Ok(Shown(q, true, Split(ALL, s)))
  {
    var w, ps := MarkWorld(exact, s), Split(ALL, s);
    SlicesAreMarked(exact, s);
    SplitMarked(ALL, w, q, s);
    forall p | p in ps ensures InText(ReadPiece(w, true, q, p)) == Ok(ShownPiece(q, true, p)) {
      PieceShows(exact, s, q, p);
    }
    TextShows(w, q, true, ps);
    TextOfReading(w, true, q, ps);
  }

  // ----- what the passes show in it

  /** What the two reference passes make of a text. */
  function Twice(t: string): seq<Piece> {
    Refine(BRACKETED, Split(SIMPLE, t))
  }

  function StagedPiece(q: Quote, p: Piece): string {
    match p
    case Lit(t) => Shown(q, false, Twice(t))
    case Exec(c) => "#" + (Shown(q, false, Twice(c)) + "#")
    case _ => "#"
  }

  function StagedText(q: Quote, ps: seq<Piece>): string {
    if ps == [] then "" else StagedPiece(q, ps[0]) + StagedText(q, ps[1..])
  }

  lemma PlainPieces(t: string)
    requires '$' !in t
    ensures Twice(t) == Split(REFS, t) == if t == "" then [] else [Lit(t)]
  {
    NoDollar(SIMPLE, t, 0);
    NoDollar(BRACKETED, t, 0);
    NoDollar(REFS, t, 0);
    assert t[0..|t|] == t;
    if t != "" {
      RefineOne(BRACKETED, Lit(t));
    }
  }

  /** The text of a string after the two reference passes, coerced or not. */
  lemma PassesShow(w: World, q: Quote, t: string)
    requires q != SingleQuote && Settled(q, t) && Marks(w, t)
    ensures InText(ValueMeaning(w, 1, q, SliceValue(w, q, t))) == Ok(Shown(q, false, Twice(t)))
  {
    SettledSlice(w, q, t);
    SplitReferences(SIMPLE, w, q, t);
    RefinedReferences(BRACKETED, w, q, Split(SIMPLE, t));
    ReferencesShow(w, q, Twice(t));
    if SliceValue(w, q, t) == Str(t) {
      ReferencePassesRead(w, q, t);
    } else {
      PlainPieces(t);
      PlainReading(w, REFS, q, t);
    }
  }

  /** A string of one reference is worth `#`. */
  lemma OneReference(w: World, k: nat, q: Quote, s: string)
    requires 1 <= k < 3 && Settled(q, s) && Marks(w, s)
    requires Holes(Pass(k), s, 0) != [] && |Split(Pass(k), s)| == 1
    ensures PieceMeaning(w, k, q, Split(Pass(k), s)[0]) == Ok(Str("#"))
  {
    SplitReferences(Pass(k), w, q, s);
    OnePiece(Pass(k), s);
    assert Split(Pass(k), s)[0] in Split(Pass(k), s);
  }

  lemma PiecesStay(w: World, k: nat, q: Quote, ps: seq<Piece>)
    requires 1 <= k < 3 && (|ps| == 1 ==> PieceMeaning(w, k, q, ps[0]) == Ok(Str("#")))
    ensures PiecesMeaning(w, k, q, ps).Ok? ==> PiecesMeaning(w, k, q, ps).value.Str?
  {
  }

  /** In that environment the reference passes leave a string. */
  lemma {:induction false} StringStays(w: World, k: nat, q: Quote, s: string)
    requires 1 <= k <= 3 && Settled(q, s) && Marks(w, s)
    ensures StringMeaning(w, k, q, s).Ok? ==> StringMeaning(w, k, q, s).value.Str?
    decreases 3 - k
  {
    if k < 3 && q != SingleQuote {
      if Holes(Pass(k), s, 0) == [] {
        StringStays(w, k + 1, q, s);
      } else {
        if |Split(Pass(k), s)| == 1 {
          OneReference(w, k, q, s);
        }
        PiecesStay(w, k, q, Split(Pass(k), s));
      }
    }
  }

  lemma PieceMeans(exact: string -> bool, s: string, q: Quote, p: Piece)
    requires q != SingleQuote && Marked(MarkWorld(exact, s), q, p) && (p.Lit? || p.Exec?)
    requires p.Exec? ==> Uncoerced(exact, q, p.cmd)
    ensures InText(PieceMeaning(MarkWorld(exact, s), 0, q, p)) == Ok(StagedPiece(q, p))
  {
    var w := MarkWorld(exact, s);
    var t := if p.Lit? then p.text else p.cmd;
    PassesShow(w, q, t);
    if p.Exec? {
      SettledSlice(w, q, t);
      StringStays(w, 1, q, t);
      assert ValueMeaning(w, 1, q, SliceValue(w, q, t)) == Ok(Str(Shown(q, false, Twice(t))));
      Echoes(exact, s, Shown(q, false, Twice(t)));
    }
  }

  lemma {:induction false} PiecesMean(w: World, q: Quote, ps: seq<Piece>)
    requires forall p | p in ps :: InText(PieceMeaning(w, 0, q, p)) == Ok(StagedPiece(q, p))
    ensures PiecesText(w, 0, q, ps) == Ok(StagedText(q, ps))
  {
    if ps != [] {
      assert ps[0] in ps;
      PiecesMean(w, q, ps[1..]);
    }
  }

  lemma TextOfPieces(w: World, k: nat, q: Quote, ps: seq<Piece>)
    requires k < 3
    ensures InText(PiecesMeaning(w, k, q, ps)) == PiecesText(w, k, q, ps)
  {
    if |ps| == 1 {
      assert ps[1..] == [];
      ChainAssociates(InText(PieceMeaning(w, k, q, ps[0])), Ok(""), Ok(""));
      assert PiecesText(w, k, q, ps[1..]) == Ok("");
    }
  }

  lemma StagesShow(exact: string -> bool, q: Quote, s: string)
    requires q != SingleQuote && Settled(q, s) && StaticValue(exact, Slice(s, q)) == Str(s)
    requires AllRun(exact, q, Split(EXECS, s))
    ensures InText(StringMeaning(MarkWorld(exact, s), 0, q, s)) == Ok(StagedText(q, Split(EXECS, s)))
  {
    var w, ps := MarkWorld(exact, s), Split(EXECS, s);
    SlicesAreMarked(exact, s);
    SplitMarked(EXECS, w, q, s);
    CommandPieces(s);
    forall p | p in ps ensures InText(PieceMeaning(w, 0, q, p)) == Ok(StagedPiece(q, p)) {
      PieceMeans(exact, s, q, p);
    }
    PiecesMean(w, q, ps);
    TextOfPieces(w, 0, q, ps);
    UncutString(w, 0, q, s);
  }

  // ----- the two side by side

  /** The same text, or cut short of a mark. */
  ghost predicate SameOrCut(x: string, y: string) {
    x == y || Cut(x, y)
  }

  lemma SameOrCutAppend(x: string, y: string, a: string, b: string)
    requires SameOrCut(x, y) && SameOrCut(a, b)
    ensures SameOrCut(x + a, y + b) && (Cut(x, y) || Cut(a, b) ==> Cut(x + a, y + b))
  {
    if Cut(x, y) {
      CutBefore(x, y, a, b);
    } else if Cut(a, b) {
      CutBehind(x, a, b);
    }
  }

  lemma {:induction false} ShownWithoutCommands(q: Quote, ps: seq<Piece>)
    requires forall p | p in ps :: !p.Exec?
    ensures Shown(q, true, ps) == Shown(q, false, ps)
  {
    if ps != [] {
      assert ps[0] in ps;
      ShownWithoutCommands(q, ps[1..]);
    }
  }

  lemma TwiceOrOnce(q: Quote, t: string)
    ensures SameOrCut(Shown(q, false, Twice(t)), Shown(q, false, Split(REFS, t)))
    ensures !Uncut(SIMPLE, BRACKETED, t, 0) ==> Cut(Shown(q, false, Twice(t)), Shown(q, false, Split(REFS, t)))
  {
    if Uncut(SIMPLE, BRACKETED, t, 0) {
      PassesAgree(SIMPLE, BRACKETED, t);
    } else {
      CutShows(q, false, SIMPLE, BRACKETED, t);
    }
  }

  lemma PieceTwiceOrOnce(q: Quote, p: Piece)
    requires p.Lit? || p.Exec?
    ensures SameOrCut(StagedPiece(q, p), Shown(q, true, Refine(REFS, [p])))
    ensures !PieceUncut(p) ==> Cut(StagedPiece(q, p), Shown(q, true, Refine(REFS, [p])))
  {
    RefineOne(REFS, p);
    if p.Lit? {
      TwiceOrOnce(q, p.text);
      NoCommands(REFS, p.text);
      ShownWithoutCommands(q, Split(REFS, p.text));
    } else {
      TwiceOrOnce(q, p.cmd);
      var x, y := Shown(q, false, Twice(p.cmd)), Shown(q, false, Split(REFS, p.cmd));
      SameOrCutAppend(x, y, "#", "#");
      SameOrCutAppend("#", "#", x + "#", y + "#");
      ShownCons(q, true, p, []);
      assert [p] + [] == [p] && ShownPiece(q, true, p) + "" == ShownPiece(q, true, p);
    }
  }

  lemma {:induction false} PiecesTwiceOrOnce(q: Quote, ps: seq<Piece>)
    requires forall p | p in ps :: p.Lit? || p.Exec?
    ensures SameOrCut(StagedText(q, ps), Shown(q, true, Refine(REFS, ps)))
    ensures (exists p | p in ps :: !PieceUncut(p)) ==> Cut(StagedText(q, ps), Shown(q, true, Refine(REFS, ps)))
  {
    if ps != [] {
      var first, rest := [ps[0]], ps[1..];
      assert ps[0] in ps && ps == first + rest;
      PieceTwiceOrOnce(q, ps[0]);
      PiecesTwiceOrOnce(q, rest);
      RefineAppend(REFS, first, rest);
      ShownAppend(q, true, Refine(REFS, first), Refine(REFS, rest));
      SameOrCutAppend(StagedPiece(q, ps[0]), Shown(q, true, Refine(REFS, first)),
                      StagedText(q, rest), Shown(q, true, Refine(REFS, rest)));
    }
  }

  /** Wherever a pass cuts, the texts part. */
  lemma StagesFall(q: Quote, s: string)
    requires !NothingCut(s)
    ensures Cut(StagedText(q, Split(EXECS, s)), Shown(q, true, Split(ALL, s)))
  {
    var ps := Split(EXECS, s);
    CommandPieces(s);
    PiecesTwiceOrOnce(q, ps);
    var x, y, z := StagedText(q, ps), Shown(q, true, Refine(REFS, ps)), Shown(q, true, Split(ALL, s));
    if Uncut(EXECS, REFS, s, 0) {
      PassesAgree(EXECS, REFS, s);
      assert exists p | p in ps :: !PieceUncut(p);
    } else {
      CutShows(q, true, EXECS, REFS, s);
      if x != y {
        CutThrough(x, y, z);
      }
    }
  }

  // ----- a command that is coerced

  lemma CoercedIsRefused(w: World, q: Quote, c: string)
    requires Settled(q, c) && !Uncoerced(w.exact, q, c)
    ensures !Runs(w, q, c)
  {
    SettledSlice(w, q, c);
    PlainPieces(c);
    EmptySlice(w, q);
  }

  lemma {:induction false} CoercedThrows(w: World, q: Quote, ps: seq<Piece>, p: Piece)
    requires p in ps && p.Exec? && !Uncoerced(w.exact, q, p.cmd)
    ensures PiecesText(w, 0, q, ps).Throw?
  {
    if ps[0] != p {
      CoercedThrows(w, q, ps[1..], p);
    }
  }

  lemma StagesThrow(w: World, q: Quote, s: string)
    requires q != SingleQuote && StaticValue(w.exact, Slice(s, q)) == Str(s) && !AllRun(w.exact, q, Split(EXECS, s))
    ensures StringMeaning(w, 0, q, s).Throw?
  {
    var ps := Split(EXECS, s);
    var p :| p in ps && p.Exec? && !Uncoerced(w.exact, q, p.cmd);
    CoercedThrows(w, q, ps, p);
    TextOfPieces(w, 0, q, ps);
    UncutString(w, 0, q, s);
  }

  lemma ReadingThrows(w: World, q: Quote, s: string)
    requires q != SingleQuote && Settled(q, s) && !AllRun(w.exact, q, Split(ALL, s))
    ensures Read(w, ALL, q, s).Throw?
  {
    var ps := Split(ALL, s);
    var p :| p in ps && p.Exec? && !Uncoerced(w.exact, q, p.cmd);
    SplitSettled(ALL, q, s);
    assert SettledPiece(q, p);
    CoercedIsRefused(w, q, p.cmd);
    RefusedCommandThrows(w, q, ps, p.cmd);
    TextOfReading(w, true, q, ps);
  }

  // ----- the conditions are exact

  /**
   * The two reference passes give the value of one left-to-right reading in every environment exactly when
   * no bracketed reference has a simple one in its default.
   */
  lemma ReferencesReadOnce(exact: string -> bool, q: Quote, s: string)
    requires q != SingleQuote && Settled(q, s) && StaticValue(exact, Slice(s, q)) == Str(s)
    ensures (forall w: World | w.exact == exact :: StringMeaning(w, 1, q, s) == Read(w, REFS, q, s))
      <==> Undisturbed(SIMPLE, BRACKETED, s, 0)
  {
    ReferencePassesAgree(s);
    PassesAgree(SIMPLE, BRACKETED, s);
    if Undisturbed(SIMPLE, BRACKETED, s, 0) {
      forall w: World | w.exact == exact ensures StringMeaning(w, 1, q, s) == Read(w, REFS, q, s) {
        ReferencesMean(w, q, s);
      }
    } else {
      var w := MarkWorld(exact, s);
      SlicesAreMarked(exact, s);
      PassesShow(w, q, s);
      SplitReferences(REFS, w, q, s);
      ReferencesShow(w, q, Split(REFS, s));
      CutShows(q, false, SIMPLE, BRACKETED, s);
      FallsApart(q, false, Twice(s), Split(REFS, s));
      assert w.exact == exact;
    }
  }

  /** On every string that the passes cut, that environment makes them differ from one reading. */
  lemma CutChangesValue(exact: string -> bool, q: Quote, s: string)
    requires q != SingleQuote && Settled(q, s) && StaticValue(exact, Slice(s, q)) == Str(s) && !NothingCut(s)
    requires AllRun(exact, q, Split(EXECS, s)) || AllRun(exact, q, Split(ALL, s))
    ensures StringMeaning(MarkWorld(exact, s), 0, q, s) != Read(MarkWorld(exact, s), ALL, q, s)
  {
    var w := MarkWorld(exact, s);
    if !AllRun(exact, q, Split(EXECS, s)) {
      StagesThrow(w, q, s);
      ReadingShows(exact, q, s);
    } else {
      StagesShow(exact, q, s);
      if !AllRun(exact, q, Split(ALL, s)) {
        ReadingThrows(w, q, s);
      } else {
        ReadingShows(exact, q, s);
        StagesFall(q, s);
      }
    }
  }

  /**
   * A string value resolves to the value of one left-to-right reading in every environment exactly when no
   * pass cuts into a reference. The commands of one of the two are not coerced: else both are refused, cut or not.
   */
  lemma ExpandedLeafExactly(exact: string -> bool, st: Static)
    requires st.Text? && StaticValue(exact, st).Str? && QuoteOf(st) != SingleQuote
    requires Settled(QuoteOf(st), StaticValue(exact, st).s)
    requires AllRun(exact, QuoteOf(st), Split(EXECS, StaticValue(exact, st).s))
          || AllRun(exact, QuoteOf(st), Split(ALL, StaticValue(exact, st).s))
    ensures var q, s := QuoteOf(st), StaticValue(exact, st).s;
      (forall w: World | w.exact == exact :: Resolve(w, Expand(exact, Leaf(st))) == Read(w, ALL, q, s)) <==>
      NothingCut(s)
  {
    var q, s := QuoteOf(st), StaticValue(exact, st).s;
    LeafIsItsSlice(MarkWorld(exact, s), st);
    if NothingCut(s) {
      forall w: World | w.exact == exact ensures Resolve(w, Expand(exact, Leaf(st))) == Read(w, ALL, q, s) {
        ExpandedLeafReads(w, st);
      }
    } else {
      var w := MarkWorld(exact, s);
      CutChangesValue(exact, q, s);
      ExpandKeepsMeaning(w, Leaf(st));
      assert w.exact == exact;
    }
  }
}
