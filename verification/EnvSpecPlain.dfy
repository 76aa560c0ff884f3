/**
 * Plain substitution: the text of a string when its literal text, defaults and commands are taken as they
 * stand, without the compiler's slices and their coercion. It is the text the expanded string resolves to,
 * except that coercion drops the text `undefined` and refuses a command that is not a string, and that a
 * quoted slice loses the backslash of a pair that it still holds.
 */
module EnvSpecPlain {
  import opened Outcomes
  import opened Sequences
  import opened Strings
  import opened EnvSpecNodes
  import opened EnvSpecHoles
  import opened EnvSpecSplitting
  import opened EnvSpecCuts
  import opened EnvSpecExpand
  import opened EnvSpecStrings
  import opened EnvSpecResolve
  import opened EnvSpecMeaning
  import opened EnvSpecReading
  import opened EnvSpecRewrap

  /** The text of the pieces; commands are substituted into only when `execs` is set. */
  function PlainText(w: World, execs: bool, q: Quote, ps: seq<Piece>): Outcome<string>
    decreases if execs then 1 else 0, 1, |ps|
  {
    if ps == [] then Ok("") else Chain(PlainPiece(w, execs, q, ps[0]), PlainText(w, execs, q, ps[1..]))
  }

  function PlainPiece(w: World, execs: bool, q: Quote, p: Piece): Outcome<string>
    decreases if execs then 1 else 0, 0, 0
  {
    match p
    case Lit(t) => Ok(Unescape(q, t))
    case Ref(name) => Ok(TextOf(w.Lookup(name)))
    case RefOr(name, d) => Ok(if Filled(w.Lookup(name)) then TextOf(w.Lookup(name)) else Unescape(q, d))
    case Exec(c) =>
      if execs then
        var command :- PlainText(w, false, q, Split(REFS, c));
        InText(w.Run(Str(command)))
      else Ok(RawOf(p))
  }

  // ----- where coercion shows

  /** An unquoted slice `undefined` that is used contributes nothing. */
  predicate Vanishes(w: World, q: Quote, p: Piece) {
    match p
    case Lit(t) => q == NoQuote && t == "undefined"
    case RefOr(name, d) => q == NoQuote && d == "undefined" && !Filled(w.Lookup(name))
    case _ => false
  }

  /** The piece is used and its text holds a backslash and quote pair. */
  predicate HoldsPair(w: World, q: Quote, p: Piece)
    requires IsQuoted(q)
  {
    match p
    case Lit(t) => HasPair(t, '\\', Mark(q)[0])
    case RefOr(name, d) => !Filled(w.Lookup(name)) && HasPair(d, '\\', Mark(q)[0])
    case _ => false
  }

  /** The piece is used and loses text: the unquoted `undefined`, or a backslash and quote pair between quotes. */
  predicate Loses(w: World, q: Quote, p: Piece) {
    Vanishes(w, q, p) || (IsQuoted(q) && HoldsPair(w, q, p))
  }

  /** A command that is one piece with a value that is not a string, such as `true`, `5` or a list, is refused. */
  predicate Runs(w: World, q: Quote, c: string) {
    var ps := Split(REFS, c);
    |ps| == 1 ==> ReadPiece(w, false, q, ps[0]).value.Str?
  }

  /** Neither the piece nor a part of its command loses text, and the command runs. */
  ghost predicate Kept(w: World, q: Quote, p: Piece) {
    if p.Exec? then Runs(w, q, p.cmd) && forall x | x in Split(REFS, p.cmd) :: !Loses(w, q, x)
    else !Loses(w, q, p)
  }

  /** A command without references is kept exactly when it is not coerced and loses no text. */
  lemma KeptCommand(w: World, q: Quote, c: string)
    requires c != "" && '$' !in c
    ensures Kept(w, q, Exec(c)) <==> SliceValue(w, q, c).Str? && !Loses(w, q, Lit(c))
  {
    NoDollar(REFS, c, 0);
    assert Split(REFS, c) == [Lit(c)] by {
      assert c[0..|c|] == c;
    }
  }

  /** A settled slice keeps its text, escapes resolved, unless it is the unquoted `undefined`. */
  lemma SettledIsPlain(w: World, q: Quote, t: string)
    requires Settled(q, t)
    ensures TextOf(UnescapeValue(q, SliceValue(w, q, t))) ==
      if q == NoQuote && t == "undefined" then "" else Unescape(q, t)
  {
    SettledSlice(w, q, t);
    if SliceValue(w, q, t) != Str(t) {
      CoercionKeepsText(w.exact, t);
      ReplacePairFixed(t, '\\', '$');
    }
  }

  lemma UndefinedIsText(q: Quote)
    requires q == NoQuote
    ensures |Unescape(q, "undefined")| == 9
  {
    ReplacePairFixed("undefined", '\\', '$');
  }

  lemma QuotedSlice(w: World, q: Quote, t: string)
    requires IsQuoted(q)
    ensures var text := TextOf(UnescapeValue(q, SliceValue(w, q, t)));
      if HasPair(t, '\\', Mark(q)[0]) then |text| < |Unescape(q, t)| else text == Unescape(q, t)
  {
    SliceIsRewrapped(w, q, t);
    RewrappedShortens(q, t);
    ReplacePairFixed(t, '\\', Mark(q)[0]);
  }

  /** Any slice has its unescaped text exactly when it is not the unquoted `undefined` and holds no pair. */
  lemma SliceIsPlain(w: World, q: Quote, t: string)
    requires q != SingleQuote
    ensures var text := TextOf(UnescapeValue(q, SliceValue(w, q, t)));
      if Loses(w, q, Lit(t)) then |text| < |Unescape(q, t)| else text == Unescape(q, t)
  {
    if IsQuoted(q) {
      QuotedSlice(w, q, t);
    } else {
      SettledIsPlain(w, q, t);
      if t == "undefined" {
        UndefinedIsText(q);
      }
    }
  }

  lemma UsedDefault(w: World, q: Quote, execs: bool, name: string, d: string)
    requires !Filled(w.Lookup(name))
    ensures InText(ReadPiece(w, execs, q, RefOr(name, d))) == Ok(TextOf(UnescapeValue(q, SliceValue(w, q, d))))
  {
    assert TextOf(Undefined) == "" == TextOf(Str(""));
  }

  /** What one piece gives in one reading and in plain substitution: less exactly when the piece loses text. */
  ghost predicate FallsIfLosing(w: World, q: Quote, execs: bool, p: Piece) {
    var read, plain := InText(ReadPiece(w, execs, q, p)), PlainPiece(w, execs, q, p);
    read.Ok? && plain.Ok? && if Loses(w, q, p) then |read.value| < |plain.value| else read == plain
  }

  lemma LiteralIsPlain(w: World, q: Quote, execs: bool, t: string)
    requires q != SingleQuote
    ensures FallsIfLosing(w, q, execs, Lit(t))
  {
    SliceIsPlain(w, q, t);
  }

  lemma DefaultIsPlain(w: World, q: Quote, execs: bool, name: string, d: string)
    requires q != SingleQuote && !Filled(w.Lookup(name))
    ensures FallsIfLosing(w, q, execs, RefOr(name, d))
  {
    UsedDefault(w, q, execs, name, d);
    SliceIsPlain(w, q, d);
    assert Loses(w, q, RefOr(name, d)) <==> Loses(w, q, Lit(d));
  }

  /** A reference or literal has the text of plain substitution exactly when it loses none. */
  lemma PieceIsPlain(w: World, q: Quote, execs: bool, p: Piece)
    requires q != SingleQuote && !p.Exec?
    ensures FallsIfLosing(w, q, execs, p)
  {
    if p.Lit? {
      LiteralIsPlain(w, q, execs, p.text);
    } else if p.RefOr? && !Filled(w.Lookup(p.name)) {
      DefaultIsPlain(w, q, execs, p.name, p.dflt);
    }
  }

  /** Without commands one reading falls short of plain substitution exactly when a piece loses text. */
  lemma {:induction false} ReadingFallsShort(w: World, q: Quote, execs: bool, ps: seq<Piece>)
    requires q != SingleQuote && forall p | p in ps :: !p.Exec?
    ensures ReadText(w, execs, q, ps).Ok? && PlainText(w, execs, q, ps).Ok?
    ensures |ReadText(w, execs, q, ps).value| <= |PlainText(w, execs, q, ps).value|
    ensures ReadText(w, execs, q, ps) == PlainText(w, execs, q, ps) <==> forall p | p in ps :: !Loses(w, q, p)
    decreases |ps|
  {
    if ps != [] {
      assert ps == [ps[0]] + ps[1..];
      PieceIsPlain(w, q, execs, ps[0]);
      ReadingFallsShort(w, q, execs, ps[1..]);
      var head := PlainPiece(w, execs, q, ps[0]).value;
      var read, plain := ReadText(w, execs, q, ps[1..]).value, PlainText(w, execs, q, ps[1..]).value;
      if Loses(w, q, ps[0]) {
        assert |ReadText(w, execs, q, ps).value| < |head + plain|;
      } else {
        SameHead(head, read, plain);
      }
    }
  }

  /** A command that runs gets the text of plain substitution. */
  lemma CommandIsPlain(w: World, q: Quote, c: string)
    requires q != SingleQuote && Kept(w, q, Exec(c))
    ensures Read(w, REFS, q, c).Ok? && Read(w, REFS, q, c).value.Str?
    ensures PlainText(w, false, q, Split(REFS, c)) == Ok(Read(w, REFS, q, c).value.s)
  {
    var ps := Split(REFS, c);
    NoCommands(REFS, c);
    ReadingFallsShort(w, q, false, ps);
    TextOfReading(w, false, q, ps);
  }

  lemma KeptPiece(w: World, q: Quote, p: Piece)
    requires q != SingleQuote && Kept(w, q, p)
    ensures InText(ReadPiece(w, true, q, p)) == PlainPiece(w, true, q, p)
  {
    if p.Exec? {
      CommandIsPlain(w, q, p.cmd);
    } else {
      PieceIsPlain(w, q, true, p);
    }
  }

  /** Pieces that lose nothing read as plain substitution, error for error. */
  lemma {:induction false} KeptIsPlain(w: World, q: Quote, ps: seq<Piece>)
    requires q != SingleQuote && forall p | p in ps :: Kept(w, q, p)
    ensures ReadText(w, true, q, ps) == PlainText(w, true, q, ps)
  {
    if ps != [] {
      assert ps[0] in ps;
      KeptPiece(w, q, ps[0]);
      KeptIsPlain(w, q, ps[1..]);
    }
  }

  /** A string with a command that does not run has no value. */
  lemma {:induction false} RefusedCommandThrows(w: World, q: Quote, ps: seq<Piece>, c: string)
    requires Exec(c) in ps && !Runs(w, q, c)
    ensures ReadText(w, true, q, ps).Throw?
  {
    if ps[0] == Exec(c) {
      assert Read(w, REFS, q, c) == ReadPiece(w, false, q, Split(REFS, c)[0]);
    } else {
      RefusedCommandThrows(w, q, ps[1..], c);
    }
  }

  // ----- the compiled string

  /** The text of an expanded string value is that of plain substitution into it, error for error. */
  lemma ExpandedLeafIsPlain(w: World, st: Static)
    requires StaticValue(w.exact, st).Str? && QuoteOf(st) != SingleQuote && st.Text?
    requires Settled(QuoteOf(st), StaticValue(w.exact, st).s) && NothingCut(StaticValue(w.exact, st).s)
    requires forall p | p in Split(ALL, StaticValue(w.exact, st).s) :: Kept(w, QuoteOf(st), p)
    ensures InText(Resolve(w, Expand(w.exact, Leaf(st))))
         == PlainText(w, true, QuoteOf(st), Split(ALL, StaticValue(w.exact, st).s))
  {
    var q, s := QuoteOf(st), StaticValue(w.exact, st).s;
    ExpandedLeafReads(w, st);
    KeptIsPlain(w, q, Split(ALL, s));
    TextOfReading(w, true, q, Split(ALL, s));
  }

  /** A string value with a command that is refused cannot be resolved. */
  lemma ExpandedLeafThrows(w: World, st: Static, c: string)
    requires StaticValue(w.exact, st).Str? && QuoteOf(st) != SingleQuote && st.Text?
    requires Settled(QuoteOf(st), StaticValue(w.exact, st).s) && NothingCut(StaticValue(w.exact, st).s)
    requires Exec(c) in Split(ALL, StaticValue(w.exact, st).s) && !Runs(w, QuoteOf(st), c)
    ensures Resolve(w, Expand(w.exact, Leaf(st))).Throw?
  {
    var q, s := QuoteOf(st), StaticValue(w.exact, st).s;
    ExpandedLeafReads(w, st);
    RefusedCommandThrows(w, q, Split(ALL, s), c);
    TextOfReading(w, true, q, Split(ALL, s));
  }

  /** `true` as an unquoted command is coerced to a boolean and refused; quoted it runs. */
  lemma TrueIsRefused(w: World)
    ensures !Runs(w, NoQuote, "true") && Runs(w, DoubleQuote, "true")
  {
    NoDollar(REFS, "true", 0);
    assert "true"[0..4] == "true";
    assert Split(REFS, "true") == [Lit("true")];
    RewrapKeepsText(w, DoubleQuote, "true");
  }
}
