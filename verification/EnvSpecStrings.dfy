/**
 * What a string leaf is worth: pass by pass, as the compiler goes through it, and read once from left to
 * right. Both coerce each slice the way the compiler's nodes do.
 */
module EnvSpecStrings {
  import opened Outcomes
  import opened Strings
  import opened EnvSpecNodes
  import opened EnvSpecHoles
  import opened EnvSpecSplitting
  import opened EnvSpecExpand

  /** What a resolution runs in; `exec` is the shell, an unknown function of command and environment. */
  datatype World = World(
    env: map<string, string>,
    resolved: map<string, Value>,
    exec: (string, map<string, Value>) -> Outcome<string>,
    exact: string -> bool
  ) {
    function Lookup(key: string): Value {
      if key in env then Str(env[key])
      else if key in resolved && resolved[key] != Undefined then resolved[key]
      else Str("")
    }

    function CommandEnv(): map<string, Value> {
      resolved + map k | k in env :: Str(env[k])
    }

    function Run(command: Value): Outcome<Value> {
      if !command.Str? then Throw("Invalid `exec` command")
      else
        var output :- exec(command.s, CommandEnv());
        Ok(Str(Trim(output)))
    }
  }

  predicate Filled(v: Value) {
    v != Undefined && v != Str("")
  }

  // ----- pass by pass

  function Pass(k: nat): Kinds {
    if k == 0 then EXECS else if k == 1 then SIMPLE else BRACKETED
  }

  /** The value of a slice of a string with quote `q`. */
  function SliceValue(w: World, q: Quote, text: string): Value {
    StaticValue(w.exact, Slice(text, q))
  }

  function ValueMeaning(w: World, k: nat, q: Quote, v: Value): Outcome<Value>
    decreases 3 - k, 3
  {
    if v.Str? then StringMeaning(w, k, q, v.s) else Ok(v)
  }

  function StringMeaning(w: World, k: nat, q: Quote, s: string): Outcome<Value>
    decreases 3 - k, 2
  {
    if k >= 3 || q == SingleQuote then Ok(Str(Unescape(q, s)))
    else if Holes(Pass(k), s, 0) == [] then StringMeaning(w, k + 1, q, s)
    else PiecesMeaning(w, k, q, Split(Pass(k), s))
  }

  function PiecesMeaning(w: World, k: nat, q: Quote, ps: seq<Piece>): Outcome<Value>
    requires k < 3
    decreases 3 - k, 1, |ps|
  {
    if |ps| == 1 then PieceMeaning(w, k, q, ps[0])
    else
      var text :- PiecesText(w, k, q, ps);
      Ok(Str(text))
  }

  function PiecesText(w: World, k: nat, q: Quote, ps: seq<Piece>): Outcome<string>
    requires k < 3
    decreases 3 - k, 0, |ps|
  {
    if ps == [] then Ok("")
    else
      var v :- PieceMeaning(w, k, q, ps[0]);
      var rest :- PiecesText(w, k, q, ps[1..]);
      Ok(TextOf(v) + rest)
  }

  /** A piece cut out by pass `k`; the literal text in it still awaits the later passes. */
  function PieceMeaning(w: World, k: nat, q: Quote, p: Piece): Outcome<Value>
    requires k < 3
    decreases 3 - k, 0, 0
  {
    match p
    case Lit(t) => ValueMeaning(w, k + 1, q, SliceValue(w, q, t))
    case Ref(name) => Ok(w.Lookup(name))
    case RefOr(name, d) =>
      if Filled(w.Lookup(name)) then Ok(w.Lookup(name))
      else
        var v :- ValueMeaning(w, k + 1, q, SliceValue(w, q, d));
        Ok(if Filled(v) then v else Undefined)
    case Exec(c) =>
      var command :- ValueMeaning(w, k + 1, q, SliceValue(w, q, c));
      w.Run(command)
  }

  // ----- read once

  /** The value of `s` when the given expansions are read in it; a command is itself read for references. */
  function Read(w: World, kinds: Kinds, q: Quote, s: string): Outcome<Value>
    decreases if kinds.exec then 1 else 0, 2, 0
  {
    ReadPieces(w, kinds.exec, q, Split(kinds, s))
  }

  function ReadPieces(w: World, execs: bool, q: Quote, ps: seq<Piece>): Outcome<Value>
    decreases if execs then 1 else 0, 1, |ps|
  {
    if |ps| == 1 then ReadPiece(w, execs, q, ps[0])
    else
      var text :- ReadText(w, execs, q, ps);
      Ok(Str(text))
  }

  function ReadText(w: World, execs: bool, q: Quote, ps: seq<Piece>): Outcome<string>
    decreases if execs then 1 else 0, 0, |ps|
  {
    if ps == [] then Ok("")
    else
      var v :- ReadPiece(w, execs, q, ps[0]);
      var rest :- ReadText(w, execs, q, ps[1..]);
      Ok(TextOf(v) + rest)
  }

  function ReadPiece(w: World, execs: bool, q: Quote, p: Piece): Outcome<Value>
    decreases if execs then 1 else 0, 0, 0
  {
    match p
    case Lit(t) => Ok(UnescapeValue(q, SliceValue(w, q, t)))
    case Ref(name) => Ok(w.Lookup(name))
    case RefOr(name, d) =>
      if Filled(w.Lookup(name)) then Ok(w.Lookup(name))
      else
        var v := UnescapeValue(q, SliceValue(w, q, d));
        Ok(if Filled(v) then v else Undefined)
    case Exec(c) =>
      if execs then
        var command :- Read(w, REFS, q, c);
        w.Run(command)
      else Ok(Str(RawOf(p)))
  }

  // ----- leaves

  /** Which expansion passes have run on a tree; `AtOnce` reads the strings of a tree as written in one go. */
  datatype Stage = Passed(k: nat) | AtOnce

  /** The value of a leaf: the remaining passes on its text, or one reading of it. */
  function LeafValue(w: World, stage: Stage, st: Static): Outcome<Value> {
    var q, v := QuoteOf(st), StaticValue(w.exact, st);
    match stage
    case Passed(k) => ValueMeaning(w, k, q, v)
    case AtOnce => if v.Str? && q != SingleQuote then Read(w, ALL, q, v.s) else Ok(UnescapeValue(q, v))
  }

  /** No expansion is left in a text. */
  predicate NoHoles(stage: Stage, s: string)
    decreases if stage.Passed? then 3 - stage.k else 0
  {
    match stage
    case Passed(k) => k >= 3 || (Holes(Pass(k), s, 0) == [] && NoHoles(Passed(k + 1), s))
    case AtOnce => Holes(ALL, s, 0) == []
  }
}
