/** The nesting-aware argument splitter of the editor plugin (packages/vscode-plugin/src/diagnostics-core.ts). */
module ArgSplitter {
  import opened Outcomes
  import opened Sequences
  import opened Strings

  type QuoteMark = c: char | c == '"' || c == '\'' witness '"'

  /** The open quote and the bracket depth; brackets are counted, not matched. */
  datatype Mode = Mode(quote: Option<QuoteMark>, depth: nat)

  const TOP := Mode(None, 0)

  function Next(m: Mode, c: char): Mode {
    if m.quote.Some? then (if m.quote.value == c then m.(quote := None) else m)
    else if c == '"' || c == '\'' then m.(quote := Some(c))
    else if c in {'(', '['} then m.(depth := m.depth + 1)
    else if c in {')', ']'} then m.(depth := if m.depth == 0 then 0 else m.depth - 1)
    else m
  }

  function ModeAfter(m: Mode, s: string): Mode
    decreases |s|
  {
    if s == "" then m else ModeAfter(Next(m, s[0]), s[1..])
  }

  /** The text between the commas that are outside quotes and brackets. */
  function Pieces(m: Mode, s: string): (pieces: seq<string>)
    ensures |pieces| > 0
    decreases |s|
  {
    if s == "" then [""]
    else if m == TOP && s[0] == ',' then [""] + Pieces(TOP, s[1..])
    else Prepend(s[..1], Pieces(Next(m, s[0]), s[1..]))
  }

  function Prepend(text: string, pieces: seq<string>): seq<string>
    requires |pieces| > 0
  {
    [text + pieces[0]] + pieces[1..]
  }

  /** The trimmed pieces, without the empty ones. */
  function Kept(pieces: seq<string>): seq<string> {
    if pieces == [] then []
    else (if Trim(pieces[0]) == "" then [] else [Trim(pieces[0])]) + Kept(pieces[1..])
  }

  function SplitArgs(input: string): seq<string> {
    Kept(Pieces(TOP, input))
  }

  function Join(parts: seq<string>): string {
    if parts == [] then ""
    else if |parts| == 1 then parts[0]
    else parts[0] + ("," + Join(parts[1..]))
  }

  // ----- the loop

  function KeptIfAny(value: string): seq<string> {
    if value == "" then [] else [value]
  }

  lemma PrependPrepend(a: string, b: string, pieces: seq<string>)
    requires |pieces| > 0
    ensures Prepend(a, Prepend(b, pieces)) == Prepend(a + b, pieces)
  {
    assert a + (b + pieces[0]) == a + b + pieces[0];
  }

  lemma PrependNothing(pieces: seq<string>)
    requires |pieces| > 0
    ensures Prepend("", pieces) == pieces
  {
    assert "" + pieces[0] == pieces[0];
  }

  /** A comma at the top ends a piece. */
  lemma CommaEndsPiece(current: string, rest: string)
    ensures Kept(Prepend(current, Pieces(TOP, "," + rest))) == KeptIfAny(Trim(current)) + Kept(Pieces(TOP, rest))
  {
    assert ("," + rest)[1..] == rest && current + "" == current;
    var pieces := Prepend(current, Pieces(TOP, "," + rest));
    assert pieces[1..] == Pieces(TOP, rest);
  }

  /** The parts still to come when `current` has been collected in mode `m`. */
  function Pending(current: string, m: Mode, rest: string): seq<string> {
    Kept(Prepend(current, Pieces(m, rest)))
  }

  lemma CharJoinsPiece(current: string, m: Mode, input: string, i: nat)
    requires i < |input| && !(m == TOP && input[i] == ',')
    ensures Pending(current, m, input[i..]) == Pending(current + [input[i]], Next(m, input[i]), input[i + 1..])
  {
    var s := input[i..];
    assert s[1..] == input[i + 1..] && s[..1] == [input[i]];
    PrependPrepend(current, s[..1], Pieces(Next(m, s[0]), s[1..]));
  }

  lemma CommaEndsCurrent(current: string, input: string, i: nat)
    requires i < |input| && input[i] == ','
    ensures Pending(current, TOP, input[i..]) == KeptIfAny(Trim(current)) + Pending("", TOP, input[i + 1..])
  {
    assert input[i..] == "," + input[i + 1..];
    CommaEndsPiece(current, input[i + 1..]);
    PrependNothing(Pieces(TOP, input[i + 1..]));
  }

  lemma EndOfInput(current: string, m: Mode)
    ensures Pending(current, m, "") == KeptIfAny(Trim(current))
  {
    assert current + "" == current && Prepend(current, [""]) == [current] && [current][1..] == [];
    assert KeptIfAny(Trim(current)) + Kept([]) == KeptIfAny(Trim(current));
  }

  method SplitCommaSeparatedArgs(input: string) returns (parts: seq<string>)
    ensures parts == SplitArgs(input)
  {
    parts := [];
    var current := "";
    var quote: Option<QuoteMark> := None;
    var depth: nat := 0;
    PrependNothing(Pieces(TOP, input));
    assert input[0..] == input;
    for i := 0 to |input|
      invariant parts + Pending(current, Mode(quote, depth), input[i..]) == SplitArgs(input)
    {
      var ch := input[i];
      if ch == ',' && quote.None? && depth == 0 {
        CommaEndsCurrent(current, input, i);
        Associate(parts, KeptIfAny(Trim(current)), Pending("", TOP, input[i + 1..]));
      } else {
        CharJoinsPiece(current, Mode(quote, depth), input, i);
      }
      if quote.Some? {
        current := current + [ch];
        if quote.value == ch { quote := None; }
        continue;
      }
      if ch == '"' || ch == '\'' {
        quote := Some(ch);
        current := current + [ch];
        continue;
      }
      if ch == '(' || ch == '[' {
        depth := depth + 1;
        current := current + [ch];
        continue;
      }
      if ch == ')' || ch == ']' {
        depth := if depth - 1 > 0 then depth - 1 else 0;
        current := current + [ch];
        continue;
      }
      if ch == ',' && depth == 0 {
        parts := PushIfAny(parts, Trim(current));
        current := "";
        continue;
      }
      current := current + [ch];
    }
    assert input[|input|..] == "";
    EndOfInput(current, Mode(quote, depth));
    parts := PushIfAny(parts, Trim(current));
  }

  method PushIfAny(parts: seq<string>, value: string) returns (longer: seq<string>)
    ensures longer == parts + KeptIfAny(value)
  {
    longer := parts;
    if value != "" {
      longer := longer + [value];
    }
  }

  // ----- what the pieces are

  /** Putting the commas back gives the input. */
  lemma {:induction false} PiecesJoinBack(m: Mode, s: string)
    ensures Join(Pieces(m, s)) == s
    decreases |s|
  {
    if s != "" {
      if m == TOP && s[0] == ',' {
        PiecesJoinBack(TOP, s[1..]);
        assert ([""] + Pieces(TOP, s[1..]))[1..] == Pieces(TOP, s[1..]);
      } else {
        var pieces := Pieces(Next(m, s[0]), s[1..]);
        PiecesJoinBack(Next(m, s[0]), s[1..]);
        assert Prepend(s[..1], pieces)[1..] == pieces[1..];
        assert s == s[..1] + s[1..];
      }
    }
  }

  /** A text no comma divides, read from mode `m`. */
  predicate Whole(m: Mode, s: string) {
    Pieces(m, s) == [s]
  }

  /** A piece that another follows: undivided, and it ends outside quotes and brackets. */
  predicate Balanced(m: Mode, s: string) {
    Whole(m, s) && ModeAfter(m, s) == TOP
  }

  predicate AllBalanced(m: Mode, pieces: seq<string>)
    requires |pieces| > 0
  {
    && (if |pieces| == 1 then Whole(m, pieces[0]) else Balanced(m, pieces[0]))
    && forall i | 0 < i < |pieces| :: if i == |pieces| - 1 then Whole(TOP, pieces[i]) else Balanced(TOP, pieces[i])
  }

  lemma WholeStep(m: Mode, c: char, s: string)
    requires !(m == TOP && c == ',')
    ensures Whole(m, [c] + s) <==> Whole(Next(m, c), s)
    ensures ModeAfter(m, [c] + s) == ModeAfter(Next(m, c), s)
  {
    var t := [c] + s;
    assert t[1..] == s && t[..1] == [c];
    var pieces := Pieces(Next(m, c), s);
    assert Prepend([c], pieces)[0][1..] == pieces[0];
    assert |pieces| == 1 ==> pieces == [pieces[0]];
  }

  /** Every piece but the last starts and ends at the top, even when quotes and brackets are unbalanced. */
  lemma {:induction false} PiecesAreBalanced(m: Mode, s: string)
    ensures AllBalanced(m, Pieces(m, s))
    decreases |s|
  {
    if s != "" {
      if m == TOP && s[0] == ',' {
        PiecesAreBalanced(TOP, s[1..]);
      } else {
        var pieces := Pieces(Next(m, s[0]), s[1..]);
        PiecesAreBalanced(Next(m, s[0]), s[1..]);
        WholeStep(m, s[0], pieces[0]);
        assert s[..1] == [s[0]];
      }
    }
  }

  // ----- trimming keeps a piece whole

  lemma {:induction false} SpaceKeepsMode(m: Mode, lead: string, s: string)
    requires AllSpace(lead)
    ensures Whole(m, lead + s) <==> Whole(m, s)
    ensures ModeAfter(m, lead + s) == ModeAfter(m, s)
  {
    if lead == "" {
      assert lead + s == s;
    } else {
      SpaceKeepsMode(m, lead[1..], s);
      assert lead + s == [lead[0]] + (lead[1..] + s) && lead[0] in lead;
      WholeStep(m, lead[0], lead[1..] + s);
    }
  }

  /** The first part of a text without dividing commas has none either. */
  lemma {:induction false} WholePrefix(m: Mode, s: string, t: string)
    requires Whole(m, s + t)
    ensures Whole(m, s) && Whole(ModeAfter(m, s), t) && ModeAfter(m, s + t) == ModeAfter(ModeAfter(m, s), t)
    decreases |s|
  {
    if s == "" {
      assert s + t == t;
    } else {
      assert s + t == [s[0]] + (s[1..] + t) && s == [s[0]] + s[1..];
      assert (s + t)[0] == s[0];
      WholeStep(m, s[0], s[1..] + t);
      WholeStep(m, s[0], s[1..]);
      WholePrefix(Next(m, s[0]), s[1..], t);
    }
  }

  lemma TrimKeepsWhole(s: string)
    requires Whole(TOP, s)
    ensures Whole(TOP, Trim(s)) && ModeAfter(TOP, Trim(s)) == ModeAfter(TOP, s)
  {
    var lead, tail := TrimSplits(s);
    assert s == lead + (Trim(s) + tail);
    SpaceKeepsMode(TOP, lead, Trim(s) + tail);
    WholePrefix(TOP, Trim(s), tail);
    assert tail + "" == tail;
    SpaceKeepsMode(ModeAfter(TOP, Trim(s)), tail, "");
  }

  // ----- the round trip

  lemma {:induction false} BalancedThenComma(m: Mode, s: string, rest: string)
    requires Balanced(m, s)
    ensures Pieces(m, s + ("," + rest)) == [s] + Pieces(TOP, rest)
    decreases |s|
  {
    var whole := s + ("," + rest);
    if s == "" {
      assert whole[1..] == rest && whole[0] == ',';
    } else {
      assert s == [s[0]] + s[1..];
      assert whole[1..] == s[1..] + ("," + rest) && whole[..1] == [s[0]];
      WholeStep(m, s[0], s[1..]);
      BalancedThenComma(Next(m, s[0]), s[1..], rest);
      assert ([s[1..]] + Pieces(TOP, rest))[1..] == Pieces(TOP, rest);
    }
  }

  /** Parts as the splitter returns them: trimmed, not empty, each but the last balanced and the last whole. */
  predicate AreParts(parts: seq<string>) {
    && (forall p | p in parts :: p != "" && Trim(p) == p)
    && (parts != [] ==> AllBalanced(TOP, parts))
  }

  lemma {:induction false} JoinedPieces(parts: seq<string>)
    requires parts != [] && AllBalanced(TOP, parts)
    ensures Pieces(TOP, Join(parts)) == parts
  {
    if |parts| > 1 {
      JoinedPieces(parts[1..]);
      BalancedThenComma(TOP, parts[0], Join(parts[1..]));
    }
  }

  lemma {:induction false} KeptParts(parts: seq<string>)
    requires forall p | p in parts :: p != "" && Trim(p) == p
    ensures Kept(parts) == parts
  {
    if parts != [] {
      assert parts[0] in parts;
      forall p | p in parts[1..] ensures p != "" && Trim(p) == p {
        assert p in parts;
      }
      KeptParts(parts[1..]);
    }
  }

  lemma TrimTwice(s: string)
    ensures Trim(Trim(s)) == Trim(s)
  {
    var lead, tail := TrimSplits(s);
    TrimNothing(Trim(s));
  }

  /** What is kept of balanced pieces is a list of parts. */
  lemma {:induction false} KeptAreParts(pieces: seq<string>)
    requires |pieces| > 0 && AllBalanced(TOP, pieces)
    ensures AreParts(Kept(pieces))
  {
    TrimKeepsWhole(pieces[0]);
    TrimTwice(pieces[0]);
    var first := Trim(pieces[0]);
    if |pieces| == 1 {
      assert pieces[1..] == [];
      assert Kept(pieces) == KeptIfAny(first);
    } else {
      KeptAreParts(pieces[1..]);
      var others := Kept(pieces[1..]);
      assert Kept(pieces) == KeptIfAny(first) + others;
      if first != "" {
        PartsInFront(first, others);
      }
    }
  }

  lemma PartsInFront(first: string, others: seq<string>)
    requires first != "" && Trim(first) == first && Balanced(TOP, first) && AreParts(others)
    ensures AreParts([first] + others)
  {
    var parts := [first] + others;
    forall i | 0 < i < |parts| ensures if i == |parts| - 1 then Whole(TOP, parts[i]) else Balanced(TOP, parts[i]) {
      assert parts[i] == others[i - 1];
    }
  }

  /** Splitting again what was split and joined with commas changes nothing, for every input. */
  lemma SplitJoinSplit(input: string)
    ensures SplitArgs(Join(SplitArgs(input))) == SplitArgs(input)
  {
    PiecesAreBalanced(TOP, input);
    KeptAreParts(Pieces(TOP, input));
    var parts := SplitArgs(input);
    if parts != [] {
      JoinedPieces(parts);
      KeptParts(parts);
    } else {
      assert Pieces(TOP, "") == [""] && Kept([""]) == [];
    }
  }
}
