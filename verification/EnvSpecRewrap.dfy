/**
 * Quoting a slice again and taking it out of its quotes: what that does to its text and to the references
 * in it. It unescapes the backslash and quote pairs that are left in the slice.
 */
module EnvSpecRewrap {
  import opened Outcomes
  import opened Sequences
  import opened Strings
  import opened EnvSpecNodes
  import opened EnvSpecHoles
  import opened EnvSpecSplitting
  import opened EnvSpecStrings

  /** Quotes in which a string is expanded. */
  predicate IsQuoted(q: Quote) {
    q != NoQuote && q != SingleQuote
  }

  /** A text after it has been put between quotes and taken out again. */
  function Rewrapped(q: Quote, t: string): string
    requires IsQuoted(q)
  {
    ReplaceAll(t, ['\\', Mark(q)[0]], [Mark(q)[0]])
  }

  lemma SliceIsRewrapped(w: World, q: Quote, t: string)
    requires IsQuoted(q)
    ensures SliceValue(w, q, t) == Str(Rewrapped(q, t))
  {
    BetweenMarks(Mark(q), t);
  }

  // ----- rewrapping character by character

  ghost predicate Divides(q: Quote, a: string, b: string)
    requires IsQuoted(q)
  {
    EndsInBackslash(a) && b != "" && b[0] == Mark(q)[0]
  }

  lemma RewrappedSplits(q: Quote, a: string, b: string)
    requires IsQuoted(q) && !Divides(q, a, b)
    ensures Rewrapped(q, a + b) == Rewrapped(q, a) + Rewrapped(q, b)
  {
    ReplacePairSplits(a, b, '\\', Mark(q)[0], [Mark(q)[0]]);
  }

  lemma {:induction false} PlainIsKept(q: Quote, p: string)
    requires IsQuoted(q) && '\\' !in p
    ensures Rewrapped(q, p) == p
  {
    ReplacePairFixed(p, '\\', Mark(q)[0]);
  }

  lemma PlainPrefix(q: Quote, p: string, v: string)
    requires IsQuoted(q) && '\\' !in p
    ensures Rewrapped(q, p + v) == p + Rewrapped(q, v)
  {
    PlainIsKept(q, p);
    assert p != "" ==> p[|p| - 1] in p;
    RewrappedSplits(q, p, v);
  }

  lemma RewrappedStep(q: Quote, x: char, v: string)
    requires IsQuoted(q)
    ensures Rewrapped(q, [x] + v) ==
      if x == '\\' && v != "" && v[0] == Mark(q)[0] then [Mark(q)[0]] + Rewrapped(q, v[1..]) else [x] + Rewrapped(q, v)
  {
    UnescapeStep(x, v, Mark(q)[0]);
  }

  /** A first character that takes part in no pair stays, and none such appears. */
  lemma FirstStays(q: Quote, v: string, x: char)
    requires IsQuoted(q) && x != '\\' && x != Mark(q)[0]
    ensures v == "" <==> Rewrapped(q, v) == ""
    ensures v != "" && v[0] == x <==> Rewrapped(q, v) != "" && Rewrapped(q, v)[0] == x
  {
    if v != "" {
      assert v == [v[0]] + v[1..];
      RewrappedStep(q, v[0], v[1..]);
    }
  }

  lemma {:induction false} AbsentStays(q: Quote, d: string, x: char)
    requires IsQuoted(q) && x != Mark(q)[0] && x !in d
    ensures x !in Rewrapped(q, d)
    decreases |d|
  {
    if d != "" {
      assert d == [d[0]] + d[1..];
      RewrappedStep(q, d[0], d[1..]);
      AbsentStays(q, d[1..], x);
      if d[1..] != "" {
        AbsentStays(q, d[2..], x);
        assert d[1..][1..] == d[2..];
      }
    }
  }

  lemma {:induction false} LastStays(q: Quote, g: string)
    requires IsQuoted(q)
    ensures EndsInBackslash(Rewrapped(q, g)) <==> EndsInBackslash(g)
  {
    if EndsInBackslash(g) {
      var n := |g| - 1;
      assert g == g[..n] + "\\";
      RewrappedSplits(q, g[..n], "\\");
      PlainTail(q, g[..n]);
    } else {
      LastKept(g, Mark(q)[0]);
    }
  }

  lemma PlainTail(q: Quote, a: string)
    requires IsQuoted(q)
    ensures Rewrapped(q, a) + Rewrapped(q, "\\") == Rewrapped(q, a) + "\\"
  {
  }

  // ----- a bracketed reference at the start

  lemma {:induction false} NameEndIs(s: string, i: nat, n: nat)
    requires i <= n <= |s| && (forall k | i <= k < n :: IsNameChar(s[k], true))
    requires n < |s| ==> !IsNameChar(s[n], true)
    ensures NameEnd(s, i, true) == n
    decreases n - i
  {
    if i < n {
      NameEndIs(s, i + 1, n);
    }
  }

  lemma {:induction false} FindCharIs(s: string, c: char, i: nat, n: nat)
    requires i <= n <= |s| && (forall k | i <= k < n :: s[k] != c) && (n < |s| ==> s[n] == c)
    ensures FindChar(s, c, i) == n
    decreases n - i
  {
    if i < n {
      FindCharIs(s, c, i + 1, n);
    }
  }

  function RewrappedPiece(q: Quote, p: Piece): Piece
    requires IsQuoted(q)
  {
    match p
    case Lit(t) => Lit(Rewrapped(q, t))
    case RefOr(name, d) => RefOr(name, Rewrapped(q, d))
    case _ => p
  }

  function RewrappedPieces(q: Quote, ps: seq<Piece>): seq<Piece>
    requires IsQuoted(q)
  {
    if ps == [] then [] else [RewrappedPiece(q, ps[0])] + RewrappedPieces(q, ps[1..])
  }

  /** The reference `h` at the start of a text, seen after rewrapping. */
  function RewrappedHole(q: Quote, u: string, h: Option<Hole>): Option<Hole>
    requires IsQuoted(q) && (h.Some? ==> h.value.end <= |u|)
  {
    match h
    case None => None
    case Some(h) => Some(Hole(0, |Rewrapped(q, u[..h.end])|, RewrappedPiece(q, h.piece)))
  }

  /** A default `d` and its brace behind `p`. */
  lemma DefaultBehind(name: string, p: string, d: string, rest: string, u: string)
    requires u == p + d + rest && p != "" && p[|p| - 1] == '-' && '}' !in d && rest != "" && rest[0] == '}'
    ensures DefaultAt(u, 0, name, |p| - 1) == if d == "" then None else Some(Hole(0, |p| + |d| + 1, RefOr(name, d)))
    ensures |u| >= |p| + |d| + 1 && u[..|p| + |d| + 1] == p + (d + "}")
  {
    FindCharIs(u, '}', |p|, |p| + |d|);
    assert u[|p|..|p| + |d|] == d;
  }

  lemma NoDefaultBehind(name: string, p: string, r: string)
    requires p != "" && p[|p| - 1] == '-' && '}' !in r
    ensures DefaultAt(p + r, 0, name, |p| - 1).None?
  {
    FindCharIs(p + r, '}', |p|, |p + r|);
  }

  lemma DefaultInText(q: Quote, name: string, p: string, d: string, u: string, v: string)
    requires IsQuoted(q) && '\\' !in p && p != "" && |u| >= |p| + |d| + 1 && u[..|p| + |d| + 1] == p + (d + "}")
    requires d == "" <==> Rewrapped(q, d) == ""
    requires DefaultAt(u, 0, name, |p| - 1) == if d == "" then None else Some(Hole(0, |p| + |d| + 1, RefOr(name, d)))
    requires var e := Rewrapped(q, d);
      DefaultAt(v, 0, name, |p| - 1) == if e == "" then None else Some(Hole(0, |p| + |e| + 1, RefOr(name, e)))
    ensures DefaultAt(v, 0, name, |p| - 1) == RewrappedHole(q, u, DefaultAt(u, 0, name, |p| - 1))
  {
    WholeDefault(q, p, d);
  }

  lemma DefaultRewrapped(q: Quote, name: string, p: string, r: string)
    requires IsQuoted(q) && '\\' !in p && p != "" && p[|p| - 1] == '-'
    ensures DefaultAt(p + Rewrapped(q, r), 0, name, |p| - 1)
         == RewrappedHole(q, p + r, DefaultAt(p + r, 0, name, |p| - 1))
  {
    var n := FindChar(r, '}', 0);
    var d, rest := r[..n], r[n..];
    assert r == d + rest && '}' !in d;
    AbsentStays(q, d, '}');
    if rest == "" {
      assert d == r;
      NoDefaultBehind(name, p, r);
      NoDefaultBehind(name, p, Rewrapped(q, r));
    } else {
      RewrappedSplits(q, d, rest);
      DefaultSplit(q, name, p, d, rest);
      Associate(p, d, rest);
      Associate(p, Rewrapped(q, d), Rewrapped(q, rest));
    }
  }

  lemma DefaultSplit(q: Quote, name: string, p: string, d: string, rest: string)
    requires IsQuoted(q) && '\\' !in p && p != "" && p[|p| - 1] == '-'
    requires '}' !in d && '}' !in Rewrapped(q, d) && rest != "" && rest[0] == '}'
    ensures DefaultAt(p + Rewrapped(q, d) + Rewrapped(q, rest), 0, name, |p| - 1)
         == RewrappedHole(q, p + d + rest, DefaultAt(p + d + rest, 0, name, |p| - 1))
  {
    FirstStays(q, rest, '}');
    FirstStays(q, d, '}');
    var u, v := p + d + rest, p + Rewrapped(q, d) + Rewrapped(q, rest);
    DefaultBehind(name, p, d, rest, u);
    DefaultBehind(name, p, Rewrapped(q, d), Rewrapped(q, rest), v);
    DefaultInText(q, name, p, d, u, v);
  }

  lemma WholeDefault(q: Quote, p: string, d: string)
    requires IsQuoted(q) && '\\' !in p
    ensures |Rewrapped(q, p + (d + "}"))| == |p| + |Rewrapped(q, d)| + 1
  {
    PlainPrefix(q, p, d + "}");
    RewrappedSplits(q, d, "}");
    PlainIsKept(q, "}");
  }

  /** What follows the name, with `p` all of the text up to there. */
  lemma AfterNameRewrapped(q: Quote, name: string, p: string, v: string)
    requires IsQuoted(q) && '\\' !in p
    ensures AfterName(p + Rewrapped(q, v), 0, name, |p|) == RewrappedHole(q, p + v, AfterName(p + v, 0, name, |p|))
  {
    FirstStays(q, v, '}');
    FirstStays(q, v, ':');
    FirstStays(q, v, '-');
    if v != "" {
      if v[0] == '}' {
        assert (p + v)[..|p| + 1] == p + "}";
        PlainIsKept(q, p + "}");
      } else if v[0] == ':' {
        assert v == ":" + v[1..];
        PlainPrefix(q, ":", v[1..]);
        DashRewrapped(q, name, p + ":", v[1..]);
        Associate(p, ":", v[1..]);
        Associate(p, ":", Rewrapped(q, v[1..]));
      } else {
        DashRewrapped(q, name, p, v);
      }
    }
  }

  lemma DashRewrapped(q: Quote, name: string, p: string, v: string)
    requires IsQuoted(q) && '\\' !in p
    ensures DefaultAt(p + Rewrapped(q, v), 0, name, |p|) == RewrappedHole(q, p + v, DefaultAt(p + v, 0, name, |p|))
  {
    FirstStays(q, v, '-');
    if v != "" && v[0] == '-' {
      assert v == "-" + v[1..];
      PlainPrefix(q, "-", v[1..]);
      DefaultRewrapped(q, name, p + "-", v[1..]);
      Associate(p, "-", v[1..]);
      Associate(p, "-", Rewrapped(q, v[1..]));
    }
  }

  lemma NamedRewrapped(q: Quote, u: string, r: string)
    requires IsQuoted(q) && r == Rewrapped(q, u) && |u| > 2 && u[0] == '$' && u[1] == '{' && IsNameStart(u[2])
    ensures |r| > 2 && r[0] == '$' && r[1] == '{' && IsNameStart(r[2])
    ensures BracketedAt(r, 0) == RewrappedHole(q, u, BracketedAt(u, 0))
  {
    var n := NameEnd(u, 3, true);
    var p, v := u[..n], u[n..];
    assert u == p + v && '\\' !in p;
    PlainPrefix(q, p, v);
    NameStays(q, v);
    NameKept(p, Rewrapped(q, v), r, n);
    NamedAt(u, 0);
    NamedAt(r, 0);
    AfterNameRewrapped(q, u[2..n], p, v);
  }

  lemma NameKept(p: string, v: string, r: string, n: nat)
    requires r == p + v && n == |p| >= 3 && (forall k | 3 <= k < n :: IsNameChar(p[k], true))
    requires v != "" ==> !IsNameChar(v[0], true)
    ensures NameEnd(r, 3, true) == n && r[2..n] == p[2..n] && r[..3] == p[..3]
  {
    NameEndIs(r, 3, n);
  }

  lemma BracketedRewrapped(q: Quote, u: string)
    requires IsQuoted(q) && |u| >= 2 && u[0] == '$' && u[1] == '{'
    ensures |Rewrapped(q, u)| >= 2 && Rewrapped(q, u)[0] == '$' && Rewrapped(q, u)[1] == '{'
    ensures BracketedAt(Rewrapped(q, u), 0) == RewrappedHole(q, u, BracketedAt(u, 0))
  {
    var rest := u[2..];
    assert u == "${" + rest;
    PlainPrefix(q, "${", rest);
    if rest != "" && IsNameStart(rest[0]) {
      NamedRewrapped(q, u, Rewrapped(q, u));
    } else if rest != "" {
      NoNameAppears(q, rest);
    }
  }

  /** A text that does not go on with a name character does not after rewrapping. */
  lemma NameStays(q: Quote, v: string)
    requires IsQuoted(q) && (v != "" ==> !IsNameChar(v[0], true))
    ensures Rewrapped(q, v) != "" ==> !IsNameChar(Rewrapped(q, v)[0], true)
  {
    if v != "" {
      assert v == [v[0]] + v[1..];
      RewrappedStep(q, v[0], v[1..]);
    }
  }

  lemma NoNameAppears(q: Quote, v: string)
    requires IsQuoted(q) && v != "" && !IsNameStart(v[0])
    ensures Rewrapped(q, v) != "" && !IsNameStart(Rewrapped(q, v)[0])
  {
    assert v == [v[0]] + v[1..];
    RewrappedStep(q, v[0], v[1..]);
  }

  /** Rewrapping commutes with finding a bracketed reference. */
  lemma HoleRewrapped(q: Quote, u: string)
    requires IsQuoted(q)
    ensures HoleAt(BRACKETED, Rewrapped(q, u), 0) == RewrappedHole(q, u, HoleAt(BRACKETED, u, 0))
  {
    if u != "" {
      assert u == [u[0]] + u[1..];
      RewrappedStep(q, u[0], u[1..]);
      FirstStays(q, u[1..], '{');
      if |u| >= 2 && u[0] == '$' && u[1] == '{' {
        BracketedRewrapped(q, u);
      }
    }
  }

  // ----- the pieces of a rewrapped text

  function Lits(g: string): seq<Piece> {
    if g == "" then [] else [Lit(g)]
  }

  /** The pieces of the last pass, where the literal `g` is open and `u` is still to be read. */
  ghost function Cutting(g: string, u: string): seq<Piece>
    decreases |u|
  {
    if u == "" then Lits(g)
    else if EndsInBackslash(g) then Cutting(g + [u[0]], u[1..])
    else
      match HoleAt(BRACKETED, u, 0)
      case Some(h) => Lits(g) + ([h.piece] + Cutting("", u[h.end..]))
      case None => Cutting(g + [u[0]], u[1..])
  }

  lemma OnwardSlices(t: string, last: nat, i: nat)
    requires last <= i < |t|
    ensures t[last..i] + [t[i]] == t[last..i + 1] && t[i..][1..] == t[i + 1..] && t[i..][0] == t[i]
  {
  }

  lemma HoleBehind(t: string, last: nat, i: nat)
    requires last <= i < |t| && (last < i || last == 0 || t[last - 1] != '\\')
    ensures EndsInBackslash(t[last..i]) ==> HoleAt(BRACKETED, t, i).None?
    ensures !EndsInBackslash(t[last..i]) ==> HoleAt(BRACKETED, t, i) == Moved(HoleAt(BRACKETED, t[i..], 0), i)
  {
    if !EndsInBackslash(t[last..i]) {
      assert last < i ==> t[last..i][i - last - 1] == t[i - 1];
      HoleAtShift(BRACKETED, t, i, 0);
    }
  }

  lemma BraceEnds(s: string, i: nat, h: Hole)
    requires HoleAt(BRACKETED, s, i) == Some(h)
    ensures s[h.end - 1] == '}'
  {
  }

  lemma CuttingOn(g: string, u: string)
    requires u != "" && (EndsInBackslash(g) || HoleAt(BRACKETED, u, 0).None?)
    ensures Cutting(g, u) == Cutting(g + [u[0]], u[1..])
  {
  }

  /** From `i` on, with the literal open since `last`, both descriptions give the same pieces. */
  ghost predicate Matches(t: string, last: nat, i: nat)
    requires last <= i <= |t|
  {
    Parts(t, last, |t|, Holes(BRACKETED, t, i)) == Cutting(t[last..i], t[i..])
  }

  /** A character that starts no reference, in the string and in its tail. */
  lemma CuttingNext(t: string, last: nat, i: nat)
    requires last <= i < |t| && HoleAt(BRACKETED, t, i).None? && Matches(t, last, i + 1)
    requires EndsInBackslash(t[last..i]) || HoleAt(BRACKETED, t[i..], 0).None?
    ensures Matches(t, last, i)
  {
    OnwardSlices(t, last, i);
    CuttingOn(t[last..i], t[i..]);
    ReadOneIs(BRACKETED, t, i, None);
  }

  lemma CuttingHole(g: string, u: string, h: Hole)
    requires u != "" && !EndsInBackslash(g) && HoleAt(BRACKETED, u, 0) == Some(h)
    ensures Cutting(g, u) == Lits(g) + ([h.piece] + Cutting("", u[h.end..]))
  {
  }

  lemma LitsInFront(t: string, last: nat, i: nat)
    requires last <= i <= |t|
    ensures Lits(t[last..i]) == if last < i then [Lit(t[last..i])] else []
  {
  }

  lemma PartsAtEnd(t: string, last: nat)
    requires last <= |t|
    ensures Matches(t, last, |t|)
  {
    LitsInFront(t, last, |t|);
  }

  lemma TailOfTail(t: string, i: nat, e: nat)
    requires i <= e <= |t|
    ensures t[i..][e - i..] == t[e..] && t[e..e] == ""
  {
  }

  lemma PartsFromHole(t: string, last: nat, i: nat, h: Hole)
    requires last <= i < |t| && HoleAt(BRACKETED, t, i) == Some(h) && !EndsInBackslash(t[last..i])
    requires Some(h) == Moved(HoleAt(BRACKETED, t[i..], 0), i) && Matches(t, h.end, h.end)
    ensures Matches(t, last, i)
  {
    ReadOneIs(BRACKETED, t, i, Some(h));
    TailOfTail(t, i, h.end);
    PartsFirst(t, last, |t|, h, Holes(BRACKETED, t, h.end));
    LitsInFront(t, last, i);
    HoleInFront(t[last..i], t[i..], i, h, t[h.end..]);
  }

  lemma HoleInFront(g: string, u: string, i: nat, h: Hole, rest: string)
    requires u != "" && !EndsInBackslash(g) && Some(h) == Moved(HoleAt(BRACKETED, u, 0), i)
    requires i <= h.end <= i + |u| && u[h.end - i..] == rest
    ensures Cutting(g, u) == Lits(g) + ([h.piece] + Cutting("", rest))
  {
    CuttingHole(g, u, HoleAt(BRACKETED, u, 0).value);
  }

  lemma NextCharacter(t: string, last: nat, i: nat)
    requires last <= i < |t| && (last < i || last == 0 || t[last - 1] != '\\') && HoleAt(BRACKETED, t, i).None?
    ensures Matches(t, last, i + 1) ==> Matches(t, last, i)
  {
    HoleBehind(t, last, i);
    if Matches(t, last, i + 1) {
      CuttingNext(t, last, i);
    }
  }

  lemma NextHole(t: string, last: nat, i: nat, h: Hole)
    requires last <= i < |t| && (last < i || last == 0 || t[last - 1] != '\\') && HoleAt(BRACKETED, t, i) == Some(h)
    ensures t[h.end - 1] != '\\' && (Matches(t, h.end, h.end) ==> Matches(t, last, i))
  {
    HoleBehind(t, last, i);
    BraceEnds(t, i, h);
    if Matches(t, h.end, h.end) {
      PartsFromHole(t, last, i, h);
    }
  }

  /** Where the reading goes on, and whether with a new literal. */
  lemma NextMatch(t: string, last: nat, i: nat) returns (next: nat, anew: bool)
    requires last <= i < |t| && (last < i || last == 0 || t[last - 1] != '\\')
    ensures i < next <= |t|
    ensures if anew then t[next - 1] != '\\' && (Matches(t, next, next) ==> Matches(t, last, i))
      else next == i + 1 && (Matches(t, last, next) ==> Matches(t, last, i))
  {
    match HoleAt(BRACKETED, t, i)
    case None =>
      next, anew := i + 1, false;
      NextCharacter(t, last, i);
    case Some(h) =>
      next, anew := h.end, true;
      NextHole(t, last, i, h);
  }

  lemma {:induction false} PartsAreCutting(t: string, last: nat, i: nat)
    requires last <= i <= |t| && (last < i || last == 0 || t[last - 1] != '\\')
    ensures Matches(t, last, i)
    decreases |t| - i
  {
    if i == |t| {
      PartsAtEnd(t, last);
    } else {
      var next, anew := NextMatch(t, last, i);
      PartsAreCutting(t, if anew then next else last, next);
    }
  }

  lemma SplitIsCutting(t: string)
    ensures Split(BRACKETED, t) == Cutting("", t)
  {
    PartsAreCutting(t, 0, 0);
    assert t[0..0] == "" && t[0..] == t;
  }

  lemma RewrappedCons(q: Quote, p: Piece, ps: seq<Piece>)
    requires IsQuoted(q)
    ensures RewrappedPieces(q, [p] + ps) == [RewrappedPiece(q, p)] + RewrappedPieces(q, ps)
  {
    assert ([p] + ps)[1..] == ps;
  }

  lemma LitsRewrapped(q: Quote, g: string, ps: seq<Piece>)
    requires IsQuoted(q)
    ensures RewrappedPieces(q, Lits(g) + ps) == Lits(Rewrapped(q, g)) + RewrappedPieces(q, ps)
  {
    if g == "" {
      assert [] + ps == ps && [] + RewrappedPieces(q, ps) == RewrappedPieces(q, ps);
    } else {
      FirstStays(q, g, '}');
      RewrappedCons(q, Lit(g), ps);
    }
  }

  /** Where the first character is no reference it joins the literal, on both sides. */
  lemma {:induction false} CharRewrapped(q: Quote, g: string, u: string)
    requires IsQuoted(q) && !Divides(q, g, u) && u != ""
    requires EndsInBackslash(g) || HoleAt(BRACKETED, u, 0).None?
    ensures RewrappedPieces(q, Cutting(g, u)) == Cutting(Rewrapped(q, g), Rewrapped(q, u))
    decreases |u|, 0
  {
    var x, v, m := u[0], u[1..], Mark(q)[0];
    assert u == [x] + v;
    LastStays(q, g);
    HoleRewrapped(q, u);
    RewrappedStep(q, x, v);
    if x == '\\' && v != "" && v[0] == m {
      var longer := g + ['\\'] + [m];
      assert Cutting(g, u) == Cutting(g + ['\\'], v) == Cutting(longer, v[1..]);
      CuttingRewrapped(q, longer, v[1..]);
      PairJoins(q, g);
      assert Rewrapped(q, u)[1..] == Rewrapped(q, v[1..]);
    } else {
      assert Cutting(g, u) == Cutting(g + [x], v);
      CuttingRewrapped(q, g + [x], v);
      OneJoins(q, g, x);
      assert Rewrapped(q, u)[1..] == Rewrapped(q, v);
    }
  }

  lemma PairJoins(q: Quote, g: string)
    requires IsQuoted(q)
    ensures Rewrapped(q, g + ['\\'] + [Mark(q)[0]]) == Rewrapped(q, g) + [Mark(q)[0]]
  {
    var m := Mark(q)[0];
    assert g + ['\\'] + [m] == g + ['\\', m] && ['\\', m] == ['\\'] + [m] && [m][1..] == "";
    RewrappedSplits(q, g, ['\\', m]);
    RewrappedStep(q, '\\', [m]);
    assert Rewrapped(q, "") == "";
  }

  lemma OneJoins(q: Quote, g: string, x: char)
    requires IsQuoted(q) && !Divides(q, g, [x])
    ensures Rewrapped(q, g + [x]) == Rewrapped(q, g) + [x]
  {
    RewrappedSplits(q, g, [x]);
  }

  lemma {:induction false} CuttingRewrapped(q: Quote, g: string, u: string)
    requires IsQuoted(q) && !Divides(q, g, u)
    ensures RewrappedPieces(q, Cutting(g, u)) == Cutting(Rewrapped(q, g), Rewrapped(q, u))
    decreases |u|, 1
  {
    if u == "" {
      LitsRewrapped(q, g, []);
      assert Lits(g) + [] == Lits(g) && Lits(Rewrapped(q, g)) + [] == Lits(Rewrapped(q, g));
    } else if EndsInBackslash(g) || HoleAt(BRACKETED, u, 0).None? {
      CharRewrapped(q, g, u);
    } else {
      var h := HoleAt(BRACKETED, u, 0).value;
      var head, tail := u[..h.end], u[h.end..];
      BraceEnds(u, 0, h);
      assert u == head + tail && head[|head| - 1] == '}';
      RewrappedSplits(q, head, tail);
      LastStays(q, g);
      HoleRewrapped(q, u);
      FirstStays(q, u, '$');
      CuttingRewrapped(q, "", tail);
      assert Rewrapped(q, u)[|Rewrapped(q, head)|..] == Rewrapped(q, tail);
      LitsRewrapped(q, g, [h.piece] + Cutting("", tail));
      RewrappedCons(q, h.piece, Cutting("", tail));
    }
  }

  /** Rewrapping a text rewraps its pieces. */
  lemma SplitRewrapped(q: Quote, t: string)
    requires IsQuoted(q)
    ensures Split(BRACKETED, Rewrapped(q, t)) == RewrappedPieces(q, Split(BRACKETED, t))
  {
    SplitIsCutting(t);
    SplitIsCutting(Rewrapped(q, t));
    CuttingRewrapped(q, "", t);
  }

  // ----- what rewrapping does to a text

  lemma BackslashStays(q: Quote, v: string)
    requires q != SingleQuote && (v == "" || (v[0] != '$' && v[0] != 'n'))
    ensures Unescape(q, ['\\'] + v) == ['\\'] + Unescape(q, v)
  {
    UnescapeStep('\\', v, '$');
    var y := UnescapeQuote(v, '$');
    if v != "" {
      assert v == [v[0]] + v[1..];
      UnescapeStep(v[0], v[1..], '$');
      PairPrefix(['\\'] + y, '\\', 'n');
    }
    assert (['\\'] + y)[1..] == y;
  }

  lemma ShortTexts(q: Quote, x: char)
    requires q != SingleQuote && x != '$' && x != 'n'
    ensures Unescape(q, [x]) == [x] && Unescape(q, ['\\', x]) == ['\\', x]
  {
    assert ['\\', x] == ['\\'] + [x];
    BackslashStays(q, [x]);
  }

  /** Rewrapping shortens the text exactly when a pair is left in it. */
  lemma {:induction false} RewrappedShortens(q: Quote, t: string)
    requires IsQuoted(q)
    ensures |Unescape(q, Rewrapped(q, t))| <= |Unescape(q, t)|
    ensures HasPair(t, '\\', Mark(q)[0]) ==> |Unescape(q, Rewrapped(q, t))| < |Unescape(q, t)|
    decreases |t|, 0
  {
    if t != "" {
      var x, v, m := t[0], t[1..], Mark(q)[0];
      assert t == [x] + v;
      RewrappedStep(q, x, v);
      if v != "" {
        PairCons(t, '\\', m);
      }
      if x != '\\' {
        RewrappedShortens(q, v);
        UnescapeSplits(q, [x], v);
        UnescapeSplits(q, [x], Rewrapped(q, v));
      } else if v != "" && v[0] == m {
        PairShortens(q, v[1..]);
        assert t == ['\\', m] + v[1..];
      } else {
        BackslashShortens(q, v);
      }
    }
  }

  lemma {:induction false} PairShortens(q: Quote, v: string)
    requires IsQuoted(q)
    ensures |Unescape(q, [Mark(q)[0]] + Rewrapped(q, v))| < |Unescape(q, ['\\', Mark(q)[0]] + v)|
    decreases |v|, 1
  {
    var m := Mark(q)[0];
    ShortTexts(q, m);
    RewrappedShortens(q, v);
    UnescapeSplits(q, [m], Rewrapped(q, v));
    UnescapeSplits(q, ['\\', m], v);
  }

  lemma {:induction false} EscapeShortens(q: Quote, y: char, v: string)
    requires IsQuoted(q) && y != Mark(q)[0] && y != '\\'
    ensures |Unescape(q, ['\\', y] + Rewrapped(q, v))| <= |Unescape(q, ['\\', y] + v)|
    ensures HasPair(v, '\\', Mark(q)[0]) ==>
      |Unescape(q, ['\\', y] + Rewrapped(q, v))| < |Unescape(q, ['\\', y] + v)|
    decreases |v|, 1
  {
    RewrappedShortens(q, v);
    UnescapeSplits(q, ['\\', y], Rewrapped(q, v));
    UnescapeSplits(q, ['\\', y], v);
  }

  lemma {:induction false} BackslashShortens(q: Quote, v: string)
    requires IsQuoted(q) && (v == "" || v[0] != Mark(q)[0])
    ensures |Unescape(q, ['\\'] + Rewrapped(q, v))| <= |Unescape(q, ['\\'] + v)|
    ensures HasPair(v, '\\', Mark(q)[0]) ==>
      |Unescape(q, ['\\'] + Rewrapped(q, v))| < |Unescape(q, ['\\'] + v)|
    decreases |v|, 1
  {
    if v != "" && (v[0] == '$' || v[0] == 'n') {
      var y, rest := v[0], v[1..];
      assert v == [y] + rest;
      RewrappedStep(q, y, rest);
      LaterPair(v, Mark(q)[0]);
      EscapeShortens(q, y, rest);
      Associate(['\\'], [y], rest);
      Associate(['\\'], [y], Rewrapped(q, rest));
      assert ['\\'] + [y] == ['\\', y];
    } else {
      FirstStays(q, v, '$');
      FirstStays(q, v, 'n');
      RewrappedShortens(q, v);
      BackslashStays(q, v);
      BackslashStays(q, Rewrapped(q, v));
    }
  }

  lemma LaterPair(v: string, m: char)
    requires v != "" && v[0] != '\\'
    ensures HasPair(v, '\\', m) <==> HasPair(v[1..], '\\', m)
  {
    if |v| >= 2 {
      PairCons(v, '\\', m);
    }
  }
}
