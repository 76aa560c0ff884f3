/**
 * How the three passes cut a string: what the command scanner reports, that no text is lost, and that
 * cutting in several passes gives the pieces of one left-to-right reading when no reference is cut.
 */
module EnvSpecSplitting {
  import opened Outcomes
  import opened Sequences
  import opened EnvSpecHoles

  /** A hole that was found is the hole at its start. */
  lemma HoleOf(kinds: Kinds, s: string, h: Hole)
    requires h in Holes(kinds, s, 0)
    ensures HoleAt(kinds, s, h.start) == Some(h)
  {
    HolesInOrder(kinds, s, 0);
  }

  // ----- the command scanner reports everything that closes

  lemma {:induction false} UnreportedFrom(s: string, i: nat, p: nat)
    requires i <= p && OpensExec(s, p)
    requires forall h | h in Holes(EXECS, s, i) :: !(h.start <= p < h.end)
    ensures exists u: nat ::
              && i <= u <= p && OpensExec(s, u) && NeverCloses(s, u + 2)
              && (forall h | h in Holes(EXECS, s, i) :: h.end <= u)
    decreases |s| - i
  {
    match HoleAt(EXECS, s, i)
    case Some(h) =>
      assert h in Holes(EXECS, s, i);
      UnreportedFrom(s, h.end, p);
    case None =>
      if OpensExec(s, i) {
        CloseOfIsFirst(s, i);
        NothingSought(s, i + 1);
      } else {
        UnreportedFrom(s, i + 1, p);
      }
  }

  lemma NothingSought(s: string, i: nat)
    ensures Holes(Kinds(false, false, false), s, i) == []
    decreases |s| - i
  {
  }

  /** An unescaped `$(` outside every reported command lies at or after one that never closes. */
  lemma UnreportedIsUnbalanced(s: string, p: nat)
    requires OpensExec(s, p)
    requires forall h | h in Holes(EXECS, s, 0) :: !(h.start <= p < h.end)
    ensures exists u: nat ::
              && u <= p && OpensExec(s, u) && NeverCloses(s, u + 2)
              && (forall h | h in Holes(EXECS, s, 0) :: h.end <= u)
  {
    UnreportedFrom(s, 0, p);
  }

  lemma Delimited(s: string, i: nat, j: nat, k: nat, open: string, close: string)
    requires i <= j <= k <= |s| && |open| == j - i
    requires s[i..j] == open && k + |close| <= |s| && s[k..k + |close|] == close
    ensures s[i..k + |close|] == open + s[j..k] + close
  {
  }

  lemma ExecHole(s: string, h: Hole)
    requires OpensExec(s, h.start) && ExecAt(s, h.start) == Some(h)
    ensures ClosesAt(s, h.start + 2, h.end) && h.end <= |s|
    ensures h.piece.Exec? && s[h.start..h.end] == RawOf(h.piece)
  {
    CloseOfIsFirst(s, h.start);
    assert s[h.start..h.start + 2] == "$(" && s[h.end - 1..h.end - 1 + 1] == ")";
    Delimited(s, h.start, h.start + 2, h.end - 1, "$(", ")");
  }

  /** Each reported command is `$(`, its text and `)`, cut at the first place where it balances. */
  lemma ReportedCommand(s: string, h: Hole)
    requires h in Holes(EXECS, s, 0)
    ensures OpensExec(s, h.start) && ClosesAt(s, h.start + 2, h.end) && h.end <= |s|
    ensures h.piece.Exec? && s[h.start..h.end] == RawOf(h.piece)
  {
    HoleOf(EXECS, s, h);
    SoughtCommand(s, h);
    ExecHole(s, h);
  }

  lemma SoughtCommand(s: string, h: Hole)
    requires HoleAt(EXECS, s, h.start) == Some(h)
    ensures OpensExec(s, h.start) && ExecAt(s, h.start) == Some(h)
  {
  }

  // ----- no text is lost

  /** The source text of a piece; a bracketed reference does not record its operator. */
  function RawOf(p: Piece): string {
    match p
    case Lit(t) => t
    case Ref(n) => "$" + n
    case RefOr(n, d) => "${" + n + ":-" + d + "}"
    case Exec(c) => "$(" + c + ")"
  }

  function RawText(ps: seq<Piece>): string {
    if ps == [] then "" else RawOf(ps[0]) + RawText(ps[1..])
  }

  lemma Glue(s: string, i: nat, j: nat)
    requires i <= j <= |s|
    ensures s[i..j] + s[j..] == s[i..]
  {
  }

  ghost predicate Faithful(s: string, h: Hole) {
    h.start <= h.end <= |s| && s[h.start..h.end] == RawOf(h.piece)
  }

  lemma PartsFirst(s: string, last: nat, end: nat, h: Hole, hs: seq<Hole>)
    requires end <= |s| && h.start <= |s|
    ensures Parts(s, last, end, [h] + hs)
      == (if last < h.start then [Lit(s[last..h.start])] else []) + ([h.piece] + Parts(s, h.end, end, hs))
  {
    assert ([h] + hs)[1..] == hs;
  }

  lemma {:induction false} PartsKeepText(s: string, last: nat, holes: seq<Hole>)
    requires last <= |s| && InOrder(s, last, holes)
    requires forall h | h in holes :: Faithful(s, h)
    ensures RawText(Parts(s, last, |s|, holes)) == s[last..]
    decreases |holes|
  {
    if holes == [] {
      assert s[last..|s|] == s[last..];
      assert RawText([Lit(s[last..])]) == s[last..];
    } else {
      var h := holes[0];
      assert Faithful(s, h);
      PartsKeepText(s, h.end, holes[1..]);
      var rest := Parts(s, h.end, |s|, holes[1..]);
      var tail := [h.piece] + rest;
      assert tail[1..] == rest;
      Glue(s, h.start, h.end);
      assert RawText(tail) == s[h.start..];
      assert holes == [h] + holes[1..];
      PartsFirst(s, last, |s|, h, holes[1..]);
      if last < h.start {
        var lit := Lit(s[last..h.start]);
        assert ([lit] + tail)[1..] == tail;
        Glue(s, last, h.start);
      } else {
        assert [] + tail == tail;
      }
    }
  }

  /** The raw texts of the pieces of a command split, or of a simple reference split, rebuild the input. */
  lemma SplitKeepsText(kinds: Kinds, s: string)
    requires !kinds.bracketed
    ensures RawText(Split(kinds, s)) == s
  {
    HolesInOrder(kinds, s, 0);
    forall h | h in Holes(kinds, s, 0) ensures Faithful(s, h) {
      assert HoleAt(kinds, s, h.start) == Some(h);
      if s[h.start + 1] == '(' {
        ExecHole(s, h);
      } else {
        assert s[h.start..h.start + 1] == "$";
        assert s[h.start..h.end] == s[h.start..h.start + 1] + s[h.start + 1..h.end];
      }
    }
    PartsKeepText(s, 0, Holes(kinds, s, 0));
  }

  // ----- windows and shifts

  lemma TakeSlice(s: string, b: nat, i: nat, j: nat)
    requires i <= j <= b <= |s|
    ensures s[..b][i..j] == s[i..j]
  {
  }

  lemma DropSlice(s: string, a: nat, i: nat, j: nat)
    requires i <= j && a + j <= |s|
    ensures s[a..][i..j] == s[a + i..a + j]
  {
  }

  lemma {:induction false} NameEndWindow(s: string, b: nat, i: nat, dots: bool)
    requires i <= b <= |s| && (b < |s| ==> s[b] == '$')
    ensures NameEnd(s[..b], i, dots) == NameEnd(s, i, dots) <= b
    decreases |s| - i
  {
    if i < b {
      assert s[..b][i] == s[i];
      if IsNameChar(s[i], dots) {
        NameEndWindow(s, b, i + 1, dots);
      }
    }
  }

  lemma {:induction false} FindCharWindow(s: string, b: nat, c: char, i: nat)
    requires i <= b <= |s|
    ensures FindChar(s[..b], c, i) == if FindChar(s, c, i) <= b then FindChar(s, c, i) else b
    decreases |s| - i
  {
    if i < b {
      assert s[..b][i] == s[i];
      if s[i] != c {
        FindCharWindow(s, b, c, i + 1);
      }
    }
  }

  lemma SimpleAtWindow(s: string, b: nat, i: nat)
    requires i + 1 < b <= |s| && (b < |s| ==> s[b] == '$')
    requires Dollar(s, i) && IsNameStart(s[i + 1])
    ensures Dollar(s[..b], i) && SimpleAt(s[..b], i) == SimpleAt(s, i) && SimpleAt(s, i).value.end <= b
  {
    NameEndWindow(s, b, i + 2, false);
    TakeSlice(s, b, i + 1, NameEnd(s, i + 2, false));
  }

  lemma DefaultAtWindow(s: string, b: nat, i: nat, name: string, dash: nat)
    requires b <= |s|
    ensures DefaultAt(s[..b], i, name, dash) == EndingBy(DefaultAt(s, i, name, dash), b)
  {
    if dash < b && s[dash] == '-' {
      FindCharWindow(s, b, '}', dash + 1);
      TakeSlice(s, b, dash + 1, FindChar(s[..b], '}', dash + 1));
    }
  }

  lemma AfterNameWindow(s: string, b: nat, i: nat, name: string, n: nat)
    requires n <= b <= |s|
    ensures AfterName(s[..b], i, name, n) == EndingBy(AfterName(s, i, name, n), b)
  {
    if n < b {
      assert s[..b][n] == s[n];
      DefaultAtWindow(s, b, i, name, if s[n] == ':' then n + 1 else n);
    }
  }

  lemma NamedAt(s: string, i: nat)
    requires Dollar(s, i) && s[i + 1] == '{' && i + 2 < |s| && IsNameStart(s[i + 2])
    ensures var n := NameEnd(s, i + 3, true); BracketedAt(s, i) == AfterName(s, i, s[i + 2..n], n)
  {
  }

  lemma BracketedAtWindow(s: string, b: nat, i: nat)
    requires i + 1 < b <= |s| && (b < |s| ==> s[b] == '$')
    requires Dollar(s, i) && s[i + 1] == '{'
    ensures Dollar(s[..b], i) && BracketedAt(s[..b], i) == EndingBy(BracketedAt(s, i), b)
  {
    if i + 2 < b && IsNameStart(s[i + 2]) {
      NamedAt(s, i);
      NamedAt(s[..b], i);
      NameEndWindow(s, b, i + 3, true);
      var n := NameEnd(s, i + 3, true);
      TakeSlice(s, b, i + 2, n);
      AfterNameWindow(s, b, i, s[i + 2..n], n);
    }
  }

  function EndingBy(h: Option<Hole>, b: nat): Option<Hole> {
    if h.Some? && h.value.end <= b then h else None
  }

  /** Cutting the string at a `$` keeps exactly the references that end before the cut. */
  lemma HoleAtWindow(kinds: Kinds, s: string, b: nat, i: nat)
    requires !kinds.exec && i < b <= |s| && (b < |s| ==> s[b] == '$')
    ensures HoleAt(kinds, s[..b], i) == EndingBy(HoleAt(kinds, s, i), b)
  {
    if Dollar(s, i) && i + 1 < b {
      if s[i + 1] == '{' {
        BracketedAtWindow(s, b, i);
      } else if IsNameStart(s[i + 1]) {
        SimpleAtWindow(s, b, i);
      }
    }
  }

  function Shift(h: Hole, a: nat): Hole {
    Hole(h.start + a, h.end + a, h.piece)
  }

  function ShiftAll(hs: seq<Hole>, a: nat): seq<Hole> {
    if hs == [] then [] else [Shift(hs[0], a)] + ShiftAll(hs[1..], a)
  }

  lemma {:induction false} NameEndShift(s: string, a: nat, i: nat, dots: bool)
    requires a + i <= |s|
    ensures NameEnd(s[a..], i, dots) + a == NameEnd(s, a + i, dots)
    decreases |s| - i
  {
    if a + i < |s| && IsNameChar(s[a + i], dots) {
      NameEndShift(s, a, i + 1, dots);
    }
  }

  lemma {:induction false} FindCharShift(s: string, a: nat, c: char, i: nat)
    requires a + i <= |s|
    ensures FindChar(s[a..], c, i) + a == FindChar(s, c, a + i)
    decreases |s| - i
  {
    if a + i < |s| && s[a + i] != c {
      FindCharShift(s, a, c, i + 1);
    }
  }

  lemma SimpleAtShift(s: string, a: nat, i: nat)
    requires a <= |s| && Dollar(s[a..], i) && Dollar(s, a + i) && IsNameStart(s[a + i + 1])
    ensures SimpleAt(s, a + i) == Moved(SimpleAt(s[a..], i), a)
  {
    NameEndShift(s, a, i + 2, false);
    DropSlice(s, a, i + 1, NameEnd(s[a..], i + 2, false));
  }

  lemma DefaultAtShift(s: string, a: nat, i: nat, name: string, dash: nat)
    requires a <= |s|
    ensures DefaultAt(s, a + i, name, a + dash) == Moved(DefaultAt(s[a..], i, name, dash), a)
  {
    if a + dash < |s| && s[a + dash] == '-' {
      FindCharShift(s, a, '}', dash + 1);
      var close := FindChar(s[a..], '}', dash + 1);
      DropSlice(s, a, dash + 1, close);
    }
  }

  lemma AfterNameShift(s: string, a: nat, i: nat, name: string, n: nat)
    requires a + n <= |s|
    ensures AfterName(s, a + i, name, a + n) == Moved(AfterName(s[a..], i, name, n), a)
  {
    if a + n < |s| {
      assert s[a..][n] == s[a + n];
      DefaultAtShift(s, a, i, name, if s[a + n] == ':' then n + 1 else n);
    }
  }

  lemma NamedShift(s: string, a: nat, t: string, i: nat, j: nat)
    requires a <= |s| && t == s[a..] && j == a + i && i + 2 < |t| && IsNameStart(t[i + 2])
    requires Dollar(t, i) && t[i + 1] == '{' && Dollar(s, j) && s[j + 1] == '{'
    ensures BracketedAt(s, j) == Moved(BracketedAt(t, i), a)
  {
    var n, m := NameShift(s, a, t, i, j);
    NamedAt(t, i);
    NamedAt(s, j);
    AfterNameShift(s, a, i, t[i + 2..n], n);
  }

  lemma BracketedAtShift(s: string, a: nat, t: string, i: nat, j: nat)
    requires a <= |s| && t == s[a..] && j == a + i
    requires Dollar(t, i) && t[i + 1] == '{' && Dollar(s, j) && s[j + 1] == '{'
    ensures BracketedAt(s, j) == Moved(BracketedAt(t, i), a)
  {
    if i + 2 < |t| {
      assert t[i + 2] == s[j + 2];
      if IsNameStart(t[i + 2]) {
        NamedShift(s, a, t, i, j);
      }
    }
  }

  lemma NameShift(s: string, a: nat, t: string, i: nat, j: nat) returns (n: nat, m: nat)
    requires a <= |s| && t == s[a..] && j == a + i && i + 2 < |t|
    ensures n == NameEnd(t, i + 3, true) && m == NameEnd(s, j + 3, true) == a + n && i + 2 <= n <= |t|
    ensures t[i + 2..n] == s[j + 2..m]
  {
    n, m := NameEnd(t, i + 3, true), NameEnd(s, j + 3, true);
    NameEndShift(s, a, i + 3, true);
    DropSlice(s, a, i + 2, n);
  }

  function Moved(h: Option<Hole>, a: nat): Option<Hole> {
    if h.Some? then Some(Shift(h.value, a)) else None
  }

  lemma HoleAtShift(kinds: Kinds, s: string, a: nat, i: nat)
    requires !kinds.exec && a + i < |s| && (a == 0 || s[a - 1] != '\\')
    ensures HoleAt(kinds, s, a + i) == Moved(HoleAt(kinds, s[a..], i), a)
  {
    var t := s[a..];
    assert i > 0 ==> t[i - 1] == s[a + i - 1];
    assert Dollar(t, i) == Dollar(s, a + i);
    if Dollar(t, i) {
      if t[i + 1] == '{' {
        BracketedAtShift(s, a, t, i, a + i);
      } else if IsNameStart(t[i + 1]) {
        SimpleAtShift(s, a, i);
      }
    }
  }

  lemma ReadOneAlone(k2: Kinds, s: string, i: nat)
    requires !k2.exec && i < |s|
    ensures match HoleAt(k2, s, i)
      case Some(h) => Holes(k2, s, i) == [h] + Holes(k2, s, h.end)
      case None => Holes(k2, s, i) == Holes(k2, s, i + 1)
  {
    assert k2.(exec := false) == k2;
  }

  lemma ShiftCons(h: Hole, hs: seq<Hole>, a: nat)
    ensures ShiftAll([h] + hs, a) == [Shift(h, a)] + ShiftAll(hs, a)
  {
    assert ([h] + hs)[1..] == hs;
  }

  lemma ReadOneIs(kinds: Kinds, s: string, i: nat, h: Option<Hole>)
    requires !kinds.exec && i < |s| && HoleAt(kinds, s, i) == h
    ensures h.Some? ==> i < h.value.end <= |s| && Holes(kinds, s, i) == [h.value] + Holes(kinds, s, h.value.end)
    ensures h.None? ==> Holes(kinds, s, i) == Holes(kinds, s, i + 1)
  {
    ReadOneAlone(kinds, s, i);
  }

  /** One step of a reference pass on a tail, seen in the whole string. */
  lemma ShiftStep(kinds: Kinds, s: string, a: nat, t: string, i: nat) returns (h: Option<Hole>)
    requires !kinds.exec && a <= |s| && t == s[a..] && i < |t| && (a == 0 || s[a - 1] != '\\')
    ensures h.Some? ==>
      i < h.value.end <= |t| && Holes(kinds, t, i) == [h.value] + Holes(kinds, t, h.value.end)
      && Holes(kinds, s, a + i) == [Shift(h.value, a)] + Holes(kinds, s, a + h.value.end)
    ensures h.None? ==>
      Holes(kinds, t, i) == Holes(kinds, t, i + 1) && Holes(kinds, s, a + i) == Holes(kinds, s, a + (i + 1))
  {
    h := HoleAt(kinds, t, i);
    HoleAtShift(kinds, s, a, i);
    ReadOneIs(kinds, t, i, h);
    ReadOneIs(kinds, s, a + i, Moved(h, a));
  }

  lemma {:induction false} HolesShift(kinds: Kinds, s: string, a: nat, t: string, i: nat)
    requires !kinds.exec && a <= |s| && t == s[a..] && i <= |t| && (a == 0 || s[a - 1] != '\\')
    ensures Holes(kinds, s, a + i) == ShiftAll(Holes(kinds, t, i), a)
    decreases |t| - i
  {
    if i < |t| {
      var h := ShiftStep(kinds, s, a, t, i);
      match h
      case Some(h) =>
        HolesShift(kinds, s, a, t, h.end);
        ShiftCons(h, Holes(kinds, t, h.end), a);
      case None =>
        HolesShift(kinds, s, a, t, i + 1);
    } else {
      assert Holes(kinds, t, i) == [] && Holes(kinds, s, a + i) == [];
    }
  }

  /** The literal in front of a hole, if there is one. */
  function Front(s: string, last: nat, h: Hole): seq<Piece> {
    if last < h.start <= |s| then [Lit(s[last..h.start])] else []
  }

  lemma PartsCons(s: string, last: nat, end: nat, h: Hole, hs: seq<Hole>)
    requires end <= |s|
    ensures Parts(s, last, end, [h] + hs) == Front(s, last, h) + [h.piece] + Parts(s, h.end, end, hs)
  {
    assert ([h] + hs)[1..] == hs;
  }

  lemma FrontShift(s: string, a: nat, last: nat, h: Hole)
    requires a <= |s|
    ensures Front(s[a..], last, h) == Front(s, a + last, Shift(h, a))
  {
    if last < h.start && a + h.start <= |s| {
      DropSlice(s, a, last, h.start);
    }
  }

  lemma {:induction false} PartsShift(s: string, a: nat, last: nat, end: nat, hs: seq<Hole>)
    requires a + end <= |s|
    ensures Parts(s[a..], last, end, hs) == Parts(s, a + last, a + end, ShiftAll(hs, a))
    decreases |hs|
  {
    if hs == [] {
      if last < end {
        DropSlice(s, a, last, end);
      }
    } else {
      var h, rest := hs[0], hs[1..];
      assert hs == [h] + rest;
      ShiftCons(h, rest, a);
      PartsCons(s[a..], last, end, h, rest);
      PartsCons(s, a + last, a + end, Shift(h, a), ShiftAll(rest, a));
      FrontShift(s, a, last, h);
      PartsShift(s, a, h.end, end, rest);
    }
  }

  lemma {:induction false} PartsWindow(s: string, b: nat, last: nat, hs: seq<Hole>)
    requires b <= |s| && (forall h | h in hs :: h.start <= b)
    ensures Parts(s[..b], last, b, hs) == Parts(s, last, b, hs)
    decreases |hs|
  {
    if hs == [] {
      if last < b {
        TakeSlice(s, b, last, b);
      }
    } else {
      assert hs[0] in hs;
      if last < hs[0].start {
        TakeSlice(s, b, last, hs[0].start);
      }
      PartsWindow(s, b, hs[0].end, hs[1..]);
    }
  }

  lemma {:induction false} PartsAppend(s: string, last: nat, end: nat, xs: seq<Hole>, g: Hole, ys: seq<Hole>)
    requires g.start <= |s| && end <= |s|
    ensures Parts(s, last, end, xs + ([g] + ys)) == Parts(s, last, g.start, xs) + ([g.piece] + Parts(s, g.end, end, ys))
    decreases |xs|
  {
    var all := xs + ([g] + ys);
    if xs == [] {
      assert all == [g] + ys && all[1..] == ys;
    } else {
      assert all[1..] == xs[1..] + ([g] + ys);
      PartsAppend(s, xs[0].end, end, xs[1..], g, ys);
    }
  }

  // ----- two passes against one reading

  /** The passes the compiler runs in turn: commands before references, simple before bracketed ones. */
  ghost predicate Successive(k1: Kinds, k2: Kinds) {
    (k1 == EXECS && k2 == REFS) || (k1 == SIMPLE && k2 == BRACKETED)
  }

  function Both(k1: Kinds, k2: Kinds): Kinds {
    Kinds(k1.exec || k2.exec, k1.simple || k2.simple, k1.bracketed || k2.bracketed)
  }

  /** An unescaped `$` at `p` that the given pass reacts to. */
  predicate Active(kinds: Kinds, s: string, p: nat) {
    Dollar(s, p) && ((kinds.exec && s[p + 1] == '(') || (kinds.simple && IsNameStart(s[p + 1])))
  }

  predicate Quiet(kinds: Kinds, s: string, from: nat, to: nat) {
    forall p | from <= p < to :: !Active(kinds, s, p)
  }

  /** The holes that the first pass also makes at the same place. */
  function OfFirst(k1: Kinds, s: string, holes: seq<Hole>): seq<Hole> {
    if holes == [] then []
    else (if HoleAt(k1, s, holes[0].start).Some? then [holes[0]] else []) + OfFirst(k1, s, holes[1..])
  }

  /**
   * From `i` on the first pass makes exactly those holes of its kind that one reading makes, so it cuts into
   * none of the others.
   */
  predicate Uncut(k1: Kinds, k2: Kinds, s: string, i: nat) {
    OfFirst(k1, s, Holes(Both(k1, k2), s, i)) == Holes(k1, s, i)
  }

  lemma OfFirstCons(k1: Kinds, s: string, h: Hole, hs: seq<Hole>)
    ensures OfFirst(k1, s, [h] + hs) == (if HoleAt(k1, s, h.start).Some? then [h] else []) + OfFirst(k1, s, hs)
  {
    assert ([h] + hs)[1..] == hs;
  }

  lemma {:induction false} OfFirstIn(k1: Kinds, s: string, hs: seq<Hole>, h: Hole)
    ensures h in OfFirst(k1, s, hs) <==> h in hs && HoleAt(k1, s, h.start).Some?
  {
    if hs != [] {
      OfFirstIn(k1, s, hs[1..], h);
      assert hs == [hs[0]] + hs[1..];
    }
  }

  lemma {:induction false} SkipQuiet(k1: Kinds, s: string, i: nat, j: nat)
    requires k1 == EXECS || k1 == SIMPLE
    requires i <= j <= |s| && Quiet(k1, s, i, j)
    ensures Holes(k1, s, i) == Holes(k1, s, j)
    decreases j - i
  {
    if i < j {
      assert !Active(k1, s, i);
      assert SIMPLE.(exec := false) == SIMPLE;
      SkipQuiet(k1, s, i + 1, j);
    }
  }

  lemma {:induction false} ReachFirst(k1: Kinds, s: string, i: nat)
    requires (k1 == EXECS || k1 == SIMPLE) && Holes(k1, s, i) != []
    ensures var b := Holes(k1, s, i)[0].start;
      i <= b < |s| && Quiet(k1, s, i, b) && Active(k1, s, b) && HoleAt(k1, s, b) == Some(Holes(k1, s, i)[0])
    decreases |s| - i
  {
    if HoleAt(k1, s, i).None? {
      NothingSought(s, i + 1);
      assert SIMPLE.(exec := false) == SIMPLE;
      ReachFirst(k1, s, i + 1);
    }
  }

  lemma SoughtBySecond(k1: Kinds, k2: Kinds, s: string, i: nat)
    requires Successive(k1, k2) && !Active(k1, s, i)
    ensures HoleAt(Both(k1, k2), s, i) == HoleAt(k2, s, i) && HoleAt(k1, s, i).None?
    ensures OpensExec(s, i) ==> Both(k1, k2).(exec := false) == Both(k1, k2)
  {
  }

  /** What the one reading sees at `i` when the first pass does not react there. */
  lemma SecondStep(k1: Kinds, k2: Kinds, s: string, i: nat)
    requires Successive(k1, k2) && i < |s| && !Active(k1, s, i)
    ensures match HoleAt(k2, s, i)
      case Some(h) =>
        && Holes(Both(k1, k2), s, i) == [h] + Holes(Both(k1, k2), s, h.end)
        && OfFirst(k1, s, Holes(Both(k1, k2), s, i)) == OfFirst(k1, s, Holes(Both(k1, k2), s, h.end))
      case None => Holes(Both(k1, k2), s, i) == Holes(Both(k1, k2), s, i + 1)
  {
    SoughtBySecond(k1, k2, s, i);
    if HoleAt(k2, s, i).Some? {
      var h := HoleAt(k2, s, i).value;
      OfFirstCons(k1, s, h, Holes(Both(k1, k2), s, h.end));
    }
  }

  /** Where the second pass stands after its hole or character at `i`. */
  function After(k2: Kinds, s: string, i: nat): (j: nat)
    requires i < |s|
    ensures i < j <= |s|
  {
    match HoleAt(k2, s, i)
    case Some(h) => h.end
    case None => i + 1
  }

  /** A hole or character of the gap before the first hole of the first pass, seen by every reading. */
  lemma GapStep(k1: Kinds, k2: Kinds, s: string, i: nat, g: Hole)
    requires Successive(k1, k2) && i < g.start && Holes(k1, s, i) != [] && Holes(k1, s, i)[0] == g
    requires After(k2, s, i) <= g.start
    ensures g.start < |s| && Quiet(k1, s, i, g.start) && Active(k1, s, g.start)
    ensures var b := g.start;
      match HoleAt(k2, s, i)
      case Some(h) =>
        && Holes(Both(k1, k2), s, i) == [h] + Holes(Both(k1, k2), s, h.end)
        && Holes(k2, s[..b], i) == [h] + Holes(k2, s[..b], h.end)
      case None =>
        && Holes(Both(k1, k2), s, i) == Holes(Both(k1, k2), s, i + 1)
        && Holes(k2, s[..b], i) == Holes(k2, s[..b], i + 1)
    ensures Holes(k1, s, After(k2, s, i)) == Holes(k1, s, i)
    ensures Uncut(k1, k2, s, i) <==> Uncut(k1, k2, s, After(k2, s, i))
  {
    ReachFirst(k1, s, i);
    assert !Active(k1, s, i);
    SecondStep(k1, k2, s, i);
    HoleAtWindow(k2, s, g.start, i);
    ReadOneAlone(k2, s[..g.start], i);
    SkipQuiet(k1, s, i, After(k2, s, i));
  }

  /** When nothing is cut, a hole of the second pass ends before the next one of the first. */
  lemma EndsBefore(k1: Kinds, k2: Kinds, s: string, i: nat, g: Hole)
    requires Successive(k1, k2) && Uncut(k1, k2, s, i) && i < g.start
    requires Holes(k1, s, i) != [] && Holes(k1, s, i)[0] == g
    ensures i < |s| && After(k2, s, i) <= g.start
  {
    ReachFirst(k1, s, i);
    assert !Active(k1, s, i);
    SecondStep(k1, k2, s, i);
    var later := Holes(Both(k1, k2), s, After(k2, s, i));
    OfFirstIn(k1, s, later, g);
    HolesInOrder(Both(k1, k2), s, After(k2, s, i));
    assert g in OfFirst(k1, s, Holes(Both(k1, k2), s, i));
  }

  lemma {:induction false} ReadGap(k1: Kinds, k2: Kinds, s: string, i: nat, g: Hole)
    requires Successive(k1, k2) && Uncut(k1, k2, s, i) && i <= g.start <= |s|
    requires Holes(k1, s, i) != [] && Holes(k1, s, i)[0] == g
    ensures Holes(Both(k1, k2), s, i) == Holes(k2, s[..g.start], i) + Holes(Both(k1, k2), s, g.start)
    ensures Uncut(k1, k2, s, g.start) && Holes(k1, s, g.start) == Holes(k1, s, i)
    decreases g.start - i
  {
    var b := g.start;
    var rest := Holes(Both(k1, k2), s, b);
    if i == b {
      assert [] + rest == rest;
    } else {
      EndsBefore(k1, k2, s, i, g);
      GapStep(k1, k2, s, i, g);
      ReadGap(k1, k2, s, After(k2, s, i), g);
      if HoleAt(k2, s, i).Some? {
        var h := HoleAt(k2, s, i).value;
        Associate([h], Holes(k2, s[..b], h.end), rest);
      }
    }
  }

  /** The hole of the first pass at `b`, seen by both readings. */
  lemma ReadHole(k1: Kinds, k2: Kinds, s: string, b: nat, g: Hole)
    requires Successive(k1, k2) && b < |s| && HoleAt(k1, s, b) == Some(g)
    ensures b < g.end <= |s| && !g.piece.Lit? && s[g.end - 1] != '\\'
    ensures Holes(k1, s, b) == [g] + Holes(k1, s, g.end)
    ensures Holes(Both(k1, k2), s, b) == [g] + Holes(Both(k1, k2), s, g.end)
    ensures OfFirst(k1, s, Holes(Both(k1, k2), s, b)) == [g] + OfFirst(k1, s, Holes(Both(k1, k2), s, g.end))
    ensures Uncut(k1, k2, s, b) <==> Uncut(k1, k2, s, g.end)
  {
    HoleEnds(k1, s, b);
    OfFirstCons(k1, s, g, Holes(Both(k1, k2), s, g.end));
    SameHead([g], OfFirst(k1, s, Holes(Both(k1, k2), s, g.end)), Holes(k1, s, g.end));
  }

  /** Without holes of the first kind the one reading is the second pass alone. */
  lemma {:induction false} ReadRest(k1: Kinds, k2: Kinds, s: string, i: nat)
    requires Successive(k1, k2) && i <= |s| && OfFirst(k1, s, Holes(Both(k1, k2), s, i)) == []
    ensures Holes(Both(k1, k2), s, i) == Holes(k2, s, i)
    decreases |s| - i
  {
    if i < |s| {
      if HoleAt(k1, s, i).Some? {
        ReadHole(k1, k2, s, i, HoleAt(k1, s, i).value);
      } else if Active(k1, s, i) {
        UnclosedStep(k1, k2, s, i);
      } else {
        SecondStep(k1, k2, s, i);
        ReadOneAlone(k2, s, i);
        ReadRest(k1, k2, s, After(k2, s, i));
      }
    }
  }

  /** An active `$` without a hole can only be a command that never closes, and hides all later ones. */
  lemma UnclosedStep(k1: Kinds, k2: Kinds, s: string, i: nat)
    requires Successive(k1, k2) && i < |s| && HoleAt(k1, s, i).None? && Active(k1, s, i)
    ensures k1 == EXECS && Holes(Both(k1, k2), s, i) == Holes(k2, s, i)
    ensures Holes(k1, s, i) == []
  {
    assert k1 == EXECS && OpensExec(s, i);
    assert ALL.(exec := false) == REFS && REFS.(exec := false) == REFS;
    NothingSought(s, i + 1);
  }

  lemma {:induction false} RefineAppend(kinds: Kinds, xs: seq<Piece>, ys: seq<Piece>)
    ensures Refine(kinds, xs + ys) == Refine(kinds, xs) + Refine(kinds, ys)
  {
    if xs == [] {
      assert xs + ys == ys;
    } else {
      assert (xs + ys)[1..] == xs[1..] + ys;
      RefineAppend(kinds, xs[1..], ys);
    }
  }

  /** The pieces of a string from `i` on are those of its tail. */
  lemma SplitTail(kinds: Kinds, u: string, i: nat)
    requires !kinds.exec && i <= |u| && (i == 0 || u[i - 1] != '\\')
    ensures Split(kinds, u[i..]) == Parts(u, i, |u|, Holes(kinds, u, i))
  {
    var t := u[i..];
    HolesShift(kinds, u, i, t, 0);
    PartsShift(u, i, 0, |t|, Holes(kinds, t, 0));
    assert i + |t| == |u| && i + 0 == i;
  }

  lemma HolesInside(kinds: Kinds, u: string, i: nat)
    ensures forall h | h in Holes(kinds, u, i) :: h.start <= |u|
  {
    HolesInOrder(kinds, u, i);
    forall h | h in Holes(kinds, u, i) ensures h.start <= |u| {
      assert HoleAt(kinds, u, h.start) == Some(h);
    }
  }

  /** Splitting a slice is splitting the string inside that window. */
  lemma SplitSlice(kinds: Kinds, s: string, i: nat, b: nat)
    requires !kinds.exec && i <= b <= |s| && (i == 0 || s[i - 1] != '\\')
    ensures Split(kinds, s[i..b]) == Parts(s, i, b, Holes(kinds, s[..b], i))
  {
    assert s[i..b] == s[..b][i..];
    SplitTail(kinds, s[..b], i);
    HolesInside(kinds, s[..b], i);
    PartsWindow(s, b, i, Holes(kinds, s[..b], i));
  }

  /** Refining a literal slice, which is only a piece when it is not empty. */
  lemma RefineSlice(kinds: Kinds, s: string, i: nat, b: nat)
    requires i <= b <= |s|
    ensures Refine(kinds, if i < b then [Lit(s[i..b])] else []) == Split(kinds, s[i..b])
  {
    if i < b {
      var one := [Lit(s[i..b])];
      assert one[1..] == [];
      assert Refine(kinds, one) == Split(kinds, s[i..b]) + Refine(kinds, []);
    } else {
      assert s[i..b] == "";
    }
  }

  lemma RefineFirst(kinds: Kinds, s: string, i: nat, g: Hole, rest: seq<Piece>)
    requires !kinds.exec && i <= g.start <= |s| && !g.piece.Lit? && (i == 0 || s[i - 1] != '\\')
    ensures Refine(kinds, (if i < g.start then [Lit(s[i..g.start])] else []) + ([g.piece] + rest))
      == Parts(s, i, g.start, Holes(kinds, s[..g.start], i)) + ([g.piece] + Refine(kinds, rest))
  {
    var lit := if i < g.start then [Lit(s[i..g.start])] else [];
    var tail := [g.piece] + rest;
    assert tail[1..] == rest;
    RefineAppend(kinds, lit, tail);
    RefineSlice(kinds, s, i, g.start);
    SplitSlice(kinds, s, i, g.start);
  }

  /** The first hole of the first pass, seen by the one reading. */
  lemma ReadToFirst(k1: Kinds, k2: Kinds, s: string, i: nat, g: Hole)
    requires Successive(k1, k2) && Uncut(k1, k2, s, i) && i <= |s|
    requires Holes(k1, s, i) != [] && Holes(k1, s, i)[0] == g
    ensures i <= g.start < g.end <= |s| && !g.piece.Lit? && s[g.end - 1] != '\\'
    ensures Holes(k1, s, i) == [g] + Holes(k1, s, g.end)
    ensures Holes(Both(k1, k2), s, i) == Holes(k2, s[..g.start], i) + ([g] + Holes(Both(k1, k2), s, g.end))
    ensures Uncut(k1, k2, s, g.end)
  {
    ReachFirst(k1, s, i);
    ReadGap(k1, k2, s, i, g);
    ReadHole(k1, k2, s, g.start, g);
  }

  lemma {:induction false} MergeFrom(k1: Kinds, k2: Kinds, s: string, i: nat)
    requires Successive(k1, k2) && Uncut(k1, k2, s, i)
    requires i <= |s| && (i == 0 || s[i - 1] != '\\')
    ensures Refine(k2, Parts(s, i, |s|, Holes(k1, s, i))) == Parts(s, i, |s|, Holes(Both(k1, k2), s, i))
    decreases |s| - i
  {
    var holes := Holes(k1, s, i);
    if holes == [] {
      ReadRest(k1, k2, s, i);
      RefineSlice(k2, s, i, |s|);
      SplitSlice(k2, s, i, |s|);
      assert s[..|s|] == s;
    } else {
      var g := holes[0];
      ReadToFirst(k1, k2, s, i, g);
      MergeFrom(k1, k2, s, g.end);
      RefineFirst(k2, s, i, g, Parts(s, g.end, |s|, Holes(k1, s, g.end)));
      PartsFirst(s, i, |s|, g, Holes(k1, s, g.end));
      PartsAppend(s, i, |s|, Holes(k2, s[..g.start], i), g, Holes(Both(k1, k2), s, g.end));
    }
  }

  /** A hole is sought by the first pass alone or by both together, and does not end in a backslash. */
  lemma HoleEnds(k1: Kinds, s: string, b: nat)
    requires (k1 == EXECS || k1 == SIMPLE) && HoleAt(k1, s, b).Some?
    ensures HoleAt(ALL, s, b) == HoleAt(k1, s, b)
    ensures k1 == SIMPLE ==> HoleAt(REFS, s, b) == HoleAt(k1, s, b)
    ensures s[HoleAt(k1, s, b).value.end - 1] != '\\'
  {
    if k1 == EXECS {
      CloseOfIsFirst(s, b);
    }
  }
}
