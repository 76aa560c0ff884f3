/**
 * When a pass cuts into a reference that a later one would make, in terms of the text: what may stand
 * inside a reference and behind it.
 */
module EnvSpecCuts {
  import opened Outcomes
  import opened EnvSpecHoles
  import opened EnvSpecSplitting
  import opened EnvSpecDiverging

  // ----- references before references

  /** No expansion that the second pass would make contains a `$` that the first pass reacts to. */
  predicate Undisturbed(k1: Kinds, k2: Kinds, s: string, i: nat) {
    forall h | h in Holes(Both(k1, k2), s, i) && HoleAt(k1, s, h.start).None? :: Quiet(k1, s, h.start + 1, h.end)
  }

  lemma UndisturbedFrom(k1: Kinds, k2: Kinds, s: string, i: nat, j: nat)
    requires Undisturbed(k1, k2, s, i)
    requires forall h | h in Holes(Both(k1, k2), s, j) :: h in Holes(Both(k1, k2), s, i)
    ensures Undisturbed(k1, k2, s, j)
  {
  }

  /** For both pairs of passes: nothing is cut when no reference has such a `$` inside. */
  lemma {:induction false} UndisturbedIsUncut(k1: Kinds, k2: Kinds, s: string, i: nat)
    requires Successive(k1, k2) && i <= |s| && Undisturbed(k1, k2, s, i)
    ensures Uncut(k1, k2, s, i)
    decreases |s| - i
  {
    if i < |s| {
      if HoleAt(k1, s, i).Some? {
        var g := HoleAt(k1, s, i).value;
        ReadHole(k1, k2, s, i, g);
        UndisturbedFrom(k1, k2, s, i, g.end);
        UndisturbedIsUncut(k1, k2, s, g.end);
      } else if Active(k1, s, i) {
        UnclosedStep(k1, k2, s, i);
        NoCommandHoles(s, i);
      } else {
        SecondStep(k1, k2, s, i);
        var j := After(k2, s, i);
        UndisturbedFrom(k1, k2, s, i, j);
        UndisturbedIsUncut(k1, k2, s, j);
        QuietThrough(k1, k2, s, i);
      }
    }
  }

  lemma QuietThrough(k1: Kinds, k2: Kinds, s: string, i: nat)
    requires Successive(k1, k2) && i < |s| && !Active(k1, s, i) && Undisturbed(k1, k2, s, i)
    ensures Holes(k1, s, After(k2, s, i)) == Holes(k1, s, i)
  {
    SecondStep(k1, k2, s, i);
    SoughtBySecond(k1, k2, s, i);
    if HoleAt(k2, s, i).Some? {
      var h := HoleAt(k2, s, i).value;
      assert h in [h] + Holes(Both(k1, k2), s, h.end);
      assert Quiet(k1, s, h.start + 1, h.end);
    }
    SkipQuiet(k1, s, i, After(k2, s, i));
  }

  /** The simple pass reacts to every unescaped `$` with a name. */
  lemma {:induction false} ActiveIsFound(s: string, i: nat, p: nat)
    requires i <= p < |s| && Active(SIMPLE, s, p)
    ensures HoleAt(SIMPLE, s, p).Some? && HoleAt(SIMPLE, s, p).value in Holes(SIMPLE, s, i)
    decreases |s| - i
  {
    ReadOneAlone(SIMPLE, s, i);
    if i < p {
      var j := After(SIMPLE, s, i);
      assert j <= p;
      ActiveIsFound(s, j, p);
    }
  }

  lemma {:induction false} HolesApart(s: string, i: nat, holes: seq<Hole>, h: Hole, g: Hole)
    requires InOrder(s, i, holes) && h in holes && g in holes && h.start < g.start
    ensures h.end <= g.start
    decreases |holes|
  {
    if h != holes[0] && g != holes[0] {
      HolesApart(s, holes[0].end, holes[1..], h, g);
    } else {
      LaterHoles(s, holes[0].end, holes[1..]);
    }
  }

  lemma {:induction false} LaterHoles(s: string, i: nat, holes: seq<Hole>)
    requires InOrder(s, i, holes)
    ensures forall h | h in holes :: i <= h.start
    decreases |holes|
  {
    if holes != [] {
      LaterHoles(s, holes[0].end, holes[1..]);
    }
  }

  /**
   * For the two reference passes the condition is exact: they give the pieces of one left-to-right
   * reading exactly when no bracketed reference has a simple one in its default.
   */
  lemma ReferencePassesAgree(s: string)
    ensures Refine(BRACKETED, Split(SIMPLE, s)) == Split(REFS, s) <==> Undisturbed(SIMPLE, BRACKETED, s, 0)
  {
    PassesAgree(SIMPLE, BRACKETED, s);
    var all := Holes(REFS, s, 0);
    if Undisturbed(SIMPLE, BRACKETED, s, 0) {
      UndisturbedIsUncut(SIMPLE, BRACKETED, s, 0);
    } else if Uncut(SIMPLE, BRACKETED, s, 0) {
      var h :| h in all && HoleAt(SIMPLE, s, h.start).None? && !Quiet(SIMPLE, s, h.start + 1, h.end);
      var p :| h.start + 1 <= p < h.end && Active(SIMPLE, s, p);
      ActiveIsFound(s, 0, p);
      var g := HoleAt(SIMPLE, s, p).value;
      OfFirstIn(SIMPLE, s, all, g);
      HolesInOrder(REFS, s, 0);
      HolesApart(s, 0, all, h, g);
    }
  }

  // ----- commands before references

  /** The first `$(` without a backslash from `i` on and before `end`. */
  function Opener(s: string, i: nat, end: nat): (p: Option<nat>)
    requires end <= |s|
    ensures p.Some? ==> i <= p.value < end && OpensExec(s, p.value) && Quiet(EXECS, s, i, p.value)
    ensures p.None? ==> Quiet(EXECS, s, i, end)
    decreases end - i
  {
    if i >= end then None else if OpensExec(s, i) then Some(i) else Opener(s, i + 1, end)
  }

  predicate NoCommand(holes: seq<Hole>) {
    forall h | h in holes :: !h.piece.Exec?
  }

  /**
   * Left to right up to the first `$(` outside a reference that never closes: no reference holds a `$(`,
   * unless the first one in it never closes and no command follows the reference.
   */
  predicate CommandsClear(s: string, i: nat)
    decreases |s| - i
  {
    i >= |s| ||
    match HoleAt(ALL, s, i)
    case None => OpensExec(s, i) || CommandsClear(s, i + 1)
    case Some(h) =>
      var inside := if h.piece.Exec? then None else Opener(s, i + 1, h.end);
      match inside
      case None => CommandsClear(s, h.end)
      case Some(p) => ExecAt(s, p).None? && NoCommand(Holes(ALL, s, h.end))
  }

  lemma {:induction false} NoneIsNoCommand(s: string, i: nat)
    ensures OfFirst(EXECS, s, Holes(ALL, s, i)) == [] <==> NoCommand(Holes(ALL, s, i))
  {
    var all := Holes(ALL, s, i);
    HolesInOrder(ALL, s, i);
    forall h | h in all ensures HoleAt(EXECS, s, h.start).Some? <==> h.piece.Exec? {
      assert HoleAt(ALL, s, h.start) == Some(h);
    }
    if NoCommand(all) {
      NoneOfFirst(EXECS, s, all);
    } else {
      var h :| h in all && h.piece.Exec?;
      OfFirstIn(EXECS, s, all, h);
    }
  }

  lemma ReferenceIsNoCommand(s: string, i: nat)
    ensures HoleAt(REFS, s, i).Some? ==> !HoleAt(REFS, s, i).value.piece.Exec?
  {
  }

  /** A command found at `p` is none of those behind `end`. */
  lemma FoundBefore(s: string, p: nat, end: nat)
    requires OpensExec(s, p) && ExecAt(s, p).Some? && p < end
    ensures OfFirst(EXECS, s, Holes(ALL, s, end)) != Holes(EXECS, s, p)
  {
    assert Holes(EXECS, s, p)[0].start == p;
    var later := OfFirst(EXECS, s, Holes(ALL, s, end));
    if later != [] {
      HolesInOrder(ALL, s, end);
      OfFirstIn(EXECS, s, Holes(ALL, s, end), later[0]);
    }
  }

  /** A reference that holds a `$(` is cut when that closes, and hides what follows when it does not. */
  lemma OpenerInside(s: string, i: nat, h: Hole, p: nat)
    requires i < |s| && !OpensExec(s, i) && HoleAt(REFS, s, i) == Some(h) && i < p < h.end
    requires OpensExec(s, p) && Quiet(EXECS, s, i + 1, p)
    ensures Uncut(EXECS, REFS, s, i) <==> ExecAt(s, p).None? && NoCommand(Holes(ALL, s, h.end))
  {
    SecondStep(EXECS, REFS, s, i);
    SkipQuiet(EXECS, s, i, p);
    if ExecAt(s, p).Some? {
      FoundBefore(s, p, h.end);
    } else {
      NoneIsNoCommand(s, h.end);
      UnclosedStep(EXECS, REFS, s, p);
    }
  }

  lemma {:induction false} ClearIsUncut(s: string, i: nat)
    requires i <= |s|
    ensures CommandsClear(s, i) <==> Uncut(EXECS, REFS, s, i)
    decreases |s| - i
  {
    if i < |s| {
      if HoleAt(EXECS, s, i).Some? {
        var g := HoleAt(EXECS, s, i).value;
        ReadHole(EXECS, REFS, s, i, g);
        ClearIsUncut(s, g.end);
      } else if OpensExec(s, i) {
        UnclosedStep(EXECS, REFS, s, i);
        NoCommandHoles(s, i);
      } else {
        ClearPast(s, i);
      }
    }
  }

  lemma {:induction false} ClearPast(s: string, i: nat)
    requires i < |s| && !OpensExec(s, i)
    ensures CommandsClear(s, i) <==> Uncut(EXECS, REFS, s, i)
    decreases |s| - i, 0
  {
    SecondStep(EXECS, REFS, s, i);
    assert HoleAt(ALL, s, i) == HoleAt(REFS, s, i);
    match HoleAt(REFS, s, i)
    case None =>
      SkipQuiet(EXECS, s, i, i + 1);
      ClearIsUncut(s, i + 1);
    case Some(h) =>
      ReferenceIsNoCommand(s, i);
      match Opener(s, i + 1, h.end)
      case None =>
        SkipQuiet(EXECS, s, i, h.end);
        ClearIsUncut(s, h.end);
      case Some(p) => OpenerInside(s, i, h, p);
  }

  /**
   * For commands before references the condition is exact as well: the two passes give the pieces of one
   * left-to-right reading exactly when no reference holds a `$(`, save for one that never closes with no
   * command behind it.
   */
  lemma CommandPassesAgree(s: string)
    ensures Refine(REFS, Split(EXECS, s)) == Split(ALL, s) <==> CommandsClear(s, 0)
  {
    PassesAgree(EXECS, REFS, s);
    ClearIsUncut(s, 0);
  }

  /** A command inside a default is cut out of it. */
  const CUT_COMMAND := "${A:-$(b)}"

  lemma DefaultCommandRead()
    ensures HoleAt(ALL, CUT_COMMAND, 0) == Some(Hole(0, 10, RefOr("A", "$(b)")))
  {
    var s := CUT_COMMAND;
    assert FindChar(s, '}', 9) == 9 && FindChar(s, '}', 8) == 9 && FindChar(s, '}', 7) == 9;
    assert FindChar(s, '}', 6) == 9 && FindChar(s, '}', 5) == 9;
    assert NameEnd(s, 3, true) == 3;
    assert s[2..3] == "A" && s[5..9] == "$(b)";
  }

  lemma DefaultCommandCloses()
    ensures OpensExec(CUT_COMMAND, 5) && ExecAt(CUT_COMMAND, 5).Some?
  {
    var s := CUT_COMMAND;
    assert ScanFrom(s, 9, Scan(0, Outside, false)) == (9, Scan(0, Outside, false));
    assert ScanFrom(s, 8, COMMAND_START) == (9, Scan(0, Outside, false));
    assert ScanFrom(s, 7, COMMAND_START) == (9, Scan(0, Outside, false));
  }

  /** In `${A:-$(b)}` the default is the text `$(b)`, but the command pass runs `b` and leaves the braces. */
  lemma DefaultCommandDiffers()
    ensures !CommandsClear(CUT_COMMAND, 0)
    ensures Refine(REFS, Split(EXECS, CUT_COMMAND)) != Split(ALL, CUT_COMMAND)
  {
    var s := CUT_COMMAND;
    DefaultCommandRead();
    DefaultCommandCloses();
    assert Opener(s, 5, 10) == Some(5) && Opener(s, 3, 10) == Some(5) && Opener(s, 1, 10) == Some(5);
    CommandPassesAgree(s);
  }
}
