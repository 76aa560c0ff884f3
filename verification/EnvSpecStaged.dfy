/**
 * The pieces that the two reference passes leave, cut or not, by one scan of the string.
 */
module EnvSpecStaged {
  import opened Outcomes
  import opened Sequences
  import opened EnvSpecHoles
  import opened EnvSpecSplitting
  import opened EnvSpecDiverging

  predicate IsBracketed(s: string, i: nat) {
    i + 1 < |s| && s[i + 1] == '{'
  }

  lemma ReferenceKinds(s: string, i: nat)
    ensures Active(SIMPLE, s, i) <==> HoleAt(SIMPLE, s, i).Some?
    ensures HoleAt(REFS, s, i) == if Active(SIMPLE, s, i) then HoleAt(SIMPLE, s, i) else HoleAt(BRACKETED, s, i)
    ensures HoleAt(BRACKETED, s, i).Some? ==> IsBracketed(s, i)
    ensures Active(SIMPLE, s, i) ==> !IsBracketed(s, i)
  {
  }

  /** The first pass sees no reference inside the hole. */
  predicate Whole(s: string, h: Hole) {
    !IsBracketed(s, h.start) || Quiet(SIMPLE, s, h.start + 1, h.end)
  }

  /** The holes of both passes together: a reference that the first pass cuts into is left out. */
  function Staged(s: string, i: nat): seq<Hole>
    decreases |s| - i
  {
    if i >= |s| then []
    else
      match HoleAt(REFS, s, i)
      case Some(h) => if Whole(s, h) then [h] + Staged(s, h.end) else Staged(s, i + 1)
      case None => Staged(s, i + 1)
  }

  lemma StagedAt(s: string, i: nat, h: Option<Hole>)
    requires i < |s| && HoleAt(REFS, s, i) == h
    ensures Staged(s, i) ==
      if h.Some? && Whole(s, h.value) then [h.value] + Staged(s, h.value.end) else Staged(s, i + 1)
  {
  }

  /** In front of a simple reference at `b` a bracketed one stays whole exactly when it ends in time. */
  lemma WholeInTime(s: string, i: nat, b: nat, h: Hole)
    requires i < b && Quiet(SIMPLE, s, i, b) && Active(SIMPLE, s, b) && HoleAt(BRACKETED, s, i) == Some(h)
    ensures Whole(s, h) <==> h.end <= b
  {
    ReferenceKinds(s, i);
  }

  lemma StagedHole(s: string, i: nat, b: nat)
    requires i < b < |s| && s[b] == '$' && Quiet(SIMPLE, s, i, b) && Active(SIMPLE, s, b)
    ensures var h := EndingBy(HoleAt(BRACKETED, s, i), b);
      Staged(s, i) == if h.Some? then [h.value] + Staged(s, h.value.end) else Staged(s, i + 1)
  {
    assert !Active(SIMPLE, s, i);
    ReferenceKinds(s, i);
    StagedAt(s, i, HoleAt(BRACKETED, s, i));
    if HoleAt(BRACKETED, s, i).Some? {
      WholeInTime(s, i, b, HoleAt(BRACKETED, s, i).value);
    }
  }

  lemma WindowHole(s: string, i: nat, b: nat)
    requires i < b < |s| && s[b] == '$'
    ensures var h := EndingBy(HoleAt(BRACKETED, s, i), b);
      Holes(BRACKETED, s[..b], i) ==
        if h.Some? then [h.value] + Holes(BRACKETED, s[..b], h.value.end) else Holes(BRACKETED, s[..b], i + 1)
  {
    HoleAtWindow(BRACKETED, s, b, i);
    ReadOneIs(BRACKETED, s[..b], i, EndingBy(HoleAt(BRACKETED, s, i), b));
  }

  /** One step of both scans in front of the first simple reference, at `b`. */
  lemma StagedStep(s: string, i: nat, b: nat) returns (h: Option<Hole>)
    requires i < b < |s| && s[b] == '$' && Quiet(SIMPLE, s, i, b) && Active(SIMPLE, s, b)
    ensures h.Some? ==> i < h.value.end <= b
    ensures Staged(s, i) == if h.Some? then [h.value] + Staged(s, h.value.end) else Staged(s, i + 1)
    ensures Holes(BRACKETED, s[..b], i) ==
      if h.Some? then [h.value] + Holes(BRACKETED, s[..b], h.value.end) else Holes(BRACKETED, s[..b], i + 1)
  {
    h := EndingBy(HoleAt(BRACKETED, s, i), b);
    StagedHole(s, i, b);
    WindowHole(s, i, b);
  }

  lemma NothingBehind(s: string)
    ensures Holes(BRACKETED, s, |s|) == []
  {
  }

  /** From `i` to `b` both passes find the same. */
  predicate SameGap(s: string, i: nat, b: nat)
    requires b <= |s|
  {
    Staged(s, i) == Holes(BRACKETED, s[..b], i) + Staged(s, b)
  }

  lemma GapGrows(s: string, i: nat, b: nat, h: Hole)
    requires b <= |s| && SameGap(s, h.end, b)
    requires Staged(s, i) == [h] + Staged(s, h.end)
    requires Holes(BRACKETED, s[..b], i) == [h] + Holes(BRACKETED, s[..b], h.end)
    ensures SameGap(s, i, b)
  {
    Associate([h], Holes(BRACKETED, s[..b], h.end), Staged(s, b));
  }

  /** Up to the first simple reference both passes find the bracketed ones that end in time. */
  lemma {:induction false} StagedGap(s: string, i: nat, b: nat)
    requires i <= b < |s| && s[b] == '$' && Quiet(SIMPLE, s, i, b) && Active(SIMPLE, s, b)
    ensures SameGap(s, i, b)
    decreases b - i
  {
    if i == b {
      NothingBehind(s[..b]);
    } else {
      var h := StagedStep(s, i, b);
      match h
      case None => StagedGap(s, i + 1, b);
      case Some(h) =>
        StagedGap(s, h.end, b);
        GapGrows(s, i, b, h);
    }
  }

  lemma {:induction false} StagedRest(s: string, i: nat)
    requires i <= |s| && Quiet(SIMPLE, s, i, |s|)
    ensures Staged(s, i) == Holes(BRACKETED, s, i)
    decreases |s| - i
  {
    if i < |s| {
      assert !Active(SIMPLE, s, i);
      ReferenceKinds(s, i);
      ReadOneAlone(BRACKETED, s, i);
      StagedRest(s, After(BRACKETED, s, i));
    }
  }

  lemma StagedSimple(s: string, p: nat)
    requires p < |s| && HoleAt(SIMPLE, s, p).Some?
    ensures var g := HoleAt(SIMPLE, s, p).value;
      Staged(s, p) == [g] + Staged(s, g.end)
  {
    ReferenceKinds(s, p);
  }

  /** The pieces of the two reference passes are those of the one scan. */
  lemma {:induction false} PassesAreStaged(s: string, i: nat)
    requires i <= |s| && (i == 0 || s[i - 1] != '\\')
    ensures Refine(BRACKETED, Parts(s, i, |s|, Holes(SIMPLE, s, i))) == Parts(s, i, |s|, Staged(s, i))
    decreases |s| - i
  {
    if Holes(SIMPLE, s, i) == [] {
      NothingSimple(s, i);
      StagedRest(s, i);
      RefineSlice(BRACKETED, s, i, |s|);
      SplitSlice(BRACKETED, s, i, |s|);
      assert s[..|s|] == s;
    } else {
      var g := Holes(SIMPLE, s, i)[0];
      ReachFirst(SIMPLE, s, i);
      SkipQuiet(SIMPLE, s, i, g.start);
      ReadHole(SIMPLE, BRACKETED, s, g.start, g);
      StagedSimple(s, g.start);
      StagedGap(s, i, g.start);
      PassesAreStaged(s, g.end);
      RefineFirst(BRACKETED, s, i, g, Parts(s, g.end, |s|, Holes(SIMPLE, s, g.end)));
      PartsFirst(s, i, |s|, g, Holes(SIMPLE, s, g.end));
      PartsAppend(s, i, |s|, Holes(BRACKETED, s[..g.start], i), g, Staged(s, g.end));
    }
  }
}
