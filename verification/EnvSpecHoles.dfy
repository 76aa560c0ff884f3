/**
 * Finding the expansions in a string: the balanced `$(...)` scanner and the two reference patterns of
 * packages/env-spec-parser/src/expand.ts, and the pieces a string falls into around them.
 */
module EnvSpecHoles {
  import opened Outcomes

  // ----- balanced commands

  datatype InQuote = Outside | Inside(mark: char)

  /** Where the command scanner stands: open parentheses, the quote it is in, and a pending backslash. */
  datatype Scan = Scan(depth: nat, quote: InQuote, escaped: bool)

  const COMMAND_START := Scan(1, Outside, false)

  predicate IsQuoteMark(c: char) {
    c == '"' || c == '\'' || c == '`'
  }

  function Step(st: Scan, c: char): Scan
    requires st.depth > 0
  {
    if st.escaped then st.(escaped := false)
    else if c == '\\' && st.quote != Inside('\'') then st.(escaped := true)
    else if st.quote.Inside? then (if c == st.quote.mark then st.(quote := Outside) else st)
    else if IsQuoteMark(c) then st.(quote := Inside(c))
    else if c == '(' then st.(depth := st.depth + 1)
    else if c == ')' then st.(depth := st.depth - 1)
    else st
  }

  /** Runs the scanner from `i` until the parentheses balance or the string ends. */
  function ScanFrom(s: string, i: nat, st: Scan): (r: (nat, Scan))
    requires i <= |s|
    ensures i <= r.0 <= |s|
    decreases |s| - i
  {
    if i < |s| && st.depth > 0 then ScanFrom(s, i + 1, Step(st, s[i])) else (i, st)
  }

  /** The scanner's state after reading `s[from..k]`, stopping once balanced. */
  ghost function StateAt(s: string, from: nat, k: nat): Scan
    requires from <= k <= |s|
  {
    if k == from then COMMAND_START
    else
      var before := StateAt(s, from, k - 1);
      if before.depth > 0 then Step(before, s[k - 1]) else before
  }

  /** `$(` at `i` with no backslash in front. */
  predicate OpensExec(s: string, i: nat) {
    Dollar(s, i) && s[i + 1] == '('
  }

  predicate Dollar(s: string, i: nat) {
    i + 1 < |s| && s[i] == '$' && (i == 0 || s[i - 1] != '\\')
  }

  /** The index just past the parenthesis that closes the command opened at `i`. */
  function CloseOf(s: string, i: nat): (r: Option<nat>)
    requires OpensExec(s, i)
    ensures r.Some? ==> i + 2 < r.value <= |s|
  {
    var (end, st) := ScanFrom(s, i + 2, COMMAND_START);
    if st.depth == 0 then Some(end) else None
  }

  // ----- references

  predicate IsNameStart(c: char) {
    'a' <= c <= 'z' || 'A' <= c <= 'Z' || c == '_'
  }

  predicate IsNameChar(c: char, dots: bool) {
    IsNameStart(c) || '0' <= c <= '9' || (dots && c == '.')
  }

  function NameEnd(s: string, i: nat, dots: bool): (n: nat)
    requires i <= |s|
    ensures i <= n <= |s|
    ensures n < |s| ==> !IsNameChar(s[n], dots)
    ensures forall k | i <= k < n :: IsNameChar(s[k], dots)
    decreases |s| - i
  {
    if i < |s| && IsNameChar(s[i], dots) then NameEnd(s, i + 1, dots) else i
  }

  function FindChar(s: string, c: char, i: nat): (n: nat)
    requires i <= |s|
    ensures i <= n <= |s|
    ensures n < |s| ==> s[n] == c
    ensures forall k | i <= k < n :: s[k] != c
    decreases |s| - i
  {
    if i < |s| && s[i] != c then FindChar(s, c, i + 1) else i
  }

  // ----- holes and pieces

  datatype Piece = Lit(text: string) | Ref(name: string) | RefOr(name: string, dflt: string) | Exec(cmd: string)

  /** A part of the string that an expansion replaces. */
  datatype Hole = Hole(start: nat, end: nat, piece: Piece)

  /** Which expansions a pass looks for. */
  datatype Kinds = Kinds(exec: bool, simple: bool, bracketed: bool)

  const EXECS := Kinds(true, false, false)
  const SIMPLE := Kinds(false, true, false)
  const BRACKETED := Kinds(false, false, true)
  const REFS := Kinds(false, true, true)
  const ALL := Kinds(true, true, true)

  /** `$(command)` starting at `i`. */
  function ExecAt(s: string, i: nat): (r: Option<Hole>)
    requires OpensExec(s, i)
  {
    match CloseOf(s, i)
    case Some(end) => Some(Hole(i, end, Exec(s[i + 2..end - 1])))
    case None => None
  }

  /** EXPAND_VAR_SIMPLE_REGEX at `i`. */
  function SimpleAt(s: string, i: nat): (r: Option<Hole>)
    requires Dollar(s, i) && IsNameStart(s[i + 1])
  {
    var end := NameEnd(s, i + 2, false);
    Some(Hole(i, end, Ref(s[i + 1..end])))
  }

  /** EXPAND_VAR_BRACKETED_REGEX at `i`: `${name}`, `${name-default}` or `${name:-default}`. */
  function BracketedAt(s: string, i: nat): (r: Option<Hole>)
    requires Dollar(s, i) && s[i + 1] == '{'
    ensures r.Some? ==> r.value.start == i && i + 2 < r.value.end <= |s| && !r.value.piece.Lit?
  {
    if i + 2 < |s| && IsNameStart(s[i + 2]) then
      var n := NameEnd(s, i + 3, true);
      AfterName(s, i, s[i + 2..n], n)
    else None
  }

  /** What follows the name of a bracketed reference, at `n`. */
  function AfterName(s: string, start: nat, name: string, n: nat): (r: Option<Hole>)
    requires n <= |s|
    ensures r.Some? ==> r.value.start == start && n < r.value.end <= |s| && !r.value.piece.Lit?
  {
    if n == |s| then None
    else if s[n] == '}' then Some(Hole(start, n + 1, Ref(name)))
    else DefaultAt(s, start, name, if s[n] == ':' then n + 1 else n)
  }

  /** A dash at `dash` and a non-empty default up to the first closing brace. */
  function DefaultAt(s: string, start: nat, name: string, dash: nat): (r: Option<Hole>)
    ensures r.Some? ==> r.value.start == start && dash < r.value.end <= |s| && !r.value.piece.Lit?
  {
    if dash < |s| && s[dash] == '-' then
      var close := FindChar(s, '}', dash + 1);
      if dash + 1 < close < |s| then Some(Hole(start, close + 1, RefOr(name, s[dash + 1..close]))) else None
    else None
  }

  function HoleAt(kinds: Kinds, s: string, i: nat): (r: Option<Hole>)
    ensures r.Some? ==> r.value.start == i && i + 1 < r.value.end <= |s|
    ensures r.Some? ==> !r.value.piece.Lit? && Dollar(s, i)
  {
    if !Dollar(s, i) then None
    else if s[i + 1] == '(' then (if kinds.exec then ExecAt(s, i) else None)
    else if s[i + 1] == '{' then (if kinds.bracketed then BracketedAt(s, i) else None)
    else if IsNameStart(s[i + 1]) && kinds.simple then SimpleAt(s, i)
    else None
  }

  /** All holes from `i` on, left to right. A `$(` that never closes hides every later command. */
  function Holes(kinds: Kinds, s: string, i: nat): seq<Hole>
    decreases |s| - i
  {
    if i >= |s| then []
    else
      match HoleAt(kinds, s, i)
      case Some(h) => [h] + Holes(kinds, s, h.end)
      case None =>
        Holes(if OpensExec(s, i) then kinds.(exec := false) else kinds, s, i + 1)
  }

  /** The pieces of `s[last..end]` around the given holes: literal slices where they are not empty. */
  function Parts(s: string, last: nat, end: nat, holes: seq<Hole>): seq<Piece>
    requires end <= |s|
    decreases |holes|
  {
    if holes == [] then (if last < end then [Lit(s[last..end])] else [])
    else
      (if last < holes[0].start <= |s| then [Lit(s[last..holes[0].start])] else [])
      + [holes[0].piece] + Parts(s, holes[0].end, end, holes[1..])
  }

  function Split(kinds: Kinds, s: string): seq<Piece> {
    Parts(s, 0, |s|, Holes(kinds, s, 0))
  }

  /** Splits every literal among the pieces further. */
  function Refine(kinds: Kinds, pieces: seq<Piece>): seq<Piece> {
    if pieces == [] then []
    else (if pieces[0].Lit? then Split(kinds, pieces[0].text) else [pieces[0]]) + Refine(kinds, pieces[1..])
  }

  // ----- the command scanner

  /** The loop's result is the fold stopped at the first index where the depth is zero, or at the end. */
  lemma {:induction false} ScanIsFold(s: string, from: nat, i: nat)
    requires from <= i <= |s|
    requires forall k | from <= k < i :: StateAt(s, from, k).depth > 0
    ensures var (end, st) := ScanFrom(s, i, StateAt(s, from, i));
      && st == StateAt(s, from, end)
      && (forall k | from <= k < end :: StateAt(s, from, k).depth > 0)
      && (st.depth > 0 ==> end == |s|)
    decreases |s| - i
  {
    if i < |s| && StateAt(s, from, i).depth > 0 {
      ScanIsFold(s, from, i + 1);
    }
  }

  /** A command whose text starts at `from` closes just before `end`: there the depth is first zero. */
  ghost predicate ClosesAt(s: string, from: nat, end: nat) {
    && from < end <= |s|
    && StateAt(s, from, end).depth == 0
    && forall k | from <= k < end :: StateAt(s, from, k).depth > 0
  }

  ghost predicate NeverCloses(s: string, from: nat) {
    forall end: nat :: !ClosesAt(s, from, end)
  }

  lemma CloseOfIsFirst(s: string, i: nat)
    requires OpensExec(s, i)
    ensures CloseOf(s, i).Some? ==> ClosesAt(s, i + 2, CloseOf(s, i).value) && s[CloseOf(s, i).value - 1] == ')'
    ensures CloseOf(s, i).None? ==> NeverCloses(s, i + 2)
  {
    var from := i + 2;
    ScanIsFold(s, from, from);
    var (end, st) := ScanFrom(s, from, COMMAND_START);
    if st.depth == 0 {
      assert StateAt(s, from, end - 1).depth > 0;
    } else {
      forall e: nat ensures !ClosesAt(s, from, e) {
        if from < e <= |s| {
          assert StateAt(s, from, e).depth > 0;
        }
      }
    }
  }

  /** Every hole found from `i` on is a hole of its kind at its start, and the holes are in order and disjoint. */
  ghost predicate InOrder(s: string, i: nat, holes: seq<Hole>)
    decreases |holes|
  {
    holes == [] || (i <= holes[0].start < holes[0].end <= |s| && InOrder(s, holes[0].end, holes[1..]))
  }

  lemma {:induction false} HolesInOrder(kinds: Kinds, s: string, i: nat)
    ensures InOrder(s, i, Holes(kinds, s, i))
    ensures forall h | h in Holes(kinds, s, i) :: i <= h.start && HoleAt(kinds, s, h.start) == Some(h)
    decreases |s| - i
  {
    if i < |s| {
      match HoleAt(kinds, s, i)
      case Some(h) =>
        HolesInOrder(kinds, s, h.end);
      case None =>
        var later := if OpensExec(s, i) then kinds.(exec := false) else kinds;
        HolesInOrder(later, s, i + 1);
        if Holes(later, s, i + 1) != [] {
          assert i + 1 <= Holes(later, s, i + 1)[0].start;
        }
        forall h | h in Holes(later, s, i + 1) ensures HoleAt(kinds, s, h.start) == Some(h) {
          assert HoleAt(later, s, h.start) == Some(h);
        }
    }
  }
}
