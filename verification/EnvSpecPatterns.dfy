/**
 * What counts as a reference: the two patterns of packages/env-spec-parser/src/expand.ts with their character
 * classes written out, and that a pass finds every match that no earlier one covers.
 */
module EnvSpecPatterns {
  import opened Outcomes
  import opened Strings
  import opened EnvSpecHoles
  import opened EnvSpecSplitting

  /** `[a-zA-Z_][a-zA-Z0-9_]*`, or with `.` among the later characters. */
  predicate IsName(name: string, dots: bool) {
    && name != "" && ('a' <= name[0] <= 'z' || 'A' <= name[0] <= 'Z' || name[0] == '_')
    && forall i | 0 <= i < |name| ::
         || 'a' <= name[i] <= 'z' || 'A' <= name[i] <= 'Z' || '0' <= name[i] <= '9' || name[i] == '_'
         || (dots && name[i] == '.')
  }

  /** A `$` with no backslash in front. */
  predicate Unescaped(s: string, i: nat) {
    i < |s| && s[i] == '$' && (i == 0 || s[i - 1] != '\\')
  }

  // ----- the simple pattern

  /** `$` and the longest name that follows. */
  predicate IsSimple(s: string, i: nat, h: Hole) {
    && h.start == i && Unescaped(s, i) && i + 1 < h.end <= |s|
    && IsName(s[i + 1..h.end], false) && (h.end < |s| ==> !IsName(s[i + 1..h.end + 1], false))
    && h.piece == Ref(s[i + 1..h.end])
  }

  lemma NameParts(s: string, i: nat, n: nat, dots: bool)
    requires i < n <= |s|
    ensures IsName(s[i..n], dots) <==> IsNameStart(s[i]) && forall k | i <= k < n :: IsNameChar(s[k], dots)
  {
    var name := s[i..n];
    assert forall k | i <= k < n :: s[k] == name[k - i];
    assert forall k | 0 <= k < |name| :: name[k] == s[i + k];
  }

  lemma {:induction false} NameEndsAt(s: string, i: nat, n: nat, dots: bool)
    requires i <= n <= |s| && (forall k | i <= k < n :: IsNameChar(s[k], dots))
    requires n < |s| ==> !IsNameChar(s[n], dots)
    ensures NameEnd(s, i, dots) == n
    decreases n - i
  {
    if i < n {
      NameEndsAt(s, i + 1, n, dots);
    }
  }

  lemma LongestName(s: string, i: nat, n: nat)
    requires i < n <= |s| && IsName(s[i..n], false)
    ensures (n < |s| ==> !IsName(s[i..n + 1], false)) <==> NameEnd(s, i + 1, false) == n
  {
    NameParts(s, i, n, false);
    if n < |s| {
      NameParts(s, i, n + 1, false);
      if !IsNameChar(s[n], false) {
        NameEndsAt(s, i + 1, n, false);
      }
    } else {
      NameEndsAt(s, i + 1, n, false);
    }
  }

  lemma SimpleFound(s: string, i: nat)
    requires HoleAt(SIMPLE, s, i).Some?
    ensures IsSimple(s, i, HoleAt(SIMPLE, s, i).value)
  {
    var n := NameEnd(s, i + 2, false);
    NameParts(s, i + 1, n, false);
    LongestName(s, i + 1, n);
  }

  lemma SimpleIsFound(s: string, i: nat, h: Hole)
    requires IsSimple(s, i, h)
    ensures HoleAt(SIMPLE, s, i) == Some(h)
  {
    NameParts(s, i + 1, h.end, false);
    LongestName(s, i + 1, h.end);
    assert s[i + 1..h.end][0] == s[i + 1];
  }

  /** The simple pass matches exactly there. */
  lemma SimplePattern(s: string, i: nat, h: Hole)
    ensures HoleAt(SIMPLE, s, i) == Some(h) <==> IsSimple(s, i, h)
  {
    if HoleAt(SIMPLE, s, i).Some? {
      SimpleFound(s, i);
    }
    if IsSimple(s, i, h) {
      SimpleIsFound(s, i, h);
    }
  }

  // ----- the bracketed pattern

  /** What may stand between a name and the closing brace: nothing, or one of two operators and a default. */
  predicate IsTail(name: string, op: string, d: string, p: Piece) {
    || (op == "" && d == "" && p == Ref(name))
    || ((op == "-" || op == ":-") && d != "" && '}' !in d && p == RefOr(name, d))
  }

  function BracedText(name: string, op: string, d: string): string {
    "${" + (name + (op + (d + "}")))
  }

  /** The text of a bracketed reference, with the piece it stands for. */
  ghost predicate IsBraced(text: string, p: Piece) {
    exists name: string, op: string, d: string ::
      IsName(name, true) && IsTail(name, op, d, p) && text == BracedText(name, op, d)
  }

  /** Where the parts of a concatenation lie in a string that holds it from `i` on. */
  lemma PartsInText(s: string, i: nat, end: nat, a: string, b: string)
    requires i <= end <= |s| && s[i..end] == a + b
    ensures i + |a| <= end && s[i..i + |a|] == a && s[i + |a|..end] == b
  {
    assert (a + b)[..|a|] == a && (a + b)[|a|..] == b;
    assert s[i..end][..|a|] == s[i..i + |a|] && s[i..end][|a|..] == s[i + |a|..end];
  }

  lemma {:induction false} FindCharAt(s: string, c: char, i: nat, n: nat)
    requires i <= n < |s| && s[n] == c && c !in s[i..n]
    ensures FindChar(s, c, i) == n
    decreases n - i
  {
    if i < n {
      assert s[i] == s[i..n][0] && s[i + 1..n] == s[i..n][1..];
      FindCharAt(s, c, i + 1, n);
    }
  }

  /** The parts of a text that reads as a bracketed reference. */
  lemma BracedParts(s: string, i: nat, end: nat, name: string, op: string, d: string)
    requires i <= end <= |s| && s[i..end] == BracedText(name, op, d)
    ensures var n := i + 2 + |name|;
      && n + |op| + |d| + 1 == end && s[i..i + 2] == "${" && s[i + 2..n] == name && s[n..n + |op|] == op
      && s[n + |op|..end - 1] == d && s[end - 1] == '}'
  {
    var n := i + 2 + |name|;
    PartsInText(s, i, end, "${", name + (op + (d + "}")));
    PartsInText(s, i + 2, end, name, op + (d + "}"));
    PartsInText(s, n, end, op, d + "}");
    PartsInText(s, n + |op|, end, d, "}");
    assert s[end - 1..end][0] == '}';
  }

  /** The text of such parts. */
  lemma TextOfParts(s: string, i: nat, n: nat, from: nat, end: nat)
    requires i + 2 <= n <= from < end <= |s| && s[i] == '$' && s[i + 1] == '{' && s[end - 1] == '}'
    ensures s[i..end] == BracedText(s[i + 2..n], s[n..from], s[from..end - 1])
  {
    assert s[i..i + 2] == "${" && s[end - 1..end] == "}";
    Glued(s, from, end - 1, end);
    Glued(s, n, from, end);
    Glued(s, i + 2, n, end);
    Glued(s, i, i + 2, end);
  }

  lemma Glued(s: string, i: nat, j: nat, k: nat)
    requires i <= j <= k <= |s|
    ensures s[i..k] == s[i..j] + s[j..k]
  {
  }

  lemma NameReaches(s: string, i: nat, n: nat)
    requires i + 2 < n < |s| && IsName(s[i + 2..n], true) && s[n] in {'}', '-', ':'}
    ensures IsNameStart(s[i + 2]) && NameEnd(s, i + 3, true) == n
  {
    NameParts(s, i + 2, n, true);
    NameEndsAt(s, i + 3, n, true);
  }

  /** What follows the name, read from the string. */
  lemma TailIsRead(s: string, i: nat, n: nat, end: nat, name: string, op: string, d: string, p: Piece)
    requires n + |op| + |d| + 1 == end <= |s| && s[n..n + |op|] == op && s[n + |op|..end - 1] == d && s[end - 1] == '}'
    requires IsTail(name, op, d, p)
    ensures AfterName(s, i, name, n) == Some(Hole(i, end, p))
  {
    if op != "" {
      var from := n + |op|;
      assert s[n] == s[n..from][0] && s[from - 1] == s[n..from][|op| - 1];
      FindCharAt(s, '}', from, end - 1);
    }
  }

  lemma BracedIsFound(s: string, i: nat, end: nat, name: string, op: string, d: string, p: Piece)
    requires Unescaped(s, i) && i <= end <= |s| && s[i..end] == BracedText(name, op, d)
    requires IsName(name, true) && IsTail(name, op, d, p)
    ensures HoleAt(BRACKETED, s, i) == Some(Hole(i, end, p))
  {
    BracedParts(s, i, end, name, op, d);
    var n := i + 2 + |name|;
    assert s[i + 1] == s[i..i + 2][1] && (op != "" ==> s[n] == s[n..n + |op|][0]);
    NameReaches(s, i, n);
    NamedAt(s, i);
    TailIsRead(s, i, n, end, name, op, d, p);
  }

  /** The operator and default that were read behind a name. */
  lemma TailFound(s: string, i: nat, name: string, n: nat) returns (from: nat)
    requires n <= |s| && AfterName(s, i, name, n).Some?
    ensures var h := AfterName(s, i, name, n).value;
      n <= from < h.end <= |s| && s[h.end - 1] == '}' && IsTail(name, s[n..from], s[from..h.end - 1], h.piece)
  {
    from := if s[n] == '}' then n else if s[n] == ':' then n + 2 else n + 1;
    if from == n + 1 {
      assert s[n..from] == [s[n]] == "-";
    } else if from == n + 2 {
      assert s[n..from] == [s[n], s[n + 1]] == ":-";
    }
  }

  lemma BracedFound(s: string, i: nat)
    requires HoleAt(BRACKETED, s, i).Some?
    ensures var h := HoleAt(BRACKETED, s, i).value; h.end <= |s| && IsBraced(s[i..h.end], h.piece)
  {
    var n := NameEnd(s, i + 3, true);
    NameParts(s, i + 2, n, true);
    NamedAt(s, i);
    var from := TailFound(s, i, s[i + 2..n], n);
    TextOfParts(s, i, n, from, HoleAt(BRACKETED, s, i).value.end);
  }

  /** The bracketed pass matches exactly there. */
  lemma BracketedPattern(s: string, i: nat, h: Hole)
    ensures HoleAt(BRACKETED, s, i) == Some(h) <==>
      h.start == i && Unescaped(s, i) && i <= h.end <= |s| && IsBraced(s[i..h.end], h.piece)
  {
    if HoleAt(BRACKETED, s, i).Some? {
      BracedFound(s, i);
    }
    if h.start == i && Unescaped(s, i) && i <= h.end <= |s| && IsBraced(s[i..h.end], h.piece) {
      var name: string, op: string, d: string :|
        IsName(name, true) && IsTail(name, op, d, h.piece) && s[i..h.end] == BracedText(name, op, d);
      BracedIsFound(s, i, h.end, name, op, d, h.piece);
    }
  }

  // ----- every match is found

  /** A reference pass takes the matches from left to right: each one is found or begins inside one that is. */
  lemma {:induction false} EveryMatchFound(kinds: Kinds, s: string, i: nat, p: nat)
    requires !kinds.exec && i <= p < |s| && HoleAt(kinds, s, p).Some?
    ensures exists h :: h in Holes(kinds, s, i) && h.start <= p < h.end
    decreases |s| - i
  {
    ReadOneAlone(kinds, s, i);
    match HoleAt(kinds, s, i)
    case None => EveryMatchFound(kinds, s, i + 1, p);
    case Some(h) =>
      if p < h.end {
        assert h in Holes(kinds, s, i);
      } else {
        EveryMatchFound(kinds, s, h.end, p);
        var g :| g in Holes(kinds, s, h.end) && g.start <= p < g.end;
        assert g in Holes(kinds, s, i);
      }
  }

  // ----- references in front of any text

  lemma FirstPiece(kinds: Kinds, s: string, h: Hole)
    requires !kinds.exec && HoleAt(kinds, s, 0) == Some(h)
    ensures Split(kinds, s) == [h.piece] + Parts(s, h.end, |s|, Holes(kinds, s, h.end))
  {
    ReadOneAlone(kinds, s, 0);
    PartsFirst(s, 0, |s|, h, Holes(kinds, s, h.end));
  }

  /** `$NAME` is a reference to `NAME`, whatever follows that does not go on with the name. */
  lemma SimpleReference(name: string, rest: string)
    requires IsName(name, false) && (rest != "" ==> !IsName(name + [rest[0]], false))
    ensures Split(SIMPLE, "$" + name + rest) != [] && Split(SIMPLE, "$" + name + rest)[0] == Ref(name)
  {
    var s := "$" + name + rest;
    var end := 1 + |name|;
    assert s[1..end] == name;
    if rest != "" {
      assert s[1..end + 1] == name + [rest[0]];
    }
    SimplePattern(s, 0, Hole(0, end, Ref(name)));
    FirstPiece(SIMPLE, s, Hole(0, end, Ref(name)));
  }

  /** `${NAME}` is a reference, `${NAME-default}` and `${NAME:-default}` one with a default, whatever follows. */
  lemma BracedReference(name: string, op: string, d: string, p: Piece, rest: string)
    requires IsName(name, true) && IsTail(name, op, d, p)
    ensures Split(BRACKETED, BracedText(name, op, d) + rest) != []
    ensures Split(BRACKETED, BracedText(name, op, d) + rest)[0] == p
  {
    var text := BracedText(name, op, d);
    var s := text + rest;
    assert s[0..|text|] == text && s[0] == text[0];
    BracedIsFound(s, 0, |text|, name, op, d, p);
    FirstPiece(BRACKETED, s, Hole(0, |text|, p));
  }
}
