/** The JavaScript string operations the env-spec parser and the editor plugin lean on. */
module Strings {
  import opened Sequences

  /** What `String.prototype.trim` strips: white space and line terminators (ECMA-262, section 12.2 and 12.3). */
  predicate IsSpace(c: char) {
    || '\t' <= c <= '\r' || c == ' ' || c == '\U{A0}' || c == '\U{1680}'
    || '\U{2000}' <= c <= '\U{200A}' || c == '\U{2028}' || c == '\U{2029}'
    || c == '\U{202F}' || c == '\U{205F}' || c == '\U{3000}' || c == '\U{FEFF}'
  }

  function TrimStart(s: string): string {
    if s != "" && IsSpace(s[0]) then TrimStart(s[1..]) else s
  }

  function TrimEnd(s: string): string {
    if s != "" && IsSpace(s[|s| - 1]) then TrimEnd(s[..|s| - 1]) else s
  }

  function Trim(s: string): string {
    TrimEnd(TrimStart(s))
  }

  ghost predicate AllSpace(s: string) {
    forall c | c in s :: IsSpace(c)
  }

  lemma {:induction false} TrimStartSplits(s: string) returns (lead: string)
    ensures s == lead + TrimStart(s) && AllSpace(lead)
    ensures TrimStart(s) == "" || !IsSpace(TrimStart(s)[0])
  {
    if s != "" && IsSpace(s[0]) {
      var rest := TrimStartSplits(s[1..]);
      lead := [s[0]] + rest;
    } else {
      lead := "";
    }
  }

  lemma {:induction false} TrimEndSplits(s: string) returns (tail: string)
    ensures s == TrimEnd(s) + tail && AllSpace(tail)
    ensures TrimEnd(s) == "" || !IsSpace(TrimEnd(s)[|TrimEnd(s)| - 1])
  {
    if s != "" && IsSpace(s[|s| - 1]) {
      var rest := TrimEndSplits(s[..|s| - 1]);
      tail := rest + [s[|s| - 1]];
    } else {
      tail := "";
    }
  }

  /** Trimming takes white space off both ends and nothing else. */
  lemma TrimSplits(s: string) returns (lead: string, tail: string)
    ensures s == lead + Trim(s) + tail && AllSpace(lead) && AllSpace(tail)
    ensures Trim(s) != "" ==> !IsSpace(Trim(s)[0]) && !IsSpace(Trim(s)[|Trim(s)| - 1])
  {
    lead := TrimStartSplits(s);
    tail := TrimEndSplits(TrimStart(s));
    assert Trim(s) != "" ==> Trim(s)[0] == TrimStart(s)[0];
  }

  lemma TrimNothing(s: string)
    requires s != "" ==> !IsSpace(s[0]) && !IsSpace(s[|s| - 1])
    ensures Trim(s) == s
  {
  }

  /** `String.prototype.replaceAll` with string arguments: leftmost, non-overlapping. */
  function ReplaceAll(s: string, pattern: string, replacement: string): string
    requires pattern != ""
  {
    if |s| < |pattern| then s
    else if pattern <= s then replacement + ReplaceAll(s[|pattern|..], pattern, replacement)
    else [s[0]] + ReplaceAll(s[1..], pattern, replacement)
  }

  /** `c` immediately followed by `d` somewhere in `s`. */
  predicate HasPair(s: string, c: char, d: char) {
    exists i | 0 <= i < |s| - 1 :: s[i] == c && s[i + 1] == d
  }

  lemma PairPrefix(s: string, c: char, d: char)
    requires |s| >= 2
    ensures [c, d] <= s <==> s[0] == c && s[1] == d
  {
    assert [c, d] <= s <==> s[..2] == [c, d];
  }

  lemma PairCons(s: string, c: char, d: char)
    requires |s| >= 2
    ensures HasPair(s, c, d) <==> (s[0] == c && s[1] == d) || HasPair(s[1..], c, d)
  {
    var t := s[1..];
    assert forall i | 0 <= i < |t| :: t[i] == s[i + 1];
    forall i | 0 < i < |s| - 1 && s[i] == c && s[i + 1] == d ensures HasPair(t, c, d) {
      assert t[i - 1] == c && t[i - 1 + 1] == d;
    }
    assert s[0] == c && s[0 + 1] == d ==> HasPair(s, c, d);
  }

  lemma ReplaceStep(s: string, c: char, d: char, r: string)
    requires |s| >= 2
    ensures ReplaceAll(s, [c, d], r) ==
      if s[0] == c && s[1] == d then r + ReplaceAll(s[2..], [c, d], r) else [s[0]] + ReplaceAll(s[1..], [c, d], r)
  {
    PairPrefix(s, c, d);
  }

  /** Replacing a pair that is not cut by the boundary works on each side separately. */
  lemma {:induction false} ReplacePairSplits(a: string, b: string, c: char, d: char, r: string)
    requires a == "" || b == "" || a[|a| - 1] != c || b[0] != d
    ensures ReplaceAll(a + b, [c, d], r) == ReplaceAll(a, [c, d], r) + ReplaceAll(b, [c, d], r)
  {
    if a == "" {
      assert a + b == b;
    } else if b == "" {
      assert a + b == a;
    } else {
      ReplaceStep(a + b, c, d, r);
      if |a| == 1 {
        assert (a + b)[1..] == b;
      } else {
        ReplaceStep(a, c, d, r);
        var n := if a[0] == c && a[1] == d then 2 else 1;
        assert (a + b)[n..] == a[n..] + b;
        ReplacePairSplits(a[n..], b, c, d, r);
        Associate(if n == 2 then r else [a[0]], ReplaceAll(a[n..], [c, d], r), ReplaceAll(b, [c, d], r));
      }
    }
  }

  /** Dropping the first half of a pair changes the string exactly when the pair occurs. */
  lemma {:induction false} ReplacePairFixed(s: string, c: char, d: char)
    ensures |ReplaceAll(s, [c, d], [d])| <= |s|
    ensures ReplaceAll(s, [c, d], [d]) == s <==> !HasPair(s, c, d)
  {
    if |s| >= 2 {
      PairPrefix(s, c, d);
      PairCons(s, c, d);
      if [c, d] <= s {
        ReplacePairFixed(s[2..], c, d);
      } else {
        ReplacePairFixed(s[1..], c, d);
        var tail := ReplaceAll(s[1..], [c, d], [d]);
        assert s == [s[0]] + s[1..];
        assert ([s[0]] + tail)[1..] == tail;
      }
    }
  }

  lemma NoPairInPart(s: string, from: nat, to: nat, c: char, d: char)
    requires from <= to <= |s| && !HasPair(s, c, d)
    ensures !HasPair(s[from..to], c, d)
  {
    var t := s[from..to];
    forall i | 0 <= i < |t| - 1 ensures !(t[i] == c && t[i + 1] == d) {
      assert t[i] == s[from + i] && t[i + 1] == s[from + i + 1];
    }
  }
}
