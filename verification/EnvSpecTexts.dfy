/**
 * How the text of a value is read (packages/env-spec-parser/src/helpers.ts and classes.ts), with the number
 * pattern, the quotes, the escapes and the white space written out.
 */
module EnvSpecTexts {
  import opened Outcomes
  import opened Sequences
  import opened Strings
  import opened EnvSpecNodes

  // ----- numbers

  predicate IsDigits(s: string) {
    forall i | 0 <= i < |s| :: '0' <= s[i] <= '9'
  }

  /** `-?`, then `0` or a number without leading zeros or nothing, then nothing or a dot and digits. */
  predicate IsNumber(sign: string, whole: string, fraction: string) {
    && (sign == "" || sign == "-")
    && (whole == "" || whole == "0" || (IsDigits(whole) && whole[0] != '0'))
    && (fraction == "" || (|fraction| > 1 && fraction[0] == '.' && IsDigits(fraction[1..])))
  }

  lemma DigitsAre(s: string)
    ensures AllDigits(s) <==> IsDigits(s)
  {
    assert forall i | 0 <= i < |s| :: s[i] in s;
  }

  lemma {:induction false} RunOfDigits(whole: string, rest: string)
    requires IsDigits(whole) && (rest != "" ==> !('0' <= rest[0] <= '9'))
    ensures DigitRun(whole + rest) == |whole|
  {
    if whole == "" {
      assert whole + rest == rest;
    } else {
      assert (whole + rest)[1..] == whole[1..] + rest;
      RunOfDigits(whole[1..], rest);
    }
  }

  lemma Unsigned(t: string) returns (whole: string, fraction: string)
    requires if t != "" && t[0] == '0' then IsFraction(t[1..]) else IsFraction(t[DigitRun(t)..])
    ensures IsNumber("", whole, fraction) && t == whole + fraction
  {
    var n := if t != "" && t[0] == '0' then 1 else DigitRun(t);
    whole, fraction := t[..n], t[n..];
    DigitsAre(t[..DigitRun(t)]);
    DigitsAre(fraction[if fraction == "" then 0 else 1..]);
  }

  lemma UnsignedBack(whole: string, fraction: string)
    requires IsNumber("", whole, fraction)
    ensures var t := whole + fraction;
      if t != "" && t[0] == '0' then IsFraction(t[1..]) else IsFraction(t[DigitRun(t)..])
  {
    var t := whole + fraction;
    if whole == "0" {
      assert t[1..] == fraction;
    } else {
      RunOfDigits(whole, fraction);
      assert t[|whole|..] == fraction;
    }
    DigitsAre(fraction[if fraction == "" then 0 else 1..]);
  }

  /** The number pattern. */
  lemma NumberPattern(s: string)
    ensures NumberShape(s) <==>
      exists sign: string, whole: string, fraction: string ::
        IsNumber(sign, whole, fraction) && s == sign + (whole + fraction)
  {
    if NumberShape(s) {
      var sign := if s != "" && s[0] == '-' then "-" else "";
      var whole, fraction := Unsigned(s[|sign|..]);
      assert s == sign + s[|sign|..] && IsNumber(sign, whole, fraction);
    }
    if sign: string, whole: string, fraction: string :|
      IsNumber(sign, whole, fraction) && s == sign + (whole + fraction)
    {
      UnsignedBack(whole, fraction);
      assert s[|sign|..] == whole + fraction;
    }
  }

  /** A text is a boolean, undefined, a number that prints back, or itself. */
  lemma CoercionCases(exact: string -> bool, s: string)
    ensures AutoCoerce(exact, s) ==
      if s == "true" then Bool(true) else if s == "false" then Bool(false) else if s == "undefined" then Undefined
      else if s != "" && exact(s) && (exists sign: string, whole: string, fraction: string ::
                                        IsNumber(sign, whole, fraction) && s == sign + (whole + fraction)) then Num(s)
      else Str(s)
  {
    NumberPattern(s);
  }

  // ----- quotes

  /** What stands between the quotes of each kind is the value, when it holds no backslash. */
  lemma QuotedValue(exact: string -> bool, t: string, skipTrim: bool)
    requires '\\' !in t
    ensures StaticValue(exact, Text("'" + t + "'", SingleQuote, skipTrim)) == Str(t)
    ensures StaticValue(exact, Text("\"" + t + "\"", DoubleQuote, skipTrim)) == Str(t)
    ensures StaticValue(exact, Text("`" + t + "`", Backtick, skipTrim)) == Str(t)
    ensures StaticValue(exact, Text("\"\"\"" + t + "\"\"\"", TripleDouble, skipTrim)) == Str(t)
    ensures StaticValue(exact, Text("```" + t + "```", TripleBacktick, skipTrim)) == Str(t)
  {
    Quoted(exact, "'", t, SingleQuote, skipTrim);
    Quoted(exact, "\"", t, DoubleQuote, skipTrim);
    Quoted(exact, "`", t, Backtick, skipTrim);
    Quoted(exact, "\"\"\"", t, TripleDouble, skipTrim);
    Quoted(exact, "```", t, TripleBacktick, skipTrim);
  }

  lemma Quoted(exact: string -> bool, m: string, t: string, q: Quote, skipTrim: bool)
    requires '\\' !in t && q != NoQuote && Mark(q) == m
    ensures StaticValue(exact, Text(m + t + m, q, skipTrim)) == Str(t)
  {
    BetweenMarks(m, t);
    ReplacePairFixed(t, '\\', m[0]);
  }

  /** A backslash before the quote mark is dropped, and no other. */
  function Unquoted(t: string, mark: char): string {
    if |t| >= 2 && t[0] == '\\' && t[1] == mark then [mark] + Unquoted(t[2..], mark)
    else if t == "" then "" else [t[0]] + Unquoted(t[1..], mark)
  }

  lemma {:induction false} UnquotedIs(t: string, mark: char)
    ensures ReplaceAll(t, ['\\', mark], [mark]) == Unquoted(t, mark)
    decreases |t|
  {
    if |t| >= 2 {
      ReplaceStep(t, '\\', mark, [mark]);
      UnquotedIs(t[1..], mark);
      UnquotedIs(t[2..], mark);
    } else if t != "" {
      assert t == [t[0]] + t[1..];
    }
  }

  /** How many characters a quote takes at each end. */
  function QuoteWidth(q: Quote): nat {
    if q == NoQuote then 0 else if q in {TripleDouble, TripleBacktick} then 3 else 1
  }

  /** The value of any quoted text: its ends are dropped unseen, and one too short for its quotes is empty. */
  lemma UnquotedValue(exact: string -> bool, raw: string, q: Quote, skipTrim: bool)
    requires q != NoQuote
    ensures var w := QuoteWidth(q); StaticValue(exact, Text(raw, q, skipTrim)) == Str(
      if |raw| < 2 * w then "" else Unquoted(raw[w..|raw| - w], Mark(q)[0]))
  {
    UnquotedIs(if |raw| >= 2 * QuoteWidth(q) then raw[QuoteWidth(q)..|raw| - QuoteWidth(q)] else "", Mark(q)[0]);
  }

  /** Without quotes white space around the text is dropped, and a blank text is undefined; slices keep theirs. */
  lemma UnquotedText(exact: string -> bool, lead: string, t: string, tail: string)
    requires AllSpace(lead) && AllSpace(tail) && (t != "" ==> !IsSpace(t[0]) && !IsSpace(t[|t| - 1]))
    ensures StaticValue(exact, Text(lead + t + tail, NoQuote, false)) ==
      if t == "" then Undefined else AutoCoerce(exact, t)
    ensures StaticValue(exact, Text(lead + t + tail, NoQuote, true)) == AutoCoerce(exact, lead + t + tail)
  {
    TrimAround(lead, t, tail);
  }

  lemma {:induction false} TrimmedStart(lead: string, t: string)
    requires AllSpace(lead) && (t != "" ==> !IsSpace(t[0]))
    ensures TrimStart(lead + t) == t
  {
    if lead == "" {
      assert lead + t == t;
    } else {
      assert (lead + t)[1..] == lead[1..] + t && lead[0] in lead;
      TrimmedStart(lead[1..], t);
    }
  }

  lemma {:induction false} TrimmedEnd(t: string, tail: string)
    requires AllSpace(tail) && (t != "" ==> !IsSpace(t[|t| - 1]))
    ensures TrimEnd(t + tail) == t
  {
    if tail == "" {
      assert t + tail == t;
    } else {
      var n := |tail| - 1;
      assert (t + tail)[..|t + tail| - 1] == t + tail[..n] && tail[n] in tail;
      TrimmedEnd(t, tail[..n]);
    }
  }

  lemma TrimAround(lead: string, t: string, tail: string)
    requires AllSpace(lead) && AllSpace(tail) && (t != "" ==> !IsSpace(t[0]) && !IsSpace(t[|t| - 1]))
    ensures Trim(lead + t + tail) == t
  {
    if t == "" {
      assert lead + t + tail == (lead + tail) + "";
      TrimmedStart(lead + tail, "");
    } else {
      assert lead + t + tail == lead + (t + tail);
      TrimmedStart(lead, t + tail);
      TrimmedEnd(t, tail);
    }
  }

  /** The code points that trimming takes off: tab to carriage return, space, and those of Unicode. */
  const WHITE_SPACE := {0x9, 0xA, 0xB, 0xC, 0xD, 0x20, 0xA0, 0x1680, 0x2000, 0x2001, 0x2002, 0x2003, 0x2004, 0x2005,
    0x2006, 0x2007, 0x2008, 0x2009, 0x200A, 0x2028, 0x2029, 0x202F, 0x205F, 0x3000, 0xFEFF}

  lemma TrimsWhiteSpace(c: char)
    ensures Trim([c]) == "" <==> c as int in WHITE_SPACE
    ensures Trim([c]) == [c] <==> c as int !in WHITE_SPACE
  {
    assert IsSpace(c) <==> c as int in WHITE_SPACE;
    if IsSpace(c) {
      TrimAround([c], "", "");
      assert [c] + "" + "" == [c];
    } else {
      TrimNothing([c]);
    }
  }

  // ----- escapes

  /** Read from left to right: `\$` is a dollar sign except in single quotes, `\n` a new line in `"` and backticks. */
  function Decoded(q: Quote, s: string): string {
    if |s| >= 2 && s[0] == '\\' && s[1] == '$' && q != SingleQuote then "$" + Decoded(q, s[2..])
    else if |s| >= 2 && s[0] == '\\' && s[1] == 'n' && (q == DoubleQuote || q == Backtick)
    then "\n" + Decoded(q, s[2..])
    else if s == "" then "" else [s[0]] + Decoded(q, s[1..])
  }

  lemma NewlineStep(x: char, t: string)
    ensures ReplaceAll([x] + t, "\\n", "\n") ==
      if x == '\\' && t != "" && t[0] == 'n' then "\n" + ReplaceAll(t[1..], "\\n", "\n")
      else [x] + ReplaceAll(t, "\\n", "\n")
  {
    var v := [x] + t;
    assert v[1..] == t;
    if t != "" {
      ReplaceStep(v, '\\', 'n', "\n");
      assert v[2..] == t[1..];
    }
  }

  /** The first character of a text after `\$` has been replaced in it. */
  lemma DollarsFirst(t: string)
    requires t != ""
    ensures var r := ReplaceAll(t, "\\$", "$"); r != "" && (r[0] == 'n' <==> t[0] == 'n')
  {
    assert t == [t[0]] + t[1..];
    UnescapeStep(t[0], t[1..], '$');
  }

  /** Unescaping in two replacements is reading the escapes from left to right. */
  lemma {:induction false} UnescapeDecodes(q: Quote, s: string)
    ensures Unescape(q, s) == Decoded(q, s)
    decreases |s|
  {
    if s != "" {
      var x, t := s[0], s[1..];
      assert s == [x] + t;
      UnescapeStep(x, t, '$');
      UnescapeDecodes(q, t);
      if t != "" {
        assert t[1..] == s[2..] && t == [t[0]] + t[1..];
        UnescapeDecodes(q, t[1..]);
        DollarsFirst(t);
        UnescapeStep(t[0], t[1..], '$');
      }
      var dollars := if q != SingleQuote then UnescapeQuote(t, '$') else t;
      NewlineStep(x, dollars);
      if t != "" {
        NewlineStep('$', UnescapeQuote(t[1..], '$'));
      }
    }
  }
}
