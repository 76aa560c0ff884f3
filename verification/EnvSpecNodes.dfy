/**
 * The value nodes of a parsed env-spec file and the values they hold
 * (packages/env-spec-parser/src/classes.ts and helpers.ts).
 *
 * Printing a parsed number back needs IEEE arithmetic. It is the parameter `exact`: `exact(s)` says
 * that `Number(s)` prints back as `s` and lies in the safe range, so `autoCoerce` keeps the number.
 * A number is therefore represented by the text it prints as; no number prints as the empty string,
 * which the number pattern itself lets through.
 */
module EnvSpecNodes {
  import opened Outcomes
  import opened Sequences
  import opened Strings

  datatype Value =
    | Undefined
    | Bool(b: bool)
    | Num(text: string)
    | Str(s: string)
    | List(elems: seq<Value>)
    | Record(fields: map<string, Value>)

  datatype Quote = NoQuote | SingleQuote | DoubleQuote | Backtick | TripleDouble | TripleBacktick

  /** A static value: raw source text, or the implicit `true` of a bare decorator. */
  datatype Static =
    | Text(raw: string, quote: Quote, skipTrim: bool)
    | Implicit(value: Value)

  datatype Node =
    | Leaf(st: Static)
    | Call(name: string, args: seq<Item>)
    | Object(entries: seq<Item>)
    | Array(elems: seq<Item>)
    | ArgList(args: seq<Item>)

  /** One element of an argument list or literal, with a key when it is a key-value pair. */
  datatype Item = Item(key: Option<string>, node: Node)

  // ----- helpers.ts

  predicate IsDigit(c: char) {
    '0' <= c <= '9'
  }

  predicate AllDigits(s: string) {
    forall c | c in s :: IsDigit(c)
  }

  function DigitRun(s: string): (n: nat)
    ensures n <= |s| && AllDigits(s[..n])
    ensures n < |s| ==> !IsDigit(s[n])
  {
    if s != "" && IsDigit(s[0]) then
      assert s[..1 + DigitRun(s[1..])] == [s[0]] + s[1..][..DigitRun(s[1..])];
      1 + DigitRun(s[1..])
    else 0
  }

  predicate IsFraction(s: string) {
    s == "" || (|s| > 1 && s[0] == '.' && AllDigits(s[1..]))
  }

  /** VALID_NUMBER_REGEX: no leading zeros, exponents or second decimal points. */
  predicate NumberShape(s: string) {
    var t := if s != "" && s[0] == '-' then s[1..] else s;
    if t != "" && t[0] == '0' then IsFraction(t[1..]) else IsFraction(t[DigitRun(t)..])
  }

  function AutoCoerce(exact: string -> bool, s: string): Value {
    if s == "true" then Bool(true)
    else if s == "false" then Bool(false)
    else if s == "undefined" then Undefined
    else if NumberShape(s) && s != "" && exact(s) then Num(s)
    else Str(s)
  }

  // ----- classes.ts

  function Mark(q: Quote): string {
    match q
    case NoQuote => ""
    case SingleQuote => "'"
    case DoubleQuote => "\""
    case Backtick => "`"
    case TripleDouble => "\"\"\""
    case TripleBacktick => "```"
  }

  /** The value of a static between its quotes, with escaped quotes restored. */
  function Unwrap(raw: string, q: Quote): string
    requires q != NoQuote
  {
    var m := Mark(q);
    var inner := if |raw| >= 2 * |m| then raw[|m|..|raw| - |m|] else "";
    ReplaceAll(inner, ['\\', m[0]], [m[0]])
  }

  function StaticValue(exact: string -> bool, st: Static): Value {
    match st
    case Implicit(v) => v
    case Text(raw, q, skipTrim) =>
      if q != NoQuote then Str(Unwrap(raw, q))
      else if skipTrim then AutoCoerce(exact, raw)
      else if Trim(raw) == "" then Undefined
      else AutoCoerce(exact, Trim(raw))
  }

  function QuoteOf(st: Static): Quote {
    if st.Text? then st.quote else NoQuote
  }

  function Unescape(q: Quote, s: string): string {
    var dollars := if q != SingleQuote then ReplaceAll(s, "\\$", "$") else s;
    if q == DoubleQuote || q == Backtick then ReplaceAll(dollars, "\\n", "\n") else dollars
  }

  function UnescapeValue(q: Quote, v: Value): Value {
    if v.Str? then Str(Unescape(q, v.s)) else v
  }

  function UnescapedValue(exact: string -> bool, st: Static): Value {
    UnescapeValue(QuoteOf(st), StaticValue(exact, st))
  }

  /** The text a value contributes to `Array.prototype.join`. */
  function TextOf(v: Value): string {
    match v
    case Undefined => ""
    case Bool(b) => if b then "true" else "false"
    case Num(t) => t
    case Str(s) => s
    case List(elems) => CommaJoin(elems)
    case Record(_) => "[object Object]"
  }

  function CommaJoin(vs: seq<Value>): string {
    if vs == [] then ""
    else if |vs| == 1 then TextOf(vs[0])
    else TextOf(vs[0]) + "," + CommaJoin(vs[1..])
  }

  /** `String(value)`, which is also the property key a value denotes. */
  function StringOf(v: Value): string {
    if v == Undefined then "undefined" else TextOf(v)
  }

  function ToString(exact: string -> bool, st: Static): string {
    var text := StringOf(StaticValue(exact, st));
    var m := Mark(QuoteOf(st));
    if m == "" then text else m + ReplaceAll(text, m, "\\" + m) + m
  }

  // ----- properties

  /** Coercion changes the type of a literal but not its text, except that `undefined` vanishes. */
  lemma CoercionKeepsText(exact: string -> bool, s: string)
    ensures TextOf(AutoCoerce(exact, s)) == s <==> s != "undefined"
    ensures StringOf(AutoCoerce(exact, s)) == s
  {
  }

  lemma CoercedTextIsPlain(exact: string -> bool, s: string)
    requires !AutoCoerce(exact, s).Str?
    ensures '$' !in s
  {
    if NumberShape(s) {
      if s != "" && s[0] == '-' {
        UnsignedIsPlain(s[1..]);
        assert s == ['-'] + s[1..];
      } else {
        UnsignedIsPlain(s);
      }
    }
  }

  lemma UnsignedIsPlain(t: string)
    requires if t != "" && t[0] == '0' then IsFraction(t[1..]) else IsFraction(t[DigitRun(t)..])
    ensures '$' !in t
  {
    var n := if t != "" && t[0] == '0' then 1 else DigitRun(t);
    FractionIsPlain(t[n..]);
    assert '$' !in t[..n];
    assert t == t[..n] + t[n..];
  }

  lemma FractionIsPlain(f: string)
    requires IsFraction(f)
    ensures '$' !in f
  {
    if f != "" {
      assert f == [f[0]] + f[1..];
    }
  }

  /** Escaping every quote and unescaping every escaped quote is the identity, whatever `v` holds. */
  lemma {:induction false} EscapeUnescape(v: string, q: char)
    requires q != '\\'
    ensures ReplaceAll(ReplaceAll(v, [q], ['\\', q]), ['\\', q], [q]) == v
  {
    if v != "" {
      EscapeUnescape(v[1..], q);
      var rest := ReplaceAll(v[1..], [q], ['\\', q]);
      assert v == [v[0]] + v[1..];
      assert [q] <= v <==> v[0] == q by {
        assert [q] <= v <==> v[..1] == [q];
      }
      if v[0] == q {
        assert ReplaceAll(v, [q], ['\\', q]) == ['\\', q] + rest;
        assert (['\\', q] + rest)[2..] == rest;
      } else {
        assert ReplaceAll(v, [q], ['\\', q]) == [v[0]] + rest;
        assert ([v[0]] + rest)[1..] == rest;
        if rest != "" {
          PairPrefix([v[0]] + rest, '\\', q);
          EscapedHead(v[1..], q);
        }
      }
    }
  }

  ghost predicate EndsInBackslash(t: string) {
    t != "" && t[|t| - 1] == '\\'
  }

  lemma {:induction false} LastKept(a: string, d: char)
    requires d != '\\' && !EndsInBackslash(a)
    ensures !EndsInBackslash(ReplaceAll(a, ['\\', d], [d]))
    ensures a != "" ==> ReplaceAll(a, ['\\', d], [d]) != ""
  {
    var pair := ['\\', d];
    if |a| >= 2 {
      PairPrefix(a, '\\', d);
      var rest := if pair <= a then a[2..] else a[1..];
      LastKept(rest, d);
      assert ReplaceAll(a, pair, [d]) == [if pair <= a then d else a[0]] + ReplaceAll(rest, pair, [d]);
    }
  }

  /** Unescaping splits at every cut that does not follow a backslash. */
  lemma UnescapeSplits(q: Quote, a: string, b: string)
    requires !EndsInBackslash(a) || b == ""
    ensures Unescape(q, a + b) == Unescape(q, a) + Unescape(q, b)
  {
    if b == "" {
      assert a + b == a;
      assert Unescape(q, b) == "";
    } else {
      ReplacePairSplits(a, b, '\\', '$', "$");
      LastKept(a, '$');
      var x := if q != SingleQuote then ReplaceAll(a, "\\$", "$") else a;
      var y := if q != SingleQuote then ReplaceAll(b, "\\$", "$") else b;
      ReplacePairSplits(x, y, '\\', 'n', "\n");
    }
  }

  /** An escaped text never begins with a bare quote. */
  lemma EscapedHead(v: string, q: char)
    requires q != '\\'
    ensures var e := ReplaceAll(v, [q], ['\\', q]); e != "" ==> e[0] != q
  {
    if v != "" {
      assert [q] <= v <==> v[..1] == [q];
    }
  }

  lemma BetweenMarks(m: string, t: string)
    ensures (m + t + m)[|m|..|m + t + m| - |m|] == t
  {
  }

  /** Rebuilding a quoted static value from its own `toString()` gives the same value back. */
  lemma ToStringRoundTrip(exact: string -> bool, st: Static)
    requires QuoteOf(st) in {SingleQuote, DoubleQuote, Backtick}
    ensures StaticValue(exact, Text(ToString(exact, st), QuoteOf(st), false)) == StaticValue(exact, st)
  {
    var v := StaticValue(exact, st);
    var m := Mark(QuoteOf(st));
    var escaped := ReplaceAll(v.s, m, "\\" + m);
    assert "\\" + m == ['\\', m[0]] && m == [m[0]];
    EscapeUnescape(v.s, m[0]);
    BetweenMarks(m, escaped);
  }

  // ----- triple quotes

  predicate StartsTriple(v: string, c: char) {
    |v| >= 3 && v[0] == c && v[1] == c && v[2] == c
  }

  /** A backslash in front of a quote that is not the first of three: it is not escaped, but is unescaped. */
  predicate LooseQuote(v: string, c: char) {
    |v| >= 2 &&
    if StartsTriple(v, c) then LooseQuote(v[3..], c)
    else (v[0] == '\\' && v[1] == c && !StartsTriple(v[1..], c)) || LooseQuote(v[1..], c)
  }

  function EscapeTriple(v: string, c: char): string {
    ReplaceAll(v, [c, c, c], ['\\', c, c, c])
  }

  function UnescapeQuote(v: string, c: char): string {
    ReplaceAll(v, ['\\', c], [c])
  }

  lemma EscapeTripleStep(v: string, c: char)
    requires v != ""
    ensures EscapeTriple(v, c) ==
      if StartsTriple(v, c) then ['\\', c, c, c] + EscapeTriple(v[3..], c) else [v[0]] + EscapeTriple(v[1..], c)
  {
    if |v| < 3 {
      assert v == [v[0]] + v[1..];
    } else {
      assert [c, c, c] <= v <==> v[..3] == [c, c, c];
    }
  }

  lemma UnescapeStep(x: char, t: string, c: char)
    ensures UnescapeQuote([x] + t, c) ==
      if x == '\\' && t != "" && t[0] == c then [c] + UnescapeQuote(t[1..], c) else [x] + UnescapeQuote(t, c)
  {
    var v := [x] + t;
    assert v[1..] == t;
    if t != "" {
      PairPrefix(v, '\\', c);
      assert v[2..] == t[1..];
    } else {
      assert v == [x];
    }
  }

  lemma UnescapeTriple(t: string, c: char)
    requires c != '\\'
    ensures UnescapeQuote(['\\', c, c, c] + t, c) == [c, c, c] + UnescapeQuote(t, c)
  {
    assert ['\\', c, c, c] + t == ['\\'] + ([c] + ([c] + ([c] + t)));
    UnescapeStep('\\', [c] + ([c] + ([c] + t)), c);
    assert ([c] + ([c] + ([c] + t)))[1..] == [c] + ([c] + t);
    UnescapeStep(c, [c] + t, c);
    UnescapeStep(c, t, c);
  }

  /** Escaping triple quotes and unescaping quotes gives a text back exactly when no quote in it is loose. */
  lemma {:induction false} EscapeTripleRoundTrip(v: string, c: char)
    requires c != '\\'
    ensures |UnescapeQuote(EscapeTriple(v, c), c)| <= |v|
    ensures UnescapeQuote(EscapeTriple(v, c), c) == v <==> !LooseQuote(v, c)
    decreases |v|
  {
    if v != "" {
      EscapeTripleStep(v, c);
      if StartsTriple(v, c) {
        EscapeTripleRoundTrip(v[3..], c);
        UnescapeTriple(EscapeTriple(v[3..], c), c);
        assert v == [c, c, c] + v[3..];
        SameHead([c, c, c], UnescapeQuote(EscapeTriple(v[3..], c), c), v[3..]);
      } else {
        var rest := EscapeTriple(v[1..], c);
        UnescapeStep(v[0], rest, c);
        EscapeTripleRoundTrip(v[1..], c);
        assert v == [v[0]] + v[1..];
        SameHead([v[0]], UnescapeQuote(rest, c), v[1..]);
        if v[1..] != "" {
          EscapeTripleStep(v[1..], c);
          if v[0] == '\\' && v[1] == c && !StartsTriple(v[1..], c) {
            assert v[1..][1..] == v[2..] && rest[1..] == EscapeTriple(v[2..], c);
            EscapeTripleRoundTrip(v[2..], c);
          }
        }
      }
    }
  }

  /**
   * In triple quotes `toString()` escapes only three quotes in a row, while rebuilding unescapes every
   * escaped quote: the value comes back exactly when it has no loose quote.
   */
  lemma ToStringRoundTripTriple(exact: string -> bool, st: Static)
    requires QuoteOf(st) in {TripleDouble, TripleBacktick}
    ensures StaticValue(exact, Text(ToString(exact, st), QuoteOf(st), false)) == StaticValue(exact, st) <==>
      !LooseQuote(StringOf(StaticValue(exact, st)), Mark(QuoteOf(st))[0])
  {
    var v := StaticValue(exact, st);
    var m := Mark(QuoteOf(st));
    var c := m[0];
    var escaped := ReplaceAll(v.s, m, "\\" + m);
    assert m == [c, c, c] && "\\" + m == ['\\', c, c, c];
    EscapeTripleRoundTrip(v.s, c);
    BetweenMarks(m, escaped);
  }

  /** The value `\"` in triple quotes, which is read from two backslashes and a quote. */
  const LOOSE := Text("\"\"\"\\\\\"\"\"\"", TripleDouble, false)

  lemma LooseQuoteRead(exact: string -> bool)
    ensures StaticValue(exact, LOOSE) == Str("\\\"")
  {
    assert LOOSE.raw[3..6] == "\\\\\"";
    UnescapeStep('\\', "\\\"", '"');
    UnescapeStep('\\', "\"", '"');
    assert "\"\""[1..] == "\"";
    assert "\\\\\"" == ['\\'] + "\\\"" && "\\\"" == ['\\'] + "\"";
  }

  /** It does not come back from its own `toString()`: the backslash is lost. */
  lemma LooseQuoteIsLost(exact: string -> bool)
    ensures StaticValue(exact, Text(ToString(exact, LOOSE), TripleDouble, false)) != StaticValue(exact, LOOSE)
  {
    LooseQuoteRead(exact);
    ToStringRoundTripTriple(exact, LOOSE);
    assert LooseQuote("\\\"", '"');
  }
}
