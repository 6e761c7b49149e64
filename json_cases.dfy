/** Concrete scans: the behaviours the Go package's tests check,
    including the quirks the lexer has on purpose or by accident. */
module JsonCases {
  import opened Lexers
  import opened Json
  import opened Pigment

  /** A policy that asks for nothing. */
  function Plain(): (pg: Pigmentizer<()>)
    ensures Transparent(pg)
  {
    Pigmentizer((ps: (), k: string, v: string, t: Token) => (false, v, ps),
                (ps: (), k: string, v: string, t: Token) => (false, v, ps))
  }

  /** The calls a transparent policy sees for one leaf. */
  function Pair(k: string, v: string, t: Token): seq<Call> {
    [Call(FormatOp, k, v, t), Call(StyleOp, k, v, t)]
  }

  /** The formatter of the lexer's test: every null is spelled NULL. */
  function NullUpper(): Pigmentizer<()> {
    Pigmentizer((ps: (), k: string, v: string, t: Token) => if t == NULL then (true, "NULL", ps) else (false, v, ps),
                (ps: (), k: string, v: string, t: Token) => (false, v, ps))
  }

  const ESC: char := 27 as char

  /** `v` in a 256-colour terminal foreground, as the styling library
      renders it. */
  function Paint(colour: string, v: string): string {
    [ESC] + "[38;5;" + colour + "m" + v + [ESC] + "[0m"
  }

  /** The policy of the package's test: a call counter that style bumps on
      every call; strings alternate between two colours, nothing else is
      styled, nothing is replaced. */
  function Blink(): Pigmentizer<int> {
    Pigmentizer((i: int, k: string, v: string, t: Token) => (false, v, i),
                (i: int, k: string, v: string, t: Token) =>
                  if t == STRING then (true, Paint(if (i + 1) % 2 == 0 then "122" else "34", v), i + 1)
                  else (false, v, i + 1))
  }

  /** One character scanned from `m`. */
  lemma One<S>(pg: Pigmentizer<S>, m: Scan<S>, c: char)
    ensures Run(pg, m, [c]) == Step(pg, m, c)
  {
    assert [c][..0] == [];
  }

  /** A scan continued from a known intermediate state. */
  lemma Then<S>(pg: Pigmentizer<S>, st: Scan<S>, s: string, m: Scan<S>, t: string)
    requires Run(pg, st, s) == Ok(m)
    ensures Run(pg, st, s + t) == Run(pg, m, t)
  {
    RunAppend(pg, st, s, t);
  }

  /** A state the scan reaches between tokens. */
  predicate Between<S>(m: Scan<S>) {
    Reachable(m) && IsStructural(m.v)
  }

  /** A comma between tokens clears the key: the next string is handed to
      the policy with the empty key. */
  lemma CommaClearsKey<S>(pg: Pigmentizer<S>, m: Scan<S>)
    requires Between(m)
    ensures var r := Run(pg, m, ",\"w\"");
            r.Ok? && |r.value.trace| == |m.trace| + 2 &&
            r.value.trace[|m.trace|] == Call(FormatOp, [], "\"w\"", STRING)
  {
    var m1 := m.(key := [], out := m.out + ",");
    One(pg, m, ',');
    assert StructuralStep(m, ',') == m1;
    var t := ['"'] + "w" + ['"'];
    assert Bare("w");
    StringToken(pg, m1, "w");
    Then(pg, m, ",", m1, t);
    assert "," + t == ",\"w\"";
    var a := Apply(pg, m1.ps, [], t, STRING);
    assert (m.trace + a.calls)[|m.trace|] == a.calls[0];
  }

  /** The comma that ends a number is consumed by the number and does not
      clear the key, unlike a comma between tokens. */
  lemma NumberDelimiterKeepsKey<S>(pg: Pigmentizer<S>, m: Scan<S>)
    requires Between(m)
    ensures var r := Run(pg, m, "1,");
            r.Ok? && r.value.key == m.key && r.value.out == m.out + Apply(pg, m.ps, m.key, "1", NUMBER).text + "," &&
            r.value.trace == m.trace + Apply(pg, m.ps, m.key, "1", NUMBER).calls
  {
    assert AllNumberChars("1") && IsNumberStart("1"[0]);
    NumberToken(pg, m, "1", ',');
    assert "1" + [','] == "1,";
  }

  /** An opening brace does not touch the key: the first key of a nested
      object is handed to the policy under the outer key. */
  lemma OpenBraceKeepsKey<S>(pg: Pigmentizer<S>, m: Scan<S>)
    requires Between(m)
    ensures var r := Run(pg, m, "{\"b\"");
            r.Ok? && |r.value.trace| == |m.trace| + 2 &&
            r.value.trace[|m.trace|] == Call(FormatOp, m.key, "\"b\"", STRING)
  {
    var m1 := m.(v := OBJECT, out := m.out + "{");
    One(pg, m, '{');
    assert StructuralStep(m, '{') == m1;
    var t := ['"'] + "b" + ['"'];
    assert Bare("b");
    StringToken(pg, m1, "b");
    Then(pg, m, "{", m1, t);
    assert "{" + t == "{\"b\"";
    var a := Apply(pg, m1.ps, m.key, t, STRING);
    assert (m.trace + a.calls)[|m.trace|] == a.calls[0];
  }

  /** A quote after a backslash stays inside the string, which is one token. */
  lemma EscapedQuoteStaysInString<S>(pg: Pigmentizer<S>, m: Scan<S>)
    requires Between(m)
    ensures var r := Run(pg, m, "\"a\\\"b\"");
            r.Ok? && r.value.v == VALUE && r.value.lastString == "\"a\\\"b\"" &&
            r.value.trace == m.trace + Apply(pg, m.ps, m.key, "\"a\\\"b\"", STRING).calls
  {
    var body := "a\\\"b";
    assert StaysOpen(m.lastChar, body) by {
      assert body[0] == 'a' && body[1] == '\\' && body[2] == '"' && body[3] == 'b';
      assert Before(m.lastChar, body, 2) == '\\';
    }
    StringToken(pg, m, body);
    assert ['"'] + "a\\\"b" + ['"'] == "\"a\\\"b\"";
  }

  /** Only the previous character is looked at: a quote after an escaped
      backslash is still taken as escaped, so the string stays open. */
  lemma EvenBackslashesDoNotClose<S>(pg: Pigmentizer<S>, m: Scan<S>)
    requires Between(m)
    ensures var r := Run(pg, m, "\"a\\\\\"");
            r.Ok? && r.value.v == STRING && r.value.trace == m.trace
  {
    var body := "a\\\\\"";
    forall i | 0 <= i < |body| && body[i] == '"'
      ensures Before(m.lastChar, body, i) == '\\'
    {
      assert body[0] == 'a' && body[1] == '\\' && body[2] == '\\';
      assert i == 3;
    }
    StringOpen(pg, m, body);
    assert ['"'] + body == "\"a\\\\\"";
  }

  /** ... and the string runs on to the next quote, which closes it: the
      comma between the two quotes is part of the one STRING token. */
  lemma EvenBackslashesRunOn<S>(pg: Pigmentizer<S>, m: Scan<S>)
    requires Between(m)
    ensures var r := Run(pg, m, "\"a\\\\\",\"");
            r.Ok? && r.value.v == VALUE && r.value.lastString == "\"a\\\\\",\"" &&
            r.value.trace == m.trace + Apply(pg, m.ps, m.key, "\"a\\\\\",\"", STRING).calls
  {
    var body := "a\\\\\",";
    forall i | 0 <= i < |body| && body[i] == '"'
      ensures Before(m.lastChar, body, i) == '\\'
    {
      assert body[0] == 'a' && body[1] == '\\' && body[2] == '\\' && body[4] == ',';
      assert i == 3;
    }
    StringToken(pg, m, body);
    assert ['"'] + body + ['"'] == "\"a\\\\\",\"";
  }

  /** A number still being read when the input ends is never emitted: from
      between tokens, number characters with nothing after them leave the
      output and the calls as they were, whatever the policy. */
  lemma PendingNumberEmitsNothing<S>(pg: Pigmentizer<S>, m: Scan<S>, n: string)
    requires Between(m)
    requires |n| > 0 && IsNumberStart(n[0]) && AllNumberChars(n)
    ensures var r := Run(pg, m, n);
            r.Ok? && r.value.v == NUMBER && r.value.buf == n &&
            r.value.out == m.out && r.value.trace == m.trace && r.value.ps == m.ps
  {
    var open := m.(v := NUMBER, buf := [n[0]]);
    One(pg, m, n[0]);
    assert StructuralStep(m, n[0]) == open;
    var rest := n[1..];
    assert AllNumberChars(rest) by {
      forall i | 0 <= i < |rest| ensures IsNumberChar(rest[i]) { assert rest[i] == n[i + 1]; }
    }
    NumberBody(pg, open, rest);
    assert [n[0]] + rest == n;
    Then(pg, m, [n[0]], open, rest);
  }

  /** The top-level `42`: the whole text is a pending number, so the scan
      returns no output and makes no call, whatever the policy. */
  lemma TrailingNumberIsLost<S>(pg: Pigmentizer<S>, ps: S)
    ensures Lex(pg, ps, "42") == Ok(Lexed([], ps, []))
  {
    var st := Start(ps);
    NumberBody(pg, st.(v := NUMBER, buf := "4"), "2");
    One(pg, st, '4');
    assert StructuralStep(st, '4') == st.(v := NUMBER, buf := "4");
    Then(pg, st, "4", st.(v := NUMBER, buf := "4"), "2");
    assert "4" + "2" == "42";
  }

  /** A replacement from format reaches the output, and style is asked about
      the replacement rather than the original text. */
  lemma NullReplaced(m: Scan<()>)
    requires Between(m)
    ensures var r := Run(NullUpper(), m, "null}");
            r.Ok? && r.value.out == m.out + "NULL}" &&
            r.value.trace == m.trace + [Call(FormatOp, m.key, "null", NULL), Call(StyleOp, m.key, "NULL", NULL)]
  {
    var pg := NullUpper();
    assert pg.format(m.ps, m.key, "null", NULL) == (true, "NULL", m.ps);
    assert pg.style(m.ps, m.key, "NULL", NULL) == (false, "NULL", m.ps);
    var a := Apply(pg, m.ps, m.key, "null", NULL);
    assert a.text == "NULL";
    assert a.calls == [Call(FormatOp, m.key, "null", NULL), Call(StyleOp, m.key, "NULL", NULL)];
    assert LiteralText(NULL) + ['}'] == "null}";
    LiteralToken(pg, m, NULL, '}');
  }

  /** Whitespace after a complete literal is skipped: it reaches neither the
      buffer nor the output. */
  lemma BlankAfterLiteralSkipped<S>(pg: Pigmentizer<S>, m: Scan<S>)
    requires Between(m)
    ensures var r := Run(pg, m, "true ]");
            r.Ok? && r.value.out == m.out + Apply(pg, m.ps, m.key, "true", TRUE).text + "]"
  {
    var w := m.(v := TRUE, buf := "true");
    LiteralWord(pg, m, TRUE);
    One(pg, w, ' ');
    Then(pg, m, "true", w, " ");
    One(pg, w, ']');
    Then(pg, m, "true" + " ", w, "]");
    assert "true" + " " + "]" == "true ]";
  }

  /** Whitespace inside a literal is fatal. */
  lemma BlankInsideLiteralIsFatal<S>(pg: Pigmentizer<S>, m: Scan<S>)
    requires Between(m)
    ensures Run(pg, m, "tr ue") == Fatal(UnexpectedWhitespace("true"))
  {
    var w := LiteralText(TRUE);
    assert w == "true" && w[..2] == "tr";
    LiteralPrefix(pg, m, TRUE, 2);
    var tr := m.(v := TRUE, buf := w[..2]);
    assert LiteralStep(pg, tr, ' ') == Fatal(UnexpectedWhitespace("true"));
    One(pg, tr, ' ');
    Then(pg, m, w[..2], tr, " ");
    assert "tr ue"[..3] == w[..2] + " ";
    RunStopsAtFault(pg, m, "tr ue", 3);
  }

  /** A character that belongs to no token inside a literal is fatal. */
  lemma StrayRuneInLiteralIsFatal<S>(pg: Pigmentizer<S>, m: Scan<S>)
    requires Between(m)
    ensures Run(pg, m, "nul1") == Fatal(UnexpectedRune("null", '1'))
  {
    var w := LiteralText(NULL);
    assert w == "null" && w[..3] == "nul";
    LiteralPrefix(pg, m, NULL, 3);
    var nul := m.(v := NULL, buf := w[..3]);
    assert LiteralStep(pg, nul, '1') == Fatal(UnexpectedRune("null", '1'));
    One(pg, nul, '1');
    Then(pg, m, w[..3], nul, "1");
    assert w[..3] + "1" == "nul1";
  }

  /** A delimiter before the literal is complete is fatal. */
  lemma TruncatedLiteralIsFatal<S>(pg: Pigmentizer<S>, m: Scan<S>)
    requires Between(m)
    ensures Run(pg, m, "tru,") == Fatal(Malformed("true", "tru"))
  {
    var w := LiteralText(TRUE);
    assert w == "true" && w[..3] == "tru";
    LiteralPrefix(pg, m, TRUE, 3);
    var tru := m.(v := TRUE, buf := w[..3]);
    assert LiteralStep(pg, tru, ',') == Fatal(Malformed("true", "tru"));
    One(pg, tru, ',');
    Then(pg, m, w[..3], tru, ",");
    assert w[..3] + "," == "tru,";
  }

  /** Inside a number, a character that is neither part of a number nor a
      delimiter is dropped, so digits on both sides of a blank join up. */
  lemma BlankInsideNumberDropped<S>(pg: Pigmentizer<S>, m: Scan<S>)
    requires Between(m)
    ensures var r := Run(pg, m, "1 2,");
            r.Ok? && r.value.trace == m.trace + Apply(pg, m.ps, m.key, "12", NUMBER).calls
  {
    var n1 := m.(v := NUMBER, buf := "1");
    One(pg, m, '1');
    assert StructuralStep(m, '1') == n1;
    One(pg, n1, ' ');
    Then(pg, m, "1", n1, " ");
    var n2 := n1.(buf := n1.buf + "2");
    One(pg, n1, '2');
    Then(pg, m, "1" + " ", n1, "2");
    assert n2.buf == "12";
    One(pg, n2, ',');
    Then(pg, m, "1" + " " + "2", n2, ",");
    assert "1" + " " + "2" + "," == "1 2,";
  }

  /** Between tokens, a character outside the grammar is dropped. */
  lemma UnlistedCharacterDropped<S>(pg: Pigmentizer<S>, m: Scan<S>)
    requires Between(m)
    ensures Run(pg, m, "\r") == Ok(m) && Run(pg, m, "x") == Ok(m)
  {
    One(pg, m, '\r');
    One(pg, m, 'x');
  }

  /** The colour the blinking policy gives the string it sees when its
      counter is `i`. */
  function Colour(i: int): string {
    if (i + 1) % 2 == 0 then "122" else "34"
  }

  /** Consecutive counter values give different colours. */
  lemma ColoursAlternate(i: int)
    ensures Colour(i) != Colour(i + 1)
  {
    if (i + 1) % 2 == 0 {
      assert (i + 2) % 2 == 1;
    } else {
      assert (i + 2) % 2 == 0;
    }
  }

  /** The blinking policy on one string: never replaced, painted in the
      colour of the counter, which advances. */
  lemma BlinkOnString(i: int, k: string, v: string)
    ensures Apply(Blink(), i, k, v, STRING) ==
            Applied(Paint(Colour(i), v), i + 1, [Call(FormatOp, k, v, STRING), Call(StyleOp, k, v, STRING)])
  {
    var pg := Blink();
    assert pg.format(i, k, v, STRING) == (false, v, i);
    assert pg.style(i, k, v, STRING) == (true, Paint(Colour(i), v), i + 1);
  }

  /** The separator between a key and its value, with or without a blank:
      it is copied, and the last string becomes the key. */
  lemma Separator<S>(pg: Pigmentizer<S>, m: Scan<S>, sep: string)
    requires Between(m)
    requires sep == ":" || sep == ": "
    ensures Run(pg, m, sep) == Ok(m.(key := m.lastString, out := m.out + sep))
  {
    One(pg, m, ':');
    var m1 := m.(key := m.lastString, out := m.out + ":");
    assert StructuralStep(m, ':') == m1;
    if sep == ": " {
      One(pg, m1, ' ');
      Then(pg, m, ":", m1, " ");
      assert StructuralStep(m1, ' ') == m1.(out := m1.out + " ");
      assert m.out + ":" + " " == m.out + ": ";
      assert ":" + " " == ": ";
    }
  }

  /** Text with neither a quote nor a backslash: inside quotes it is one
      string token. */
  predicate Bare(w: string) {
    forall i :: 0 <= i < |w| ==> w[i] != '"' && w[i] != '\\'
  }

  /** A key and its string value: the key string is handed to the policy
      under the current key, the value under the key string, quotes
      included; the separator between them is copied. */
  lemma KeyValueStrings<S>(pg: Pigmentizer<S>, m: Scan<S>, x: string, sep: string, y: string)
    requires Between(m) && Bare(x) && Bare(y)
    requires sep == ":" || sep == ": "
    ensures var k, v := ['"'] + x + ['"'], ['"'] + y + ['"'];
            var a := Apply(pg, m.ps, m.key, k, STRING);
            var b := Apply(pg, a.ps, k, v, STRING);
            var r := Run(pg, m, k + sep + v);
            r.Ok? && r.value.out == m.out + a.text + sep + b.text && r.value.ps == b.ps &&
            r.value.trace == m.trace + a.calls + b.calls
  {
    var k, v := ['"'] + x + ['"'], ['"'] + y + ['"'];
    StringToken(pg, m, x);
    var a := Apply(pg, m.ps, m.key, k, STRING);
    var m1 := m.(v := VALUE, out := m.out + a.text, lastString := k,
                 lastChar := LastOf(m.lastChar, x), ps := a.ps, trace := m.trace + a.calls);
    Separator(pg, m1, sep);
    Then(pg, m, k, m1, sep);
    var m3 := m1.(key := k, out := m1.out + sep);
    StringToken(pg, m3, y);
    Then(pg, m, k + sep, m3, v);
  }

  /** A colon makes the last string, quotes included, the key of what
      follows; the first string of the input has the empty key. */
  lemma ColonSetsKey<S>(pg: Pigmentizer<S>, ps: S)
    ensures var r := Lex(pg, ps, "\"k\":\"v\"");
            r.Ok? && |r.value.trace| == 4 &&
            r.value.trace[0] == Call(FormatOp, [], "\"k\"", STRING) &&
            r.value.trace[2] == Call(FormatOp, "\"k\"", "\"v\"", STRING)
  {
    var k, v := ['"'] + "k" + ['"'], ['"'] + "v" + ['"'];
    assert Bare("k") && Bare("v");
    KeyValueStrings(pg, Start(ps), "k", ":", "v");
    assert k == "\"k\"" && v == "\"v\"";
    assert k + ":" + v == "\"k\":\"v\"";
  }

  /** With the package's blinking policy, a key and its value come out in
      alternating colours, and every leaf advances the counter. */
  lemma BlinkingStrings(m: Scan<int>, x: string, y: string)
    requires Between(m) && Bare(x) && Bare(y)
    ensures var k, v := ['"'] + x + ['"'], ['"'] + y + ['"'];
            var r := Run(Blink(), m, k + ": " + v);
            r.Ok? && r.value.ps == m.ps + 2 &&
            r.value.out == m.out + Paint(Colour(m.ps), k) + ": " + Paint(Colour(m.ps + 1), v)
    ensures Colour(m.ps) != Colour(m.ps + 1)
  {
    ColoursAlternate(m.ps);
    var k, v := ['"'] + x + ['"'], ['"'] + y + ['"'];
    BlinkOnString(m.ps, m.key, k);
    BlinkOnString(m.ps + 1, k, v);
    KeyValueStrings(Blink(), m, x, ": ", y);
  }

  /** The JSON syntax type dispatches to the JSON lexer: a lone string under
      the blinking policy from a fresh counter comes out in the first
      colour, with the counter advanced once. */
  lemma PigmentizeBlinks()
    ensures var r := Pigmentize(JSON, Blink(), 0, "\"low\"");
            r.Ok? && r.value.out == Paint("34", "\"low\"") && r.value.ps == 1 &&
            r.value.trace == Pair([], "\"low\"", STRING)
  {
    var t := ['"'] + "low" + ['"'];
    StringToken(Blink(), Start(0), "low");
    BlinkOnString(0, [], t);
    assert t == "\"low\"";
  }
}
