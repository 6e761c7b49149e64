/** The JSON re-emitting lexer: a flat state machine that walks a JSON text
    one character at a time, copies structural punctuation to the output and
    hands every completed leaf token (string, number, true, false, null) to a
    `Pigmentizer` policy, which may replace and/or style it.

    The per-character behaviour is specified by the functions `Step` and
    `Run`; the method `JSONLexer` is the loop itself, proved to compute
    exactly `Lex`. */
module Json {
  import opened Lexers

  /** Why a scan stops: the three fatal conditions of the literal states. */
  datatype Fault =
    | Malformed(expected: string, got: string)  // delimiter reached, buffer is not the literal
    | UnexpectedWhitespace(literal: string)     // whitespace splits an unfinished literal
    | UnexpectedRune(literal: string, c: char)  // a character that no literal state accepts
  {
    /** The literal the fault was raised for. */
    function Word(): string {
      match this
      case Malformed(w, _) => w
      case UnexpectedWhitespace(w) => w
      case UnexpectedRune(w, _) => w
    }
  }

  datatype Result<T> = Ok(value: T) | Fatal(fault: Fault)

  /** Everything the loop keeps between two characters: the state `v`, the
      working buffer, the output, the current key, the raw text of the last
      completed string, the last character seen inside a string, and the
      policy's state together with the calls made to it so far. */
  datatype Scan<S> = Scan(
    v: Token,
    buf: string,
    out: string,
    key: string,
    lastString: string,
    lastChar: char,
    ps: S,
    trace: seq<Call>)

  /** The zero rune, the initial value of `lastChar`. */
  const NUL: char := 0 as char

  function Start<S>(ps: S): (st: Scan<S>)
    ensures st.v == INIT && st.buf == [] && st.out == [] && st.trace == []
  {
    Scan(INIT, [], [], [], [], NUL, ps, [])
  }

  /** What the scan hands back: the output, the final policy state and the
      ordered calls made to the policy. */
  datatype Lexed<S> = Lexed(out: string, ps: S, trace: seq<Call>)

  // ---------------------------------------------------------------------
  // Character classes
  // ---------------------------------------------------------------------

  /** The states that hold no leaf text. */
  predicate IsStructural(v: Token) {
    v == INIT || v == VALUE || v == OBJECT || v == ARRAY
  }

  /** Characters that open a number; note that '.' is not among them. */
  predicate IsNumberStart(c: char) {
    c == 'e' || c == 'E' || c == '-' || c == '+' || '0' <= c <= '9'
  }

  /** Characters that continue a number. */
  predicate IsNumberChar(c: char) {
    IsNumberStart(c) || c == '.'
  }

  /** The characters that end a number or a literal. */
  predicate IsDelimiter(c: char) {
    c == ',' || c == '}' || c == ']'
  }

  predicate IsBlank(c: char) {
    c == ' ' || c == '\t' || c == '\n'
  }

  /** Characters a structural state copies to the output as they are. */
  predicate IsPunctuation(c: char) {
    c == '{' || c == '[' || IsBlank(c) || c == ',' || c == ':' || c == '}' || c == ']'
  }

  /** Characters a structural state turns into the first character of a leaf. */
  predicate StartsLeaf(c: char) {
    c == '"' || c == 't' || c == 'f' || c == 'n' || IsNumberStart(c)
  }

  predicate IsLiteral(v: Token) {
    v == TRUE || v == FALSE || v == NULL
  }

  /** The one spelling a literal state accepts; its letters are exactly the
      characters the state appends to the buffer. */
  function LiteralText(v: Token): (w: string)
    requires IsLiteral(v)
    ensures |w| >= 4 && w[0] in "tfn"
    ensures forall c :: c in w ==> !IsDelimiter(c) && !IsBlank(c)
  {
    if v == TRUE then "true" else if v == FALSE then "false" else "null"
  }

  /** The leaf state a structural state enters on a leaf's first character. */
  function LeafKind(c: char): (t: Token)
    requires StartsLeaf(c)
    ensures t == STRING || t == NUMBER || IsLiteral(t)
    ensures IsLiteral(t) ==> LiteralText(t)[0] == c
  {
    if c == '"' then STRING
    else if c == 't' then TRUE
    else if c == 'f' then FALSE
    else if c == 'n' then NULL
    else NUMBER
  }

  // ---------------------------------------------------------------------
  // The policy adapter
  // ---------------------------------------------------------------------

  /** The outcome of consulting the policy on one leaf: the text to emit, the
      policy's next state, and the two calls made. */
  datatype Applied<S> = Applied(text: string, ps: S, calls: seq<Call>)

  /** Consult the policy on one completed leaf: `format` first, then `style`
      on whatever text `format` leaves, both with the same key and kind. */
  function Apply<S>(pg: Pigmentizer<S>, ps: S, key: string, text: string, t: Token): (r: Applied<S>)
    // exactly one format call, then exactly one style call
    ensures |r.calls| == 2
    ensures r.calls[0] == Call(FormatOp, key, text, t)
    ensures r.calls[1].op == StyleOp && r.calls[1].key == key && r.calls[1].kind == t
    // style sees the replacement if format asked for one, the original otherwise
    ensures var (replace, replacement, _) := pg.format(ps, key, text, t);
            r.calls[1].text == if replace then replacement else text
    // the emitted text is the styled text if style asked for it, else what style saw
    ensures var (_, _, ps1) := pg.format(ps, key, text, t);
            var (styled, rendered, ps2) := pg.style(ps1, key, r.calls[1].text, t);
            r.text == (if styled then rendered else r.calls[1].text) && r.ps == ps2
    // when neither asks for a change, the token text is emitted untouched
    ensures !pg.format(ps, key, text, t).0 && !pg.style(pg.format(ps, key, text, t).2, key, text, t).0
            ==> r.text == text
  {
    var (replace, replacement, ps1) := pg.format(ps, key, text, t);
    var text1 := if replace then replacement else text;
    var (styled, rendered, ps2) := pg.style(ps1, key, text1, t);
    var text2 := if styled then rendered else text1;
    Applied(text2, ps2, [Call(FormatOp, key, text, t), Call(StyleOp, key, text1, t)])
  }

  // ---------------------------------------------------------------------
  // One character
  // ---------------------------------------------------------------------

  /** A leaf of kind `t` completed by the delimiter `c` (numbers and
      literals): the policy result, then the delimiter, go to the output. The
      key is left as it is. */
  function Complete<S>(pg: Pigmentizer<S>, st: Scan<S>, t: Token, c: char): (r: Scan<S>)
    ensures var a := Apply(pg, st.ps, st.key, st.buf, t);
            r.out == st.out + a.text + [c] && r.trace == st.trace + a.calls && r.ps == a.ps
    ensures r.v == VALUE && r.buf == [] && r.key == st.key
    ensures r.lastString == st.lastString && r.lastChar == st.lastChar
  {
    var a := Apply(pg, st.ps, st.key, st.buf, t);
    st.(v := VALUE, buf := [], out := st.out + a.text + [c], ps := a.ps, trace := st.trace + a.calls)
  }

  /** INIT, VALUE, OBJECT, ARRAY. */
  function StructuralStep<S>(st: Scan<S>, c: char): (r: Scan<S>)
    requires IsStructural(st.v)
    // punctuation is copied verbatim, and nothing is buffered
    ensures IsPunctuation(c) ==> r.out == st.out + [c] && r.buf == st.buf
    // '{' and '[' enter OBJECT and ARRAY; other punctuation keeps the state
    ensures c == '{' ==> r.v == OBJECT
    ensures c == '[' ==> r.v == ARRAY
    ensures IsPunctuation(c) && c != '{' && c != '[' ==> r.v == st.v
    // ':' takes the last string as key, ',' '}' ']' clear it, nothing else touches it
    ensures r.key == if c == ':' then st.lastString else if IsDelimiter(c) then [] else st.key
    // a leaf's first character starts the buffer and nothing is emitted
    ensures StartsLeaf(c) ==> r.v == LeafKind(c) && r.buf == st.buf + [c] && r.out == st.out
    // any other character is dropped
    ensures !IsPunctuation(c) && !StartsLeaf(c) ==> r == st
    // the policy is not consulted
    ensures r.trace == st.trace && r.ps == st.ps
    ensures r.lastString == st.lastString && r.lastChar == st.lastChar
  {
    if c == '{' then st.(v := OBJECT, out := st.out + [c])
    else if c == '"' then st.(v := STRING, buf := st.buf + [c])
    else if c == '[' then st.(v := ARRAY, out := st.out + [c])
    else if c == 't' then st.(v := TRUE, buf := st.buf + [c])
    else if c == 'f' then st.(v := FALSE, buf := st.buf + [c])
    else if c == 'n' then st.(v := NULL, buf := st.buf + [c])
    else if IsNumberStart(c) then st.(v := NUMBER, buf := st.buf + [c])
    else if IsBlank(c) || c == ',' || c == ':' || c == '}' || c == ']' then
      var key := if c == ':' then st.lastString else if IsDelimiter(c) then [] else st.key;
      st.(key := key, out := st.out + [c])
    else st
  }

  /** STRING: every character is buffered; a '"' not preceded by '\' ends
      the token, which goes to the policy with its quotes. */
  function StringStep<S>(pg: Pigmentizer<S>, st: Scan<S>, c: char): (r: Scan<S>)
    requires st.v == STRING
    ensures var closes := c == '"' && st.lastChar != '\\';
            && (!closes ==> r == st.(buf := st.buf + [c], lastChar := c))
            && (closes ==>
                  var a := Apply(pg, st.ps, st.key, st.buf + [c], STRING);
                  && r.v == VALUE && r.buf == [] && r.out == st.out + a.text
                  && r.lastString == st.buf + [c]
                  && r.trace == st.trace + a.calls && r.ps == a.ps
                  && r.key == st.key && r.lastChar == st.lastChar)
  {
    var buf := st.buf + [c];
    if c != '"' || st.lastChar == '\\' then
      st.(buf := buf, lastChar := c)
    else
      var a := Apply(pg, st.ps, st.key, buf, STRING);
      st.(v := VALUE, buf := [], out := st.out + a.text, lastString := buf, ps := a.ps,
          trace := st.trace + a.calls)
  }

  /** NUMBER: number characters are buffered, a delimiter completes the
      token, anything else (whitespace included) is dropped. */
  function NumberStep<S>(pg: Pigmentizer<S>, st: Scan<S>, c: char): (r: Scan<S>)
    requires st.v == NUMBER
    ensures IsNumberChar(c) ==> r == st.(buf := st.buf + [c])
    ensures IsDelimiter(c) ==> r == Complete(pg, st, NUMBER, c)
    ensures !IsNumberChar(c) && !IsDelimiter(c) ==> r == st
  {
    if IsNumberChar(c) then st.(buf := st.buf + [c])
    else if IsDelimiter(c) then Complete(pg, st, NUMBER, c)
    else st
  }

  /** TRUE, FALSE, NULL: the literal's own letters are buffered; a delimiter
      completes the token only if the buffer spells the literal; whitespace
      is skipped only after the whole literal; anything else is fatal. */
  function LiteralStep<S>(pg: Pigmentizer<S>, st: Scan<S>, c: char): (r: Result<Scan<S>>)
    requires IsLiteral(st.v)
    ensures var w := LiteralText(st.v);
            && (c in w ==> r == Ok(st.(buf := st.buf + [c])))
            && (IsDelimiter(c) ==>
                  r == if st.buf == w then Ok(Complete(pg, st, st.v, c)) else Fatal(Malformed(w, st.buf)))
            && (IsBlank(c) ==> r == if st.buf == w then Ok(st) else Fatal(UnexpectedWhitespace(w)))
            && (c !in w && !IsDelimiter(c) && !IsBlank(c) ==> r == Fatal(UnexpectedRune(w, c)))
  {
    var w := LiteralText(st.v);
    if c in w then Ok(st.(buf := st.buf + [c]))
    else if IsDelimiter(c) then
      if st.buf != w then Fatal(Malformed(w, st.buf)) else Ok(Complete(pg, st, st.v, c))
    else if IsBlank(c) then
      if st.buf == w then Ok(st) else Fatal(UnexpectedWhitespace(w))
    else Fatal(UnexpectedRune(w, c))
  }

  /** One character in any state. Only a literal state can fail; a state
      outside the ones the scan uses ignores every character. */
  function Step<S>(pg: Pigmentizer<S>, st: Scan<S>, c: char): (r: Result<Scan<S>>)
    ensures r.Fatal? ==> IsLiteral(st.v) && r.fault.Word() == LiteralText(st.v)
    ensures !IsStructural(st.v) && st.v != STRING && st.v != NUMBER && !IsLiteral(st.v) ==> r == Ok(st)
  {
    if IsStructural(st.v) then Ok(StructuralStep(st, c))
    else if st.v == STRING then Ok(StringStep(pg, st, c))
    else if st.v == NUMBER then Ok(NumberStep(pg, st, c))
    else if IsLiteral(st.v) then LiteralStep(pg, st, c)
    else Ok(st)
  }

  /** The scan of `s` from `st`, one character at a time; the first fault
      ends it. */
  function Run<S>(pg: Pigmentizer<S>, st: Scan<S>, s: string): (r: Result<Scan<S>>)
    ensures r.Fatal? ==> r.fault.Word() in ["true", "false", "null"]
    decreases |s|
  {
    if s == [] then Ok(st)
    else
      match Run(pg, st, s[..|s| - 1])
      case Fatal(f) => Fatal(f)
      case Ok(mid) => Step(pg, mid, s[|s| - 1])
  }

  /** The whole scan: only what reached the output is returned, so a number
      or literal still buffered at the end of the input is lost. */
  function Lex<S>(pg: Pigmentizer<S>, ps: S, s: string): (r: Result<Lexed<S>>)
    ensures r.Fatal? ==> r.fault.Word() in ["true", "false", "null"]
    ensures r.Ok? ==> Paired(r.value.trace)
  {
    match Run(pg, Start(ps), s)
    case Fatal(f) => Fatal(f)
    case Ok(st) =>
      RunTracePaired(pg, Start(ps), s);
      Ok(Lexed(st.out, st.ps, st.trace))
  }

  // ---------------------------------------------------------------------
  // The lexer loop
  // ---------------------------------------------------------------------

  /** The lexer as the Go code in json.go writes it: one loop over the characters,
      updating the state, the buffers, the key context and the policy. */
  method JSONLexer<S>(s: string, pg: Pigmentizer<S>, ps0: S) returns (r: Result<Lexed<S>>)
    ensures r == Lex(pg, ps0, s)
  {
    var v: Token := INIT;
    var buf, out, key, lastString: string := [], [], [], [];
    var lastChar: char := NUL;
    var ps: S := ps0;
    var trace: seq<Call> := [];
    for i := 0 to |s|
      invariant Run(pg, Start(ps0), s[..i]) == Ok(Scan(v, buf, out, key, lastString, lastChar, ps, trace))
    {
      var c := s[i];
      assert s[..i + 1][..i] == s[..i];
      if v == INIT || v == VALUE || v == OBJECT || v == ARRAY {
        if c == '{' {
          v := OBJECT;
          out := out + [c];
        } else if c == '"' {
          v := STRING;
          buf := buf + [c];
        } else if c == '[' {
          v := ARRAY;
          out := out + [c];
        } else if c == 't' {
          v := TRUE;
          buf := buf + [c];
        } else if c == 'f' {
          v := FALSE;
          buf := buf + [c];
        } else if c == 'n' {
          v := NULL;
          buf := buf + [c];
        } else if IsNumberStart(c) {
          v := NUMBER;
          buf := buf + [c];
        } else if c == ' ' || c == '\t' || c == '\n' || c == ',' || c == ':' || c == '}' || c == ']' {
          if c == ':' {
            key := lastString;
          } else if c == ',' || c == '}' || c == ']' {
            key := [];
          }
          out := out + [c];
        }
      } else if v == STRING {
        buf := buf + [c];
        if c != '"' {
          lastChar := c;
        } else if lastChar == '\\' {
          lastChar := c;
        } else {
          lastString := buf;
          var a := Apply(pg, ps, key, lastString, STRING);
          out := out + a.text;
          ps, trace := a.ps, trace + a.calls;
          buf := [];
          v := VALUE;
        }
      } else if v == NUMBER {
        if IsNumberChar(c) {
          buf := buf + [c];
        } else if c == ',' || c == '}' || c == ']' {
          var a := Apply(pg, ps, key, buf, NUMBER);
          out := out + a.text;
          out := out + [c];
          ps, trace := a.ps, trace + a.calls;
          buf := [];
          v := VALUE;
        }
      } else if v == NULL || v == FALSE || v == TRUE {
        var word := LiteralText(v);
        if c in word {
          buf := buf + [c];
        } else if c == ',' || c == '}' || c == ']' {
          if buf != word {
            r := Fatal(Malformed(word, buf));
            RunStopsAtFault(pg, Start(ps0), s, i + 1);
            return;
          }
          var a := Apply(pg, ps, key, buf, v);
          out := out + a.text;
          out := out + [c];
          ps, trace := a.ps, trace + a.calls;
          buf := [];
          v := VALUE;
        } else if c == ' ' || c == '\t' || c == '\n' {
          if buf != word {
            r := Fatal(UnexpectedWhitespace(word));
            RunStopsAtFault(pg, Start(ps0), s, i + 1);
            return;
          }
        } else {
          r := Fatal(UnexpectedRune(word, c));
          RunStopsAtFault(pg, Start(ps0), s, i + 1);
          return;
        }
      }
    }
    assert s[..|s|] == s;
    r := Ok(Lexed(out, ps, trace));
  }

  // ---------------------------------------------------------------------
  // Properties of the scan
  // ---------------------------------------------------------------------

  /** A fault ends the scan: whatever follows the faulty prefix, the scan
      reports the same fault. */
  lemma {:induction false} RunStopsAtFault<S>(pg: Pigmentizer<S>, st: Scan<S>, s: string, k: nat)
    requires k <= |s|
    requires Run(pg, st, s[..k]).Fatal?
    ensures Run(pg, st, s) == Run(pg, st, s[..k])
    decreases |s| - k
  {
    if k < |s| {
      var s' := s[..k + 1];
      assert s'[..k] == s[..k];
      assert Run(pg, st, s') == Run(pg, st, s[..k]);
      RunStopsAtFault(pg, st, s, k + 1);
    } else {
      assert s[..k] == s;
    }
  }

  /** Output and calls are only ever appended to: nothing emitted, and no
      policy call, is taken back by a later character. */
  lemma {:induction false} RunOnlyAppends<S>(pg: Pigmentizer<S>, st: Scan<S>, s: string)
    requires Run(pg, st, s).Ok?
    ensures st.out <= Run(pg, st, s).value.out
    ensures st.trace <= Run(pg, st, s).value.trace
    decreases |s|
  {
    if s != [] {
      var p := s[..|s| - 1];
      RunOnlyAppends(pg, st, p);
      var mid := Run(pg, st, p).value;
      var c := s[|s| - 1];
      if IsStructural(mid.v) {
      } else if mid.v == STRING {
      } else if mid.v == NUMBER {
      } else if IsLiteral(mid.v) {
        assert LiteralStep(pg, mid, c).Ok?;
      }
    }
  }

  // ---------------------------------------------------------------------
  // The states a scan can reach
  // ---------------------------------------------------------------------

  /** What holds of every state a scan reaches from `Start`:
      - it is one of the nine states the loop uses (never WS);
      - a structural state has an empty buffer;
      - a leaf state's buffer starts with the character that opened it;
      - outside a string, `lastChar` is never '\', so the fact that it is
        never reset cannot make a new string's closing quote look escaped;
      - the last completed string is empty or a quoted token. */
  predicate Reachable<S>(st: Scan<S>) {
    && (IsStructural(st.v) || st.v == STRING || st.v == NUMBER || IsLiteral(st.v))
    && (IsStructural(st.v) ==> st.buf == [])
    && (!IsStructural(st.v) ==> |st.buf| > 0 && StartsLeaf(st.buf[0]) && LeafKind(st.buf[0]) == st.v)
    && (st.v != STRING ==> st.lastChar != '\\')
    && (st.lastString == [] ||
        (|st.lastString| >= 2 && st.lastString[0] == '"' && st.lastString[|st.lastString| - 1] == '"'))
  }

  lemma {:induction false} RunReachable<S>(pg: Pigmentizer<S>, ps: S, s: string)
    requires Run(pg, Start(ps), s).Ok?
    ensures Reachable(Run(pg, Start(ps), s).value)
    decreases |s|
  {
    if s != [] {
      var p := s[..|s| - 1];
      RunReachable(pg, ps, p);
      var mid := Run(pg, Start(ps), p).value;
      var c := s[|s| - 1];
      if IsStructural(mid.v) {
      } else if mid.v == STRING {
        assert (mid.buf + [c])[0] == mid.buf[0];
      } else if mid.v == NUMBER {
        assert (mid.buf + [c])[0] == mid.buf[0];
      } else {
        assert LiteralStep(pg, mid, c).Ok?;
        assert LiteralText(mid.v)[0] == mid.buf[0];
        assert (mid.buf + [c])[0] == mid.buf[0];
      }
    }
  }

  // ---------------------------------------------------------------------
  // The calls made to the policy
  // ---------------------------------------------------------------------

  /** A trace made of (format, style) pairs, each pair with one key and one
      kind. */
  predicate Paired(t: seq<Call>)
    decreases |t|
  {
    t == [] ||
    (&& |t| >= 2
     && t[0].op == FormatOp && t[1].op == StyleOp
     && t[0].key == t[1].key && t[0].kind == t[1].kind
     && Paired(t[2..]))
  }

  lemma {:induction false} PairedAppend(a: seq<Call>, b: seq<Call>)
    requires Paired(a) && Paired(b)
    ensures Paired(a + b)
    decreases |a|
  {
    if a != [] {
      assert (a + b)[0] == a[0] && (a + b)[1] == a[1];
      assert (a + b)[2..] == a[2..] + b;
      PairedAppend(a[2..], b);
    } else {
      assert a + b == b;
    }
  }

  /** Each completed leaf adds one format call followed by one style call,
      with the same key and kind, and nothing else calls the policy. */
  lemma {:induction false} RunTracePaired<S>(pg: Pigmentizer<S>, st: Scan<S>, s: string)
    requires Paired(st.trace)
    requires Run(pg, st, s).Ok?
    ensures Paired(Run(pg, st, s).value.trace)
    decreases |s|
  {
    if s != [] {
      var p := s[..|s| - 1];
      RunTracePaired(pg, st, p);
      var mid := Run(pg, st, p).value;
      var c := s[|s| - 1];
      var r := Step(pg, mid, c).value;
      if r.trace != mid.trace {
        var k := if mid.v == STRING then STRING else mid.v;
        var text := if mid.v == STRING then mid.buf + [c] else mid.buf;
        if IsLiteral(mid.v) {
          assert LiteralStep(pg, mid, c).Ok?;
        }
        var calls := Apply(pg, mid.ps, mid.key, text, k).calls;
        assert r.trace == mid.trace + calls;
        assert calls[2..] == [];
        PairedAppend(mid.trace, calls);
      }
    }
  }

  /** `k` is empty, or it is exactly the text some earlier format call
      received for a STRING token. */
  ghost predicate RawKey(trace: seq<Call>, k: string) {
    k == [] ||
    exists j :: 0 <= j < |trace| && trace[j].op == FormatOp && trace[j].kind == STRING && trace[j].text == k
  }

  lemma RawKeyExtend(t: seq<Call>, u: seq<Call>, k: string)
    requires RawKey(t, k)
    ensures RawKey(t + u, k)
  {
    if k != [] {
      var j :| 0 <= j < |t| && t[j].op == FormatOp && t[j].kind == STRING && t[j].text == k;
      assert (t + u)[j] == t[j];
    }
  }

  /** The key context, the last string, and the key of every call so far
      are raw string tokens, never text a policy produced. */
  ghost predicate KeysRaw<S>(st: Scan<S>) {
    && RawKey(st.trace, st.key)
    && RawKey(st.trace, st.lastString)
    && forall i :: 0 <= i < |st.trace| ==> RawKey(st.trace[..i], st.trace[i].key)
  }

  lemma StepKeysRaw<S>(pg: Pigmentizer<S>, st: Scan<S>, c: char)
    requires KeysRaw(st)
    requires Step(pg, st, c).Ok?
    ensures KeysRaw(Step(pg, st, c).value)
  {
    var r := Step(pg, st, c).value;
    if IsLiteral(st.v) {
      assert LiteralStep(pg, st, c).Ok?;
    }
    if r.trace == st.trace {
      assert r.key == st.key || r.key == st.lastString || r.key == [];
      assert r.lastString == st.lastString;
    } else {
      var k := if st.v == STRING then STRING else st.v;
      var text := if st.v == STRING then st.buf + [c] else st.buf;
      var calls := Apply(pg, st.ps, st.key, text, k).calls;
      assert r.trace == st.trace + calls && r.key == st.key;
      var n := |st.trace|;
      RawKeyExtend(st.trace, calls, st.key);
      assert r.lastString == st.lastString || (r.lastString == text && r.trace[n] == Call(FormatOp, st.key, text, STRING));
      RawKeyExtend(st.trace, calls, st.lastString);
      forall i | 0 <= i < |r.trace|
        ensures RawKey(r.trace[..i], r.trace[i].key)
      {
        if i < n {
          assert r.trace[..i] == st.trace[..i] && r.trace[i] == st.trace[i];
        } else if i == n {
          assert r.trace[..i] == st.trace;
        } else {
          assert r.trace[..i] == st.trace + [calls[0]];
          RawKeyExtend(st.trace, [calls[0]], st.key);
        }
      }
    }
  }

  /** Every key handed to the policy is empty or the unmodified token text
      of a string token that an earlier format call received: a policy's
      replacement never becomes a key. */
  lemma {:induction false} KeysAreRawStrings<S>(pg: Pigmentizer<S>, ps: S, s: string)
    requires Run(pg, Start(ps), s).Ok?
    ensures var st := Run(pg, Start(ps), s).value;
            forall i :: 0 <= i < |st.trace| ==> RawKey(st.trace[..i], st.trace[i].key)
  {
    RunKeysRaw(pg, ps, s);
  }

  lemma {:induction false} RunKeysRaw<S>(pg: Pigmentizer<S>, ps: S, s: string)
    requires Run(pg, Start(ps), s).Ok?
    ensures KeysRaw(Run(pg, Start(ps), s).value)
    decreases |s|
  {
    if s != [] {
      var p := s[..|s| - 1];
      RunKeysRaw(pg, ps, p);
      StepKeysRaw(pg, Run(pg, Start(ps), p).value, s[|s| - 1]);
    }
  }

  // ---------------------------------------------------------------------
  // A policy that changes nothing
  // ---------------------------------------------------------------------

  /** Under a transparent policy a reachable state handles a character in one
      of three ways: it drops it (nothing changes), it buffers it, or it
      flushes the buffer and the character to the output. In the last two
      cases output followed by buffer grows by exactly that character. */
  lemma TransparentStepShape<S(!new)>(pg: Pigmentizer<S>, st: Scan<S>, c: char)
    requires Transparent(pg)
    requires Reachable(st)
    requires Step(pg, st, c).Ok?
    ensures var r := Step(pg, st, c).value;
            || r == st
            || (r.out + r.buf == st.out + st.buf + [c] && (r.buf == [] || r.out == st.out))
  {
    if IsLiteral(st.v) {
      assert LiteralStep(pg, st, c).Ok?;
    }
    if !IsStructural(st.v) && st.v != STRING && st.v != NUMBER && !IsLiteral(st.v) {
    } else if IsStructural(st.v) {
    } else {
      var k := if st.v == STRING then STRING else st.v;
      var text := if st.v == STRING then st.buf + [c] else st.buf;
      var ps := st.ps;
      assert !pg.format(ps, st.key, text, k).0;
      assert !pg.style(pg.format(ps, st.key, text, k).2, st.key, text, k).0;
    }
  }

  /** Two states that agree on everything a transparent policy lets the
      output depend on. Only whether `lastChar` is '\' matters, and the
      policy state not at all. */
  predicate Agrees<S>(a: Scan<S>, b: Scan<S>) {
    && a.v == b.v && a.buf == b.buf && a.out == b.out
    && a.key == b.key && a.lastString == b.lastString
    && (a.lastChar == '\\' <==> b.lastChar == '\\')
  }

  lemma TransparentStepAgrees<S(!new)>(pg: Pigmentizer<S>, a: Scan<S>, b: Scan<S>, c: char)
    requires Transparent(pg)
    requires Agrees(a, b)
    requires Step(pg, a, c).Ok?
    ensures Step(pg, b, c).Ok? && Agrees(Step(pg, a, c).value, Step(pg, b, c).value)
  {
    if IsLiteral(a.v) {
      assert LiteralStep(pg, a, c).Ok?;
    }
    if IsStructural(a.v) || (!IsLiteral(a.v) && a.v != STRING && a.v != NUMBER) {
    } else {
      var k := if a.v == STRING then STRING else a.v;
      var text := if a.v == STRING then a.buf + [c] else a.buf;
      assert !pg.format(a.ps, a.key, text, k).0;
      assert !pg.style(pg.format(a.ps, a.key, text, k).2, a.key, text, k).0;
      assert !pg.format(b.ps, b.key, text, k).0;
      assert !pg.style(pg.format(b.ps, b.key, text, k).2, b.key, text, k).0;
    }
  }

  /** Rescanning what a scan has produced so far: the output followed by the
      pending buffer leads to an agreeing state, and the output alone
      reproduces itself. */
  ghost predicate Rescans<S(!new)>(pg: Pigmentizer<S>, ps: S, st: Scan<S>) {
    && Run(pg, Start(ps), st.out + st.buf).Ok?
    && Agrees(Run(pg, Start(ps), st.out + st.buf).value, st)
    && Run(pg, Start(ps), st.out).Ok?
    && Run(pg, Start(ps), st.out).value.out == st.out
  }

  lemma {:induction false} RunRescans<S(!new)>(pg: Pigmentizer<S>, ps: S, ps2: S, s: string)
    requires Transparent(pg)
    requires Run(pg, Start(ps), s).Ok?
    ensures Rescans(pg, ps2, Run(pg, Start(ps), s).value)
    decreases |s|
  {
    if s == [] {
      assert Start(ps).out + Start(ps).buf == [];
    } else {
      var p, c := s[..|s| - 1], s[|s| - 1];
      RunRescans(pg, ps, ps2, p);
      RunReachable(pg, ps, p);
      var mid := Run(pg, Start(ps), p).value;
      var st := Step(pg, mid, c).value;
      TransparentStepShape(pg, mid, c);
      if st != mid {
        var x := mid.out + mid.buf;
        var u := Run(pg, Start(ps2), x).value;
        assert (x + [c])[..|x|] == x;
        TransparentStepAgrees(pg, mid, u, c);
        assert Run(pg, Start(ps2), st.out + st.buf) == Step(pg, u, c);
        if st.buf == [] {
          assert st.out + st.buf == st.out;
        }
      }
    }
  }

  /** Scanning is idempotent under a transparent policy: rescanning an output,
      whatever state the policy starts in, gives that output back. */
  lemma {:induction false} LexIdempotent<S(!new)>(pg: Pigmentizer<S>, ps: S, ps2: S, s: string)
    requires Transparent(pg)
    requires Lex(pg, ps, s).Ok?
    ensures Lex(pg, ps2, Lex(pg, ps, s).value.out).Ok?
    ensures Lex(pg, ps2, Lex(pg, ps, s).value.out).value.out == Lex(pg, ps, s).value.out
  {
    RunRescans(pg, ps, ps2, s);
  }

  // ---------------------------------------------------------------------
  // Whole tokens
  // ---------------------------------------------------------------------

  /** Scanning `a` then `b` is scanning `a + b`. */
  lemma {:induction false} RunAppend<S>(pg: Pigmentizer<S>, st: Scan<S>, a: string, b: string)
    ensures Run(pg, st, a + b) ==
            match Run(pg, st, a)
            case Fatal(f) => Fatal(f)
            case Ok(m) => Run(pg, m, b)
    decreases |b|
  {
    if b == [] {
      assert a + b == a;
    } else {
      var b' := b[..|b| - 1];
      assert (a + b)[..|a + b| - 1] == a + b';
      assert (a + b)[|a + b| - 1] == b[|b| - 1];
      RunAppend(pg, st, a, b');
    }
  }

  /** No quote in `body` ends a string opened after `last`: each is preceded
      by a backslash. */
  predicate StaysOpen(last: char, body: string) {
    forall i :: 0 <= i < |body| && body[i] == '"' ==> Before(last, body, i) == '\\'
  }

  /** The character scanned just before `body[i]`, where `last` precedes `body`. */
  function Before(last: char, body: string, i: nat): char
    requires i < |body|
  {
    if i == 0 then last else body[i - 1]
  }

  /** The value `lastChar` has after `body` has been scanned inside a string. */
  function LastOf(last: char, body: string): char {
    if body == [] then last else body[|body| - 1]
  }

  lemma {:induction false} StringBody<S>(pg: Pigmentizer<S>, m: Scan<S>, body: string)
    requires m.v == STRING
    requires StaysOpen(m.lastChar, body)
    ensures Run(pg, m, body) == Ok(m.(buf := m.buf + body, lastChar := LastOf(m.lastChar, body)))
    decreases |body|
  {
    if body == [] {
      assert m.buf + body == m.buf;
    } else {
      var k := |body| - 1;
      assert body[k] == '"' ==> Before(m.lastChar, body, k) == '\\';
      var p := body[..k];
      assert StaysOpen(m.lastChar, p) by {
        forall i | 0 <= i < |p| && p[i] == '"'
          ensures Before(m.lastChar, p, i) == '\\'
        {
          assert body[i] == p[i];
          assert Before(m.lastChar, p, i) == Before(m.lastChar, body, i);
        }
      }
      StringBody(pg, m, p);
      var mid := m.(buf := m.buf + p, lastChar := LastOf(m.lastChar, p));
      assert LastOf(m.lastChar, p) == Before(m.lastChar, body, k);
      assert Run(pg, m, body) == Step(pg, mid, body[k]);
      assert m.buf + p + [body[k]] == m.buf + body;
      assert StringStep(pg, mid, body[k]) == mid.(buf := mid.buf + [body[k]], lastChar := body[k]);
    }
  }

  /** An open string: from a structural state, a quote and a body in which
      every quote is escaped leave the scan inside the string with all of it
      buffered; nothing is emitted and the policy is not called. */
  lemma {:induction false} StringOpen<S>(pg: Pigmentizer<S>, m: Scan<S>, body: string)
    requires IsStructural(m.v) && m.buf == []
    requires StaysOpen(m.lastChar, body)
    ensures Run(pg, m, ['"'] + body) ==
              Ok(m.(v := STRING, buf := ['"'] + body, lastChar := LastOf(m.lastChar, body)))
  {
    var open := m.(v := STRING, buf := ['"']);
    assert Run(pg, m, ['"']) == Ok(open) by {
      assert ['"'][..0] == [];
      assert Run(pg, m, []) == Ok(m);
      assert StructuralStep(m, ['"'][0]) == open;
    }
    RunAppend(pg, m, ['"'], body);
    StringBody(pg, open, body);
  }

  /** A string token: from a structural state, a quote, a body in which every
      quote is escaped, and an unescaped closing quote are one STRING token,
      quotes included, handed to the policy under the current key; the key is
      unchanged and the token becomes the last string. */
  lemma {:induction false} StringToken<S>(pg: Pigmentizer<S>, m: Scan<S>, body: string)
    requires IsStructural(m.v) && m.buf == []
    requires StaysOpen(m.lastChar, body) && LastOf(m.lastChar, body) != '\\'
    ensures var text := ['"'] + body + ['"'];
            var a := Apply(pg, m.ps, m.key, text, STRING);
            Run(pg, m, text) ==
              Ok(m.(v := VALUE, out := m.out + a.text, lastString := text,
                    lastChar := LastOf(m.lastChar, body), ps := a.ps, trace := m.trace + a.calls))
  {
    StringOpen(pg, m, body);
    var text := ['"'] + body + ['"'];
    assert text[..|text| - 1] == ['"'] + body;
  }

  predicate AllNumberChars(n: string) {
    forall i :: 0 <= i < |n| ==> IsNumberChar(n[i])
  }

  lemma {:induction false} NumberBody<S>(pg: Pigmentizer<S>, m: Scan<S>, n: string)
    requires m.v == NUMBER && AllNumberChars(n)
    ensures Run(pg, m, n) == Ok(m.(buf := m.buf + n))
    decreases |n|
  {
    if n == [] {
      assert m.buf + n == m.buf;
    } else {
      var p := n[..|n| - 1];
      assert AllNumberChars(p) by {
        forall i | 0 <= i < |p| ensures IsNumberChar(p[i]) { assert p[i] == n[i]; }
      }
      NumberBody(pg, m, p);
      assert m.buf + p + [n[|n| - 1]] == m.buf + n;
    }
  }

  /** A number token: from a structural state, number characters and a
      delimiter give the policy's rendering of the number under the current
      key, then the delimiter; the key is not cleared. */
  lemma {:induction false} NumberToken<S>(pg: Pigmentizer<S>, m: Scan<S>, n: string, d: char)
    requires IsStructural(m.v) && m.buf == []
    requires |n| > 0 && IsNumberStart(n[0]) && AllNumberChars(n)
    requires IsDelimiter(d)
    ensures var a := Apply(pg, m.ps, m.key, n, NUMBER);
            Run(pg, m, n + [d]) ==
              Ok(m.(v := VALUE, out := m.out + a.text + [d], ps := a.ps, trace := m.trace + a.calls))
  {
    var open := m.(v := NUMBER, buf := [n[0]]);
    assert Run(pg, m, [n[0]]) == Ok(open) by {
      assert [n[0]][..0] == [];
      assert Run(pg, m, []) == Ok(m);
      assert StructuralStep(m, [n[0]][0]) == open;
    }
    assert AllNumberChars(n[1..]) by {
      forall i | 0 <= i < |n[1..]| ensures IsNumberChar(n[1..][i]) { assert n[1..][i] == n[i + 1]; }
    }
    assert n == [n[0]] + n[1..];
    RunAppend(pg, m, [n[0]], n[1..]);
    NumberBody(pg, open, n[1..]);
    assert (n + [d])[..|n|] == n;
  }

  lemma {:induction false} LiteralBody<S>(pg: Pigmentizer<S>, m: Scan<S>, rest: string)
    requires IsLiteral(m.v)
    requires forall i :: 0 <= i < |rest| ==> rest[i] in LiteralText(m.v)
    ensures Run(pg, m, rest) == Ok(m.(buf := m.buf + rest))
    decreases |rest|
  {
    if rest == [] {
      assert m.buf + rest == m.buf;
    } else {
      var p := rest[..|rest| - 1];
      LiteralBody(pg, m, p);
      assert m.buf + p + [rest[|rest| - 1]] == m.buf + rest;
    }
  }

  /** From a structural state, the first `n` letters of a literal's word
      leave the scan in that literal's state with those letters buffered and
      nothing emitted. */
  lemma {:induction false} LiteralPrefix<S>(pg: Pigmentizer<S>, m: Scan<S>, v: Token, n: nat)
    requires IsStructural(m.v) && m.buf == []
    requires IsLiteral(v) && 1 <= n <= |LiteralText(v)|
    ensures Run(pg, m, LiteralText(v)[..n]) == Ok(m.(v := v, buf := LiteralText(v)[..n]))
  {
    var w := LiteralText(v);
    var open := m.(v := v, buf := [w[0]]);
    assert LeafKind(w[0]) == v by {
      if v == TRUE { assert w[0] == 't'; } else if v == FALSE { assert w[0] == 'f'; } else { assert w[0] == 'n'; }
    }
    assert Run(pg, m, [w[0]]) == Ok(open) by {
      assert [w[0]][..0] == [];
      assert Run(pg, m, []) == Ok(m);
      assert StructuralStep(m, w[0]) == open;
    }
    var rest := w[1..n];
    assert w[..n] == [w[0]] + rest;
    RunAppend(pg, m, [w[0]], rest);
    assert forall i :: 0 <= i < |rest| ==> rest[i] in w;
    LiteralBody(pg, open, rest);
  }

  /** The whole word of a literal: its state, with the word buffered. */
  lemma {:induction false} LiteralWord<S>(pg: Pigmentizer<S>, m: Scan<S>, v: Token)
    requires IsStructural(m.v) && m.buf == []
    requires IsLiteral(v)
    ensures Run(pg, m, LiteralText(v)) == Ok(m.(v := v, buf := LiteralText(v)))
  {
    LiteralPrefix(pg, m, v, |LiteralText(v)|);
    assert LiteralText(v)[..|LiteralText(v)|] == LiteralText(v);
  }

  /** A literal token: from a structural state, `true`, `false` or `null`
      followed by a delimiter give the policy's rendering of the literal under
      the current key, then the delimiter. */
  lemma {:induction false} LiteralToken<S>(pg: Pigmentizer<S>, m: Scan<S>, v: Token, d: char)
    requires IsStructural(m.v) && m.buf == []
    requires IsLiteral(v) && IsDelimiter(d)
    ensures var w := LiteralText(v);
            var a := Apply(pg, m.ps, m.key, w, v);
            Run(pg, m, w + [d]) ==
              Ok(m.(v := VALUE, out := m.out + a.text + [d], ps := a.ps, trace := m.trace + a.calls))
  {
    var w := LiteralText(v);
    var full := m.(v := v, buf := w);
    LiteralWord(pg, m, v);
    RunAppend(pg, m, w, [d]);
    assert [d][..0] == [];
    assert Run(pg, full, []) == Ok(full);
    assert LiteralStep(pg, full, d) == Ok(Complete(pg, full, v, d));
  }

}
