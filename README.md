# pigment: the JSON highlighting lexer, modelled in Dafny

pigment re-emits a JSON text with parts of it rewritten or styled. A caller supplies a
policy (a `Pigmentizer`) with two operations: `Format` may replace a token's text, and
`Style` may wrap it in terminal styling. The JSON lexer walks the text one character at a
time through a flat state machine with the states INIT, VALUE, OBJECT, ARRAY, STRING,
NUMBER, TRUE, FALSE and NULL. It copies punctuation to the output, collects each leaf
token (string, number, `true`, `false`, `null`) in a buffer, and hands every completed
leaf to the policy: `Format` first, then `Style`, both under the current key. The
current key is the quoted text of the last string seen before a `:`. The package entry
point `Pigmentize` routes a text to this lexer when the syntax is JSON, and returns it
unchanged otherwise.

The project has four modules:

- `Lexers` (lexers.dfy) holds the token kinds and their labels. It also holds the policy,
  as a pair of functions that thread a policy state `S`.
- `Json` (json.dfy) holds the lexer. The per-character rules are functions (`Step` and
  its four cases). `Run` folds them over a text and `Lex` packages the result.
  `JSONLexer` is the loop itself, written imperatively and proved to return exactly
  `Lex`. The module also proves whole-token lemmas and properties of every scan.
- `Pigment` (pigment.dfy) holds the syntax selector and `Pigmentize`.
- `JsonCases` (json_cases.dfy) holds concrete scans: the behaviours the package's tests
  check, and the quirks of the lexer.

A scan returns the output, the policy's final state, and the ordered trace of calls made
to the policy. A fatal error is a `Fatal` result that names the fault.

Three behaviours of the code are easy to misread; the model keeps them as written:

- A `,`, `}` or `]` that ends a number or a literal is consumed by that token and does
  not clear the key. Only one met between tokens clears it (lexers/json.go:64-65 against
  lexers/json.go:89-94).
- An opening `{` does not touch the key. The first key of a nested object therefore
  reaches the policy under the outer object's key (lexers/json.go:40-42).
- Escapes are tracked with one character of lookback. A string whose body
  ends in an escaped backslash (`"a\\"`) does not close at its quote. It runs on to the
  next quote. This is reproduced exactly, not fixed (lexers/json.go:71-78).

## Model

| member | source | states |
|---|---|---|
| Lexers.Label | lexers/lexers.go:22-25 | the label of a kind 0..9 is one of the ten fixed labels; other kinds are outside its precondition |
| Lexers.LabelsInOrder | lexers/lexers.go:7-25 | INIT..NULL are 0..9 in declaration order and read back as "Init", "Whitespace", "Object", "Value", "Array", "String", "Number", "True", "False", "Null" |
| Lexers.LabelInjective | lexers/lexers.go:23-24 | no two kinds share a label |
| Json.Start | lexers/json.go:11-16 | a scan starts in INIT with empty buffer, output and trace |
| Json.LiteralText | lexers/json.go:102-157 | the word a literal state must spell is at least four letters long, starts with `t`, `f` or `n`, and holds no delimiter or blank |
| Json.LeafKind | lexers/json.go:43-60 | a leaf's first character selects STRING, NUMBER or a literal state, and a literal state is selected only by its word's first letter |
| Json.Apply | lexers/json.go:22-34 | exactly one Format call, then one Style call, with the same key and kind; Style sees the replacement if Format flagged one, else the original; the emitted text is Style's rendering if flagged, else what Style saw; with both flags false the source text is emitted unchanged |
| Json.Complete | lexers/json.go:89-94 | a completed number or literal emits the policy's text, then the delimiter; the buffer is cleared, the state becomes VALUE and the key is kept |
| Json.StructuralStep | lexers/json.go:38-68 | punctuation and whitespace are copied verbatim; `{` and `[` enter OBJECT and ARRAY; `:` sets the key to the last string, `,` `}` `]` clear it, nothing else changes it; a leaf's first character starts the buffer in that leaf's state; any other character changes nothing; the policy is not called |
| Json.StringStep | lexers/json.go:69-84 | every character is buffered; the string closes exactly on a `"` whose previous in-string character is not `\`; on closing, the whole quoted token goes to the policy with kind STRING under the current key, becomes the last string, and the state becomes VALUE |
| Json.NumberStep | lexers/json.go:85-95 | number characters are buffered; a delimiter completes the number; anything else, whitespace included, is dropped |
| Json.LiteralStep | lexers/json.go:96-164 | the literal's letters are buffered; a delimiter completes the literal only if the buffer spells it, else Malformed; whitespace is skipped only after the whole literal, else UnexpectedWhitespace; any other character is UnexpectedRune |
| Json.Step | lexers/json.go:37-165 | only a literal state can fail, and its fault names that state's own word; a state outside the nine ignores every character |
| Json.Run | lexers/json.go:36-166 | the `for` loop over the runes, stopped by the first fault; every fault it can return names `true`, `false` or `null`, because only the literal branches call `log.Fatal` |
| Json.Lex | lexers/json.go:166-167 | the scan's result: only the output is returned, so a leaf still buffered at the end is dropped; any fault names a literal, and the calls form (Format, Style) pairs |
| Json.JSONLexer | lexers/json.go:10-168 | the loop returns exactly `Lex` of its input: the same output, policy state and calls, or the same fault |
| Json.RunStopsAtFault | lexers/json.go:100-117 | once a prefix is fatal, the whole input gives that same fault |
| Json.RunOnlyAppends | lexers/json.go:36-167 | output and calls are only appended to, never taken back |
| Json.RunReachable | lexers/json.go:36-165 | every reached state is one of the nine; a structural state has an empty buffer; a leaf buffer starts with its opening character; outside a string the last character is never `\`; the last string is empty or quoted |
| Json.RunTracePaired | lexers/json.go:22-34 | the calls form (Format, Style) pairs with one key and one kind per pair |
| Json.KeysAreRawStrings | lexers/json.go:61-80 | every key handed to the policy is empty or the unmodified text an earlier Format call received for a STRING token; no policy output ever becomes a key |
| Json.TransparentStepShape | lexers/json.go:36-165 | under a policy that changes nothing, a character is dropped, buffered, or flushed with the buffer, and output followed by buffer grows by exactly that character |
| Json.TransparentStepAgrees | lexers/json.go:36-165 | under such a policy, two states that agree on the state, buffer, output, key, last string and escape flag still agree after the same character |
| Json.LexIdempotent | lexers/json.go:10-168 | under such a policy, rescanning an output gives that output back |
| Json.RunAppend | lexers/json.go:36 | scanning `a + b` is scanning `a` and then `b` from where it stopped; a fault in `a` stands |
| Json.StringBody | lexers/json.go:69-78 | inside a string, text in which every quote follows a backslash is only buffered |
| Json.StringOpen | lexers/json.go:43-78 | between tokens, a quote and a body in which every quote is escaped leave the scan inside the string with everything buffered; nothing is emitted and the policy is not called |
| Json.StringToken | lexers/json.go:43-84 | between tokens, a quote, such a body and an unescaped quote form one STRING token, quotes included, passed to the policy under the current key; the key is kept and the token becomes the last string |
| Json.NumberBody | lexers/json.go:85-88 | in NUMBER, number characters are only buffered |
| Json.NumberToken | lexers/json.go:58-95 | between tokens, number characters and a delimiter emit the policy's rendering of the number, then the delimiter, under an unchanged key |
| Json.LiteralBody | lexers/json.go:96-99 | in a literal state, the literal's own letters are only buffered |
| Json.LiteralPrefix | lexers/json.go:49-99 | between tokens, any non-empty prefix of `true`, `false` or `null` enters that literal's state with the prefix buffered and nothing emitted |
| Json.LiteralWord | lexers/json.go:49-57 | between tokens, the word of a literal enters that literal's state with the word buffered and nothing emitted |
| Json.LiteralToken | lexers/json.go:49-164 | between tokens, `true`, `false` or `null` and a delimiter emit the policy's rendering of the literal, then the delimiter |
| Pigment.Pigmentize | pigment.go:13-19 | the JSON selector (0) gives exactly the JSON lexer's result; any other selector returns the text unchanged, with the policy state untouched and no call made |
| JsonCases.ColonSetsKey | lexers/json.go:61-63 | in `"k":"v"` the first string has the empty key and the second has key `"k"`, quotes included |
| JsonCases.CommaClearsKey | lexers/json.go:64-65 | a comma between tokens clears the key for the next string |
| JsonCases.NumberDelimiterKeepsKey | lexers/json.go:89-94 | the comma that ends a number keeps the key |
| JsonCases.OpenBraceKeepsKey | lexers/json.go:40-42 | the first key of a nested object reaches the policy under the outer key |
| JsonCases.EscapedQuoteStaysInString | lexers/json.go:71-78 | `"a\"b"` is a single STRING token |
| JsonCases.EvenBackslashesDoNotClose | lexers/json.go:71-78 | `"a\\"` leaves the scan inside the string with no call made |
| JsonCases.EvenBackslashesRunOn | lexers/json.go:69-84 | in `"a\\","` the string runs on to the next quote, and the comma is part of the one STRING token |
| JsonCases.PendingNumberEmitsNothing | lexers/json.go:58-88 | from between tokens, number characters at the end of the input stay in the buffer: the output, the calls and the policy state are unchanged, whatever the policy |
| JsonCases.TrailingNumberIsLost | lexers/json.go:166-167 | under any policy and policy state, a top-level `42` produces no output and no policy call |
| JsonCases.NullReplaced | lexers/json_test.go:118-121 | a formatter that replaces null by NULL puts NULL in the output, and Style is asked about NULL |
| JsonCases.BlankAfterLiteralSkipped | lexers/json.go:156-158 | `true ]` emits the rendering of `true` and then `]`, with the blank dropped |
| JsonCases.BlankInsideLiteralIsFatal | lexers/json.go:156-161 | `tr ue` is fatal with UnexpectedWhitespace |
| JsonCases.StrayRuneInLiteralIsFatal | lexers/json.go:116-117 | `nul1` is fatal with UnexpectedRune |
| JsonCases.TruncatedLiteralIsFatal | lexers/json.go:146-150 | `tru,` is fatal with Malformed("true", "tru") |
| JsonCases.BlankInsideNumberDropped | lexers/json.go:85-95 | `1 2,` is the number `12` |
| JsonCases.UnlistedCharacterDropped | lexers/json.go:39-68 | between tokens, `\r` and `x` change nothing |
| JsonCases.Separator | lexers/json.go:61-67 | between tokens, `:` or `: ` is copied to the output and makes the last string the key; nothing else changes |
| JsonCases.KeyValueStrings | lexers/json.go:61-84 | in `"x":"y"` or `"x": "y"` the key string is handed to the policy under the current key, then the value under the key `"x"`; the output is both renderings around the separator |
| JsonCases.BlinkOnString | pigment_test.go:23-44 | the test's counting policy paints a string in colour 34 or 122 according to its counter, and bumps the counter |
| JsonCases.BlinkingStrings | pigment_test.go:58-69 | with that policy a key and its value come out in different colours, and the counter advances once per leaf |
| JsonCases.PigmentizeBlinks | pigment_test.go:58-64 | `Pigmentize(JSON, …)` on `"low"` from a zero counter paints it in colour 34 and leaves the counter at 1 |

## Left out

- Terminal styling (`termenv.Style`, `Styled`, colour profiles) is a foreign library. A policy's `Style` returns the rendered text directly. The test policy's rendering is written out as the 256-colour escape sequence.
- `log.Fatal` ends the process. The model returns `Fatal` with the fault instead; output and calls made before the fault are not returned.
- Go's UTF-8 decoding in `for _, c := range s` is not modelled. The input is a sequence of characters already split into runes, and invalid UTF-8 is not modelled.
- The policy in the source is an interface value whose methods may keep state behind a pointer. The model threads that state `S` explicitly through both calls.
- Concurrency is not modelled. This covers the test's parallel subtests and policies shared between goroutines.
- The test files are not modelled as code. Their assertions appear as the `JsonCases` lemmas.
- `Token` and `SyntaxType` are unbounded integers here. Go's `int` width never matters to the lexer.
- Lexers.Label: a kind outside 0..9 makes the source panic on the slice index; the model excludes such kinds by precondition.
- The WS kind is declared and labelled, but the lexer never enters it; `Step` treats it like any unused state.
- JsonCases.BlinkingStrings, JsonCases.KeyValueStrings: stated for any quote-free, backslash-free key and value rather than for the whole test document, which is too long a text for a concrete proof here; the package test's `"Priority": "low"` is one instance.
