/** Token kinds of the lexers package, their display labels, and the
    two-method policy contract (`Pigmentizer`) that a lexer consults for
    every leaf token it completes. */
module Lexers {

  /** A token kind is a plain integer, as in lexers.go: the constants below
      are consecutive from zero, and nothing stops a caller from holding some
      other integer. */
  newtype Token = int

  const INIT: Token := 0
  const WS: Token := 1
  const OBJECT: Token := 2
  const VALUE: Token := 3
  const ARRAY: Token := 4
  const STRING: Token := 5
  const NUMBER: Token := 6
  const TRUE: Token := 7
  const FALSE: Token := 8
  const NULL: Token := 9

  /** The labels, indexed by token kind. */
  const LABELS: seq<string> :=
    ["Init", "Whitespace", "Object", "Value", "Array", "String", "Number",
     "True", "False", "Null"]

  /** The kinds that have a label: lexers.go indexes a ten-element list, so
      any other integer is out of range. */
  predicate Named(t: Token) {
    0 <= t < 10
  }

  /** The human-readable label of a token kind. */
  function Label(t: Token): (r: string)
    requires Named(t)
    ensures r in LABELS
  {
    LABELS[t as int]
  }

  /** Every constant reads back as its own label, in declaration order. */
  lemma {:induction false} LabelsInOrder()
    ensures Label(INIT) == "Init" && Label(WS) == "Whitespace"
    ensures Label(OBJECT) == "Object" && Label(VALUE) == "Value"
    ensures Label(ARRAY) == "Array" && Label(STRING) == "String"
    ensures Label(NUMBER) == "Number" && Label(TRUE) == "True"
    ensures Label(FALSE) == "False" && Label(NULL) == "Null"
  {
    assert LABELS[0] == "Init" && LABELS[1] == "Whitespace" && LABELS[2] == "Object";
    assert LABELS[3] == "Value" && LABELS[4] == "Array" && LABELS[5] == "String";
    assert LABELS[6] == "Number" && LABELS[7] == "True" && LABELS[8] == "False";
    assert LABELS[9] == "Null";
  }

  /** No two kinds share a label, so a label identifies its kind. */
  lemma {:induction false} LabelInjective(a: Token, b: Token)
    requires Named(a) && Named(b)
    requires Label(a) == Label(b)
    ensures a == b
  {
  }

  /** Which of the two policy operations a trace entry records. */
  datatype Op = FormatOp | StyleOp

  /** One call of the policy: the operation and the (key, value, kind)
      triple it received. */
  datatype Call = Call(op: Op, key: string, text: string, kind: Token)

  /** The policy a lexer consults for every completed leaf token. `S` is
      whatever state the caller's policy carries (a call counter, say); each
      operation receives it and hands back its successor.
      - `format(ps, k, v, t)` returns (replace?, replacement, next state);
      - `style(ps, k, v, t)` returns (apply style?, v rendered in the chosen
        style, next state). */
  datatype Pigmentizer<!S> = Pigmentizer(
    format: (S, string, string, Token) -> (bool, string, S),
    style: (S, string, string, Token) -> (bool, string, S))

  /** A policy that never replaces and never styles, whatever its state. */
  ghost predicate Transparent<S(!new)>(pg: Pigmentizer<S>) {
    forall ps: S, k: string, v: string, t: Token ::
      !pg.format(ps, k, v, t).0 && !pg.style(ps, k, v, t).0
  }
}
