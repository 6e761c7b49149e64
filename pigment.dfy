/** The package entry point: route a text to the lexer for its syntax. */
module Pigment {
  import opened Lexers
  import opened Json

  /** A syntax selector; JSON is the only one with a lexer. */
  newtype SyntaxType = int

  const JSON: SyntaxType := 0

  /** Highlight `s` as syntax `t`. An unknown syntax is not an error: the
      text comes back as it is and the policy is never consulted. */
  function Pigmentize<S>(t: SyntaxType, pg: Pigmentizer<S>, ps: S, s: string): (r: Result<Lexed<S>>)
    ensures t == JSON ==> r == Lex(pg, ps, s)
    ensures t != JSON ==> r.Ok? && r.value.out == s && r.value.trace == [] && r.value.ps == ps
  {
    if t == JSON then Lex(pg, ps, s) else Ok(Lexed(s, ps, []))
  }
}
