/**
 * The terminal alphabet of the lexer: the token kinds, the lexical error
 * kinds, the fixed lexemes of `#[token(...)]`, and `Display`.
 */
module Tokens {
  import opened Results
  import SyntaxSpan

  /**
   * `Token`. `Float` carries the IEEE-754 bit pattern of its `f64`, left
   * uninterpreted; `Ident` carries the text of the interned string.
   */
  datatype Token =
    | KwFun | KwInt | KwBool | KwFloat | KwChar | KwUnit
    | Comma | Cons | Eq | LParen | RParen
    | Float(bits: bv64)
    | Int(n: SyntaxSpan.Usize)
    | Bool(b: bool)
    | Char(c: char)
    | Ident(name: string)

  /**
   * `LexError`. The payloads of `InvalidInt` and `InvalidFloat` (the
   * standard library's parse errors) are dropped. `InvalidToken` is the
   * default error, the one the lexer reports for input no rule matches.
   */
  datatype LexError =
    | InvalidInt | InvalidFloat | EmptyChar | MultiChar | UnknownEscape | InvalidChar | InvalidToken

  /** Tokens whose `Display` is a fixed text: keywords, punctuation and booleans. */
  predicate HasFixedLexeme(t: Token) {
    !(t.Float? || t.Int? || t.Char? || t.Ident?)
  }

  /** `Display for Token`; numeric tokens are formatted by the standard library and are not modelled. */
  function Display(t: Token): (d: string)
    requires !t.Int? && !t.Float?
    ensures HasFixedLexeme(t) ==> FixedToken(d) == Some(t)
    ensures t.Ident? ==> d == t.name
    ensures t.Char? ==> d == ['\'', t.c, '\'']
  {
    match t
    case KwFun => "fun"
    case KwInt => "int"
    case KwBool => "bool"
    case Comma => ","
    case Cons => "::"
    case Eq => "="
    case LParen => "("
    case RParen => ")"
    case Ident(v) => v
    case Bool(v) => if v then "true" else "false"
    case Char(v) => ['\'', v, '\'']
    case KwFloat => "float"
    case KwChar => "char"
    case KwUnit => "unit"
  }

  /** The exact-text rules `#[token(...)]`: the token a fixed lexeme produces, if any. */
  function FixedToken(s: string): Option<Token> {
    if s == "fun" then Some(KwFun)
    else if s == "int" then Some(KwInt)
    else if s == "bool" then Some(KwBool)
    else if s == "float" then Some(KwFloat)
    else if s == "char" then Some(KwChar)
    else if s == "unit" then Some(KwUnit)
    else if s == "," then Some(Comma)
    else if s == "::" then Some(Cons)
    else if s == "=" then Some(Eq)
    else if s == "(" then Some(LParen)
    else if s == ")" then Some(RParen)
    else if s == "true" then Some(Bool(true))
    else if s == "false" then Some(Bool(false))
    else None
  }

  predicate IsIdentStart(c: char) {
    ('a' <= c <= 'z') || c == '_'
  }

  predicate IsIdentContinue(c: char) {
    ('a' <= c <= 'z') || ('A' <= c <= 'Z') || ('0' <= c <= '9') || c == '_'
  }

  /** The identifier pattern `[a-z_][a-zA-Z0-9_]*`. */
  predicate IsIdentLexeme(s: string) {
    |s| > 0 && IsIdentStart(s[0]) && forall i :: 1 <= i < |s| ==> IsIdentContinue(s[i])
  }

  // ---------------------------------------------------------------------
  // Laws

  /**
   * `Display` and the `#[token]` table are inverse on fixed tokens: a string
   * is a fixed lexeme of `t` exactly when `t` displays as that string.
   */
  lemma FixedTokenIffDisplay(s: string, t: Token)
    ensures FixedToken(s) == Some(t) <==> HasFixedLexeme(t) && Display(t) == s
  {
  }

  /** Distinct fixed tokens display differently. */
  lemma DisplayFixedInjective(t: Token, u: Token)
    requires HasFixedLexeme(t) && HasFixedLexeme(u)
    requires Display(t) == Display(u)
    ensures t == u
  {
  }

  /**
   * A fixed lexeme matches the identifier pattern exactly when it starts like
   * one: every keyword and boolean does, so only the priority of exact-text
   * rules keeps them from lexing as `Ident`.
   */
  lemma KeywordsMatchIdentPattern(s: string)
    requires FixedToken(s).Some?
    ensures |s| > 0
    ensures IsIdentLexeme(s) <==> IsIdentStart(s[0])
  {
  }
}
