/** The token of the lexical analyzer for C-like languages: a token type and three positions in the input, the
 *  start of the skipped text before the token, the token's first character and one past its last character. */
module Clexer {
  datatype TokenType = Eof | Left | Right | Char | String | Number | Word | Cpp | Comment | Other

  /** A closed interval of positions, or the empty interval. */
  datatype Interval = Empty | Hull(least: nat, greatest: nat)

  /** The positions an interval holds. */
  predicate InInterval(i: Interval, p: nat) {
    i.Hull? && i.least <= p <= i.greatest
  }

  datatype RawToken = RawToken(tokenType: TokenType, prior: nat, begin: nat, end: nat)

  /** A token's positions are ordered: the skipped text comes before the token, which does not end before it
   *  begins. */
  type Token = t: RawToken | t.prior <= t.begin <= t.end witness RawToken(Eof, 0, 0, 0)

  /** The default token: end of file, at position 0. */
  function DefaultToken(): (t: Token)
    ensures t.tokenType == Eof && t.prior == 0 && t.begin == 0 && t.end == 0
  {
    RawToken(Eof, 0, 0, 0)
  }

  /** A token of the given type and positions, which must be ordered. */
  function MakeToken(tokenType: TokenType, prior: nat, begin: nat, end: nat): (t: Token)
    requires prior <= begin <= end
    ensures t.tokenType == tokenType && t.prior == prior && t.begin == begin && t.end == end
  {
    RawToken(tokenType, prior, begin, end)
  }

  /** The number of characters in the token. */
  function Size(t: Token): (n: nat)
    ensures t.begin + n == t.end
  {
    t.end - t.begin
  }

  /** The positions of the token's characters: empty for an empty token, otherwise from its first character to its
   *  last. */
  function Where(t: Token): (i: Interval)
    ensures forall p: nat :: InInterval(i, p) <==> t.begin <= p < t.end
    ensures i == Empty <==> Size(t) == 0
  {
    if t.end > t.begin then Hull(t.begin, t.end - 1) else Empty
  }

  /** The boolean conversion: true for every token except end of file. */
  function Truthy(t: Token): (b: bool)
    ensures b <==> t.tokenType != Eof
  {
    t.tokenType != Eof
  }

  /** `operator!`: true only at end of file. */
  function Not(t: Token): (b: bool)
    ensures b == !Truthy(t)
  {
    t.tokenType == Eof
  }

  /** The two boolean conversions are opposite, and a token converts to false exactly when it has the type of
   *  the default token, whatever its positions. */
  lemma BoolConversions(t: Token)
    ensures Truthy(t) != Not(t)
    ensures !Truthy(t) <==> t.tokenType == DefaultToken().tokenType
  {
  }

  /** The default token is empty, covers no position and converts to false. */
  lemma DefaultTokenIsEmpty()
    ensures Size(DefaultToken()) == 0 && Where(DefaultToken()) == Empty
    ensures !Truthy(DefaultToken()) && Not(DefaultToken())
  {
  }

  /** The interval of a token holds exactly `Size` positions. */
  lemma {:induction false} WhereHoldsSize(t: Token)
    ensures Where(t).Hull? ==> Where(t).greatest - Where(t).least + 1 == Size(t)
  {
  }
}
