/** The reader's per-mount session token (`generateSessionId`).

    `Math.random()` is an input here: one draw in [0, 1) per character. */
module SessionId {

  /** The 62 symbols a token is drawn from, in the source's order. */
  const Alphabet: string := "ABCDEFGHIJKLMNOPQRSTUVWXYZabcdefghijklmnopqrstuvwxyz0123456789"

  /** Number of characters in a token. */
  const TokenLength: nat := 16

  /** Values `Math.random()` may return. */
  predicate IsDraw(x: real) {
    0.0 <= x < 1.0
  }

  /** Enough draws for one token. */
  predicate ValidDraws(draws: seq<real>) {
    |draws| >= TokenLength && forall i :: 0 <= i < |draws| ==> IsDraw(draws[i])
  }

  /** `Math.floor(x * chars.length)`: always a valid position in the alphabet. */
  function Pick(x: real): (k: int)
    requires IsDraw(x)
    ensures 0 <= k < |Alphabet|
    ensures k as real <= x * 62.0 < k as real + 1.0
  {
    (x * (|Alphabet| as real)).Floor
  }

  /** The token the draws determine: character `i` is the alphabet entry the `i`-th draw picks. */
  function TokenOf(draws: seq<real>): (t: string)
    requires ValidDraws(draws)
    ensures |t| == TokenLength
    ensures forall i :: 0 <= i < |t| ==> t[i] in Alphabet
  {
    seq(TokenLength, i requires 0 <= i < TokenLength => Alphabet[Pick(draws[i])])
  }

  /** `generateSessionId`: appends one picked character per loop iteration. */
  method Generate(draws: seq<real>) returns (token: string)
    requires ValidDraws(draws)
    ensures |token| == TokenLength
    ensures forall i :: 0 <= i < |token| ==> token[i] in Alphabet
    ensures token == TokenOf(draws)
  {
    token := "";
    var i := 0;
    while i < TokenLength
      invariant 0 <= i <= TokenLength
      invariant |token| == i
      invariant forall j :: 0 <= j < i ==> token[j] == Alphabet[Pick(draws[j])]
    {
      token := token + [Alphabet[Pick(draws[i])]];
      i := i + 1;
    }
  }

  /** Position of the first occurrence of `c` in `s`. */
  function IndexOf(s: string, c: char): (k: nat)
    requires c in s
    ensures k < |s| && s[k] == c
    decreases |s|
  {
    if s[0] == c then 0 else 1 + IndexOf(s[1..], c)
  }

  /** The draw `k / 62` picks symbol `k`. */
  lemma PickOfIndex(k: nat)
    requires k < |Alphabet|
    ensures IsDraw(k as real / 62.0) && Pick(k as real / 62.0) == k
  {
    assert (k as real / 62.0) * 62.0 == k as real;
  }

  /** Every 16-character string over the alphabet is some token: no symbol
      position is biased out. */
  lemma EveryTokenReachable(t: string)
    requires |t| == TokenLength
    requires forall i :: 0 <= i < |t| ==> t[i] in Alphabet
    ensures exists draws :: ValidDraws(draws) && TokenOf(draws) == t
  {
    var draws := seq(TokenLength, i requires 0 <= i < TokenLength => IndexOf(Alphabet, t[i]) as real / 62.0);
    forall i | 0 <= i < TokenLength
      ensures IsDraw(draws[i]) && Pick(draws[i]) == IndexOf(Alphabet, t[i])
    {
      PickOfIndex(IndexOf(Alphabet, t[i]));
    }
    assert ValidDraws(draws);
    assert TokenOf(draws) == t;
  }
}
