/** Literal conventions shared by the generator and the checker: a
    literal is a nonzero int, its variable is the absolute value, and a
    negative literal is the variable's negation.  An int is a signed
    32-bit word. */
module Literals {

  const INT_MAX: int := 0x7fff_ffff
  const INT_MIN: int := -0x8000_0000

  /** The value an int holds after arithmetic whose exact result x does
      not fit: x modulo 2^32, read as a signed 32-bit number (the
      two's-complement wrap of the usual targets, also what C's
      conversion of a long to int gives). */
  function ToInt32(x: int): (r: int)
    ensures INT_MIN <= r <= INT_MAX
    ensures (r - x) % 0x1_0000_0000 == 0
    ensures INT_MIN <= x <= INT_MAX ==> r == x
  {
    var m := x % 0x1_0000_0000;
    if m > INT_MAX then m - 0x1_0000_0000 else m
  }

  /** Results that agree modulo 2^32 wrap to the same int, so wrapping
      after every step gives what wrapping once at the end gives. */
  lemma ToInt32Congruent(x: int, y: int, k: int)
    requires x - y == k * 0x1_0000_0000
    ensures ToInt32(x) == ToInt32(y)
  {
    var t := k - x / 0x1_0000_0000 + y / 0x1_0000_0000;
    assert x % 0x1_0000_0000 - y % 0x1_0000_0000 == t * 0x1_0000_0000;
    assert x % 0x1_0000_0000 == y % 0x1_0000_0000;
  }

  /** The value unit propagation returns on a conflict. */
  const CONFLICT_LIT: int := INT_MIN

  /** IABS: the variable of a literal. */
  function Abs(x: int): (r: nat)
    ensures r == x || r == -x
  {
    if x < 0 then -x else x
  }

  /** MATCH_PHASE(v, p): v with the sign of p. */
  function MatchPhase(v: int, p: int): int
  {
    if p < 0 then -v else v
  }

  /** A literal that a 32-bit int holds together with its negation. */
  predicate IsLiteral(lit: int) {
    lit != 0 && -INT_MAX <= lit <= INT_MAX
  }

  /** A literal put in the phase of another literal of the same variable
      is that literal. */
  lemma MatchPhaseOfVariable(lit: int)
    ensures MatchPhase(Abs(lit), lit) == lit
  {
  }

  /** CONFLICT_LIT is no literal, nor the negation of one, nor 0, so it
      cannot be confused with a propagated unit or "no unit". */
  lemma ConflictLitIsNoLiteral(lit: int)
    requires IsLiteral(lit)
    ensures CONFLICT_LIT != lit && CONFLICT_LIT != -lit && CONFLICT_LIT != 0
  {
  }

  /** A literal's variable is a positive int within range. */
  lemma AbsOfLiteral(lit: int)
    requires IsLiteral(lit)
    ensures 1 <= Abs(lit) <= INT_MAX && IsLiteral(-lit) && Abs(-lit) == Abs(lit)
  {
  }
}
