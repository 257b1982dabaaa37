/*
 * Search scores and the horizon evaluator.
 *
 * Python compares floats that may be -inf or +inf (the initial best value and
 * the root alpha-beta window); Ext is that number line.
 */
module Scores {
  import opened Game

  datatype Ext = NegInf | Fin(v: real) | PosInf

  predicate LessEq(a: Ext, b: Ext)
  {
    a.NegInf? || b.PosInf? || (a.Fin? && b.Fin? && a.v <= b.v)
  }

  predicate Less(a: Ext, b: Ext)
  {
    !LessEq(b, a)
  }

  /** Python's max(a, b) for two floats. */
  function Max(a: Ext, b: Ext): (m: Ext)
    ensures LessEq(a, m) && LessEq(b, m)
    ensures m == a || m == b
  {
    if LessEq(a, b) then b else a
  }

  function Neg(a: Ext): Ext
  {
    match a
    case NegInf => PosInf
    case PosInf => NegInf
    case Fin(x) => Fin(-x)
  }

  /** Negation reverses the order, which is what the negamax window swap relies on. */
  lemma NegReverses(a: Ext, b: Ext)
    ensures Neg(Neg(a)) == a
    ensures LessEq(a, b) <==> LessEq(Neg(b), Neg(a))
    ensures Less(a, b) <==> Less(Neg(b), Neg(a))
  {
  }

  lemma MaxAssoc(a: Ext, b: Ext, c: Ext)
    ensures Max(a, Max(b, c)) == Max(Max(a, b), c)
  {
  }

  /** WORD_TRAP_SCORES.get(word, 0). */
  function TrapScore(lx: Lexicon, w: Word): nat
  {
    if w in lx.trap then lx.trap[w] else 0
  }

  /**
   * evaluate_heuristic: mobility and trap score raise the value, the last
   * word's corpus frequency lowers it, and the sum is divided by 100.
   */
  function Evaluate(lx: Lexicon, last: Word, cands: seq<Phrase>): real
  {
    (0.3 * (|cands| as real) + 0.5 * (TrapScore(lx, last) as real) - 10000.0 * lx.wordFreq(last)) / 100.0
  }

  /**
   * The division by 100 does not keep the estimate inside the terminal range
   * [-1, 1]: it falls below -1 exactly when the frequency term outweighs the
   * other two by more than 100, and rises above 1 exactly when mobility and
   * trap score exceed the frequency term by more than 100.
   */
  lemma EvaluateLeavesUnitRange(lx: Lexicon, last: Word, cands: seq<Phrase>)
    ensures Evaluate(lx, last, cands) < -1.0
        <==> 10000.0 * lx.wordFreq(last) > 100.0 + 0.3 * (|cands| as real) + 0.5 * (TrapScore(lx, last) as real)
    ensures Evaluate(lx, last, cands) > 1.0
        <==> 0.3 * (|cands| as real) + 0.5 * (TrapScore(lx, last) as real) > 100.0 + 10000.0 * lx.wordFreq(last)
  {
  }
}
