/*
 * negamax: depth-bounded alpha-beta search with a transposition memo.
 *
 *  - Minimax   the unpruned negamax value (max over children of the negated
 *              child value), the reference the search is proved against;
 *  - AlphaBeta the search as the source writes it, without the memo;
 *  - TranspositionTable.Negamax  the search with its memo dictionary.
 */
module Negamax {
  import opened Game
  import opened Ordering
  import opened Scores

  /** The unpruned negamax value of a position with `depth` plies left. */
  function Minimax(lx: Lexicon, pos: Position, depth: nat): Ext
    decreases depth, 1, 0
  {
    var cs := Candidates(lx, pos);
    if cs == [] then Fin(-1.0)
    else if depth == 0 then Fin(Evaluate(lx, pos.last, cs))
    else BestChild(lx, pos, cs, depth)
  }

  /** The value of playing p at a position with `depth` plies left. */
  function Score(lx: Lexicon, pos: Position, p: Phrase, depth: nat): Ext
    requires depth > 0
    decreases depth, 0, 0
  {
    Neg(Minimax(lx, Play(pos, p), depth - 1))
  }

  /** The largest Score over cs (NegInf for none). */
  function BestChild(lx: Lexicon, pos: Position, cs: seq<Phrase>, depth: nat): Ext
    requires depth > 0
    decreases depth, 0, |cs|
  {
    if cs == [] then NegInf else Max(Score(lx, pos, cs[0], depth), BestChild(lx, pos, cs[1..], depth))
  }

  /** BestChild is the maximum: every score is below it and, for a non-empty list, one reaches it. */
  lemma {:induction false} BestChildIsMax(lx: Lexicon, pos: Position, cs: seq<Phrase>, depth: nat)
    requires depth > 0
    ensures forall p :: p in cs ==> LessEq(Score(lx, pos, p, depth), BestChild(lx, pos, cs, depth))
    ensures cs != [] ==> exists p :: p in cs && BestChild(lx, pos, cs, depth) == Score(lx, pos, p, depth)
    ensures cs == [] ==> BestChild(lx, pos, cs, depth) == NegInf
  {
    if cs != [] {
      BestChildIsMax(lx, pos, cs[1..], depth);
      assert forall p :: p in cs ==> p == cs[0] || p in cs[1..];
      if cs[1..] == [] {
        assert BestChild(lx, pos, cs, depth) == Score(lx, pos, cs[0], depth);
      }
    }
  }

  /** The maximum does not depend on the order of the children. */
  lemma BestChildOrderFree(lx: Lexicon, pos: Position, a: seq<Phrase>, b: seq<Phrase>, depth: nat)
    requires depth > 0
    requires forall p :: p in a <==> p in b
    ensures BestChild(lx, pos, a, depth) == BestChild(lx, pos, b, depth)
  {
    BestChildIsMax(lx, pos, a, depth);
    BestChildIsMax(lx, pos, b, depth);
  }

  /** A position with no legal move is lost for the side to move. */
  lemma MinimaxTerminal(lx: Lexicon, pos: Position, depth: nat)
    requires Candidates(lx, pos) == []
    ensures Minimax(lx, pos, depth) == Fin(-1.0)
  {
  }

  /** negamax as written, without the memo: fail-soft alpha-beta over the sorted candidates. */
  function AlphaBeta(lx: Lexicon, pos: Position, depth: nat, alpha: Ext, beta: Ext): Ext
    decreases depth, 1, 0
  {
    var cs := Candidates(lx, pos);
    if cs == [] then Fin(-1.0)
    else if depth == 0 then Fin(Evaluate(lx, pos.last, cs))
    else ABLoop(lx, pos, depth, SortByReplies(lx, pos, cs), alpha, beta, NegInf)
  }

  /** The candidate loop: `alpha` is the running lower bound, `best` the running best value. */
  function ABLoop(lx: Lexicon, pos: Position, depth: nat, cs: seq<Phrase>, alpha: Ext, beta: Ext, best: Ext): Ext
    requires depth > 0
    decreases depth, 0, |cs|
  {
    if cs == [] then best
    else
      var v := Neg(AlphaBeta(lx, Play(pos, cs[0]), depth - 1, Neg(beta), Neg(alpha)));
      var best' := if Less(best, v) then v else best;
      var alpha' := Max(alpha, v);
      if LessEq(beta, alpha') then best' else ABLoop(lx, pos, depth, cs[1..], alpha', beta, best')
  }

  /** One iteration of the candidate loop, for a given value v of the first child. */
  lemma ABLoopStep(lx: Lexicon, pos: Position, depth: nat, cs: seq<Phrase>, alpha: Ext, beta: Ext, best: Ext, v: Ext)
    requires depth > 0 && cs != []
    requires v == Neg(AlphaBeta(lx, Play(pos, cs[0]), depth - 1, Neg(beta), Neg(alpha)))
    ensures var best' := if Less(best, v) then v else best;
      ABLoop(lx, pos, depth, cs, alpha, beta, best)
        == if LessEq(beta, Max(alpha, v)) then best' else ABLoop(lx, pos, depth, cs[1..], Max(alpha, v), beta, best')
  {
  }

  /**
   * The fail-soft alpha-beta guarantee relating a searched value v to the
   * true value m for the window (alpha, beta).
   */
  predicate FailSoft(v: Ext, m: Ext, alpha: Ext, beta: Ext)
  {
    && (LessEq(v, alpha) ==> LessEq(m, v))
    && (Less(alpha, v) && Less(v, beta) ==> m == v)
    && (LessEq(beta, v) ==> LessEq(v, m))
  }

  lemma {:induction false} AlphaBetaFailSoft(lx: Lexicon, pos: Position, depth: nat, alpha: Ext, beta: Ext)
    requires Less(alpha, beta)
    ensures FailSoft(AlphaBeta(lx, pos, depth, alpha, beta), Minimax(lx, pos, depth), alpha, beta)
    decreases depth, 1, 0
  {
    var cs := Candidates(lx, pos);
    if cs != [] && depth > 0 {
      var sorted := SortByReplies(lx, pos, cs);
      SortByProps(ReplyKey(lx, pos), cs);
      PermutationMembers(cs, sorted);
      BestChildOrderFree(lx, pos, cs, sorted, depth);
      ABLoopFailSoft(lx, pos, depth, sorted, alpha, alpha, beta, NegInf, NegInf);
    }
  }

  /**
   * The loop invariant of the proof: `s` is the best true score of the
   * children already searched; it is at most `best`, and equals it once
   * `best` has risen above the original alpha.
   */
  predicate LoopInv(alpha0: Ext, alpha: Ext, beta: Ext, best: Ext, s: Ext)
  {
    && alpha == Max(alpha0, best)
    && Less(alpha, beta)
    && LessEq(s, best)
    && (Less(alpha0, best) ==> s == best)
  }

  /** One child searched with window (-beta, -alpha) that causes a cutoff. */
  lemma CutStep(alpha0: Ext, alpha: Ext, beta: Ext, best: Ext, s: Ext, u: Ext, m: Ext, rest: Ext)
    requires LoopInv(alpha0, alpha, beta, best, s)
    requires FailSoft(u, m, Neg(beta), Neg(alpha))
    requires LessEq(beta, Max(alpha, Neg(u)))
    ensures var v := Neg(u);
      FailSoft(if Less(best, v) then v else best, Max(s, Max(Neg(m), rest)), alpha0, beta)
  {
    NegReverses(u, Neg(beta));
    NegReverses(m, u);
  }

  /** One child searched with window (-beta, -alpha) without a cutoff keeps the invariant. */
  lemma ContinueStep(alpha0: Ext, alpha: Ext, beta: Ext, best: Ext, s: Ext, u: Ext, m: Ext)
    requires LoopInv(alpha0, alpha, beta, best, s)
    requires FailSoft(u, m, Neg(beta), Neg(alpha))
    requires !LessEq(beta, Max(alpha, Neg(u)))
    ensures var v := Neg(u);
      LoopInv(alpha0, Max(alpha, v), beta, if Less(best, v) then v else best, Max(s, Neg(m)))
  {
    NegReverses(u, Neg(beta));
    NegReverses(u, Neg(alpha));
    NegReverses(m, u);
  }

  lemma {:induction false} ABLoopFailSoft(lx: Lexicon, pos: Position, depth: nat, cs: seq<Phrase>,
                                          alpha0: Ext, alpha: Ext, beta: Ext, best: Ext, s: Ext)
    requires depth > 0
    requires LoopInv(alpha0, alpha, beta, best, s)
    ensures FailSoft(ABLoop(lx, pos, depth, cs, alpha, beta, best), Max(s, BestChild(lx, pos, cs, depth)), alpha0, beta)
    decreases depth, 0, |cs|
  {
    if cs != [] {
      var child := Play(pos, cs[0]);
      NegReverses(alpha, beta);
      AlphaBetaFailSoft(lx, child, depth - 1, Neg(beta), Neg(alpha));
      var u := AlphaBeta(lx, child, depth - 1, Neg(beta), Neg(alpha));
      var m := Minimax(lx, child, depth - 1);
      var v := Neg(u);
      var sc := Score(lx, pos, cs[0], depth);
      var rest := BestChild(lx, pos, cs[1..], depth);
      assert BestChild(lx, pos, cs, depth) == Max(Neg(m), rest);
      if LessEq(beta, Max(alpha, v)) {
        CutStep(alpha0, alpha, beta, best, s, u, m, rest);
      } else {
        ContinueStep(alpha0, alpha, beta, best, s, u, m);
        MaxAssoc(s, sc, rest);
        ABLoopFailSoft(lx, pos, depth, cs[1..], alpha0, Max(alpha, v), beta, if Less(best, v) then v else best, Max(s, sc));
      }
    }
  }

  /** With the root window (-inf, +inf) the pruned search returns the unpruned value. */
  lemma AlphaBetaIsMinimax(lx: Lexicon, pos: Position, depth: nat)
    ensures AlphaBeta(lx, pos, depth, NegInf, PosInf) == Minimax(lx, pos, depth)
  {
    AlphaBetaFailSoft(lx, pos, depth, NegInf, PosInf);
  }

  /** The memo key: (last word, used phrases, side), the identity the Zobrist hash stands for. */
  datatype MemoKey = MemoKey(last: Word, used: set<Phrase>, turn: Side)

  datatype MemoEntry = MemoEntry(value: Ext, depth: nat)

  /**
   * Keys a search from `pos` can write: their used phrases extend those of
   * `pos`, and each added phrase starts at pos.last or at a word not yet used.
   */
  predicate InSubtree(pos: Position, k: MemoKey)
  {
    && pos.used <= k.used
    && forall q :: q in k.used && q !in pos.used ==> q.first == pos.last || q.first !in pos.words
  }

  /** No stored key can be met again below `pos`. */
  predicate NoHits(memo: map<MemoKey, MemoEntry>, pos: Position)
  {
    forall k :: k in memo ==> !(pos.used <= k.used)
  }

  /** A key written below a legal move lies below the position it was played from. */
  lemma ChildKeyBelow(lx: Lexicon, pos: Position, p: Phrase, k: MemoKey)
    requires IsLegal(lx, pos, p)
    requires InSubtree(Play(pos, p), k)
    ensures InSubtree(pos, k)
  {
  }

  /** A key written below one legal move never mentions a different legal move of the same position. */
  lemma SiblingSubtrees(lx: Lexicon, pos: Position, p: Phrase, p': Phrase, k: MemoKey)
    requires pos.last in pos.words
    requires IsLegal(lx, pos, p) && IsLegal(lx, pos, p') && p' != p
    requires InSubtree(Play(pos, p), k)
    ensures p' !in k.used
  {
  }

  /** Keys added since memo0 all lie below `pos`. */
  predicate KeysBelow(memo: map<MemoKey, MemoEntry>, memo0: map<MemoKey, MemoEntry>, pos: Position)
  {
    forall k :: k in memo && k !in memo0 ==> InSubtree(pos, k)
  }

  /** Keys added since memo0 mention none of the candidates from index i on. */
  predicate KeysAvoid(memo: map<MemoKey, MemoEntry>, memo0: map<MemoKey, MemoEntry>, order: seq<Phrase>, i: nat)
  {
    forall k :: k in memo && k !in memo0 ==> forall j :: i <= j < |order| ==> order[j] !in k.used
  }

  /** The keys a child search adds keep every key added since memo0 below `pos`. */
  lemma ChildKeysBelow(lx: Lexicon, pos: Position, p: Phrase,
                       memo0: map<MemoKey, MemoEntry>, before: map<MemoKey, MemoEntry>, after: map<MemoKey, MemoEntry>)
    requires IsLegal(lx, pos, p)
    requires KeysBelow(before, memo0, pos)
    requires forall k :: k in after && k !in before ==> InSubtree(Play(pos, p), k)
    ensures KeysBelow(after, memo0, pos)
  {
    forall k | k in after && k !in memo0 ensures InSubtree(pos, k) {
      if k !in before {
        ChildKeyBelow(lx, pos, p, k);
      }
    }
  }

  /** After the search below order[i], the keys written so far avoid the candidates not yet searched. */
  lemma SearchedChild(lx: Lexicon, pos: Position, order: seq<Phrase>, i: nat,
                      memo0: map<MemoKey, MemoEntry>, before: map<MemoKey, MemoEntry>, after: map<MemoKey, MemoEntry>)
    requires pos.last in pos.words
    requires i < |order| && NoDup(order)
    requires forall q :: q in order ==> IsLegal(lx, pos, q)
    requires KeysAvoid(before, memo0, order, i)
    requires forall k :: k in after && k !in before ==> InSubtree(Play(pos, order[i]), k)
    ensures KeysAvoid(after, memo0, order, i + 1)
  {
    forall k | k in after && k !in memo0
      ensures forall j :: i + 1 <= j < |order| ==> order[j] !in k.used
    {
      if k !in before {
        forall j | i + 1 <= j < |order| ensures order[j] !in k.used {
          SiblingSubtrees(lx, pos, order[i], order[j], k);
        }
      }
    }
  }

  /** Without pruning history: the memo holds no key reachable below a child that is searched next. */
  lemma ChildNoHits(lx: Lexicon, pos: Position, order: seq<Phrase>, i: nat,
                    memo0: map<MemoKey, MemoEntry>, memo: map<MemoKey, MemoEntry>)
    requires i < |order|
    requires NoHits(memo0, pos)
    requires KeysAvoid(memo, memo0, order, i)
    ensures NoHits(memo, Play(pos, order[i]))
  {
  }

  /**
   * One exact iteration of the memoised candidate loop: the keys written so
   * far avoid the candidates after order[i], and the loop function moves on
   * by one child.
   */
  lemma SearchStep(lx: Lexicon, pos: Position, depth: nat, order: seq<Phrase>, i: nat,
                   memo0: map<MemoKey, MemoEntry>, before: map<MemoKey, MemoEntry>, after: map<MemoKey, MemoEntry>,
                   a: Ext, beta: Ext, best: Ext, v: Ext)
    requires depth > 0 && pos.last in pos.words
    requires i < |order| && NoDup(order)
    requires forall q :: q in order ==> IsLegal(lx, pos, q)
    requires KeysAvoid(before, memo0, order, i)
    requires forall k :: k in after && k !in before ==> InSubtree(Play(pos, order[i]), k)
    requires v == Neg(AlphaBeta(lx, Play(pos, order[i]), depth - 1, Neg(beta), Neg(a)))
    ensures KeysAvoid(after, memo0, order, i + 1)
    ensures var best' := if Less(best, v) then v else best;
      ABLoop(lx, pos, depth, order[i..], a, beta, best)
        == if LessEq(beta, Max(a, v)) then best' else ABLoop(lx, pos, depth, order[i + 1..], Max(a, v), beta, best')
  {
    SearchedChild(lx, pos, order, i, memo0, before, after);
    assert order[i..][0] == order[i];
    ABLoopStep(lx, pos, depth, order[i..], a, beta, best, v);
    assert order[i..][1..] == order[i + 1..];
  }

  class TranspositionTable {
    var memo: map<MemoKey, MemoEntry>

    constructor ()
      ensures memo == map[]
    {
      memo := map[];
    }

    /**
     * negamax(last_word, used_phrases, history_words, depth, alpha, beta, turn, memo).
     * The memo is consulted before the terminal check, and a stored entry is
     * reused only if its depth is at least the requested one. When the memo
     * holds nothing that can be met again below this position (true of the
     * empty memo each top-level search starts with), the value is that of
     * AlphaBeta, so the stored pruned bounds never leak into a result.
     */
    method Negamax(lx: Lexicon, pos: Position, depth: nat, alpha: Ext, beta: Ext, turn: Side) returns (r: Ext)
      modifies this
      decreases depth, 1, 0
      ensures old(memo).Keys <= memo.Keys
      ensures KeysBelow(memo, old(memo), pos)
      ensures var key := MemoKey(pos.last, pos.used, turn);
        key in old(memo) && old(memo)[key].depth >= depth ==> r == old(memo)[key].value && memo == old(memo)
      ensures var key := MemoKey(pos.last, pos.used, turn);
        !(key in old(memo) && old(memo)[key].depth >= depth) ==>
          if Candidates(lx, pos) == [] then r == Fin(-1.0) && memo == old(memo)
          else if depth == 0 then r == Fin(Evaluate(lx, pos.last, Candidates(lx, pos))) && memo == old(memo)
          else key in memo && memo[key] == MemoEntry(r, depth)
      ensures ValidLexicon(lx) && pos.last in pos.words && NoHits(old(memo), pos) ==>
        r == AlphaBeta(lx, pos, depth, alpha, beta)
    {
      var key := MemoKey(pos.last, pos.used, turn);
      if key in memo && memo[key].depth >= depth {
        return memo[key].value;
      }
      var candidates := GetValidNextPhrases(lx, pos);
      if candidates == [] {
        return Fin(-1.0);
      }
      if depth == 0 {
        return Fin(Evaluate(lx, pos.last, candidates));
      }
      var order := SortByReplies(lx, pos, candidates);
      SortByProps(ReplyKey(lx, pos), candidates);
      PermutationMembers(candidates, order);
      if ValidLexicon(lx) {
        CandidatesNoDup(lx, pos);
      }
      var best := SearchMoves(lx, pos, depth, order, alpha, beta, Other(turn));
      memo := memo[key := MemoEntry(best, depth)];
      r := best;
    }

    /**
     * The candidate loop of negamax: search each move in turn with the
     * negated window, keep the best value, raise alpha, and stop at a cutoff.
     */
    method SearchMoves(lx: Lexicon, pos: Position, depth: nat, order: seq<Phrase>,
                       alpha: Ext, beta: Ext, nextTurn: Side) returns (best: Ext)
      requires depth > 0
      requires forall q :: q in order ==> IsLegal(lx, pos, q)
      modifies this
      decreases depth, 0, 1
      ensures old(memo).Keys <= memo.Keys
      ensures KeysBelow(memo, old(memo), pos)
      ensures ValidLexicon(lx) && NoDup(order) && pos.last in pos.words && NoHits(old(memo), pos) ==>
        best == ABLoop(lx, pos, depth, order, alpha, beta, NegInf)
    {
      best := NegInf;
      var a := alpha;
      ghost var memo0 := memo;
      ghost var exact := ValidLexicon(lx) && NoDup(order) && pos.last in pos.words && NoHits(memo0, pos);
      ghost var target := ABLoop(lx, pos, depth, order, alpha, beta, NegInf);
      var i := 0;
      while i < |order|
        invariant 0 <= i <= |order|
        invariant memo0.Keys <= memo.Keys
        invariant KeysBelow(memo, memo0, pos)
        invariant exact ==> KeysAvoid(memo, memo0, order, i)
        invariant exact ==> ABLoop(lx, pos, depth, order[i..], a, beta, best) == target
        decreases |order| - i
      {
        var v := SearchChild(lx, pos, depth, order, i, a, beta, best, nextTurn, memo0, exact);
        if Less(best, v) {
          best := v;
        }
        a := Max(a, v);
        if LessEq(beta, a) {
          assert exact ==> best == target;
          break;
        }
        i := i + 1;
      }
    }

    /**
     * The value of the move order[i]: the negated value of the search below
     * it with the negated window. When the search is exact, the keys written
     * so far still avoid the moves after order[i], and the loop function
     * moves on by one child with this value.
     */
    method SearchChild(lx: Lexicon, pos: Position, depth: nat, order: seq<Phrase>, i: nat,
                       alpha: Ext, beta: Ext, best: Ext, nextTurn: Side,
                       ghost memo0: map<MemoKey, MemoEntry>, ghost exact: bool)
      returns (v: Ext)
      requires depth > 0 && i < |order|
      requires forall q :: q in order ==> IsLegal(lx, pos, q)
      requires memo0.Keys <= memo.Keys && KeysBelow(memo, memo0, pos)
      requires exact ==> ValidLexicon(lx) && NoDup(order) && pos.last in pos.words && NoHits(memo0, pos)
      requires exact ==> KeysAvoid(memo, memo0, order, i)
      modifies this
      decreases depth, 0, 0
      ensures memo0.Keys <= memo.Keys && KeysBelow(memo, memo0, pos)
      ensures exact ==> KeysAvoid(memo, memo0, order, i + 1)
      ensures exact ==> var best' := if Less(best, v) then v else best;
        ABLoop(lx, pos, depth, order[i..], alpha, beta, best)
          == if LessEq(beta, Max(alpha, v)) then best' else ABLoop(lx, pos, depth, order[i + 1..], Max(alpha, v), beta, best')
    {
      var p := order[i];
      ghost var before := memo;
      if exact {
        ChildNoHits(lx, pos, order, i, memo0, memo);
      }
      var childValue := Negamax(lx, Play(pos, p), depth - 1, Neg(beta), Neg(alpha), nextTurn);
      v := Neg(childValue);
      ChildKeysBelow(lx, pos, p, memo0, before, memo);
      if exact {
        SearchStep(lx, pos, depth, order, i, memo0, before, memo, alpha, beta, best, v);
      }
    }
  }
}
