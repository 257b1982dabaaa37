/*
 * Move selection for the bot: the negamax root (choose_strategic_move), the
 * forced-win mover (choose_insane_move) and the difficulty dispatch
 * (choose_bot_phrase). Wall-clock budgets and random choices are
 * nondeterministic choices.
 */
module Selection {
  import opened Game
  import opened Ordering
  import opened Scores
  import opened Negamax
  import opened ForcedWin

  /**
   * choose_strategic_move: score every candidate with a full-window negamax
   * below it (one memo for the whole call), examined PV-first, and pick at
   * random among the candidates of maximal score. The caller's list is the
   * generator's output, possibly reordered by an earlier call.
   */
  method ChooseStrategicMove(lx: Lexicon, pos: Position, candidates: seq<Phrase>, depth: nat, pv: Option<Phrase>)
    returns (r: Option<Phrase>)
    requires depth >= 1
    requires multiset(candidates) == multiset(Candidates(lx, pos))
    ensures r.None? <==> candidates == []
    ensures r.Some? ==> r.value in candidates
    ensures r.Some? && ValidLexicon(lx) && pos.last in pos.words ==>
      forall p :: p in candidates ==> LessEq(Score(lx, pos, p, depth), Score(lx, pos, r.value, depth))
  {
    var sortedCandidates: seq<Phrase> := [];
    var otherCandidates: seq<Phrase>;
    if pv.Some? && pv.value in candidates {
      sortedCandidates := [pv.value];
      otherCandidates := Without(candidates, pv.value);
    } else {
      otherCandidates := candidates;
    }
    otherCandidates := SortByReplies(lx, pos, otherCandidates);
    sortedCandidates := sortedCandidates + otherCandidates;

    assert sortedCandidates == ExaminationOrder(lx, pos, candidates, pv);
    ExaminationOrderMembers(lx, pos, candidates, pv);
    PermutationMembers(Candidates(lx, pos), candidates);
    CandidatesLegal(lx, pos);
    if ValidLexicon(lx) {
      CandidatesNoDup(lx, pos);
      ExaminationOrderProps(lx, pos, candidates, pv);
      PermutationMembers(candidates, sortedCandidates);
    }

    var bestMoves, bestScore := ScoreMoves(lx, pos, sortedCandidates, depth);
    if bestMoves == [] {
      r := None;
    } else {
      assert bestMoves[0] in bestMoves;
      var m :| m in bestMoves;
      r := Some(m);
    }
  }

  /**
   * The scoring loop of choose_strategic_move over the examined order, with
   * one memo for the whole pass: it collects, in order, the moves whose score
   * ties the best one seen, restarting the list at each strict improvement.
   * The moves kept are exactly those of the largest score.
   */
  method ScoreMoves(lx: Lexicon, pos: Position, order: seq<Phrase>, depth: nat)
    returns (bestMoves: seq<Phrase>, bestScore: Ext)
    requires depth >= 1
    requires forall q :: q in order ==> IsLegal(lx, pos, q)
    ensures forall m :: m in bestMoves ==> m in order
    ensures bestMoves == [] <==> order == []
    ensures ValidLexicon(lx) && pos.last in pos.words && NoDup(order) ==>
      && (forall p :: p in order ==> LessEq(Score(lx, pos, p, depth), bestScore))
      && (forall p :: p in order ==> (p in bestMoves <==> Score(lx, pos, p, depth) == bestScore))
  {
    bestMoves := [];
    bestScore := NegInf;
    var table := new TranspositionTable();
    ghost var exact := ValidLexicon(lx) && pos.last in pos.words && NoDup(order);

    for i := 0 to |order|
      invariant forall m :: m in bestMoves ==> m in order[..i]
      invariant i > 0 ==> bestMoves != []
      invariant bestMoves == [] ==> bestScore == NegInf
      invariant KeysBelow(table.memo, map[], pos)
      invariant exact ==> KeysAvoid(table.memo, map[], order, i)
      invariant exact ==> forall p :: p in order[..i] ==> LessEq(Score(lx, pos, p, depth), bestScore)
      invariant exact ==> forall p :: p in order[..i] ==> (p in bestMoves <==> Score(lx, pos, p, depth) == bestScore)
    {
      var phrase := order[i];
      var score := ScoreMove(table, lx, pos, order, i, depth);
      assert order[..i + 1] == order[..i] + [phrase];
      if Less(bestScore, score) {
        bestScore := score;
        bestMoves := [phrase];
      } else if score == bestScore {
        bestMoves := bestMoves + [phrase];
      }
    }
    assert order[..|order|] == order;
    if bestMoves != [] {
      assert bestMoves[0] in order;
    }
  }

  /**
   * The value of the i-th examined move: the negation of a full-window
   * negamax below it, for the player, with one ply less. With nothing
   * reachable below that move in the shared memo it is the move's Score.
   */
  method ScoreMove(table: TranspositionTable, lx: Lexicon, pos: Position, order: seq<Phrase>, i: nat, depth: nat)
    returns (score: Ext)
    requires depth >= 1 && i < |order|
    requires forall q :: q in order ==> IsLegal(lx, pos, q)
    requires KeysBelow(table.memo, map[], pos)
    requires ValidLexicon(lx) && pos.last in pos.words && NoDup(order) ==> KeysAvoid(table.memo, map[], order, i)
    modifies table
    ensures KeysBelow(table.memo, map[], pos)
    ensures ValidLexicon(lx) && pos.last in pos.words && NoDup(order) ==>
      KeysAvoid(table.memo, map[], order, i + 1) && score == Score(lx, pos, order[i], depth)
  {
    var phrase := order[i];
    ghost var before := table.memo;
    ghost var exact := ValidLexicon(lx) && pos.last in pos.words && NoDup(order);
    if exact {
      ChildNoHits(lx, pos, order, i, map[], table.memo);
    }
    var value := table.Negamax(lx, Play(pos, phrase), depth - 1, NegInf, PosInf, Player);
    score := Neg(value);
    ChildKeysBelow(lx, pos, phrase, map[], before, table.memo);
    if exact {
      SearchedChild(lx, pos, order, i, map[], before, table.memo);
      AlphaBetaIsMinimax(lx, Play(pos, phrase), depth - 1);
    }
  }

  /** Playing p wins for the bot in exactly w more plies: forced within w, not within w - 1. */
  ghost predicate ShortestWin(lx: Lexicon, pos: Position, p: Phrase, w: nat)
  {
    && w > 0
    && Forces(lx, Play(pos, p), Player, w)
    && !Forces(lx, Play(pos, p), Player, w - 1)
  }

  /** p is a legal move with a forced win of w plies, and no legal move wins faster. */
  ghost predicate OptimalWin(lx: Lexicon, pos: Position, p: Phrase, w: nat)
  {
    && IsLegal(lx, pos, p)
    && ShortestWin(lx, pos, p, w)
    && forall q :: IsLegal(lx, pos, q) ==> !Forces(lx, Play(pos, q), Player, w - 1)
  }

  /** d is at most the win length of every move of cs whose reply is a forced win. */
  ghost predicate NoFasterIn(lx: Lexicon, pos: Position, cs: seq<Phrase>, n: nat, d: nat)
    requires n > 0
  {
    forall p :: p in cs && Reply(lx, pos, p, Player, n).canWin ==> d <= PliesAfter(Reply(lx, pos, p, Player, n).plies)
  }

  /** No move of cs leaves the player in a position the bot wins within n - 1 plies. */
  ghost predicate NoneWinsIn(lx: Lexicon, pos: Position, cs: seq<Phrase>, n: nat)
    requires n > 0
  {
    forall p :: p in cs ==> !Reply(lx, pos, p, Player, n).canWin
  }

  /**
   * What the candidate loop keeps after examining cs: the best move so far
   * is a legal move of shortest win bestDepth, no examined move wins faster,
   * and no best move means no examined move wins at all.
   */
  ghost predicate ScanInv(lx: Lexicon, pos: Position, cs: seq<Phrase>, n: nat, best: Option<Phrase>, bestDepth: Option<nat>)
    requires n > 0
  {
    && (best.Some? <==> bestDepth.Some?)
    && (best.Some? ==> && IsLegal(lx, pos, best.value) && ShortestWin(lx, pos, best.value, bestDepth.value)
                       && bestDepth.value < n && NoFasterIn(lx, pos, cs, n, bestDepth.value))
    && (best.None? ==> NoneWinsIn(lx, pos, cs, n))
  }

  /**
   * The candidate loop of choose_insane_move, in both of its passes: search
   * each move with the player to reply and n - 1 plies left, and keep the
   * move with the smallest win depth, replacing the incoming best only by a
   * strictly smaller one.
   */
  method ScanForWin(lx: Lexicon, pos: Position, solver: ForcedWinSolver, candidates: seq<Phrase>, n: nat,
                    best0: Option<Phrase>, depth0: Option<nat>)
    returns (best: Option<Phrase>, bestDepth: Option<nat>)
    requires n > 0 && solver.Valid(lx) && solver.AtNode(pos, n)
    requires forall p :: p in candidates <==> IsLegal(lx, pos, p)
    requires best0.Some? <==> depth0.Some?
    requires best0.Some? ==> OptimalWin(lx, pos, best0.value, depth0.value) && depth0.value < n
    modifies solver
    ensures solver.Valid(lx)
    ensures best.Some? <==> bestDepth.Some?
    ensures best.Some? ==> OptimalWin(lx, pos, best.value, bestDepth.value) && bestDepth.value < n
    ensures depth0.Some? ==> bestDepth.Some? && bestDepth.value <= depth0.value
    ensures best.None? ==> forall p :: IsLegal(lx, pos, p) ==> !Reply(lx, pos, p, Player, n).canWin
  {
    best, bestDepth := best0, depth0;
    for i := 0 to |candidates|
      invariant solver.Valid(lx)
      invariant ScanInv(lx, pos, candidates[..i], n, best, bestDepth)
      invariant depth0.Some? ==> bestDepth.Some? && bestDepth.value <= depth0.value
    {
      best, bestDepth := ScanMove(lx, pos, solver, candidates, i, n, best, bestDepth);
    }
    assert candidates[..|candidates|] == candidates;
    if best.Some? {
      forall q | IsLegal(lx, pos, q) ensures !Forces(lx, Play(pos, q), Player, bestDepth.value - 1) {
        BotNoShorter(lx, pos, n, bestDepth.value, q);
      }
    }
  }

  /**
   * One turn of the candidate loop: the search below candidates[i] and the
   * update of the best move, which a reply that is a forced win replaces
   * when its depth
   * (opp_depth + 1, or 1) is strictly smaller.
   */
  method ScanMove(lx: Lexicon, pos: Position, solver: ForcedWinSolver, candidates: seq<Phrase>, i: nat, n: nat,
                  best: Option<Phrase>, bestDepth: Option<nat>)
    returns (best': Option<Phrase>, bestDepth': Option<nat>)
    requires n > 0 && solver.Valid(lx) && solver.AtNode(pos, n)
    requires i < |candidates| && IsLegal(lx, pos, candidates[i])
    requires ScanInv(lx, pos, candidates[..i], n, best, bestDepth)
    modifies solver
    ensures solver.Valid(lx)
    ensures ScanInv(lx, pos, candidates[..i + 1], n, best', bestDepth')
    ensures bestDepth.Some? ==> bestDepth'.Some? && bestDepth'.value <= bestDepth.value
  {
    var phrase := candidates[i];
    var opp := ReplyOf(lx, pos, solver, phrase, n);
    best', bestDepth' := best, bestDepth;
    if opp.canWin {
      var depth := if opp.plies.Some? then opp.plies.value + 1 else 1;
      if bestDepth.None? || depth < bestDepth.value {
        bestDepth' := Some(depth);
        best' := Some(phrase);
      }
    }
    ScanInvStep(lx, pos, candidates[..i], phrase, n, best, bestDepth, best', bestDepth');
    assert candidates[..i + 1] == candidates[..i] + [phrase];
  }

  /** The update of one loop turn keeps ScanInv over the examined moves plus p. */
  lemma ScanInvStep(lx: Lexicon, pos: Position, cs: seq<Phrase>, p: Phrase, n: nat,
                    best: Option<Phrase>, bestDepth: Option<nat>, best': Option<Phrase>, bestDepth': Option<nat>)
    requires n > 0 && IsLegal(lx, pos, p)
    requires ScanInv(lx, pos, cs, n, best, bestDepth)
    requires var opp := Reply(lx, pos, p, Player, n);
      opp.canWin ==> opp.plies.Some? && opp.plies.value + 1 < n && ShortestWin(lx, pos, p, opp.plies.value + 1)
    requires var opp := Reply(lx, pos, p, Player, n);
      var depth := PliesAfter(opp.plies);
      if opp.canWin && (bestDepth.None? || depth < bestDepth.value) then best' == Some(p) && bestDepth' == Some(depth)
      else best' == best && bestDepth' == bestDepth
    ensures ScanInv(lx, pos, cs + [p], n, best', bestDepth')
  {
    assert forall q :: q in cs + [p] <==> q in cs || q == p;
  }

  /**
   * The insane_search call of the candidate loop: the verdict for the player
   * after p, with one ply less. A win it reports is a shortest win of p.
   */
  method ReplyOf(lx: Lexicon, pos: Position, solver: ForcedWinSolver, p: Phrase, n: nat) returns (opp: Verdict)
    requires n > 0 && solver.Valid(lx) && solver.AtNode(pos, n)
    requires IsLegal(lx, pos, p)
    modifies solver
    ensures solver.Valid(lx)
    ensures opp == Reply(lx, pos, p, Player, n)
    ensures opp.canWin ==> opp.plies.Some? && opp.plies.value + 1 < n && ShortestWin(lx, pos, p, opp.plies.value + 1)
  {
    solver.AtChild(lx, pos, n, p);
    opp := solver.Search(lx, Play(pos, p), Player, n - 1);
    ReplyWinIsShortest(lx, pos, p, n);
  }

  /** A forced win the solver reports after p is a shortest win of p, shorter than n. */
  lemma ReplyWinIsShortest(lx: Lexicon, pos: Position, p: Phrase, n: nat)
    requires n > 0
    ensures var opp := Reply(lx, pos, p, Player, n);
      opp.canWin ==> opp.plies.Some? && opp.plies.value + 1 < n && ShortestWin(lx, pos, p, opp.plies.value + 1)
  {
    SolveCorrect(lx, Play(pos, p), Player, n - 1);
  }

  /** A bot node with a forced win has a candidate whose player reply is a forced win. */
  lemma WinningReplyExists(lx: Lexicon, pos: Position, n: nat)
    requires Forces(lx, pos, Bot, n)
    ensures n > 0 && exists p :: IsLegal(lx, pos, p) && Reply(lx, pos, p, Player, n).canWin
  {
    var p :| IsLegal(lx, pos, p) && Forces(lx, Play(pos, p), Player, n - 1);
    SolveCorrect(lx, Play(pos, p), Player, n - 1);
  }

  /**
   * choose_insane_move(state, max_depth): a shallow pass at depths 2..4 that
   * returns the quickest win it finds, then iterative deepening from 5 to
   * max_depth that keeps the quickest win so far and stops early at a win in
   * one. Each time check may stop the search.
   */
  method ChooseInsaneMove(lx: Lexicon, lastWord: Word, history: seq<Word>, maxDepth: nat)
    returns (r: Option<Phrase>, ghost stopped: bool)
    ensures var pos := StatePosition(lastWord, history);
      r.Some? ==> exists w :: OptimalWin(lx, pos, r.value, w)
    ensures var pos := StatePosition(lastWord, history);
      Forces(lx, pos, Bot, 2) ==> r.Some? && OptimalWin(lx, pos, r.value, 1)
    ensures var pos := StatePosition(lastWord, history);
      !stopped && Forces(lx, pos, Bot, maxDepth) ==> r.Some?
  {
    var pos := StatePosition(lastWord, history);
    var done;
    done, r, stopped := ShallowPass(lx, pos);
    if !done {
      r, stopped := DeepeningPass(lx, pos, maxDepth);
      if maxDepth <= 4 && Forces(lx, pos, Bot, maxDepth) {
        ForcesMonotone(lx, pos, Bot, maxDepth, 4);
      }
    }
  }

  /**
   * The quick lookahead of choose_insane_move at depths 2, 3 and 4. `done`
   * says that the caller returns r at once: a win was found, or the time
   * budget ran out, which `stopped` records. A win in two plies is never
   * missed, and the deepening pass runs only when no win in four exists.
   */
  method ShallowPass(lx: Lexicon, pos: Position) returns (done: bool, r: Option<Phrase>, ghost stopped: bool)
    ensures r.Some? ==> done && exists w :: OptimalWin(lx, pos, r.value, w)
    ensures Forces(lx, pos, Bot, 2) ==> done && r.Some? && OptimalWin(lx, pos, r.value, 1)
    ensures done && r.None? ==> stopped
    ensures !done ==> !stopped && !Forces(lx, pos, Bot, 4)
  {
    var shallow := 2;
    while shallow < 5
      invariant 2 <= shallow <= 5
      invariant shallow > 2 ==> !Forces(lx, pos, Bot, 2) && !Forces(lx, pos, Bot, shallow - 1)
      decreases 5 - shallow
    {
      var best := ShallowSearch(lx, pos, shallow);
      if best.Some? {
        return true, best, false;
      }
      var timeUp: bool :| true;
      if timeUp {
        return true, None, true;
      }
      shallow := shallow + 1;
    }
    return false, None, false;
  }

  /**
   * One depth of the quick lookahead, with a fresh memo: when the root is a
   * forced win within n plies, the candidate loop picks a move of shortest
   * win, and such a move is always found.
   */
  method ShallowSearch(lx: Lexicon, pos: Position, n: nat) returns (best: Option<Phrase>)
    requires n > 0
    ensures best.Some? ==> exists w: nat :: w < n && OptimalWin(lx, pos, best.value, w)
    ensures Forces(lx, pos, Bot, n) ==> best.Some?
  {
    CandidatesLegal(lx, pos);
    forall p ensures p in Candidates(lx, pos) <==> IsLegal(lx, pos, p) {
      CandidatesExact(lx, pos, p);
    }
    assert Seconds(pos.used - pos.used) == {};
    best := None;
    var solver := new ForcedWinSolver(pos.used, pos.words, n);
    var v := solver.Search(lx, pos, Bot, n);
    SolveCorrect(lx, pos, Bot, n);
    if v.canWin {
      var candidates := GetValidNextPhrases(lx, pos);
      var bestSubDepth;
      best, bestSubDepth := ScanForWin(lx, pos, solver, candidates, n, None, None);
      if best.None? {
        WinningReplyExists(lx, pos, n);
      }
    }
  }

  /**
   * The iterative deepening of choose_insane_move from depth 5 to maxDepth,
   * each depth with a fresh memo and the moves ordered by Replies. The best
   * move so far survives a deeper pass unless that pass finds a strictly
   * quicker win; a win in one ends the search. Unless a time check stops
   * it, a forced win within maxDepth plies (from depth 5 on) is found.
   */
  method DeepeningPass(lx: Lexicon, pos: Position, maxDepth: nat) returns (r: Option<Phrase>, ghost stopped: bool)
    ensures r.Some? ==> exists w :: OptimalWin(lx, pos, r.value, w)
    ensures !stopped && maxDepth >= 5 && Forces(lx, pos, Bot, maxDepth) ==> r.Some?
  {
    var bestMove: Option<Phrase> := None;
    var bestWinDepth: Option<nat> := None;
    var depth := 5;
    stopped := false;
    while depth <= maxDepth
      invariant depth >= 5 && (maxDepth >= 5 ==> depth <= maxDepth + 1)
      invariant bestMove.Some? <==> bestWinDepth.Some?
      invariant bestMove.Some? ==> OptimalWin(lx, pos, bestMove.value, bestWinDepth.value) && bestWinDepth.value < depth
      invariant depth > 5 && Forces(lx, pos, Bot, depth - 1) ==> bestMove.Some?
      invariant !stopped
      decreases maxDepth as int + 1 - depth
    {
      var timeUp: bool :| true;
      if timeUp {
        stopped := true;
        break;
      }
      bestMove, bestWinDepth := DeepenOnce(lx, pos, depth, bestMove, bestWinDepth);
      if bestMove.Some? && bestWinDepth == Some(1) {
        break;
      }
      depth := depth + 1;
    }
    r := bestMove;
  }

  /**
   * One depth of the deepening loop: a fresh memo, the moves sorted by
   * Replies, and a scan that keeps the best win so far unless it finds a
   * quicker one. When the root is a forced win within depth plies, a move
   * is held afterwards.
   */
  method DeepenOnce(lx: Lexicon, pos: Position, depth: nat, best0: Option<Phrase>, depth0: Option<nat>)
    returns (best: Option<Phrase>, bestDepth: Option<nat>)
    requires depth > 0
    requires best0.Some? <==> depth0.Some?
    requires best0.Some? ==> OptimalWin(lx, pos, best0.value, depth0.value) && depth0.value < depth
    ensures best.Some? <==> bestDepth.Some?
    ensures best.Some? ==> OptimalWin(lx, pos, best.value, bestDepth.value) && bestDepth.value < depth
    ensures depth0.Some? ==> bestDepth.Some? && bestDepth.value <= depth0.value
    ensures Forces(lx, pos, Bot, depth) ==> best.Some?
  {
    CandidatesLegal(lx, pos);
    forall p ensures p in Candidates(lx, pos) <==> IsLegal(lx, pos, p) {
      CandidatesExact(lx, pos, p);
    }
    assert Seconds(pos.used - pos.used) == {};
    var solver := new ForcedWinSolver(pos.used, pos.words, depth);
    var candidates := GetValidNextPhrases(lx, pos);
    candidates := SortByReplies(lx, pos, candidates);
    SortByProps(ReplyKey(lx, pos), Candidates(lx, pos));
    PermutationMembers(Candidates(lx, pos), candidates);
    best, bestDepth := ScanForWin(lx, pos, solver, candidates, depth, best0, depth0);
    if best.None? && Forces(lx, pos, Bot, depth) {
      WinningReplyExists(lx, pos, depth);
    }
  }

  /**
   * The position of the head of candidates.sort(key=key, reverse=True): a
   * stable sort keeps equal keys in order, so this is the first index of
   * largest key.
   */
  function FirstMaxIndex(cs: seq<Phrase>, key: Phrase -> real): (i: nat)
    requires cs != []
    ensures i < |cs|
    ensures forall j :: 0 <= j < |cs| ==> key(cs[j]) <= key(cs[i])
    ensures forall j :: 0 <= j < i ==> key(cs[j]) < key(cs[i])
  {
    if |cs| == 1 then 0
    else
      var m := FirstMaxIndex(cs[1..], key) + 1;
      assert forall j :: 1 <= j < |cs| ==> cs[j] == cs[1..][j - 1];
      if key(cs[0]) >= key(cs[m]) then 0 else m
  }

  /** The iterative-deepening depth limit of each insane difficulty. */
  function InsaneMaxDepth(difficulty: string): nat
  {
    if difficulty == "insane-min" then 6 else if difficulty == "insane-mid" then 8 else 12
  }

  predicate IsInsane(difficulty: string)
  {
    |difficulty| >= 6 && difficulty[..6] == "insane"
  }

  /**
   * choose_bot_phrase: no move gives None; "easy" plays the first most
   * frequent phrase, "hard" the first least frequent; an insane difficulty
   * runs iterative deepening over choose_strategic_move until a time check
   * stops it, falling back to a random move; anything else plays a random move.
   */
  method ChooseBotPhrase(lx: Lexicon, pos: Position, difficulty: string) returns (r: Option<Phrase>)
    ensures r.None? <==> Candidates(lx, pos) == []
    ensures r.Some? ==> IsLegal(lx, pos, r.value)
    ensures |Candidates(lx, pos)| == 1 ==> r == Some(Candidates(lx, pos)[0])
    ensures r.Some? && difficulty == "easy" ==>
      forall c :: c in Candidates(lx, pos) ==> lx.phraseFreq(c) <= lx.phraseFreq(r.value)
    ensures r.Some? && difficulty == "hard" ==>
      forall c :: c in Candidates(lx, pos) ==> lx.phraseFreq(r.value) <= lx.phraseFreq(c)
  {
    var candidates := GetValidNextPhrases(lx, pos);
    if candidates == [] {
      return None;
    }
    if difficulty == "easy" {
      r := Some(candidates[FirstMaxIndex(candidates, lx.phraseFreq)]);
    } else if difficulty == "hard" {
      r := Some(candidates[FirstMaxIndex(candidates, p => -lx.phraseFreq(p))]);
    } else if IsInsane(difficulty) {
      var bestMoveOverall: Option<Phrase> := None;
      var maxDepth := InsaneMaxDepth(difficulty);
      var depth := 1;
      while depth <= maxDepth
        invariant bestMoveOverall.Some? ==> bestMoveOverall.value in candidates
        decreases maxDepth as int + 1 - depth
      {
        var timeUp: bool :| true;
        if timeUp {
          break;
        }
        var timedOut: bool :| true;
        if timedOut {
          break;
        }
        var currentBestMove := ChooseStrategicMove(lx, pos, candidates, depth, bestMoveOverall);
        if currentBestMove.Some? {
          bestMoveOverall := currentBestMove;
        } else {
          break;
        }
        depth := depth + 1;
      }
      if bestMoveOverall.Some? {
        r := bestMoveOverall;
      } else {
        assert candidates[0] in candidates;
        var m :| m in candidates;
        r := Some(m);
      }
    } else {
      assert candidates[0] in candidates;
      var m :| m in candidates;
      r := Some(m);
    }
    CandidatesLegal(lx, pos);
  }
}
