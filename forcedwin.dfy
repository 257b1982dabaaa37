/*
 * insane_search: the exact forced-win solver. A verdict says whether the bot
 * can force a win within the remaining plies and, if so, in how many plies.
 * Bot nodes are existential (the bot picks the quickest win), player nodes
 * universal (the player delays as long as possible and escapes when it can).
 */
module ForcedWin {
  import opened Game

  /** The pair (can_win, depth) the solver returns; depth is None when no win is forced. */
  datatype Verdict = Verdict(canWin: bool, plies: Option<nat>)

  /** (d + 1) if d is not None else 1. */
  function PliesAfter(o: Option<nat>): nat
  {
    if o.Some? then o.value + 1 else 1
  }

  /** insane_search without its memo, at `n` remaining plies. */
  function Solve(lx: Lexicon, pos: Position, turn: Side, n: nat): Verdict
    decreases n, 1, 0
  {
    if n == 0 then Verdict(false, None)
    else
      var cs := Candidates(lx, pos);
      if cs == [] then (if turn == Bot then Verdict(false, None) else Verdict(true, Some(0)))
      else if turn == Bot then BotLoop(lx, pos, cs, n, None)
      else PlayerLoop(lx, pos, cs, n, None)
  }

  /** The bot's loop: the smallest win length over the children, `best` so far. */
  function BotLoop(lx: Lexicon, pos: Position, cs: seq<Phrase>, n: nat, best: Option<nat>): Verdict
    requires n > 0
    decreases n, 0, |cs|
  {
    if cs == [] then (if best.Some? then Verdict(true, best) else Verdict(false, None))
    else
      var o := Solve(lx, Play(pos, cs[0]), Player, n - 1);
      var d := PliesAfter(o.plies);
      var best' := if o.canWin && (best.None? || d < best.value) then Some(d) else best;
      BotLoop(lx, pos, cs[1..], n, best')
  }

  /** The player's loop: stop at the first escape, else the largest win length, `worst` so far. */
  function PlayerLoop(lx: Lexicon, pos: Position, cs: seq<Phrase>, n: nat, worst: Option<nat>): Verdict
    requires n > 0
    decreases n, 0, |cs|
  {
    if cs == [] then Verdict(true, worst)
    else
      var o := Solve(lx, Play(pos, cs[0]), Bot, n - 1);
      if !o.canWin then Verdict(false, None)
      else
        var d := PliesAfter(o.plies);
        PlayerLoop(lx, pos, cs[1..], n, if worst.None? || d > worst.value then Some(d) else worst)
  }

  /** One turn of the bot's loop: the first child's verdict updates the running minimum. */
  lemma BotLoopStep(lx: Lexicon, pos: Position, cs: seq<Phrase>, n: nat, best: Option<nat>, o: Verdict, best': Option<nat>)
    requires n > 0 && cs != []
    requires o == Solve(lx, Play(pos, cs[0]), Player, n - 1)
    requires best' == if o.canWin && (best.None? || PliesAfter(o.plies) < best.value) then Some(PliesAfter(o.plies)) else best
    ensures BotLoop(lx, pos, cs, n, best) == BotLoop(lx, pos, cs[1..], n, best')
  {
  }

  /** One turn of the player's loop: an escape ends it, a win updates the running maximum. */
  lemma PlayerLoopStep(lx: Lexicon, pos: Position, cs: seq<Phrase>, n: nat, worst: Option<nat>, o: Verdict, worst': Option<nat>)
    requires n > 0 && cs != []
    requires o == Solve(lx, Play(pos, cs[0]), Bot, n - 1)
    requires o.canWin ==> worst' == if worst.None? || PliesAfter(o.plies) > worst.value then Some(PliesAfter(o.plies)) else worst
    ensures !o.canWin ==> PlayerLoop(lx, pos, cs, n, worst) == Verdict(false, None)
    ensures o.canWin ==> PlayerLoop(lx, pos, cs, n, worst) == PlayerLoop(lx, pos, cs[1..], n, worst')
  {
  }

  /** The verdict for the position after p, with the other side to move and one ply fewer. */
  function Reply(lx: Lexicon, pos: Position, p: Phrase, side: Side, n: nat): Verdict
    requires n > 0
  {
    Solve(lx, Play(pos, p), side, n - 1)
  }

  /**
   * The game-theoretic meaning: the bot can force a win within n plies.
   * On the bot's turn some legal move must lead to such a win; on the
   * player's turn every legal move must (a player with no move has lost).
   */
  ghost predicate Forces(lx: Lexicon, pos: Position, turn: Side, n: nat)
    decreases n
  {
    && n > 0
    && if turn == Bot then exists p :: IsLegal(lx, pos, p) && Forces(lx, Play(pos, p), Player, n - 1)
       else forall p :: IsLegal(lx, pos, p) ==> Forces(lx, Play(pos, p), Bot, n - 1)
  }

  /** A win forced within n plies is forced within any larger budget. */
  lemma {:induction false} ForcesMonotone(lx: Lexicon, pos: Position, turn: Side, n: nat, m: nat)
    requires n <= m && Forces(lx, pos, turn, n)
    ensures Forces(lx, pos, turn, m)
    decreases n
  {
    if turn == Bot {
      var p :| IsLegal(lx, pos, p) && Forces(lx, Play(pos, p), Player, n - 1);
      ForcesMonotone(lx, Play(pos, p), Player, n - 1, m - 1);
      assert IsLegal(lx, pos, p) && Forces(lx, Play(pos, p), Player, m - 1);
    } else {
      forall p | IsLegal(lx, pos, p) ensures Forces(lx, Play(pos, p), Bot, m - 1) {
        ForcesMonotone(lx, Play(pos, p), Bot, n - 1, m - 1);
      }
    }
  }

  /**
   * What a verdict means: can_win exactly when a win is forced within n
   * plies, and then depth is the length of the shortest forced win (which is
   * below n); otherwise depth is None.
   */
  ghost predicate Exact(lx: Lexicon, pos: Position, turn: Side, n: nat, v: Verdict)
  {
    && (v.canWin <==> Forces(lx, pos, turn, n))
    && (v.canWin ==> v.plies.Some? && v.plies.value < n
                     && Forces(lx, pos, turn, v.plies.value + 1) && !Forces(lx, pos, turn, v.plies.value))
    && (!v.canWin ==> v.plies.None?)
  }

  /** The bot loop finds a win iff some child wins, and then the smallest child length plus one. */
  lemma {:induction false} BotLoopCorrect(lx: Lexicon, pos: Position, cs: seq<Phrase>, n: nat, best: Option<nat>)
    requires n > 0
    ensures var v := BotLoop(lx, pos, cs, n, best);
      && (v.canWin <==> best.Some? || exists p :: p in cs && Forces(lx, Play(pos, p), Player, n - 1))
      && (!v.canWin ==> v.plies.None?)
      && (v.canWin ==> v.plies.Some? && BotMin(lx, pos, cs, n, best, v.plies.value))
    decreases n, 0, |cs|
  {
    if cs != [] {
      var o := Reply(lx, pos, cs[0], Player, n);
      SolveCorrect(lx, Play(pos, cs[0]), Player, n - 1);
      var d := PliesAfter(o.plies);
      var best' := if o.canWin && (best.None? || d < best.value) then Some(d) else best;
      BotLoopCorrect(lx, pos, cs[1..], n, best');
      assert forall p :: p in cs <==> p == cs[0] || p in cs[1..];
    }
  }

  /** d is the minimum of `best` and the win lengths of the winning children in cs. */
  ghost predicate BotMin(lx: Lexicon, pos: Position, cs: seq<Phrase>, n: nat, best: Option<nat>, d: nat)
    requires n > 0
  {
    && (best.Some? ==> d <= best.value)
    && (forall p :: p in cs && Reply(lx, pos, p, Player, n).canWin ==> d <= PliesAfter(Reply(lx, pos, p, Player, n).plies))
    && (Some(d) == best
        || exists p :: p in cs && Reply(lx, pos, p, Player, n).canWin && d == PliesAfter(Reply(lx, pos, p, Player, n).plies))
  }

  /** d is the maximum of `worst` and the win lengths of the children in cs. */
  ghost predicate PlayerMax(lx: Lexicon, pos: Position, cs: seq<Phrase>, n: nat, worst: Option<nat>, d: nat)
    requires n > 0
  {
    && (worst.Some? ==> worst.value <= d)
    && (forall p :: p in cs ==> PliesAfter(Reply(lx, pos, p, Bot, n).plies) <= d)
    && (Some(d) == worst || exists p :: p in cs && d == PliesAfter(Reply(lx, pos, p, Bot, n).plies))
  }

  /** The player loop escapes iff some child is not a forced bot win, else it takes the largest length. */
  lemma {:induction false} PlayerLoopCorrect(lx: Lexicon, pos: Position, cs: seq<Phrase>, n: nat, worst: Option<nat>)
    requires n > 0
    requires cs != [] || worst.Some?
    ensures var v := PlayerLoop(lx, pos, cs, n, worst);
      && (v.canWin <==> forall p :: p in cs ==> Forces(lx, Play(pos, p), Bot, n - 1))
      && (v.canWin ==> forall p :: p in cs ==> Reply(lx, pos, p, Bot, n).canWin)
      && (!v.canWin ==> v.plies.None?)
      && (v.canWin ==> v.plies.Some? && PlayerMax(lx, pos, cs, n, worst, v.plies.value))
    decreases n, 0, |cs|
  {
    if cs != [] {
      var o := Reply(lx, pos, cs[0], Bot, n);
      SolveCorrect(lx, Play(pos, cs[0]), Bot, n - 1);
      assert forall p :: p in cs <==> p == cs[0] || p in cs[1..];
      if o.canWin {
        var d := PliesAfter(o.plies);
        PlayerLoopCorrect(lx, pos, cs[1..], n, if worst.None? || d > worst.value then Some(d) else worst);
      }
    }
  }

  /** The solver is exact: its verdict is Forces, and its depth the shortest forced win. */
  lemma {:induction false} SolveCorrect(lx: Lexicon, pos: Position, turn: Side, n: nat)
    ensures Exact(lx, pos, turn, n, Solve(lx, pos, turn, n))
    decreases n, 1, 0
  {
    if n > 0 {
      var cs := Candidates(lx, pos);
      forall p ensures p in cs <==> IsLegal(lx, pos, p) {
        CandidatesExact(lx, pos, p);
      }
      var v := Solve(lx, pos, turn, n);
      if cs == [] {
        if turn == Player {
          assert Forces(lx, pos, Player, 1);
        }
      } else if turn == Bot {
        BotLoopCorrect(lx, pos, cs, n, None);
        if v.canWin {
          BotExactLength(lx, pos, n, v.plies.value);
        }
      } else {
        PlayerLoopCorrect(lx, pos, cs, n, None);
        if v.canWin {
          PlayerExactLength(lx, pos, n, v.plies.value);
        }
      }
    }
  }

  /** At a bot node the minimum over winning children is the shortest forced win. */
  lemma BotExactLength(lx: Lexicon, pos: Position, n: nat, d: nat)
    requires n > 0
    requires exists p :: IsLegal(lx, pos, p) && Reply(lx, pos, p, Player, n).canWin
                && d == PliesAfter(Reply(lx, pos, p, Player, n).plies)
    requires forall p :: IsLegal(lx, pos, p) && Reply(lx, pos, p, Player, n).canWin ==>
                d <= PliesAfter(Reply(lx, pos, p, Player, n).plies)
    ensures d < n && Forces(lx, pos, Bot, d + 1) && !Forces(lx, pos, Bot, d)
    decreases n, 0, 1
  {
    var p :| IsLegal(lx, pos, p) && Reply(lx, pos, p, Player, n).canWin
             && d == PliesAfter(Reply(lx, pos, p, Player, n).plies);
    SolveCorrect(lx, Play(pos, p), Player, n - 1);
    forall q | IsLegal(lx, pos, q) ensures !Forces(lx, Play(pos, q), Player, d - 1) {
      BotNoShorter(lx, pos, n, d, q);
    }
  }

  /** No reply leads to a win shorter than the bot node's minimum. */
  lemma BotNoShorter(lx: Lexicon, pos: Position, n: nat, d: nat, q: Phrase)
    requires 0 < d < n
    requires IsLegal(lx, pos, q)
    requires forall p :: IsLegal(lx, pos, p) && Reply(lx, pos, p, Player, n).canWin ==>
                d <= PliesAfter(Reply(lx, pos, p, Player, n).plies)
    ensures !Forces(lx, Play(pos, q), Player, d - 1)
    decreases n, 0, 0
  {
    if Forces(lx, Play(pos, q), Player, d - 1) {
      ForcesMonotone(lx, Play(pos, q), Player, d - 1, n - 1);
      SolveCorrect(lx, Play(pos, q), Player, n - 1);
      ForcesMonotone(lx, Play(pos, q), Player, d - 1, Reply(lx, pos, q, Player, n).plies.value);
    }
  }

  /** At a player node the maximum over the children is the shortest forced win. */
  lemma PlayerExactLength(lx: Lexicon, pos: Position, n: nat, d: nat)
    requires n > 0
    requires forall p :: IsLegal(lx, pos, p) ==> Reply(lx, pos, p, Bot, n).canWin
    requires exists p :: IsLegal(lx, pos, p) && d == PliesAfter(Reply(lx, pos, p, Bot, n).plies)
    requires forall p :: IsLegal(lx, pos, p) ==> PliesAfter(Reply(lx, pos, p, Bot, n).plies) <= d
    ensures d < n && Forces(lx, pos, Player, d + 1) && !Forces(lx, pos, Player, d)
    decreases n, 0, 1
  {
    forall p | IsLegal(lx, pos, p) ensures Forces(lx, Play(pos, p), Bot, d) {
      PlayerChildWithin(lx, pos, n, d, p);
    }
    var p :| IsLegal(lx, pos, p) && d == PliesAfter(Reply(lx, pos, p, Bot, n).plies);
    PlayerChildExact(lx, pos, n, p);
  }

  /** A bot win after p of length at most d is forced within d. */
  lemma PlayerChildWithin(lx: Lexicon, pos: Position, n: nat, d: nat, p: Phrase)
    requires n > 0
    requires Reply(lx, pos, p, Bot, n).canWin && PliesAfter(Reply(lx, pos, p, Bot, n).plies) <= d
    ensures Forces(lx, Play(pos, p), Bot, d)
    decreases n, 0, 0
  {
    SolveCorrect(lx, Play(pos, p), Bot, n - 1);
    ForcesMonotone(lx, Play(pos, p), Bot, Reply(lx, pos, p, Bot, n).plies.value + 1, d);
  }

  /** The bot's win after p takes its reported length: it is not forced one ply sooner. */
  lemma PlayerChildExact(lx: Lexicon, pos: Position, n: nat, p: Phrase)
    requires n > 0 && Reply(lx, pos, p, Bot, n).canWin
    ensures var d := PliesAfter(Reply(lx, pos, p, Bot, n).plies);
      d < n && !Forces(lx, Play(pos, p), Bot, d - 1)
    decreases n, 0, 0
  {
    SolveCorrect(lx, Play(pos, p), Bot, n - 1);
  }

  /** The position with one more phrase marked used. */
  function WithUsed(pos: Position, q: Phrase): Position
  {
    Position(pos.last, pos.used + {q}, pos.words)
  }

  lemma {:induction false} FilterIgnoresDeadPhrase(lx: Lexicon, pos: Position, q: Phrase, ws: seq<Word>)
    requires q.second in pos.words
    ensures Filter(lx, pos, ws) == Filter(lx, WithUsed(pos, q), ws)
  {
    if ws != [] {
      FilterIgnoresDeadPhrase(lx, pos, q, ws[..|ws| - 1]);
    }
  }

  /**
   * Marking used a phrase whose second word is already used changes nothing:
   * the used-word rule already excludes it, here and in every later position.
   */
  lemma {:induction false} SolveIgnoresDeadPhrase(lx: Lexicon, pos: Position, q: Phrase, turn: Side, n: nat)
    requires q.second in pos.words
    ensures Solve(lx, pos, turn, n) == Solve(lx, WithUsed(pos, q), turn, n)
    decreases n, 1, 0
  {
    if n > 0 && pos.last in lx.follow {
      FilterIgnoresDeadPhrase(lx, pos, q, lx.follow[pos.last]);
      var cs := Candidates(lx, pos);
      if cs != [] {
        if turn == Bot {
          LoopsIgnoreDeadPhrase(lx, pos, q, cs, n, None);
        } else {
          LoopsIgnoreDeadPhrase(lx, pos, q, cs, n, None);
        }
      }
    }
  }

  lemma {:induction false} LoopsIgnoreDeadPhrase(lx: Lexicon, pos: Position, q: Phrase, cs: seq<Phrase>, n: nat, acc: Option<nat>)
    requires n > 0 && q.second in pos.words
    ensures BotLoop(lx, pos, cs, n, acc) == BotLoop(lx, WithUsed(pos, q), cs, n, acc)
    ensures PlayerLoop(lx, pos, cs, n, acc) == PlayerLoop(lx, WithUsed(pos, q), cs, n, acc)
    decreases n, 0, |cs|
  {
    if cs != [] {
      var p := cs[0];
      assert Play(WithUsed(pos, q), p) == WithUsed(Play(pos, p), q);
      SolveIgnoresDeadPhrase(lx, Play(pos, p), q, Player, n - 1);
      SolveIgnoresDeadPhrase(lx, Play(pos, p), q, Bot, n - 1);
      var o := Solve(lx, Play(pos, p), Player, n - 1);
      var d := PliesAfter(o.plies);
      LoopsIgnoreDeadPhrase(lx, pos, q, cs[1..], n, if o.canWin && (acc.None? || d < acc.value) then Some(d) else acc);
      var o' := Solve(lx, Play(pos, p), Bot, n - 1);
      var d' := PliesAfter(o'.plies);
      LoopsIgnoreDeadPhrase(lx, pos, q, cs[1..], n, if acc.None? || d' > acc.value then Some(d') else acc);
    }
  }

  /** The memo key (last_word, tuple(sorted(used_phrases)), turn). */
  datatype SolveKey = SolveKey(last: Word, used: set<Phrase>, turn: Side)

  /** The second words of a set of phrases. */
  function Seconds(s: set<Phrase>): set<Word>
  {
    set q | q in s :: q.second
  }

  lemma SecondsAdd(s: set<Phrase>, p: Phrase)
    ensures Seconds(s + {p}) == Seconds(s) + {p.second}
  {
    assert p in s + {p};
  }

  /**
   * One top-level forced-win search and the memo dictionary it threads
   * through its recursive calls. The ghost root records where the search
   * started; a key then determines its node (used words follow from used
   * phrases) and its remaining depth (one ply per added phrase), which is why
   * the memo may ignore max_depth.
   */
  class ForcedWinSolver {
    var memo: map<SolveKey, Verdict>
    ghost const rootUsed: set<Phrase>
    ghost const rootWords: set<Word>
    ghost const rootDepth: nat

    constructor (ghost used: set<Phrase>, ghost words: set<Word>, ghost depth: nat)
      ensures memo == map[]
      ensures rootUsed == used && rootWords == words && rootDepth == depth
    {
      memo := map[];
      rootUsed := used;
      rootWords := words;
      rootDepth := depth;
    }

    /** The search reaches pos with n plies left, having played the phrases pos.used - rootUsed. */
    ghost predicate AtNode(pos: Position, n: nat)
    {
      && rootUsed <= pos.used
      && pos.words == rootWords + Seconds(pos.used - rootUsed)
      && n + |pos.used - rootUsed| == rootDepth
    }

    ghost predicate Reached(k: SolveKey)
    {
      rootUsed <= k.used && |k.used - rootUsed| <= rootDepth
    }

    ghost function NodeOf(k: SolveKey): Position
    {
      Position(k.last, k.used, rootWords + Seconds(k.used - rootUsed))
    }

    ghost function DepthOf(k: SolveKey): nat
      requires Reached(k)
    {
      rootDepth - |k.used - rootUsed|
    }

    /** Every stored verdict is the exact verdict of the node its key stands for. */
    ghost predicate Valid(lx: Lexicon)
      reads this
    {
      forall k :: k in memo ==> Reached(k) && memo[k] == Solve(lx, NodeOf(k), k.turn, DepthOf(k))
    }

    lemma AtChild(lx: Lexicon, pos: Position, n: nat, p: Phrase)
      requires AtNode(pos, n) && n > 0
      requires IsLegal(lx, pos, p)
      ensures AtNode(Play(pos, p), n - 1)
    {
      var added := pos.used - rootUsed;
      assert Play(pos, p).used - rootUsed == added + {p};
      SecondsAdd(added, p);
    }

    /**
     * insane_search(last_word, used_phrases, history_words, turn, max_depth, memo).
     * Checks a memo hit first, then max_depth == 0, then a position without
     * moves; records the result under its key and returns the exact verdict.
     */
    method Search(lx: Lexicon, pos: Position, turn: Side, n: nat) returns (r: Verdict)
      requires Valid(lx) && AtNode(pos, n)
      modifies this
      decreases n, 2
      ensures Valid(lx)
      ensures r == Solve(lx, pos, turn, n)
      ensures SolveKey(pos.last, pos.used, turn) in memo && memo[SolveKey(pos.last, pos.used, turn)] == r
      ensures SolveKey(pos.last, pos.used, turn) in old(memo) ==> memo == old(memo)
      ensures old(memo).Keys <= memo.Keys
    {
      var key := SolveKey(pos.last, pos.used, turn);
      assert NodeOf(key) == pos;
      if key in memo {
        return memo[key];
      }
      if n == 0 {
        r := Verdict(false, None);
        memo := memo[key := r];
        return;
      }
      var nextPhrases := GetValidNextPhrases(lx, pos);
      if nextPhrases == [] {
        r := if turn == Bot then Verdict(false, None) else Verdict(true, Some(0));
        memo := memo[key := r];
        return;
      }
      CandidatesLegal(lx, pos);
      if turn == Bot {
        r := BotMoves(lx, pos, n, nextPhrases);
      } else {
        r := PlayerMoves(lx, pos, n, nextPhrases);
      }
      memo := memo[key := r];
    }

    /** The bot's loop of insane_search: keep the smallest depth of a winning reply. */
    method BotMoves(lx: Lexicon, pos: Position, n: nat, nextPhrases: seq<Phrase>) returns (r: Verdict)
      requires Valid(lx) && AtNode(pos, n) && n > 0
      requires forall q :: q in nextPhrases ==> IsLegal(lx, pos, q)
      modifies this
      decreases n, 1
      ensures Valid(lx)
      ensures r == BotLoop(lx, pos, nextPhrases, n, None)
      ensures old(memo).Keys <= memo.Keys
    {
      var bestDepth: Option<nat> := None;
      ghost var target := BotLoop(lx, pos, nextPhrases, n, None);
      var i := 0;
      while i < |nextPhrases|
        invariant 0 <= i <= |nextPhrases|
        invariant Valid(lx)
        invariant old(memo).Keys <= memo.Keys
        invariant BotLoop(lx, pos, nextPhrases[i..], n, bestDepth) == target
        decreases |nextPhrases| - i
      {
        var phrase := nextPhrases[i];
        ghost var before := bestDepth;
        var opp := SearchChild(lx, pos, n, phrase, Player);
        if opp.canWin {
          var depth := if opp.plies.Some? then opp.plies.value + 1 else 1;
          if bestDepth.None? || depth < bestDepth.value {
            bestDepth := Some(depth);
          }
        }
        BotLoopStep(lx, pos, nextPhrases[i..], n, before, opp, bestDepth);
        assert nextPhrases[i..][1..] == nextPhrases[i + 1..];
        i := i + 1;
      }
      assert nextPhrases[i..] == [];
      if bestDepth.Some? {
        r := Verdict(true, bestDepth);
      } else {
        r := Verdict(false, None);
      }
    }

    /** The player's loop of insane_search: give up at the first escape, else keep the largest depth. */
    method PlayerMoves(lx: Lexicon, pos: Position, n: nat, nextPhrases: seq<Phrase>) returns (r: Verdict)
      requires Valid(lx) && AtNode(pos, n) && n > 0
      requires forall q :: q in nextPhrases ==> IsLegal(lx, pos, q)
      modifies this
      decreases n, 1
      ensures Valid(lx)
      ensures r == PlayerLoop(lx, pos, nextPhrases, n, None)
      ensures old(memo).Keys <= memo.Keys
    {
      var worstDepth: Option<nat> := None;
      ghost var target := PlayerLoop(lx, pos, nextPhrases, n, None);
      var i := 0;
      while i < |nextPhrases|
        invariant 0 <= i <= |nextPhrases|
        invariant Valid(lx)
        invariant old(memo).Keys <= memo.Keys
        invariant PlayerLoop(lx, pos, nextPhrases[i..], n, worstDepth) == target
        decreases |nextPhrases| - i
      {
        var phrase := nextPhrases[i];
        ghost var before := worstDepth;
        var bot := SearchChild(lx, pos, n, phrase, Bot);
        if !bot.canWin {
          PlayerLoopStep(lx, pos, nextPhrases[i..], n, before, bot, worstDepth);
          return Verdict(false, None);
        }
        var depth := if bot.plies.Some? then bot.plies.value + 1 else 1;
        if worstDepth.None? || depth > worstDepth.value {
          worstDepth := Some(depth);
        }
        PlayerLoopStep(lx, pos, nextPhrases[i..], n, before, bot, worstDepth);
        assert nextPhrases[i..][1..] == nextPhrases[i + 1..];
        i := i + 1;
      }
      r := Verdict(true, worstDepth);
    }

    /** The search below one move of the loop, with the other side to move and one ply less. */
    method SearchChild(lx: Lexicon, pos: Position, n: nat, p: Phrase, side: Side) returns (v: Verdict)
      requires Valid(lx) && AtNode(pos, n) && n > 0
      requires IsLegal(lx, pos, p)
      modifies this
      decreases n, 0
      ensures Valid(lx)
      ensures v == Solve(lx, Play(pos, p), side, n - 1)
      ensures old(memo).Keys <= memo.Keys
    {
      AtChild(lx, pos, n, p);
      v := Search(lx, Play(pos, p), side, n - 1);
    }
  }
}
