/*
 * Start-phrase selection: the has-continuation filter, the forced-win
 * rejection of select_balanced_start_phrase, and the random retries of both
 * selectors. Shuffles and random choices are nondeterministic choices, and
 * the time budget is a nondeterministic stop.
 */
module Start {
  import opened Game
  import opened ForcedWin

  /** any(f"{w2} {x}" in VALID_PHRASES and x != w1 for x in xs), scanned left to right. */
  function AnyContinuation(lx: Lexicon, w1: Word, w2: Word, xs: seq<Word>): bool
  {
    xs != [] && ((Phrase(w2, xs[0]) in lx.valid && xs[0] != w1) || AnyContinuation(lx, w1, w2, xs[1..]))
  }

  /** The has_continuation test on a start phrase "w1 w2", over FIRST_WORDS.get(w2, set()). */
  function HasContinuation(lx: Lexicon, p: Phrase): bool
  {
    p.second in lx.follow && AnyContinuation(lx, p.first, p.second, lx.follow[p.second])
  }

  lemma {:induction false} AnyContinuationExists(lx: Lexicon, w1: Word, w2: Word, xs: seq<Word>)
    ensures AnyContinuation(lx, w1, w2, xs) <==> exists x :: x in xs && Phrase(w2, x) in lx.valid && x != w1
  {
    if xs != [] {
      AnyContinuationExists(lx, w1, w2, xs[1..]);
      assert forall x :: x in xs <==> x == xs[0] || x in xs[1..];
    }
  }

  /** A start passes the filter exactly when some follower x of w2 other than w1 makes "w2 x" a phrase. */
  lemma HasContinuationMeans(lx: Lexicon, p: Phrase)
    ensures HasContinuation(lx, p) <==>
      p.second in lx.follow && exists x :: x in lx.follow[p.second] && Phrase(p.second, x) in lx.valid && x != p.first
  {
    if p.second in lx.follow {
      AnyContinuationExists(lx, p.first, p.second, lx.follow[p.second]);
    }
  }

  /**
   * The filter does not exclude x == w2: a start "a b" whose only follower
   * phrase is "b b" passes, yet the game after it has no legal move, since
   * the next word may not repeat a used word.
   */
  lemma DeadEndStartPasses()
    ensures var lx := Lexicon({Phrase("a", "b"), Phrase("b", "b")}, map["a" := ["b"], "b" := ["b"]], map[],
                              w => 0.0, p => 0.0);
      var start := Phrase("a", "b");
      && start in lx.valid
      && HasContinuation(lx, start)
      && Candidates(lx, Play(Position("a", {}, {"a"}), start)) == []
  {
    var lx := Lexicon({Phrase("a", "b"), Phrase("b", "b")}, map["a" := ["b"], "b" := ["b"]], map[],
                      w => 0.0, p => 0.0);
    var after := Play(Position("a", {}, {"a"}), Phrase("a", "b"));
    assert !Admits(lx, after, "b");
    assert ["b"][..0] == [];
  }

  /**
   * The position after the start phrase "w1 w2": w2 to answer, both words
   * used and the start phrase used.
   */
  function AfterStart(p: Phrase): Position
  {
    Position(p.second, {p}, {p.first, p.second})
  }

  /** The side the search calls 'bot' can force a win within n plies after the start phrase. */
  ghost predicate QuickWin(lx: Lexicon, p: Phrase, n: nat)
  {
    Forces(lx, AfterStart(p), Bot, n)
  }

  /**
   * player_has_quick_win(w2, w1): insane_search from w2 with the words {w1, w2}
   * and a fresh memo. The source's used set frozenset(f"{w1} {w2}") holds the
   * characters of the phrase, which no phrase equals, so the search runs with
   * no phrase used; because w2 is already a used word the start phrase could
   * never be played again anyway, and the answer is the intended one.
   */
  method PlayerHasQuickWin(lx: Lexicon, p: Phrase, lookahead: nat) returns (canWin: bool)
    ensures canWin <==> QuickWin(lx, p, lookahead)
  {
    var pos := Position(p.second, {}, {p.first, p.second});
    var solver := new ForcedWinSolver({}, pos.words, lookahead);
    assert Seconds({}) == {};
    var v := solver.Search(lx, pos, Bot, lookahead);
    canWin := v.canWin;
    DefectiveSearchAgrees(lx, p, lookahead);
  }

  /** Searching with no phrase used gives the verdict of the position after the start phrase. */
  lemma DefectiveSearchAgrees(lx: Lexicon, p: Phrase, n: nat)
    ensures Solve(lx, Position(p.second, {}, {p.first, p.second}), Bot, n).canWin <==> QuickWin(lx, p, n)
  {
    var pos := Position(p.second, {}, {p.first, p.second});
    SolveIgnoresDeadPhrase(lx, pos, p, Bot, n);
    assert WithUsed(pos, p) == AfterStart(p);
    SolveCorrect(lx, AfterStart(p), Bot, n);
  }

  /** The two tests of the sampling loop: a continuation exists and the player has no quick win. */
  method IsBalancedStart(lx: Lexicon, p: Phrase, lookahead: nat) returns (ok: bool)
    ensures ok <==> HasContinuation(lx, p) && !QuickWin(lx, p, lookahead)
  {
    if !HasContinuation(lx, p) {
      return false;
    }
    var quick := PlayerHasQuickWin(lx, p, lookahead);
    ok := !quick;
  }

  /** list(VALID_PHRASES), or that list shuffled: every phrase once, in an order the model leaves open. */
  method ListOf(s: set<Phrase>) returns (xs: seq<Phrase>)
    ensures NoDup(xs) && |xs| == |s|
    ensures forall p :: p in xs <==> p in s
  {
    xs := [];
    var rest := s;
    while rest != {}
      invariant rest <= s
      invariant forall p :: p in xs <==> p in s && p !in rest
      invariant NoDup(xs) && |xs| + |rest| == |s|
      decreases |rest|
    {
      var p :| p in rest;
      xs := xs + [p];
      rest := rest - {p};
    }
  }

  /** How a start selection ends: with a phrase or None, or with the IndexError of random.choice([]). */
  datatype Outcome = Returned(phrase: Option<Phrase>) | RaisedIndexError

  /**
   * The retry loop both selectors end with: up to 100 random phrases,
   * returning the first that has a continuation. `tried` lists the rejected
   * draws.
   */
  method RetryRandom(lx: Lexicon) returns (r: Outcome, ghost tried: seq<Phrase>)
    ensures r == RaisedIndexError <==> lx.valid == {}
    ensures r.Returned? && r.phrase.Some? ==> r.phrase.value in lx.valid && HasContinuation(lx, r.phrase.value)
    ensures r == Returned(None) ==> |tried| == 100 && forall t :: t in tried ==> t in lx.valid && !HasContinuation(lx, t)
  {
    tried := [];
    var attempts := 0;
    while attempts < 100
      invariant attempts == |tried| <= 100
      invariant attempts > 0 ==> lx.valid != {}
      invariant forall t :: t in tried ==> t in lx.valid && !HasContinuation(lx, t)
    {
      var phrases := ListOf(lx.valid);
      if phrases == [] {
        return RaisedIndexError, tried;
      }
      assert phrases[0] in phrases;
      var phrase :| phrase in phrases;
      if HasContinuation(lx, phrase) {
        return Returned(Some(phrase)), tried;
      }
      tried := tried + [phrase];
      attempts := attempts + 1;
    }
    r := Returned(None);
  }

  /**
   * select_balanced_start_phrase(max_samples, forced_win_lookahead): examine
   * shuffled phrases until one has a continuation and no quick win, within
   * max_samples phrases and the time budget; otherwise fall back to the
   * random retries. `examined` is the prefix of the shuffled list it looked
   * at, and `fromSample` says the phrase came from that pass.
   */
  method SelectBalancedStartPhrase(lx: Lexicon, maxSamples: int, lookahead: nat)
    returns (r: Outcome, ghost examined: seq<Phrase>, ghost fromSample: bool)
    ensures r == RaisedIndexError <==> lx.valid == {}
    ensures r.Returned? && r.phrase.Some? ==> r.phrase.value in lx.valid && HasContinuation(lx, r.phrase.value)
    ensures NoDup(examined) && |examined| <= if maxSamples < 0 then 0 else maxSamples
    ensures forall p :: p in examined ==> p in lx.valid
    ensures fromSample ==> r.Returned? && r.phrase.Some? && !QuickWin(lx, r.phrase.value, lookahead)
    ensures !fromSample ==> forall p :: p in examined ==> !HasContinuation(lx, p) || QuickWin(lx, p, lookahead)
  {
    var allPhrases := ListOf(lx.valid);
    var candidates: seq<Phrase> := [];
    var checked := 0;
    while checked < maxSamples && checked < |allPhrases|
      invariant 0 <= checked <= |allPhrases|
      invariant checked <= if maxSamples < 0 then 0 else maxSamples
      invariant forall p :: p in candidates ==> p in lx.valid && HasContinuation(lx, p) && !QuickWin(lx, p, lookahead)
      invariant candidates == [] ==>
        forall p :: p in allPhrases[..checked] ==> !HasContinuation(lx, p) || QuickWin(lx, p, lookahead)
    {
      var outOfTime: bool :| true;
      if outOfTime {
        break;
      }
      var phrase := allPhrases[checked];
      checked := checked + 1;
      assert allPhrases[..checked] == allPhrases[..checked - 1] + [phrase];
      var balanced := IsBalancedStart(lx, phrase, lookahead);
      if balanced {
        candidates := candidates + [phrase];
        break;
      }
    }
    examined := allPhrases[..checked];
    assert forall i, j :: 0 <= i < j < |examined| ==> examined[i] == allPhrases[i] && examined[j] == allPhrases[j];
    if candidates != [] {
      assert candidates[0] in candidates;
      var choice :| choice in candidates;
      return Returned(Some(choice)), examined, true;
    }
    fromSample := false;
    if lx.valid != {} {
      assert allPhrases[0] in lx.valid;
    }
    ghost var tried;
    r, tried := RetryRandom(lx);
  }

  /**
   * select_start_phrase(safety_filter=...): the balanced selection, with its
   * guarantees about the examined phrases, or without the filter only the
   * random retries; None then means 100 draws without a continuation.
   */
  method SelectStartPhrase(lx: Lexicon, safetyFilter: bool, maxSamples: int, lookahead: nat)
    returns (r: Outcome, ghost tried: seq<Phrase>, ghost examined: seq<Phrase>, ghost fromSample: bool)
    ensures r == RaisedIndexError <==> lx.valid == {}
    ensures r.Returned? && r.phrase.Some? ==> r.phrase.value in lx.valid && HasContinuation(lx, r.phrase.value)
    ensures !safetyFilter && r == Returned(None) ==>
      |tried| == 100 && forall t :: t in tried ==> t in lx.valid && !HasContinuation(lx, t)
    ensures !safetyFilter && lx.valid != {} && (forall p :: p in lx.valid ==> HasContinuation(lx, p)) ==>
      r.Returned? && r.phrase.Some?
    ensures safetyFilter ==> NoDup(examined) && |examined| <= if maxSamples < 0 then 0 else maxSamples
    ensures safetyFilter ==> forall p :: p in examined ==> p in lx.valid
    ensures safetyFilter && fromSample ==> r.Returned? && r.phrase.Some? && !QuickWin(lx, r.phrase.value, lookahead)
    ensures safetyFilter && !fromSample ==>
      forall p :: p in examined ==> !HasContinuation(lx, p) || QuickWin(lx, p, lookahead)
  {
    if safetyFilter {
      r, examined, fromSample := SelectBalancedStartPhrase(lx, maxSamples, lookahead);
      tried := [];
      return;
    }
    examined, fromSample := [], false;
    r, tried := RetryRandom(lx);
    if r == Returned(None) {
      assert tried[0] in tried;
    }
  }
}
