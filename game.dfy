/*
 * The word-chain game: words, phrases, the lexicon the engine reads, search
 * positions, and the move generator (get_valid_next_phrases and the copies of
 * its rule inlined in the message handler and the hint command).
 */
module Game {

  type Word = string

  /** A two-word phrase "first second"; `second` becomes the new last word. */
  datatype Phrase = Phrase(first: Word, second: Word)

  /** The two sides of a search: the bot moves first from the root. */
  datatype Side = Bot | Player

  function Other(s: Side): (o: Side)
    ensures o != s
  {
    if s == Bot then Player else Bot
  }

  datatype Option<T> = None | Some(value: T)

  /**
   * The read-only view of the dictionary the engine searches over.
   *  - valid:      VALID_PHRASES
   *  - follow:     FIRST_WORDS; each set is given in its fixed iteration order
   *  - trap:       WORD_TRAP_SCORES, the out-degrees precomputed at load time
   *  - wordFreq:   the external word-frequency lookup (uninterpreted)
   *  - phraseFreq: the phrase-frequency lookup backed by the database (uninterpreted)
   */
  datatype Lexicon = Lexicon(
    valid: set<Phrase>,
    follow: map<Word, seq<Word>>,
    trap: map<Word, nat>,
    wordFreq: Word -> real,
    phraseFreq: Phrase -> real)

  predicate NoDup<T(==)>(s: seq<T>)
  {
    forall i, j :: 0 <= i < j < |s| ==> s[i] != s[j]
  }

  /** FIRST_WORDS holds sets, so no follower is listed twice. */
  predicate ValidLexicon(lx: Lexicon)
  {
    forall w :: w in lx.follow ==> NoDup(lx.follow[w])
  }

  /** A search position: the last word, the used phrases, the used words. */
  datatype Position = Position(last: Word, used: set<Phrase>, words: set<Word>)

  /** The position after playing `p`. */
  function Play(pos: Position, p: Phrase): (next: Position)
    ensures next.last == p.second && p in next.used && next.last in next.words
    ensures pos.used <= next.used && pos.words <= next.words
  {
    Position(p.second, pos.used + {p}, pos.words + {p.second})
  }

  /** The five conditions of the legality rule, stated on one phrase. */
  predicate IsLegal(lx: Lexicon, pos: Position, p: Phrase)
  {
    && p.first == pos.last
    && pos.last in lx.follow
    && p.second in lx.follow[pos.last]
    && p in lx.valid
    && p !in pos.used
    && p.second !in pos.words
    && p.second != pos.last
  }

  /** Whether follower `w` of the last word passes the loop's test. */
  predicate Admits(lx: Lexicon, pos: Position, w: Word)
  {
    var p := Phrase(pos.last, w);
    p in lx.valid && p !in pos.used && w !in pos.words && pos.last != w
  }

  /** The loop of get_valid_next_phrases over a prefix of the followers. */
  function Filter(lx: Lexicon, pos: Position, ws: seq<Word>): seq<Phrase>
  {
    if ws == [] then []
    else
      Filter(lx, pos, ws[..|ws| - 1])
        + (if Admits(lx, pos, ws[|ws| - 1]) then [Phrase(pos.last, ws[|ws| - 1])] else [])
  }

  /** The candidate list get_valid_next_phrases returns; [] for an unknown word. */
  function Candidates(lx: Lexicon, pos: Position): seq<Phrase>
  {
    if pos.last in lx.follow then Filter(lx, pos, lx.follow[pos.last]) else []
  }

  lemma {:induction false} FilterMembers(lx: Lexicon, pos: Position, ws: seq<Word>, p: Phrase)
    ensures p in Filter(lx, pos, ws) <==> p.first == pos.last && p.second in ws && Admits(lx, pos, p.second)
  {
    if ws != [] {
      var init := ws[..|ws| - 1];
      FilterMembers(lx, pos, init, p);
      assert ws == init + [ws[|ws| - 1]];
    }
  }

  lemma {:induction false} FilterNoDup(lx: Lexicon, pos: Position, ws: seq<Word>)
    requires NoDup(ws)
    ensures NoDup(Filter(lx, pos, ws))
  {
    if ws != [] {
      var init := ws[..|ws| - 1];
      var w := ws[|ws| - 1];
      FilterNoDup(lx, pos, init);
      FilterMembers(lx, pos, init, Phrase(pos.last, w));
      assert w !in init;
    }
  }

  /** A phrase is a candidate exactly when it meets all five conditions. */
  lemma CandidatesExact(lx: Lexicon, pos: Position, p: Phrase)
    ensures p in Candidates(lx, pos) <==> IsLegal(lx, pos, p)
  {
    if pos.last in lx.follow {
      FilterMembers(lx, pos, lx.follow[pos.last], p);
    }
  }

  /** Every candidate is legal, so playing it keeps the last word among the used words. */
  lemma CandidatesLegal(lx: Lexicon, pos: Position)
    ensures forall p :: p in Candidates(lx, pos) ==> IsLegal(lx, pos, p)
  {
    forall p | p in Candidates(lx, pos) ensures IsLegal(lx, pos, p) {
      CandidatesExact(lx, pos, p);
    }
  }

  /** No phrase is proposed twice. */
  lemma CandidatesNoDup(lx: Lexicon, pos: Position)
    requires ValidLexicon(lx)
    ensures NoDup(Candidates(lx, pos))
  {
    if pos.last in lx.follow {
      FilterNoDup(lx, pos, lx.follow[pos.last]);
    }
  }

  /** get_valid_next_phrases: append each admitted follower's phrase to a list. */
  method GetValidNextPhrases(lx: Lexicon, pos: Position) returns (cands: seq<Phrase>)
    ensures forall p :: p in cands <==> IsLegal(lx, pos, p)
    ensures ValidLexicon(lx) ==> NoDup(cands)
    ensures cands == Candidates(lx, pos)
  {
    cands := [];
    if pos.last in lx.follow {
      var ws := lx.follow[pos.last];
      for i := 0 to |ws|
        invariant cands == Filter(lx, pos, ws[..i])
      {
        var w := ws[i];
        var potential := Phrase(pos.last, w);
        if potential in lx.valid && potential !in pos.used && w !in pos.words && pos.last != w {
          cands := cands + [potential];
        }
        assert ws[..i + 1][..i] == ws[..i];
      }
      assert ws[..|ws|] == ws;
    }
    forall p ensures p in cands <==> IsLegal(lx, pos, p) {
      CandidatesExact(lx, pos, p);
    }
    if ValidLexicon(lx) {
      CandidatesNoDup(lx, pos);
    }
  }

  /**
   * The message handler computes the next moves from the history as it was
   * BEFORE the accepted phrase (prev, w) was appended. Because the rule also
   * excludes w itself, this agrees with the generator on the updated history.
   */
  lemma {:induction false} InlinedRuleAgrees(lx: Lexicon, prev: Word, w: Word, used: set<Phrase>, words: set<Word>, ws: seq<Word>)
    ensures Filter(lx, Position(w, used, words), ws)
         == Filter(lx, Position(w, used + {Phrase(prev, w)}, words + {w}), ws)
  {
    if ws != [] {
      InlinedRuleAgrees(lx, prev, w, used, words, ws[..|ws| - 1]);
    }
  }

  lemma InlinedRuleIsGenerator(lx: Lexicon, prev: Word, w: Word, used: set<Phrase>, words: set<Word>)
    ensures Candidates(lx, Position(w, used, words))
         == Candidates(lx, Play(Position(prev, used, words), Phrase(prev, w)))
  {
    if w in lx.follow {
      InlinedRuleAgrees(lx, prev, w, used, words, lx.follow[w]);
    }
  }

  /**
   * The phrases of a history list: one per adjacent pair of words
   * (" ".join(history[i:i+2]) for each i).
   */
  function HistoryPhrases(h: seq<Word>): set<Phrase>
  {
    set i | 0 <= i < |h| - 1 :: PairAt(h, i)
  }

  function PairAt(h: seq<Word>, i: nat): Phrase
    requires i < |h| - 1
  {
    Phrase(h[i], h[i + 1])
  }

  /** Appending a word adds exactly the phrase it completes. */
  lemma HistoryPhrasesAppend(h: seq<Word>, w: Word)
    requires h != []
    ensures HistoryPhrases(h + [w]) == HistoryPhrases(h) + {Phrase(h[|h| - 1], w)}
  {
    var h' := h + [w];
    forall p | p in HistoryPhrases(h') ensures p in HistoryPhrases(h) + {Phrase(h[|h| - 1], w)} {
      var i :| 0 <= i < |h'| - 1 && p == PairAt(h', i);
      if i < |h| - 1 {
        assert p == PairAt(h, i);
      }
    }
    forall p | p in HistoryPhrases(h) + {Phrase(h[|h| - 1], w)} ensures p in HistoryPhrases(h') {
      if p in HistoryPhrases(h) {
        var i :| 0 <= i < |h| - 1 && p == PairAt(h, i);
        assert p == PairAt(h', i);
      } else {
        assert p == PairAt(h', |h| - 1);
      }
    }
  }

  /**
   * The used-phrase set derived from a history only names words of that
   * history, and each phrase's second word is in it, as the search assumes.
   */
  lemma {:induction false} HistoryPhrasesWords(h: seq<Word>)
    ensures forall p :: p in HistoryPhrases(h) ==> p.first in h && p.second in h
    ensures |HistoryPhrases(h)| <= if h == [] then 0 else |h| - 1
  {
    if |h| <= 1 {
      assert HistoryPhrases(h) == {};
    } else {
      var init := h[..|h| - 1];
      HistoryPhrasesWords(init);
      HistoryPhrasesAppend(init, h[|h| - 1]);
      assert init + [h[|h| - 1]] == h;
    }
  }

  /** The hint command proposes the first candidate, if any. */
  function Hint(lx: Lexicon, pos: Position): (r: Option<Phrase>)
    ensures r.None? <==> Candidates(lx, pos) == []
    ensures r.Some? ==> IsLegal(lx, pos, r.value)
  {
    var cs := Candidates(lx, pos);
    if cs == [] then None
    else
      CandidatesExact(lx, pos, cs[0]);
      Some(cs[0])
  }

  /**
   * The search position of a game state: its last word, the phrases of its
   * history and the set of its words (as the message handler passes them).
   */
  function StatePosition(last: Word, history: seq<Word>): (pos: Position)
    ensures pos.used == HistoryPhrases(history)
    ensures forall w :: w in pos.words <==> w in history
  {
    Position(last, HistoryPhrases(history), set w | w in history)
  }
}
