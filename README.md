# Nối Từ word-chain engine — a Dafny model

This project models the game engine of the Vietnamese word-chain bot Nối Từ
(`main.py`). Players take turns naming a two-word phrase whose first word is the
previous phrase's last word. No phrase and no word may be used twice. A player
with no legal phrase loses.

The model covers these parts of the engine:

- the move generator, `get_valid_next_phrases`, and the copies of its rule
  inside the message handler and the hint command;
- the Zobrist position key;
- the depth-bounded fail-soft alpha-beta `negamax` with its transposition memo
  and its horizon evaluator;
- the exact forced-win solver `insane_search`;
- the move selectors `choose_strategic_move`, `choose_insane_move` and
  `choose_bot_phrase`;
- the start-phrase filter;
- the Roman numerals of the season numbers (`to_roman`), the streak and
  tournament bonuses, and the hint masks of `difficulize`.

How the program is represented:

- **Words and phrases.** A phrase `"w1 w2"` is the pair `Phrase(w1, w2)`.
- **The corpus.** The corpus (`VALID_PHRASES`, `FIRST_WORDS`,
  `WORD_TRAP_SCORES`) and the frequency functions from `wordfreq` form one
  `Lexicon` value. The frequency functions are uninterpreted function-valued
  fields.
- **Iteration order.** Each set in `FIRST_WORDS` is a duplicate-free
  sequence, the order in which Python iterates it.
- **Search positions.** A position is the last word, the set of used phrases
  and the set of used words.
- **Mutable state.** Code that changes memory in place is modelled with
  Dafny classes:
  - `Negamax.TranspositionTable` holds the negamax memo;
  - `ForcedWin.ForcedWinSolver` holds the `insane_search` memo;
  - `Zobrist.ZobristTables` holds the Zobrist tables.

  Methods with loops and invariants model the source's loops. Each method is
  proved against a function that says what it computes.
- **Time checks and random choices.** Time checks are nondeterministic
  booleans. `random.choice` and `random.shuffle` are nondeterministic choices.

Main results:

- The generator returns exactly the legal phrases, each once.
- With the root window used by `choose_strategic_move`, alpha-beta returns the
  unpruned negamax value. The proof goes through the fail-soft bound.
- The memoised `negamax` returns that value within one top-level call, because
  no stored key can be met again below the position being searched.
- `insane_search` decides exactly whether the bot can force a win. The depth
  it reports is the length of the shortest forced win.
- Every move `choose_insane_move` returns is a fastest winning move. When the
  bot can win with its next move, that move is always found. When no time
  check stops the search, a forced win within `max_depth` plies is found.
- `to_roman` round-trips through the usual numeral reading.
- The Zobrist key does not depend on the order in which the used-phrase set
  is iterated.

Behaviours of the code worth knowing:

- Start selection with an empty corpus raises `IndexError` from
  `random.choice(list(VALID_PHRASES))` (main.py:430;
  `Start.Outcome.RaisedIndexError`).
- The fallback loop of start selection gives up after 100 random draws
  (main.py:426-440). It can return `None` even when some phrase has a
  continuation.
- The move rule checks that the phrase itself is in `VALID_PHRASES`
  (main.py:871), besides the first word, the used phrases and the used words.

Behaviours of the code that the model keeps as written:

- **Negamax memo.** The memo stores pruned bounds as if they were exact.
  `Negamax.TranspositionTable.Negamax` shows this cannot change a result
  within one top-level call.
- **Evaluator range.** The `/100` in `evaluate_heuristic` does not keep the
  estimate inside [-1, 1]. `Scores.EvaluateLeavesUnitRange` states exactly
  when it leaves that range.
- **Start-phrase used set.** The forced-win check uses the characters of the
  start phrase as its used-phrase set, so in effect no phrase is used.
  `Start.DefectiveSearchAgrees` proves that the answer is still the one for
  the intended position.
- **Dead-end starts.** The has-continuation test accepts a start whose only
  continuation repeats the last word. The game after such a start has no
  legal move (`Start.DeadEndStartPasses`).

`choose_insane_move` is defined in the source but nothing calls it. The
insane difficulties of `choose_bot_phrase` use iterative deepening over
`choose_strategic_move`.

## Model

| member | source | states |
|---|---|---|
| Game.GetValidNextPhrases | main.py:866-877 | a phrase is returned exactly when it passes all five conditions of the rule; no phrase is returned twice; an unknown last word gives [] |
| Game.CandidatesExact | main.py:868-876 | membership in the candidate list is equivalent to the five-condition legality predicate |
| Game.CandidatesNoDup | main.py:868-876 | the generator never lists a phrase twice, because FIRST_WORDS holds sets |
| Game.InlinedRuleAgrees | main.py:699-707 | the handler's rule, evaluated on the history before the accepted phrase, keeps the same followers as the generator on the updated history |
| Game.InlinedRuleIsGenerator | main.py:699-707 | the next-move list of the message handler equals the generator's list after the accepted phrase |
| Game.HistoryPhrasesAppend | main.py:659 | appending a word to the history adds exactly the one phrase it completes to the used-phrase set |
| Game.HistoryPhrasesWords | main.py:1014 | phrases derived from a history use only its words, and there are fewer of them than words |
| Game.Hint | main.py:2166-2176 | the hint is None exactly when no legal phrase exists; otherwise it is a legal phrase |
| Scores.Max | main.py:952 | max is an upper bound of both arguments and equals one of them |
| Scores.NegReverses | main.py:947 | negation is an involution and reverses both orders, which the window swap (-beta, -alpha) relies on |
| Scores.EvaluateLeavesUnitRange | main.py:879-903 | `Scores.Evaluate`, the definition of evaluate_heuristic over exact reals: its normalised estimate is below -1, or above 1, exactly when the weighted terms differ by more than 100 |
| Negamax.BestChildIsMax | main.py:938-958 | the unpruned value is an upper bound of every child's negated value and is attained by one; it is -inf with no child |
| Negamax.BestChildOrderFree | main.py:935 | reordering the candidates (the sort by reply count) does not change the unpruned value |
| Negamax.MinimaxTerminal | main.py:913-917 | a position with no legal move is worth -1 at every depth |
| Negamax.AlphaBetaFailSoft | main.py:925-958 | `Negamax.AlphaBeta`, the definition of negamax without its memo, is fail-soft: inside the window the pruned value equals the unpruned one; at or below alpha it is an upper bound; at or above beta it is a lower bound |
| Negamax.ABLoopFailSoft | main.py:938-954 | `Negamax.ABLoop`, the definition of the candidate loop with its running best, alpha update and cutoff, keeps the fail-soft bound against the maximum over the remaining children |
| Negamax.CutStep | main.py:950-954 | a child whose value reaches beta ends the loop with a value meeting the fail-soft bound |
| Negamax.ContinueStep | main.py:950-952 | a child below beta keeps the loop invariant after the best and alpha updates |
| Negamax.AlphaBetaIsMinimax | main.py:1110 | with the root window (-inf, +inf) alpha-beta returns the unpruned negamax value |
| Negamax.ChildKeyBelow | main.py:942-947 | any position reached below a legal move is also reached below its parent |
| Negamax.SiblingSubtrees | main.py:938-947 | positions below one legal move never contain a sibling move, so a sibling's memo entries cannot be hit there |
| Negamax.TranspositionTable.Negamax | main.py:905-958 | a stored entry at enough depth is returned with the memo unchanged; otherwise no move gives -1, depth 0 gives the evaluator, and a searched node stores (value, depth); with no stale keys below the position the result equals memo-free alpha-beta |
| Negamax.TranspositionTable.SearchMoves | main.py:938-957 | the loop over the ordered candidates returns the alpha-beta loop value and adds keys only below the position |
| Negamax.TranspositionTable.SearchChild | main.py:939-954 | one child search adds keys only below that child and advances the alpha-beta loop by one step |
| ForcedWin.BotLoopStep | main.py:979-987 | one turn of the bot loop updates the running minimum with the child's depth plus one |
| ForcedWin.PlayerLoopStep | main.py:995-1006 | one turn of the player loop either escapes with (False, None) or updates the running maximum |
| ForcedWin.ForcesMonotone | main.py:960-1008 | a win forced within n plies is forced within any larger budget |
| ForcedWin.BotLoopCorrect | main.py:977-992 | `ForcedWin.BotLoop`, the definition of the bot loop, wins exactly when some child is a forced player loss, with the smallest such depth plus one |
| ForcedWin.PlayerLoopCorrect | main.py:993-1008 | `ForcedWin.PlayerLoop`, the definition of the player loop, escapes exactly when some child is not a forced bot win; otherwise it takes the largest depth plus one |
| ForcedWin.SolveCorrect | main.py:960-1008 | `ForcedWin.Solve`, the definition of insane_search without its memo: the verdict is True exactly when the bot can force a win within the budget, with depth the shortest such win below the budget; False always comes with None; depth 0 is (False, None) even at a terminal node |
| ForcedWin.BotExactLength | main.py:985-990 | at a bot node the minimum over winning children plus one is the shortest forced win |
| ForcedWin.BotNoShorter | main.py:984-987 | no move from a bot node reaches a win shorter than the recorded minimum |
| ForcedWin.PlayerExactLength | main.py:1004-1008 | at a player node the maximum over children plus one is the shortest forced win |
| ForcedWin.PlayerChildWithin | main.py:1004-1006 | a bot win after a player move of reported depth at most d is forced within d |
| ForcedWin.PlayerChildExact | main.py:1004 | the bot win after a player move is not forced one ply sooner than reported |
| ForcedWin.SolveIgnoresDeadPhrase | main.py:393 | marking used a phrase whose second word is already used does not change the solver's verdict |
| ForcedWin.ForcedWinSolver.Search | main.py:960-1008 | insane_search with its memo returns the memo-free verdict; it stores that verdict under the position key; a memo hit leaves the memo unchanged; every entry stays exact |
| ForcedWin.ForcedWinSolver.BotMoves | main.py:977-992 | the bot loop over the candidates computes the bot-loop verdict and keeps every memo entry exact |
| ForcedWin.ForcedWinSolver.PlayerMoves | main.py:993-1008 | the player loop returns at the first escape or with the largest depth, as the player-loop verdict says |
| ForcedWin.ForcedWinSolver.SearchChild | main.py:983 | the recursive call below a move returns the verdict of the child position with one ply less |
| Ordering.SortByProps | main.py:935 | the sort by reply count returns a permutation of its input, ordered by the key |
| Ordering.SortByStable | main.py:935 | the sort is stable, as list.sort is: the candidates with equal reply counts keep their input order |
| Ordering.WithoutMembers | main.py:1091 | the comprehension keeps exactly the candidates different from the PV move |
| Ordering.ExaminationOrderProps | main.py:1087-1103 | the examined list is a permutation of the candidates, has the PV move first when it is a candidate, and is sorted by reply count after that |
| Ordering.ExaminationOrderMembers | main.py:1087-1103 | the examined list holds exactly the candidates |
| Selection.ChooseStrategicMove | main.py:1079-1118 | None exactly for no candidates; otherwise a candidate whose score is maximal among all candidates |
| Selection.ScoreMoves | main.py:1105-1116 | the kept moves are the examined candidates whose score equals the best score, and every score is at most the best |
| Selection.ScoreMove | main.py:1110 | one root child is scored with the full-window negamax value, and the memo keeps no key below the candidates still to come |
| Selection.ReplyWinIsShortest | main.py:1030-1032 | a player-turn subsearch reporting a win of depth d means playing the move wins in exactly d + 1 plies, within the budget |
| Selection.ReplyOf | main.py:1061 | the player-turn subsearch returns the solver verdict after the move, and any win it reports is a shortest win |
| Selection.ScanInvStep | main.py:1062-1066 | the strict-less update keeps the best move a fastest win among the moves examined so far |
| Selection.ScanMove | main.py:1057-1066 | one candidate examined: the best win depth never increases and the best move stays a fastest win among those examined |
| Selection.ScanForWin | main.py:1026-1035 | the candidate scan returns a fastest winning move with its depth, or None exactly when no move leads to a forced win; the depth never exceeds the previous best |
| Selection.WinningReplyExists | main.py:1020-1023 | when the bot can force a win, some legal move leaves the player in a forced loss |
| Selection.ShallowSearch | main.py:1019-1037 | a returned move is a fastest win shorter than the shallow depth, and one is returned whenever a win within that depth exists |
| Selection.ShallowPass | main.py:1018-1039 | a quick-win move is a fastest winning move, and a win in one is always found; it returns None early only when a time check stops it, and falls through only when no win within 4 plies exists |
| Selection.DeepeningPass | main.py:1041-1069 | any move returned by the deepening loop is a fastest winning move; unless a time check stops it, a forced win within max_depth plies is found |
| Selection.DeepenOnce | main.py:1047-1066 | one depth keeps a fastest win whose depth is at most the best so far, and holds a move whenever the bot can force a win within that depth |
| Selection.ChooseInsaneMove | main.py:1010-1069 | a returned move is a legal move with a forced win that no other move beats; when the bot can win with its next move, that move is returned; when no time check stops the search, a forced win within max_depth plies is always found |
| Selection.FirstMaxIndex | main.py:1127-1131 | the index of the first maximal element, which is what the stable sort followed by candidates[0] picks |
| Selection.ChooseBotPhrase | main.py:1120-1186 | None exactly when no legal phrase exists; otherwise a legal phrase; "easy" plays a most frequent phrase, "hard" a least frequent one; a single candidate is always played |
| Start.AnyContinuationExists | main.py:409-412 | the any() scan over the followers is true exactly when some follower other than w1 forms a valid phrase |
| Start.HasContinuationMeans | main.py:409-413 | `Start.HasContinuation`, the definition of the any() test: a start passes it exactly when w2 has a follower x other than w1 with "w2 x" valid |
| Start.DeadEndStartPasses | main.py:409-413 | the filter accepts a start whose only continuation repeats w2, although no legal move follows it |
| Start.DefectiveSearchAgrees | main.py:393 | searching with no phrase used gives the verdict for the position after the start phrase |
| Start.PlayerHasQuickWin | main.py:391-403 | the check answers exactly whether the side to move after the start phrase can force a win within the lookahead |
| Start.IsBalancedStart | main.py:409-417 | a sampled phrase is accepted exactly when it has a continuation and no quick win |
| Start.ListOf | main.py:387-388 | the list of the corpus holds every phrase once |
| Start.RetryRandom | main.py:426-440 | IndexError exactly for an empty corpus; a returned phrase is valid and has a continuation; None only after 100 draws that all lacked one |
| Start.SelectBalancedStartPhrase | main.py:384-440 | IndexError exactly for an empty corpus; a returned phrase is valid with a continuation; a phrase from the sampling pass has no quick win; falling back means every examined phrase was rejected; at most max_samples distinct phrases are examined |
| Start.SelectStartPhrase | main.py:442-467 | IndexError exactly for an empty corpus and a returned phrase has a continuation; with the filter, the examined phrases are distinct corpus phrases, at most max_samples of them, a sampled phrase has no quick win, and a fallback comes only after every examined phrase was rejected; without it, None only after 100 failed draws, and never when every phrase has a continuation |
| Rewards.ToRoman | main.py:525-536 | the loops produce the greedy numeral of n over the 13-entry table |
| Rewards.TableShape | main.py:526-530 | each table entry is one character, or a subtractive pair whose value is the difference of its two characters |
| Rewards.DecodeEntry | main.py:532-535 | an entry's numeral followed by text starting no higher reads back as the entry's value plus the rest |
| Rewards.DecodeRomanFrom | main.py:531-536 | the greedy numeral of every non-negative remainder reads back as that remainder |
| Rewards.RomanRoundTrip | main.py:525-536 | to_roman(n) reads back as n for n ≥ 0 and is the empty string for n ≤ 0 |
| Rewards.RomanInjective | main.py:525-536 | distinct non-negative numbers get distinct numerals |
| Rewards.StreakBonus | main.py:817-820 | the bonus for a won round is 1 + streak // 5 |
| Rewards.TournamentMatchesStreak | main.py:1696 | `Rewards.TournamentBonus`, the definition of the bonus in end_match, agrees with the streak rule exactly on multiples of 5 and on streaks below 5 |
| Rewards.TeamPointsGain | main.py:1695-1697 | the winning team gains its tournament bonus in points, between 1 and 1 + streak // 5 |
| Rewards.MemberRankGain | main.py:1702-1703 | each member of the winning team gains at least 2 rank points; exactly 2 when neither streak is a multiple of 5 |
| Zobrist.XorAllRemove | main.py:58-59 | any used phrase can be XORed in first: the key does not depend on the set's iteration order |
| Zobrist.XorAllFrame | main.py:58-59 | the phrase part of the key reads only the constants of the used phrases |
| Zobrist.KeyInExtend | main.py:56-59 | tables that only gain entries give every position the key it had before, so repeated calls agree |
| Zobrist.ZobristTables.LastWordConstant | main.py:56 | setdefault returns the stored constant, adds one only for a new word, and changes no other entry |
| Zobrist.ZobristTables.PhraseConstant | main.py:59 | setdefault returns the stored constant, adds one only for a new phrase, and changes no other entry |
| Zobrist.ZobristTables.XorPhrase | main.py:58-59 | one loop step XORs in the phrase's constant and keeps the accumulated key equal to the XOR over the phrases done |
| Zobrist.ZobristTables.Key | main.py:53-62 | the key is the XOR of the last word's, every used phrase's and the side's constants; existing constants are never changed; exactly the missing ones are added |
| Hints.BuildState3 | main.py:2127-2136 | the loops build each word with its first letter and its vowels shown and join the two words with a space |
| Hints.Difficulize | main.py:2120-2141 | the hint is the three masks separated by ", " |
| Hints.MasksShape | main.py:2122-2136 | each mask is as long as the phrase, keeps the space and shows each character or '_'; masks 1 and 3 show each word's first letter |
| Hints.State3IsUnion | main.py:2122-2136 | the third mask shows exactly the characters that the first or the second mask shows |

## Left out

- Discord events, commands, embeds and message formatting: user interface and transport, not game logic.
- SQLite persistence, the online dictionary lookups over HTTP and the `wordfreq` library: I/O and foreign code. Word and phrase frequencies are uninterpreted functions of the `Lexicon`.
- `asyncio.to_thread`, `wait_for` and the per-channel locks: concurrency. A timeout becomes a nondeterministic stop of the deepening loop.
- `time.monotonic` budgets: each time check is a nondeterministic boolean.
- `random.shuffle`, `random.choice` and `secrets.randbits`: nondeterministic choices. The model proves what holds for every outcome.
- The floating-point scoring helpers `phrase_score`, `classify_phrase` and `is_rare_phrase_robust`, and the evaluator's float arithmetic. `Evaluate` computes over exact reals.
- Unicode NFC normalisation, `isalpha` and `str.lower`: foreign semantics. Whether a character is a vowel is a parameter of `Hints`.
- Anti-cheat timing and the season calendar: datetime arithmetic outside the engine.
- Negamax.TranspositionTable.Negamax: the memo key is the exact triple (last word, used phrases, side). The 64-bit Zobrist hash that stands for it in the source may collide, and freedom from collisions cannot be proved. The key computation is modelled separately in `Zobrist`.
- Negamax.TranspositionTable.Negamax: equality with memo-free alpha-beta is stated for a search started with no stored key below the position. That is the case in `choose_strategic_move`, which makes a fresh memo. The stored pruned bounds are modelled as written, but their values across separate calls are not characterised.
- ForcedWin.ForcedWinSolver.Search: the methods state that memo keys only grow. Stored values stay fixed because the class invariant ties every entry to the exact verdict; this is not stated as a separate postcondition.
- Selection.ChooseStrategicMove: the source sorts the caller's list in place when no PV move is among the candidates (the list aliases `other_candidates`). The model reads the candidates as a value and leaves the reordering of the caller's list out. The requires lets the caller pass any permutation of the generator's output.
- Selection.ChooseInsaneMove: completeness is stated relative to a ghost `stopped` flag that records whether a time check ended the search; when it did, beyond a win in one no completeness is promised, only that any returned move is a fastest win.
- Selection.ChooseBotPhrase: for the insane difficulties the contract states legality only. The score-maximality of each deepening step is stated on `ChooseStrategicMove`.
- Start.SelectBalancedStartPhrase: the quick-win check is stated for the side the source's search calls `bot`, which is the side to move after the start phrase.
