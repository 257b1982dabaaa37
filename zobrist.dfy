/*
 * Zobrist position keys (_zobrist_key): the XOR of a constant for the last
 * word, one per used phrase and one for the side to move. The constants are
 * drawn at random the first time they are needed and kept in tables.
 */
module Zobrist {
  import opened Game

  /** 64-bit XOR, named so that the proofs about sets of phrases treat it as one operation. */
  function Xor(a: bv64, b: bv64): bv64
  {
    a ^ b
  }

  /** XOR is commutative and associative: two operands can trade places. */
  lemma XorSwap(a: bv64, b: bv64, c: bv64)
    ensures Xor(a, Xor(b, c)) == Xor(b, Xor(a, c))
  {
    assert a ^ (b ^ c) == b ^ (a ^ c);
  }

  /** Adding one more constant to an accumulated key. */
  lemma XorStep(h: bv64, w: bv64, x: bv64, q: bv64)
    requires h == Xor(w, x)
    ensures Xor(h, q) == Xor(w, Xor(q, x))
  {
    assert (w ^ x) ^ q == w ^ (q ^ x);
  }

  /** Zero is the unit of XOR. */
  lemma XorZero(w: bv64)
    ensures Xor(0, w) == w && Xor(w, 0) == w
  {
  }

  /** The XOR of the constants of every phrase in s, independent of any order. */
  ghost function XorAll(t: map<Phrase, bv64>, s: set<Phrase>): bv64
    requires s <= t.Keys
    decreases |s|
  {
    if s == {} then 0
    else
      var p :| p in s;
      Xor(t[p], XorAll(t, s - {p}))
  }

  /** Any phrase of the set may be taken out first: the iteration order does not matter. */
  lemma {:induction false} XorAllRemove(t: map<Phrase, bv64>, s: set<Phrase>, p: Phrase)
    requires s <= t.Keys && p in s
    ensures XorAll(t, s) == Xor(t[p], XorAll(t, s - {p}))
    decreases |s|
  {
    var q :| q in s && XorAll(t, s) == Xor(t[q], XorAll(t, s - {q}));
    if q != p {
      var rest := s - {q} - {p};
      XorAllRemove(t, s - {q}, p);
      XorAllRemove(t, s - {p}, q);
      assert s - {p} - {q} == rest;
      XorSwap(t[q], t[p], XorAll(t, rest));
    }
  }

  /** The XOR only reads the constants of the phrases in the set. */
  lemma {:induction false} XorAllFrame(t: map<Phrase, bv64>, t': map<Phrase, bv64>, s: set<Phrase>)
    requires s <= t.Keys && s <= t'.Keys
    requires forall q :: q in s ==> t'[q] == t[q]
    ensures XorAll(t', s) == XorAll(t, s)
    decreases |s|
  {
    if s != {} {
      var p :| p in s;
      XorAllRemove(t, s, p);
      XorAllRemove(t', s, p);
      XorAllFrame(t, t', s - {p});
    }
  }

  /** The key of (last, used, turn) under the given tables and side constant. */
  ghost function KeyIn(words: map<Word, bv64>, phrases: map<Phrase, bv64>, side: bv64, last: Word, used: set<Phrase>): bv64
    requires last in words && used <= phrases.Keys
  {
    Xor(Xor(words[last], XorAll(phrases, used)), side)
  }

  /** Tables that only gained entries give every position the key it had. */
  lemma KeyInExtend(words: map<Word, bv64>, phrases: map<Phrase, bv64>, words': map<Word, bv64>,
                    phrases': map<Phrase, bv64>, side: bv64, last: Word, used: set<Phrase>)
    requires last in words && used <= phrases.Keys
    requires forall w :: w in words ==> w in words' && words'[w] == words[w]
    requires forall q :: q in phrases ==> q in phrases' && phrases'[q] == phrases[q]
    ensures KeyIn(words', phrases', side, last, used) == KeyIn(words, phrases, side, last, used)
  {
    XorAllFrame(phrases, phrases', used);
  }

  /** _ZOBRIST_LAST_WORD, _ZOBRIST_PHRASE_TABLE and _ZOBRIST_SIDE. */
  class ZobristTables {
    var lastWords: map<Word, bv64>
    var phrases: map<Phrase, bv64>
    const botKey: bv64
    const playerKey: bv64

    /** The side constants are the two secrets.randbits(64) draws made at start-up. */
    constructor (botKey: bv64, playerKey: bv64)
      ensures lastWords == map[] && phrases == map[]
      ensures this.botKey == botKey && this.playerKey == playerKey
    {
      lastWords := map[];
      phrases := map[];
      this.botKey := botKey;
      this.playerKey := playerKey;
    }

    /** _ZOBRIST_SIDE.get(turn, 0); both sides are in the table. */
    function SideKey(turn: Side): bv64
    {
      if turn == Bot then botKey else playerKey
    }

    /** _ZOBRIST_LAST_WORD.setdefault(w, secrets.randbits(64)). */
    method LastWordConstant(w: Word) returns (c: bv64)
      modifies this
      ensures w in lastWords && c == lastWords[w]
      ensures forall v :: v in lastWords <==> v in old(lastWords) || v == w
      ensures forall v :: v in old(lastWords) ==> lastWords[v] == old(lastWords)[v]
      ensures phrases == old(phrases)
    {
      var r: bv64 :| true;
      if w !in lastWords {
        lastWords := lastWords[w := r];
      }
      c := lastWords[w];
    }

    /** _ZOBRIST_PHRASE_TABLE.setdefault(p, secrets.randbits(64)). */
    method PhraseConstant(p: Phrase) returns (c: bv64)
      modifies this
      ensures p in phrases && c == phrases[p]
      ensures forall q :: q in phrases <==> q in old(phrases) || q == p
      ensures forall q :: q in old(phrases) ==> phrases[q] == old(phrases)[q]
      ensures lastWords == old(lastWords)
    {
      var r: bv64 :| true;
      if p !in phrases {
        phrases := phrases[p := r];
      }
      c := phrases[p];
    }

    /** One pass of the loop over the used phrases: h ^= the constant of p. */
    method XorPhrase(h: bv64, last: Word, p: Phrase, ghost done: set<Phrase>) returns (h': bv64)
      modifies this
      requires last in lastWords && done <= phrases.Keys && p !in done
      requires h == Xor(lastWords[last], XorAll(phrases, done))
      ensures lastWords == old(lastWords) && p in phrases
      ensures forall q :: q in phrases <==> q in old(phrases) || q == p
      ensures forall q :: q in old(phrases) ==> phrases[q] == old(phrases)[q]
      ensures h' == Xor(lastWords[last], XorAll(phrases, done + {p}))
    {
      ghost var before := phrases;
      var k := PhraseConstant(p);
      XorAllFrame(before, phrases, done);
      XorAllRemove(phrases, done + {p}, p);
      assert done + {p} - {p} == done;
      XorStep(h, lastWords[last], XorAll(phrases, done), k);
      h' := Xor(h, k);
    }

    /**
     * _zobrist_key(last_word, used_phrases, turn). Missing constants are
     * added with fresh random values; constants already drawn are never
     * changed, so the key depends only on the position and the tables as
     * they stand afterwards, whatever order the set is iterated in.
     */
    method Key(last: Word, used: set<Phrase>, turn: Side) returns (h: bv64)
      modifies this
      ensures last in lastWords && used <= phrases.Keys
      ensures h == KeyIn(lastWords, phrases, SideKey(turn), last, used)
      ensures forall w :: w in lastWords <==> w in old(lastWords) || w == last
      ensures forall q :: q in phrases <==> q in old(phrases) || q in used
      ensures forall w :: w in old(lastWords) ==> lastWords[w] == old(lastWords)[w]
      ensures forall q :: q in old(phrases) ==> phrases[q] == old(phrases)[q]
    {
      h := 0;
      var c := LastWordConstant(last);
      h := Xor(h, c);
      XorZero(c);
      var rest := used;
      ghost var done: set<Phrase> := {};
      while rest != {}
        invariant rest + done == used && rest !! done
        invariant last in lastWords && done <= phrases.Keys
        invariant forall w :: w in lastWords <==> w in old(lastWords) || w == last
        invariant forall w :: w in old(lastWords) ==> lastWords[w] == old(lastWords)[w]
        invariant forall q :: q in phrases <==> q in old(phrases) || q in done
        invariant forall q :: q in old(phrases) ==> phrases[q] == old(phrases)[q]
        invariant h == Xor(lastWords[last], XorAll(phrases, done))
        decreases |rest|
      {
        var p :| p in rest;
        h := XorPhrase(h, last, p, done);
        rest := rest - {p};
        done := done + {p};
      }
      h := Xor(h, SideKey(turn));
    }
  }
}
