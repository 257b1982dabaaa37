/*
 * The hint masks of difficulize: three progressively more revealing
 * renderings of a two-word phrase. Whether a character is a vowel
 * (c.lower() in the Vietnamese vowel list) is a parameter of the model.
 */
module Hints {
  import opened Game

  /** The characters str.split() with no argument splits on (those for which str.isspace() holds). */
  predicate IsSpace(c: char)
  {
    || ('\t' <= c <= '\r') || ('\U{001C}' <= c <= ' ') || c == '\U{0085}' || c == '\U{00A0}'
    || c == '\U{1680}' || ('\U{2000}' <= c <= '\U{200A}') || c == '\U{2028}' || c == '\U{2029}'
    || c == '\U{202F}' || c == '\U{205F}' || c == '\U{3000}'
  }

  /** A word as str.split() yields it: non-empty and without whitespace. */
  predicate WordOk(w: Word)
  {
    w != [] && forall i :: 0 <= i < |w| ==> !IsSpace(w[i])
  }

  /** The phrase as the text "first second". */
  function Text(p: Phrase): string
  {
    p.first + " " + p.second
  }

  /** w[0] + '_' * (len(w) - 1). */
  function Initial(w: Word): string
    requires w != []
  {
    [w[0]] + seq(|w| - 1, _ => '_')
  }

  /** state_1: each word shown by its first letter only. */
  function State1(p: Phrase): string
    requires WordOk(p.first) && WordOk(p.second)
  {
    Initial(p.first) + " " + Initial(p.second)
  }

  /** A character of state_2: vowels shown, spaces kept, everything else hidden. */
  function Show2(c: char, vowel: char -> bool): char
  {
    if vowel(c) then c else if c == ' ' then ' ' else '_'
  }

  /** state_2: the phrase with only its vowels and the space shown. */
  function State2(p: Phrase, vowel: char -> bool): string
  {
    var t := Text(p);
    seq(|t|, i requires 0 <= i < |t| => Show2(t[i], vowel))
  }

  /** A character of a word in state_3: the first letter and the vowels are shown. */
  function Show3(w: Word, i: nat, vowel: char -> bool): char
    requires i < |w|
  {
    if i == 0 || vowel(w[i]) then w[i] else '_'
  }

  function Mask3(w: Word, vowel: char -> bool): string
  {
    seq(|w|, i requires 0 <= i < |w| => Show3(w, i, vowel))
  }

  /** state_3: each word with its first letter and its vowels shown. */
  function State3(p: Phrase, vowel: char -> bool): string
  {
    Mask3(p.first, vowel) + " " + Mask3(p.second, vowel)
  }

  /** The loops that build state_3 word by word and character by character. */
  method BuildState3(p: Phrase, vowel: char -> bool) returns (s: string)
    requires WordOk(p.first) && WordOk(p.second)
    ensures s == State3(p, vowel)
  {
    var words := [p.first, p.second];
    var parts: seq<string> := [];
    for j := 0 to |words|
      invariant |parts| == j
      invariant forall k :: 0 <= k < j ==> parts[k] == Mask3(words[k], vowel)
    {
      var word := words[j];
      var temp := "";
      for i := 0 to |word|
        invariant |temp| == i
        invariant forall n :: 0 <= n < i ==> temp[n] == Show3(word, n, vowel)
      {
        var c := word[i];
        if i == 0 || vowel(c) {
          temp := temp + [c];
        } else {
          temp := temp + "_";
        }
      }
      parts := parts + [temp];
    }
    s := parts[0] + " " + parts[1];
  }

  /** difficulize(phrase): the three masks, separated by ", ". */
  method Difficulize(p: Phrase, vowel: char -> bool) returns (r: string)
    requires WordOk(p.first) && WordOk(p.second)
    ensures r == State1(p) + ", " + State2(p, vowel) + ", " + State3(p, vowel)
  {
    var state3 := BuildState3(p, vowel);
    r := State1(p) + ", " + State2(p, vowel) + ", " + state3;
  }

  /**
   * Every mask is as long as the phrase, keeps the space between the words
   * and otherwise shows a character of the phrase or hides it behind '_';
   * the first and the third show the first letter of each word.
   */
  lemma MasksShape(p: Phrase, vowel: char -> bool)
    requires WordOk(p.first) && WordOk(p.second)
    ensures var t := Text(p);
      && |State1(p)| == |t| && |State2(p, vowel)| == |t| && |State3(p, vowel)| == |t|
      && State1(p)[|p.first|] == ' ' && State2(p, vowel)[|p.first|] == ' ' && State3(p, vowel)[|p.first|] == ' '
      && (forall i :: 0 <= i < |t| ==> State1(p)[i] in {t[i], '_'})
      && (forall i :: 0 <= i < |t| ==> State2(p, vowel)[i] in {t[i], '_'})
      && (forall i :: 0 <= i < |t| ==> State3(p, vowel)[i] in {t[i], '_'})
      && State1(p)[0] == t[0] && State3(p, vowel)[0] == t[0]
      && State1(p)[|p.first| + 1] == p.second[0] && State3(p, vowel)[|p.first| + 1] == p.second[0]
  {
    var t := Text(p);
    var n := |p.first|;
    forall i | 0 <= i < |t| ensures State1(p)[i] in {t[i], '_'} {
      if i < n {
        assert t[i] == p.first[i];
      } else if i > n {
        assert t[i] == p.second[i - n - 1];
      }
    }
    forall i | 0 <= i < |t| ensures State3(p, vowel)[i] in {t[i], '_'} {
      if i < n {
        assert t[i] == p.first[i];
      } else if i > n {
        assert t[i] == p.second[i - n - 1];
      }
    }
  }

  /** The third mask shows exactly the characters the first or the second shows. */
  lemma State3IsUnion(p: Phrase, vowel: char -> bool)
    requires WordOk(p.first) && WordOk(p.second)
    ensures var t := Text(p);
      forall i :: 0 <= i < |t| ==>
        State3(p, vowel)[i] == if State1(p)[i] != '_' || State2(p, vowel)[i] != '_' then t[i] else '_'
  {
    var t := Text(p);
    var n := |p.first|;
    forall i | 0 <= i < |t|
      ensures State3(p, vowel)[i] == if State1(p)[i] != '_' || State2(p, vowel)[i] != '_' then t[i] else '_'
    {
      if i < n {
        assert t[i] == p.first[i];
        assert p.first[i] != ' ';
      } else if i > n {
        assert t[i] == p.second[i - n - 1];
        assert p.second[i - n - 1] != ' ';
      }
    }
  }
}
