/*
 * Move ordering: candidates are examined in ascending order of the number of
 * replies they leave the opponent (list.sort with that key, which is stable),
 * and choose_strategic_move puts the previous iteration's best move first.
 */
module Ordering {
  import opened Game

  /** The number of legal replies the opponent has after `p` is played. */
  function Replies(lx: Lexicon, pos: Position, p: Phrase): nat
  {
    |Candidates(lx, Play(pos, p))|
  }

  /** The sort key of the source's ordering_score/opponent_options helpers. */
  function ReplyKey(lx: Lexicon, pos: Position): Phrase -> nat
  {
    p => Replies(lx, pos, p)
  }

  predicate SortedBy(key: Phrase -> nat, s: seq<Phrase>)
  {
    forall i, j :: 0 <= i < j < |s| ==> key(s[i]) <= key(s[j])
  }

  /** Inserts x before the first element whose key is not smaller. */
  function Insert(key: Phrase -> nat, x: Phrase, s: seq<Phrase>): seq<Phrase>
  {
    if s == [] || key(x) <= key(s[0]) then [x] + s
    else [s[0]] + Insert(key, x, s[1..])
  }

  /** A stable sort by key (an insertion sort), as list.sort(key=...) is. */
  function SortBy(key: Phrase -> nat, cs: seq<Phrase>): seq<Phrase>
  {
    if cs == [] then [] else Insert(key, cs[0], SortBy(key, cs[1..]))
  }

  function SortByReplies(lx: Lexicon, pos: Position, cs: seq<Phrase>): seq<Phrase>
  {
    SortBy(ReplyKey(lx, pos), cs)
  }

  lemma {:induction false} InsertMultiset(key: Phrase -> nat, x: Phrase, s: seq<Phrase>)
    ensures multiset(Insert(key, x, s)) == multiset(s) + multiset{x}
  {
    if s != [] && key(x) > key(s[0]) {
      InsertMultiset(key, x, s[1..]);
      assert s == [s[0]] + s[1..];
    }
  }

  /** Every element of Insert(key, x, s) is x or an element of s. */
  lemma {:induction false} InsertBound(key: Phrase -> nat, x: Phrase, s: seq<Phrase>, b: nat)
    requires b <= key(x)
    requires forall k :: 0 <= k < |s| ==> b <= key(s[k])
    ensures forall k :: 0 <= k < |Insert(key, x, s)| ==> b <= key(Insert(key, x, s)[k])
  {
    if s != [] && key(x) > key(s[0]) {
      InsertBound(key, x, s[1..], b);
      var t := Insert(key, x, s[1..]);
      assert Insert(key, x, s) == [s[0]] + t;
    }
  }

  lemma {:induction false} InsertSorted(key: Phrase -> nat, x: Phrase, s: seq<Phrase>)
    requires SortedBy(key, s)
    ensures SortedBy(key, Insert(key, x, s))
  {
    if s != [] && key(x) > key(s[0]) {
      var rest := s[1..];
      InsertSorted(key, x, rest);
      InsertBound(key, x, rest, key(s[0]));
      var t := Insert(key, x, rest);
      var r := Insert(key, x, s);
      assert r == [s[0]] + t;
      forall i, j | 0 <= i < j < |r| ensures key(r[i]) <= key(r[j]) {
        assert r[j] == t[j - 1];
        if i > 0 {
          assert r[i] == t[i - 1];
        }
      }
    }
  }

  /** The sort returns a permutation of its input, ordered by the key. */
  lemma {:induction false} SortByProps(key: Phrase -> nat, cs: seq<Phrase>)
    ensures multiset(SortBy(key, cs)) == multiset(cs)
    ensures SortedBy(key, SortBy(key, cs))
  {
    if cs != [] {
      SortByProps(key, cs[1..]);
      InsertMultiset(key, cs[0], SortBy(key, cs[1..]));
      InsertSorted(key, cs[0], SortBy(key, cs[1..]));
      assert cs == [cs[0]] + cs[1..];
    }
  }

  /** The elements of s whose key is k, in the order s has them. */
  function WithKey(key: Phrase -> nat, k: nat, s: seq<Phrase>): seq<Phrase>
  {
    if s == [] then []
    else (if key(s[0]) == k then [s[0]] else []) + WithKey(key, k, s[1..])
  }

  /** Insert puts x after every element whose key is smaller, so among equal keys it comes first. */
  lemma {:induction false} InsertWithKey(key: Phrase -> nat, k: nat, x: Phrase, s: seq<Phrase>)
    ensures WithKey(key, k, Insert(key, x, s)) == (if key(x) == k then [x] else []) + WithKey(key, k, s)
  {
    if s == [] || key(x) <= key(s[0]) {
      assert ([x] + s)[1..] == s;
    } else {
      InsertWithKey(key, k, x, s[1..]);
      assert ([s[0]] + Insert(key, x, s[1..]))[1..] == Insert(key, x, s[1..]);
    }
  }

  /** The sort is stable: the elements with any one key keep their input order. */
  lemma {:induction false} SortByStable(key: Phrase -> nat, k: nat, cs: seq<Phrase>)
    ensures WithKey(key, k, SortBy(key, cs)) == WithKey(key, k, cs)
  {
    if cs != [] {
      SortByStable(key, k, cs[1..]);
      InsertWithKey(key, k, cs[0], SortBy(key, cs[1..]));
    }
  }

  /** Same multiset means same members and, for duplicate-free lists, no duplicates. */
  lemma PermutationMembers(a: seq<Phrase>, b: seq<Phrase>)
    requires multiset(a) == multiset(b)
    ensures forall x :: x in a <==> x in b
    ensures NoDup(a) ==> NoDup(b)
  {
    forall x ensures x in a <==> x in b {
      assert x in a <==> x in multiset(a);
      assert x in b <==> x in multiset(b);
    }
    if NoDup(a) {
      forall i, j | 0 <= i < j < |b| ensures b[i] != b[j] {
        if b[i] == b[j] {
          var x := b[i];
          assert multiset(b)[x] >= 2 by {
            assert b == b[..i] + [x] + b[i + 1..j] + [x] + b[j + 1..];
          }
          NoDupCount(a, x);
        }
      }
    }
  }

  lemma {:induction false} NoDupCount(a: seq<Phrase>, x: Phrase)
    requires NoDup(a)
    ensures multiset(a)[x] <= 1
  {
    if a != [] {
      NoDupCount(a[1..], x);
      assert a == [a[0]] + a[1..];
      forall k | 0 <= k < |a[1..]| ensures a[1..][k] != a[0] {
        assert a[1..][k] == a[k + 1];
      }
    }
  }

  /** The list comprehension [c for c in cs if c != pv]. */
  function Without(cs: seq<Phrase>, pv: Phrase): seq<Phrase>
  {
    if cs == [] then []
    else (if cs[0] == pv then [] else [cs[0]]) + Without(cs[1..], pv)
  }

  lemma {:induction false} WithoutMultiset(cs: seq<Phrase>, pv: Phrase)
    requires NoDup(cs) && pv in cs
    ensures multiset(Without(cs, pv)) + multiset{pv} == multiset(cs)
  {
    assert cs == [cs[0]] + cs[1..];
    var rest := cs[1..];
    assert NoDup(rest);
    if cs[0] == pv {
      forall k | 0 <= k < |rest| ensures rest[k] != pv {
        assert rest[k] == cs[k + 1];
      }
      WithoutAbsent(rest, pv);
    } else {
      WithoutMultiset(rest, pv);
    }
  }

  /** The comprehension keeps exactly the elements of its input other than pv. */
  lemma {:induction false} WithoutMembers(cs: seq<Phrase>, pv: Phrase)
    ensures forall x :: x in Without(cs, pv) <==> x in cs && x != pv
  {
    if cs != [] {
      WithoutMembers(cs[1..], pv);
      assert forall x :: x in cs <==> x == cs[0] || x in cs[1..];
    }
  }

  lemma {:induction false} WithoutAbsent(cs: seq<Phrase>, pv: Phrase)
    requires pv !in cs
    ensures Without(cs, pv) == cs
  {
    if cs != [] {
      WithoutAbsent(cs[1..], pv);
      assert cs == [cs[0]] + cs[1..];
    }
  }

  /**
   * The order in which choose_strategic_move examines the candidates: the
   * principal-variation move first when it is a candidate, then the others
   * sorted by Replies.
   */
  function ExaminationOrder(lx: Lexicon, pos: Position, cs: seq<Phrase>, pv: Option<Phrase>): seq<Phrase>
  {
    if pv.Some? && pv.value in cs then [pv.value] + SortByReplies(lx, pos, Without(cs, pv.value))
    else SortByReplies(lx, pos, cs)
  }

  /** The examined list is a permutation of the candidates with the PV move first when present. */
  lemma ExaminationOrderProps(lx: Lexicon, pos: Position, cs: seq<Phrase>, pv: Option<Phrase>)
    requires NoDup(cs)
    ensures multiset(ExaminationOrder(lx, pos, cs, pv)) == multiset(cs)
    ensures pv.Some? && pv.value in cs ==> ExaminationOrder(lx, pos, cs, pv)[0] == pv.value
    ensures SortedBy(ReplyKey(lx, pos), ExaminationOrder(lx, pos, cs, pv)[if pv.Some? && pv.value in cs then 1 else 0..])
  {
    if pv.Some? && pv.value in cs {
      var rest := Without(cs, pv.value);
      SortByProps(ReplyKey(lx, pos), rest);
      WithoutMultiset(cs, pv.value);
      var e := ExaminationOrder(lx, pos, cs, pv);
      assert e[1..] == SortByReplies(lx, pos, rest);
    } else {
      SortByProps(ReplyKey(lx, pos), cs);
    }
  }

  /** The examined list holds exactly the candidates, duplicates or not. */
  lemma ExaminationOrderMembers(lx: Lexicon, pos: Position, cs: seq<Phrase>, pv: Option<Phrase>)
    ensures forall x :: x in ExaminationOrder(lx, pos, cs, pv) <==> x in cs
  {
    if pv.Some? && pv.value in cs {
      var rest := Without(cs, pv.value);
      SortByProps(ReplyKey(lx, pos), rest);
      PermutationMembers(rest, SortByReplies(lx, pos, rest));
      WithoutMembers(cs, pv.value);
    } else {
      SortByProps(ReplyKey(lx, pos), cs);
      PermutationMembers(cs, SortByReplies(lx, pos, cs));
    }
  }
}
