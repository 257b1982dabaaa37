/*
 * The reward arithmetic: Roman numerals for season numbers (to_roman), the streak
 * bonus of the word-chain modes and the bonuses of a tournament match.
 */
module Rewards {

  /** roman_map: values with their numerals, largest first. */
  const RomanTable: seq<(nat, string)> :=
    [(1000, "M"), (900, "CM"), (500, "D"), (400, "CD"),
     (100, "C"), (90, "XC"), (50, "L"), (40, "XL"),
     (10, "X"), (9, "IX"), (5, "V"), (4, "IV"), (1, "I")]

  /** The numeral the greedy conversion appends for what is left, m, from table entry k on. */
  function RomanFrom(m: int, k: nat): string
    requires k <= |RomanTable|
    decreases |RomanTable| - k, if m > 0 then m else 0
  {
    if k == |RomanTable| then ""
    else if m >= RomanTable[k].0 then RomanTable[k].1 + RomanFrom(m - RomanTable[k].0, k)
    else RomanFrom(m, k + 1)
  }

  /** to_roman(n): for each table entry, append its numeral while n is at least its value. */
  method ToRoman(n: int) returns (result: string)
    ensures result == RomanFrom(n, 0)
  {
    result := "";
    var m := n;
    for k := 0 to |RomanTable|
      invariant result + RomanFrom(m, k) == RomanFrom(n, 0)
    {
      var (arabic, roman) := RomanTable[k];
      while m >= arabic
        invariant result + RomanFrom(m, k) == RomanFrom(n, 0)
        decreases m
      {
        assert RomanFrom(m, k) == roman + RomanFrom(m - arabic, k);
        assert result + RomanFrom(m, k) == (result + roman) + RomanFrom(m - arabic, k);
        result := result + roman;
        m := m - arabic;
      }
    }
  }

  /** The value of a numeral character; other characters are worth nothing. */
  function Value(c: char): nat
  {
    match c
    case 'M' => 1000
    case 'D' => 500
    case 'C' => 100
    case 'L' => 50
    case 'X' => 10
    case 'V' => 5
    case 'I' => 1
    case _ => 0
  }

  /** The usual reading of a numeral: a character worth less than the next one is subtracted. */
  function Decode(s: string): int
  {
    if s == [] then 0
    else if |s| >= 2 && Value(s[0]) < Value(s[1]) then Decode(s[1..]) - Value(s[0])
    else Decode(s[1..]) + Value(s[0])
  }

  /**
   * Every entry's numeral is one or two numeral characters; its first
   * character is worth no more than its last, and the last characters are
   * worth less and less down the table.
   */
  lemma TableShape(k: nat)
    requires k < |RomanTable|
    ensures 1 <= |RomanTable[k].1| <= 2
    ensures Value(RomanTable[k].1[0]) <= Value(RomanTable[k].1[|RomanTable[k].1| - 1])
    ensures k + 1 < |RomanTable| ==>
      Value(RomanTable[k + 1].1[|RomanTable[k + 1].1| - 1]) <= Value(RomanTable[k].1[|RomanTable[k].1| - 1])
    ensures |RomanTable[k].1| == 1 ==> RomanTable[k].0 == Value(RomanTable[k].1[0])
    ensures |RomanTable[k].1| == 2 ==>
      && Value(RomanTable[k].1[0]) < Value(RomanTable[k].1[1])
      && RomanTable[k].0 == Value(RomanTable[k].1[1]) - Value(RomanTable[k].1[0])
  {
    if k == 0 {} else if k == 1 {} else if k == 2 {} else if k == 3 {} else if k == 4 {}
    else if k == 5 {} else if k == 6 {} else if k == 7 {} else if k == 8 {} else if k == 9 {}
    else if k == 10 {} else if k == 11 {} else {}
  }

  /** The value of the last character of entry k's numeral. */
  function LastValue(k: nat): nat
    requires k < |RomanTable|
  {
    var t := RomanTable[k].1;
    if t == [] then 0 else Value(t[|t| - 1])
  }

  /** Down the table, no numeral starts with a character worth more than entry k's last one. */
  lemma {:induction false} FirstBelowLast(k: nat, j: nat)
    requires k <= j < |RomanTable|
    ensures Value(RomanTable[j].1[0]) <= LastValue(k)
    decreases j - k
  {
    TableShape(j);
    if k < j {
      FirstBelowLast(k + 1, j);
      TableShape(k);
    }
  }

  /** A greedy numeral starts with the first character of some entry at or after k. */
  lemma {:induction false} RomanFromStart(m: int, k: nat)
    requires k <= |RomanTable|
    ensures RomanFrom(m, k) == [] ||
      exists j :: k <= j < |RomanTable| && RomanFrom(m, k)[0] == RomanTable[j].1[0]
    decreases |RomanTable| - k, if m > 0 then m else 0
  {
    if k < |RomanTable| {
      TableShape(k);
      if m < RomanTable[k].0 {
        RomanFromStart(m, k + 1);
      }
    }
  }

  /** A numeral followed by text that starts no higher than its last character reads as its value plus that text's. */
  lemma DecodeEntry(k: nat, rest: string)
    requires k < |RomanTable|
    requires rest == [] || Value(rest[0]) <= LastValue(k)
    ensures Decode(RomanTable[k].1 + rest) == RomanTable[k].0 + Decode(rest)
  {
    TableShape(k);
    var t := RomanTable[k].1;
    if |t| == 1 {
      assert (t + rest)[1..] == rest;
    } else {
      assert (t + rest)[1..] == [t[1]] + rest;
      assert ([t[1]] + rest)[1..] == rest;
    }
  }

  /** The greedy numeral of a non-negative m reads back as m. */
  lemma {:induction false} DecodeRomanFrom(m: int, k: nat)
    requires k < |RomanTable| && m >= 0
    ensures Decode(RomanFrom(m, k)) == m
    decreases |RomanTable| - k, m
  {
    TableShape(k);
    if m >= RomanTable[k].0 {
      var rest := RomanFrom(m - RomanTable[k].0, k);
      DecodeRomanFrom(m - RomanTable[k].0, k);
      RomanFromStart(m - RomanTable[k].0, k);
      if rest != [] {
        var j :| k <= j < |RomanTable| && rest[0] == RomanTable[j].1[0];
        FirstBelowLast(k, j);
      }
      DecodeEntry(k, rest);
    } else if k + 1 < |RomanTable| {
      DecodeRomanFrom(m, k + 1);
    } else {
      assert m == 0;
    }
  }

  /** to_roman round-trips on the non-negative integers and gives "" for the others. */
  lemma RomanRoundTrip(n: int)
    ensures n >= 0 ==> Decode(RomanFrom(n, 0)) == n
    ensures n <= 0 ==> RomanFrom(n, 0) == ""
  {
    if n >= 0 {
      DecodeRomanFrom(n, 0);
    } else {
      RomanFromNonPositive(n, 0);
    }
  }

  lemma {:induction false} RomanFromNonPositive(m: int, k: nat)
    requires k <= |RomanTable| && m <= 0
    ensures RomanFrom(m, k) == ""
    decreases |RomanTable| - k
  {
    if k < |RomanTable| {
      RomanFromNonPositive(m, k + 1);
    }
  }

  /** Distinct non-negative numbers get distinct numerals. */
  lemma RomanInjective(a: int, b: int)
    requires a >= 0 && b >= 0 && a != b
    ensures RomanFrom(a, 0) != RomanFrom(b, 0)
  {
    RomanRoundTrip(a);
    RomanRoundTrip(b);
  }

  /**
   * The streak bonus when a player wins a round: 1, and for a streak of at
   * least 5 one more plus streak // 5 - 1.
   */
  function StreakBonus(streak: nat): (bonus: nat)
    ensures bonus == 1 + streak / 5
  {
    var bonus := 1;
    if streak >= 5 then bonus + 1 + (streak / 5 - 1) else bonus
  }

  /** The bonus end_match gives for a streak: 1 + streak // 5 on a multiple of 5, else 1. */
  function TournamentBonus(streak: nat): (bonus: nat)
    ensures bonus >= 1
  {
    if streak % 5 == 0 then 1 + streak / 5 else 1
  }

  /** The two bonus rules agree exactly on multiples of 5 and on streaks below 5. */
  lemma TournamentMatchesStreak(streak: nat)
    ensures TournamentBonus(streak) == StreakBonus(streak) <==> streak % 5 == 0 || streak < 5
  {
  }

  /** A winning team's points grow by 1 and then by bonus - 1: by its tournament bonus in all. */
  function TeamPointsGain(teamStreak: nat): (gain: nat)
    ensures gain == TournamentBonus(teamStreak)
    ensures 1 <= gain <= 1 + teamStreak / 5
  {
    var bonus := TournamentBonus(teamStreak);
    1 + (bonus - 1)
  }

  /** Each member of the winning team gains their own bonus plus the team's. */
  function MemberRankGain(teamStreak: nat, userStreak: nat): (gain: nat)
    ensures 2 <= gain <= 2 + teamStreak / 5 + userStreak / 5
    ensures teamStreak % 5 != 0 && userStreak % 5 != 0 ==> gain == 2
  {
    TournamentBonus(userStreak) + TournamentBonus(teamStreak)
  }
}
