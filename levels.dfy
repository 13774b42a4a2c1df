/** Level progression: a level counter from 1 to 18, the running score, and the number
    of souls (and graves) and ghosts each level brings. Levels 1-6 have one ghost,
    7-12 two and 13-18 three; within each band the souls run 1 to 6. */
module Levels {
  import opened JavaInt
  import opened JavaText
  import opened Wrappers
  import opened Graves

  const FirstLevel: int := 1
  const MaxLevel: int := 18

  /** Levels per ghost band, and the most souls a level has. */
  const BandSize: int := 6

  /** `((level - 1) % 6) + 1` with Java's remainder. */
  function SoulsFor(level: int): (n: int)
    ensures level >= FirstLevel ==> 1 <= n <= BandSize && level == BandSize * ((level - 1) / BandSize) + n
  {
    if level >= FirstLevel then
      DivRemOfNatural(level - 1, BandSize);
      Rem(level - 1, BandSize) + 1
    else
      Rem(level - 1, BandSize) + 1
  }

  /** The soul count repeats every six levels. */
  lemma SoulsCycle(level: int)
    requires level >= FirstLevel
    ensures SoulsFor(level + BandSize) == SoulsFor(level)
  {
    DivRemOfNatural(level - 1, BandSize);
    DivRemOfNatural(level + BandSize - 1, BandSize);
  }

  /** The ghost count: 1 up to level 6, 2 up to level 12, 3 beyond. */
  function GhostsFor(level: int): (n: int)
    ensures FirstLevel <= level <= MaxLevel ==> n == (level - 1) / BandSize + 1
    ensures 1 <= n <= 3
  {
    if level <= 6 then 1 else if level <= 12 then 2 else 3
  }

  /** The ghost band and the soul count together name the level: no two levels from 1
      to 18 look the same. */
  lemma {:induction false} LevelFromBandAndSouls(level: int)
    requires FirstLevel <= level <= MaxLevel
    ensures level == (GhostsFor(level) - 1) * BandSize + SoulsFor(level)
  {
    DivRemOfNatural(level - 1, BandSize);
  }

  /** `String.format("Level %d: %d Souls, %d Ghosts", level, souls, ghosts)`. The three
      numbers read back out of the text (`DescriptionReadsBack`). */
  function Describe(level: int, souls: int, ghosts: int): (text: string)
    ensures |text| > 6 && text[..6] == "Level "
    ensures level >= 0 && souls >= 0 && ghosts >= 0 ==> ReadDescription(text) == Some((level, souls, ghosts))
  {
    var text := "Level " + IntToString(level) + ": " + IntToString(souls) + " Souls, " + IntToString(ghosts) + " Ghosts";
    if level >= 0 && souls >= 0 && ghosts >= 0 then
      DescriptionReadsBack(level, souls, ghosts);
      text
    else
      text
  }

  /** The length of the run of digits `s` starts with. */
  function DigitRun(s: string): (n: nat)
    ensures n <= |s| && AllDigits(s[..n])
    ensures n < |s| ==> !IsDigit(s[n])
  {
    if s == [] || !IsDigit(s[0]) then 0
    else
      var n := 1 + DigitRun(s[1..]);
      assert s[..n] == [s[0]] + s[1..][..n - 1];
      n
  }

  lemma {:induction false} DigitRunOf(d: string, rest: string)
    requires AllDigits(d)
    requires rest == [] || !IsDigit(rest[0])
    ensures DigitRun(d + rest) == |d|
  {
    if d != [] {
      assert (d + rest)[1..] == d[1..] + rest;
      DigitRunOf(d[1..], rest);
    }
  }

  /** The number at the start of `s` and the text after it, if `s` starts with a digit. */
  function ReadNumber(s: string): Option<(nat, string)> {
    var n := DigitRun(s);
    if n == 0 then None else Some((DigitsValue(s[..n]), s[n..]))
  }

  /** The text after `lit`, if `s` starts with it. */
  function ReadLiteral(lit: string, s: string): Option<string> {
    if |lit| <= |s| && s[..|lit|] == lit then Some(s[|lit|..]) else None
  }

  /** Reads a description back: "Level ", a number, ": ", a number, " Souls, ", a number
      and " Ghosts", with nothing after it. */
  function ReadDescription(text: string): Option<(nat, nat, nat)> {
    match ReadLiteral("Level ", text)
    case None => None
    case Some(t1) =>
      match ReadNumber(t1)
      case None => None
      case Some((level, t2)) =>
        match ReadCounts(t2)
        case None => None
        case Some((souls, ghosts)) => Some((level, souls, ghosts))
  }

  /** Reads ": ", the souls, " Souls, ", the ghosts and " Ghosts". */
  function ReadCounts(text: string): Option<(nat, nat)> {
    match ReadLiteral(": ", text)
    case None => None
    case Some(t3) =>
      match ReadNumber(t3)
      case None => None
      case Some((souls, t4)) =>
        match ReadGhosts(t4)
        case None => None
        case Some(ghosts) => Some((souls, ghosts))
  }

  /** Reads " Souls, ", the ghosts and " Ghosts". */
  function ReadGhosts(text: string): Option<nat> {
    match ReadLiteral(" Souls, ", text)
    case None => None
    case Some(t5) =>
      match ReadNumber(t5)
      case None => None
      case Some((ghosts, t6)) => if t6 == " Ghosts" then Some(ghosts) else None
  }

  lemma ReadLiteralOf(lit: string, rest: string)
    ensures ReadLiteral(lit, lit + rest) == Some(rest)
  {
    assert (lit + rest)[..|lit|] == lit;
  }

  /** A number's decimal text, followed by text not starting with a digit, reads back. */
  lemma ReadNumberOf(n: nat, rest: string)
    requires rest == [] || !IsDigit(rest[0])
    ensures ReadNumber(IntToString(n) + rest) == Some((n, rest))
  {
    var d := IntToString(n);
    DigitRunOf(d, rest);
    assert (d + rest)[..|d|] == d && (d + rest)[|d|..] == rest;
    DigitsValueOfNatDigits(n);
  }

  /** The description of a level gives back its level, souls and ghosts. */
  lemma DescriptionReadsBack(level: nat, souls: nat, ghosts: nat)
    ensures ReadDescription("Level " + IntToString(level) + ": " + IntToString(souls) + " Souls, " +
      IntToString(ghosts) + " Ghosts") == Some((level, souls, ghosts))
  {
    var t2 := ": " + IntToString(souls) + " Souls, " + IntToString(ghosts) + " Ghosts";
    var t1 := IntToString(level) + t2;
    assert "Level " + IntToString(level) + ": " + IntToString(souls) + " Souls, " + IntToString(ghosts) + " Ghosts"
      == "Level " + t1;
    ReadLiteralOf("Level ", t1);
    ReadNumberOf(level, t2);
    CountsReadBack(souls, ghosts);
  }

  lemma CountsReadBack(souls: nat, ghosts: nat)
    ensures ReadCounts(": " + IntToString(souls) + " Souls, " + IntToString(ghosts) + " Ghosts") == Some((souls, ghosts))
  {
    var t4 := " Souls, " + IntToString(ghosts) + " Ghosts";
    var t3 := IntToString(souls) + t4;
    assert ": " + IntToString(souls) + " Souls, " + IntToString(ghosts) + " Ghosts" == ": " + t3;
    ReadLiteralOf(": ", t3);
    ReadNumberOf(souls, t4);
    GhostsReadBack(ghosts);
  }

  lemma GhostsReadBack(ghosts: nat)
    ensures ReadGhosts(" Souls, " + IntToString(ghosts) + " Ghosts") == Some(ghosts)
  {
    var t5 := IntToString(ghosts) + " Ghosts";
    assert " Souls, " + IntToString(ghosts) + " Ghosts" == " Souls, " + t5;
    ReadLiteralOf(" Souls, ", t5);
    ReadNumberOf(ghosts, " Ghosts");
  }

  /** Two levels, soul counts or ghost counts that differ give different descriptions. */
  lemma DescriptionsDiffer(l1: nat, s1: nat, g1: nat, l2: nat, s2: nat, g2: nat)
    requires (l1, s1, g1) != (l2, s2, g2)
    ensures Describe(l1, s1, g1) != Describe(l2, s2, g2)
  {
  }

  class LevelManager {
    var currentLevel: int
    var score: int

    /** A new game: level 1, score 0. */
    constructor ()
      ensures currentLevel == FirstLevel && score == 0
      ensures Valid()
    {
      currentLevel, score := FirstLevel, 0;
    }

    /** The level stays within 1..18 and the score within an int. */
    predicate Valid()
      reads this
    {
      FirstLevel <= currentLevel <= MaxLevel && IsInt32(score)
    }

    /** `getSoulsPerLevel`: the number of souls and of graves. */
    function SoulsPerLevel(): (n: int)
      reads this
      ensures Valid() ==> 1 <= n <= BandSize && currentLevel == BandSize * ((currentLevel - 1) / BandSize) + n
    {
      SoulsFor(currentLevel)
    }

    /** `getGhostCount`. */
    function GhostCount(): (n: int)
      reads this
      ensures Valid() ==> n == (currentLevel - 1) / BandSize + 1
    {
      GhostsFor(currentLevel)
    }

    /** `addScore(points)`: int addition, which wraps; the level does not change. */
    method AddScore(points: int)
      requires Valid() && IsInt32(points)
      modifies this
      ensures score == Wrap(old(score) + points) && currentLevel == old(currentLevel)
      ensures Valid()
    {
      score := Wrap(score + points);
    }

    /** `isLevelCompleted(graves)`: every grave has been cleared. */
    function IsLevelCompleted(graves: seq<Grave>): (done: bool)
      ensures done <==> |graves| == 0
    {
      graves == []
    }

    /** `nextLevel`: one level on, except at the last level, which stays. */
    method NextLevel()
      requires Valid()
      modifies this
      ensures currentLevel == if old(currentLevel) < MaxLevel then old(currentLevel) + 1 else MaxLevel
      ensures score == old(score)
      ensures Valid()
    {
      if currentLevel < MaxLevel {
        currentLevel := currentLevel + 1;
      }
    }

    /** `isGameCompleted`: the level is past the last one, which no valid state is. */
    function IsGameCompleted(): (done: bool)
      reads this
      ensures Valid() ==> !done
    {
      currentLevel > MaxLevel
    }

    /** `reset`: back to level 1 with no score. */
    method Reset()
      modifies this
      ensures currentLevel == FirstLevel && score == 0
      ensures Valid()
    {
      currentLevel, score := FirstLevel, 0;
    }

    /** `getLevelDescription`: the text names the level, its souls and its ghosts. */
    function LevelDescription(): (text: string)
      reads this
      ensures Valid() ==> ReadDescription(text) == Some((currentLevel, SoulsPerLevel(), GhostCount()))
    {
      Describe(currentLevel, SoulsPerLevel(), GhostCount())
    }
  }

  /** The level reached after `n` calls to `nextLevel` from a fresh start. */
  function LevelAfter(n: nat): int {
    if n == 0 then FirstLevel
    else var l := LevelAfter(n - 1); if l < MaxLevel then l + 1 else MaxLevel
  }

  /** Advancing climbs one level per call until it stops at the last level. */
  lemma {:induction false} LevelAfterCaps(n: nat)
    ensures LevelAfter(n) == if n < MaxLevel then n + 1 else MaxLevel
  {
    if n > 0 {
      LevelAfterCaps(n - 1);
    }
  }
}
