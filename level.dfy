/** Levels, their gravity interval, and the points a lock earns. */
module Levels {

  datatype Level = Level(number: int) {

    /** Milliseconds between two one-row drops at this level. */
    function GetSpeed(): (ms: nat)
      ensures 20 <= ms <= 750
      ensures number < 1 ==> ms == 20
    {
      match number
      case 1 => 750
      case 2 => 670
      case 3 => 590
      case 4 => 520
      case 5 => 440
      case 6 => 360
      case 7 => 280
      case 8 => 200
      case 9 => 125
      case 10 => 90
      case _ =>
        if 11 <= number <= 13 then 80
        else if 14 <= number <= 16 then 60
        else if 17 <= number <= 19 then 45
        else if 20 <= number <= 30 then 30
        else 20
    }
  }

  /** The level reached after lines cleared lines in total. */
  function LevelFor(totalLines: int): (l: Level)
    ensures totalLines >= 0 ==> l.number >= 1
    ensures (l.number - 1) * 10 <= totalLines < l.number * 10
  {
    Level(totalLines / 10 + 1)
  }

  /** Gravity never gets slower as the level rises. */
  lemma SpeedNonIncreasing(a: int, b: int)
    requires 1 <= a <= b
    ensures Level(b).GetSpeed() <= Level(a).GetSpeed()
  {
  }

  /** Every ten lines raise the level by one, starting from level 1. */
  lemma LevelSteps(totalLines: nat)
    ensures LevelFor(totalLines).number >= 1
    ensures LevelFor(totalLines + 10).number == LevelFor(totalLines).number + 1
    ensures totalLines < 10 <==> LevelFor(totalLines).number == 1
  {
  }

  /** Points for a lock that cleared n rows at level, given whether the
      previous clear was a four-row one. */
  function LineClearScore(n: nat, lastTetris: bool, level: int): (points: int)
    ensures level >= 1 ==> points >= 0
    ensures n == 0 ==> points == 0
  {
    if n > 0 then
      if n == 4 && lastTetris then 1200 * level
      else if n == 4 then 800 * level
      else 100 * level * n
    else 0
  }

  /** The back-to-back flag after a lock that cleared n rows. */
  function TetrisFlagAfter(n: nat, lastTetris: bool): (flag: bool)
    ensures n == 4 ==> flag
    ensures 1 <= n <= 3 ==> !flag
    ensures n == 0 ==> flag == lastTetris
  {
    if n > 0 then n == 4 else lastTetris
  }

  /** A four-row clear always arms the back-to-back bonus: two in a row at
      level 1 earn 800 and then 1200; a single row earns 100 per level and
      disarms it. */
  lemma BackToBack(level: int, lastTetris: bool)
    ensures TetrisFlagAfter(4, lastTetris)
    ensures LineClearScore(4, TetrisFlagAfter(4, lastTetris), level) == 1200 * level
    ensures LineClearScore(4, false, 1) == 800 && LineClearScore(4, true, 1) == 1200
    ensures LineClearScore(1, lastTetris, level) == 100 * level && !TetrisFlagAfter(1, lastTetris)
  {
  }
}
