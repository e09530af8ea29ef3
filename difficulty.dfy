/** The three board presets of main.js. */
module Difficulty {

  datatype Level = Easy | Medium | Hard

  /** A board size and the number of bombs placed on it. */
  datatype Config = Config(rows: nat, cols: nat, bombs: nat)

  /** The preset of each level: square boards, always with at least one safe cell. */
  function Preset(level: Level): (c: Config)
    ensures 0 < c.rows && c.rows == c.cols
    ensures 0 < c.bombs < c.rows * c.cols
  {
    match level
    case Easy => Config(9, 9, 10)
    case Medium => Config(14, 14, 40)
    case Hard => Config(18, 18, 60)
  }
}
