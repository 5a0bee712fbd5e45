/** The fixed game configurations offered to the player. The enum's
    constructor takes the mine count first and the side length second. */
module Difficulties {

  datatype Difficulty = EASY | MEDIUM | HARD {

    /** Side length of the square field. */
    function Size(): (n: nat)
      ensures n >= 10
    {
      match this
      case EASY => 10
      case MEDIUM => 15
      case HARD => 20
    }

    /** Number of mines; always leaves room for the 3x3 safe opening,
        so mine placement can always finish. */
    function Mines(): (m: nat)
      ensures 0 < m < Size() * Size() - 9
    {
      match this
      case EASY => 10
      case MEDIUM => 20
      case HARD => 40
    }
  }
}
