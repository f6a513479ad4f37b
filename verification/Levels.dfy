/** The fill level of a circular buffer, as a reader sees it who does not lock the buffer. */
module Levels {

  /**
   * The two reads of the writer's position: a buffer found full at the first one counts as full; one
   * that has filled up by the second one looks empty, because its positions are the same.
   */
  function LevelSeen(full: bool, fill: nat, size: nat): (level: nat)
    requires fill <= size
    ensures full && fill == size ==> level == fill
    ensures !full && fill < size ==> level == fill
  {
    if full then size else if fill == size then 0 else fill
  }
}
