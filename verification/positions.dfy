/** A variable's place in an environment: the index of its frame and its
    index inside that frame. The compilers compute positions and the
    machines look them up. */
module Positions {
  datatype Pos = Pos(frame: nat, index: nat)
}
