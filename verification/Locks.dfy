/** A kernel lock, whose class is not among the repository's files: one holder at a time. */
module Locks {
  datatype Lock = Free | HeldBy(t: int)
}
