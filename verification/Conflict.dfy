/** What syncFile does when the destination already exists. */
module Conflict {
  datatype Strategy = Overwrite | Skip | Rename
}
