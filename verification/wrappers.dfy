/** The absent-or-present value used wherever the game code returns
    `null` or `undefined` (no winner, no move) or starts a search from an
    infinite sentinel. */
module Wrappers {

  datatype Option<+T> = None | Some(value: T)
}
