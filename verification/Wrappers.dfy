/** A value that may be missing, and what a stream may answer. */
module Wrappers {

  datatype Option<T> = None | Some(value: T)

  /** How a stream meets one request: it moves up to `n` bytes, asks to wait, or fails. */
  datatype Answer = Moves(n: nat) | Blocks | Fails

  /** The last of the answers that are used up between `before` and `after`. */
  function LastUsed(before: seq<Answer>, after: seq<Answer>): Option<Answer> {
    if |after| < |before| then Some(before[|before| - |after| - 1]) else None
  }

  predicate Later(before: seq<Answer>, after: seq<Answer>) {
    |after| <= |before| && after == before[|before| - |after|..]
  }

  lemma LaterTransitive(a: seq<Answer>, b: seq<Answer>, c: seq<Answer>)
    requires Later(a, b) && Later(b, c)
    ensures Later(a, c) && (LastUsed(b, c).Some? ==> LastUsed(a, c) == LastUsed(b, c))
  {
  }
}
