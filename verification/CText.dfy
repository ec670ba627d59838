/** NUL-terminated text inside a buffer. */
module CText {
  import opened Bytes

  /** The text in `a` from `i` to the NUL at `e`. */
  ghost predicate TextAt(a: array<Byte>, i: int, e: int)
    reads a
  {
    0 <= i <= e < a.Length && a[e] == NUL && forall k :: i <= k < e ==> a[k] != NUL
  }

  ghost function Rest(a: array<Byte>, i: int, e: int): seq<Byte>
    reads a
    requires 0 <= i <= e < a.Length
  {
    a[i..e]
  }
}
