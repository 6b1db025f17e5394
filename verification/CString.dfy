/** NUL-terminated byte strings: a C string is the buffer up to and including its
    terminator, and a `char *` into it is an index. An index past the terminator is
    a read out of bounds, so verification also proves that none happens. */
module CString {

  datatype Option<+T> = None | Some(value: T)

  type byte = b: int | 0 <= b < 256

  ghost predicate IsCString(s: seq<byte>) {
    && 0 < |s|
    && s[|s| - 1] == 0
    && forall i | 0 <= i < |s| - 1 :: s[i] != 0
  }

  /** The bytes of a C string, without the terminator. */
  function Text(s: seq<byte>): seq<byte>
    requires 0 < |s|
  {
    s[..|s| - 1]
  }

  /** `n` occurs in `h` at position `at`. */
  predicate Occurs(h: seq<byte>, at: int, n: seq<byte>) {
    && 0 <= at
    && at + |n| <= |h|
    && forall i | 0 <= i < |n| :: h[at + i] == n[i]
  }

  /** The specification of strstr: the leftmost occurrence at or after `from`. */
  ghost predicate IsLeftmost(h: seq<byte>, from: int, n: seq<byte>, r: Option<nat>) {
    match r
    case None => forall j | from <= j :: !Occurs(h, j, n)
    case Some(i) => from <= i && Occurs(h, i, n) && forall j | from <= j < i :: !Occurs(h, j, n)
  }
}
