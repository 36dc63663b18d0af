/** What several components share: bytes, status codes, optional values, letter case. */
module Common {
  type byte = b: int | 0 <= b < 256

  /** F1G_OK and F1G_ERR. */
  datatype Status = Ok | Err

  datatype Option<T> = None | Some(value: T)

  /** A key: `forall x: int :: LookInside(x) ==> P` is P, but a proof sees P only where LookInside is
      mentioned. */
  predicate LookInside(x: int) {
    true
  }

  // More keys, for predicates whose proofs must not open each other.

  predicate LookIntoText(x: int) {
    true
  }

  predicate LookAhead(x: int) {
    true
  }

  /** An output buffer begins with `s`. */
  ghost predicate Holds<T>(d: array<T>, s: seq<T>)
    reads d
  {
    |s| <= d.Length && forall j | 0 <= j < |s| :: d[j] == s[j]
  }

  /** What ends a line of an HTTP message. */
  const CRLF := "\r\n"

  /** A letter as strcasecmp compares it. */
  function Lower(c: char): char {
    if 'A' <= c <= 'Z' then c - 'A' + 'a' else c
  }
}
