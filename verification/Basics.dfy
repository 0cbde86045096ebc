/** Vocabulary shared by every module: optional values, results, status codes
    and the 64-bit machine integers of the runtime. */
module Basics {

  datatype Option<+T> = None | Some(value: T)

  datatype Result<+T, +E> = Ok(value: T) | Err(error: E)

  /** The status codes that the modelled code returns or tests. `Other` stands
      for any further code, as returned by a resolver or a sub-parser. */
  datatype Status =
    | Success
    | BadArguments
    | BadFormat
    | BadState
    | BadToken
    | BadType
    | Corrupted
    | EndOfFile
    | InvalidValue
    | NotFound
    | Overflow
    | Underflow
    | Other(code: nat)

  type Failure = st: Status | st != Success witness BadState

  const TWO_63: int := 0x8000_0000_0000_0000
  const TWO_64: int := 0x1_0000_0000_0000_0000

  /** A value of the signed 64-bit type `ssize_t`. */
  type Int64 = n: int | -TWO_63 <= n < TWO_63

  /** Reduction of an integer to `ssize_t`, as wrapping arithmetic performs it. */
  function Wrap(n: int): (r: Int64)
    ensures (r - n) % TWO_64 == 0
  {
    var m := n % TWO_64;
    if m < TWO_63 then m else m - TWO_64
  }

  /** `-n` in wrapping arithmetic. */
  function Negated(n: int): Int64 {
    Wrap(-n)
  }

  /** `Wrap` is the only 64-bit value in its residue class. */
  lemma WrapUnique(n: int, r: Int64)
    requires (r - n) % TWO_64 == 0
    ensures Wrap(n) == r
  {
    var k, l := (r - n) / TWO_64, (Wrap(n) - n) / TWO_64;
    assert r - n == k * TWO_64 && Wrap(n) - n == l * TWO_64;
    assert r - Wrap(n) == (k - l) * TWO_64;
  }

  ghost predicate NoDuplicates<T>(s: seq<T>) {
    forall i, j :: 0 <= i < j < |s| ==> s[i] != s[j]
  }
}
