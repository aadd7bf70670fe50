/** Vocabulary shared by the backend and frontend models: optional values,
    bytes, the clock and a few sequence helpers. */
module Base {

  /** A value that may be absent (Go's `(x, ok)` pairs and nil pointers). */
  datatype Option<+T> = None | Some(value: T)

  /** One byte of a Go `[]byte` or of a JavaScript `Uint8Array`. */
  newtype byte = x: int | 0 <= x < 256

  /** An instant on the server's clock, in nanoseconds. */
  type Time = int

  /** Durations in nanoseconds, the unit of Go's `time.Duration`. */
  const Second: int := 1000000000
  const Minute: int := 60 * Second
  const Hour: int := 60 * Minute

  /** `n` copies of `c` (Go's `strings.Repeat` of a one-character string). */
  function Repeat(c: char, n: nat): (r: string)
    ensures |r| == n
    ensures forall i :: 0 <= i < n ==> r[i] == c
  {
    seq(n, _ => c)
  }

  predicate IsPrefix<T(==)>(p: seq<T>, s: seq<T>) {
    |p| <= |s| && s[..|p|] == p
  }

  predicate EndsWith(s: string, suffix: string) {
    |suffix| <= |s| && s[|s| - |suffix|..] == suffix
  }

  function Max(a: int, b: int): int {
    if a >= b then a else b
  }
}
