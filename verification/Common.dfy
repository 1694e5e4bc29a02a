/** Shared vocabulary: optional values and the nanosecond time scale. */
module Common {

  datatype Option<+T> = None | Some(value: T)

  /** One second in the nanoseconds that every clock value of the model counts. */
  const SECOND: int := 1_000_000_000

  function Max(a: int, b: int): int {
    if a < b then b else a
  }

  function Min(a: int, b: int): int {
    if a < b then a else b
  }

  /** The elements of s that satisfy keep, in their order. */
  function Filter<T>(s: seq<T>, keep: T -> bool): (r: seq<T>) {
    if s == [] then []
    else if keep(s[0]) then [s[0]] + Filter(s[1..], keep)
    else Filter(s[1..], keep)
  }

  /** A name of n characters, so that different numbers give different names. */
  function Name(n: nat): (name: string)
    ensures |name| == n
  {
    if n == 0 then "" else Name(n - 1) + "x"
  }
}
