/** Small shared vocabulary: optional values, results with an error side,
    and the integer/real helpers the Python code gets from `min`, `max`
    and `int()`. */
module Common {

  datatype Option<+T> = None | Some(value: T)

  datatype Result<+T, +E> = Ok(value: T) | Err(error: E)

  function MinInt(a: int, b: int): int { if a <= b then a else b }

  function MaxInt(a: int, b: int): int { if a >= b then a else b }

  function MinReal(a: real, b: real): real { if a <= b then a else b }

  function MaxReal(a: real, b: real): real { if a >= b then a else b }

  /** Python's `int()` applied to a float: truncation toward zero. */
  function Trunc(r: real): (n: int)
    ensures r >= 0.0 ==> 0 <= n && n as real <= r < n as real + 1.0
    ensures r < 0.0 ==> n <= 0 && n as real - 1.0 < r <= n as real
    ensures forall k: int {:trigger k as real} :: r == k as real ==> n == k
  {
    if r >= 0.0 then r.Floor else -((-r).Floor)
  }

  predicate StrictlyIncreasing(s: seq<int>)
  {
    forall i, j :: 0 <= i < j < |s| ==> s[i] < s[j]
  }

  /** Appending an element above every existing one keeps a sequence
      strictly increasing. */
  lemma IncreasingSnoc(s: seq<int>, x: int)
    requires StrictlyIncreasing(s) && forall i :: 0 <= i < |s| ==> s[i] < x
    ensures StrictlyIncreasing(s + [x])
  {
  }
}
