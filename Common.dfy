/** Values shared by every module of the model: an optional value (Python's
    `None` or a value), Python's truthiness of an optional string, and the
    integer conversions of `max(x, 0)` and `int(x)`. */
module Common {

  datatype Option<T> = None | Some(value: T)

  /** `bool(x)` for `x: str | None`: `None` and `""` are false. */
  predicate Truthy(s: Option<string>)
  {
    s.Some? && s.value != ""
  }

  /** `max(x, 0)` */
  function NonNegative(x: int): (r: nat)
    ensures r >= x && (r == x || r == 0)
  {
    if x > 0 then x else 0
  }

  /** `int(x)` for a float: truncation toward zero. */
  function Trunc(x: real): (i: int)
    ensures x >= 0.0 ==> i as real <= x < i as real + 1.0
    ensures x < 0.0 ==> i as real - 1.0 < x <= i as real
  {
    if x >= 0.0 then x.Floor else -((-x).Floor)
  }

  /** A non-empty sequence is its prefix followed by its last element. */
  lemma SplitLast<T>(s: seq<T>)
    requires |s| > 0
    ensures s == s[..|s| - 1] + [s[|s| - 1]]
  {
  }
}
