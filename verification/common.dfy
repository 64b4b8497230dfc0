/** Shared vocabulary of the planner model: optional values, error results,
    dates, fixed-point hours and the truthiness rules of Python and
    JavaScript that the source's `if x:` / `x || d` tests rely on.
 */
module Common {

  /** An optional value; `None` stands for a missing key, `null`, `undefined`
      or an empty form field, depending on the caller. */
  datatype Option<T> = None | Some(value: T) {

    /** The value, or `default` when there is none. */
    function GetOr(default: T): T {
      match this
      case Some(v) => v
      case None => default
    }
  }

  /** The result of an endpoint or a form action that can be refused with a
      message; on `Err` nothing is written. */
  datatype Result<T> = Ok(value: T) | Err(msg: string)

  /** A calendar day. ISO `YYYY-MM-DD` strings compare lexicographically in
      the same order as day numbers, so the source's string comparisons of
      dates are comparisons of these numbers. */
  type Date = int

  /** Hours as an integer number of tenths of an hour (8 hours is 80). */
  type Tenths = int

  /** `if x:` on an optional integer: absent and 0 are false. */
  predicate IntTruthy(x: Option<int>) {
    x.Some? && x.value != 0
  }

  /** `if s:` on an optional string: absent and "" are false. */
  predicate StrTruthy(s: Option<string>) {
    s.Some? && s.value != ""
  }

  /** `x if x else d` (Python) or `x || d` (JavaScript) on an optional integer. */
  function IntOr(x: Option<int>, d: int): (r: int)
    ensures IntTruthy(x) ==> r == x.value
    ensures !IntTruthy(x) ==> r == d
  {
    if IntTruthy(x) then x.value else d
  }

  /** `s if s else d` (Python) or `s || d` (JavaScript) on an optional string. */
  function StrOr(s: Option<string>, d: string): (r: string)
    ensures StrTruthy(s) ==> r == s.value
    ensures !StrTruthy(s) ==> r == d
  {
    if StrTruthy(s) then s.value else d
  }
}
