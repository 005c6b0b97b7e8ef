/** Optional values, results and the library's error type. */
module Errors {

  datatype Option<+T> = None | Some(value: T)

  /** The crate's error type, restricted to the two variants the data-directory
      layer can produce: a structural violation with its message, and a failure
      of the byte reader/writer (bounds exceeded), whose details are not kept. */
  datatype Error = Malformed(msg: string) | Scroll

  datatype Result<+T> = Ok(value: T) | Err(error: Error)

  predicate IsDigit(c: char)
  {
    '0' <= c <= '9'
  }

  /** The number a string of decimal digits denotes. */
  function DecimalValue(s: string): int
    requires forall k :: 0 <= k < |s| ==> IsDigit(s[k])
  {
    if s == [] then 0
    else 10 * DecimalValue(s[..|s| - 1]) + (s[|s| - 1] as int - '0' as int)
  }

  /** Decimal rendering of a natural number, as `format!("{}", n)` prints it:
      a non-empty string of digits, without a leading zero unless it is "0",
      denoting `n`. */
  function DecimalString(n: nat): (s: string)
    ensures |s| > 0 && forall k :: 0 <= k < |s| ==> IsDigit(s[k])
    ensures |s| == 1 || s[0] != '0'
    ensures DecimalValue(s) == n
    decreases n
  {
    if n < 10 then [Digit(n)]
    else
      var prefix := DecimalString(n / 10);
      var s := prefix + [Digit(n % 10)];
      assert s[..|s| - 1] == prefix;
      s
  }

  function Digit(d: nat): (c: char)
    requires d < 10
    ensures IsDigit(c) && c as int - '0' as int == d
  {
    ('0' as int + d) as char
  }
}
