/** Text formatting shared by the models. */
module Text {

  /** The decimal digits of `n`, as Rust's `format!` and Python's `%d` write a non-negative integer. */
  function Decimal(n: nat): (r: string)
    ensures |r| >= 1 && forall i :: 0 <= i < |r| ==> '0' <= r[i] <= '9'
  {
    if n < 10 then [(48 + n) as char] else Decimal(n / 10) + [(48 + n % 10) as char]
  }
}
