/** Vocabulary shared by the models: options, checked results and 64-bit unsigned integers. */
module Base {

  datatype Option<+T> = None | Some(value: T)

  /** A result whose refusal text is not modelled: the source's `Result<T, String>`. */
  datatype Outcome<+T> = Refused | Accepted(value: T)

  const U64_MAX: int := 0xFFFF_FFFF_FFFF_FFFF

  type U64 = n: int | 0 <= n <= 0xFFFF_FFFF_FFFF_FFFF

  /** `0u64.wrapping_sub(n)`. */
  function WrappingNeg(n: U64): (r: U64)
    ensures n == 0 ==> r == 0
    ensures n != 0 ==> n + r == U64_MAX + 1
  {
    if n == 0 then 0 else U64_MAX + 1 - n
  }

  /** The decimal digits of `n`, as `format!("{n}")` writes them. */
  function Decimal(n: nat): (s: string)
    ensures s != []
    ensures forall i :: 0 <= i < |s| ==> '0' <= s[i] <= '9'
  {
    var digit := ['0', '1', '2', '3', '4', '5', '6', '7', '8', '9'][n % 10];
    if n < 10 then [digit] else Decimal(n / 10) + [digit]
  }
}
