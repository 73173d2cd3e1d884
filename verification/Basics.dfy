/** What several components share: an optional value, and decimal numerals. */
module Basics {
  datatype Option<+T> = None | Some(value: T)

  predicate Digit(c: char) {
    '0' <= c <= '9'
  }

  predicate Digits(s: string) {
    forall c <- s :: Digit(c)
  }

  function Decimal(s: string): nat
    requires Digits(s)
  {
    if s == [] then 0
    else
      assert s[|s| - 1] in s;
      Decimal(s[..|s| - 1]) * 10 + (s[|s| - 1] as int - '0' as int)
  }

  function Print(n: nat): (s: string)
    ensures s != [] && Digits(s) && Decimal(s) == n
  {
    var last := ('0' as int + n % 10) as char;
    if n < 10 then assert [last][..0] == []; [last]
    else
      var high := Print(n / 10);
      assert (high + [last])[..|high|] == high;
      high + [last]
  }
}
