/** Decimal numerals, as an f-string prints a non-negative index. */
module Numerals {

  predicate IsDigit(c: char) {
    '0' <= c <= '9'
  }

  function Digit(d: nat): (c: char)
    requires d < 10
    ensures IsDigit(c) && c as int == '0' as int + d
  {
    ('0' as int + d) as char
  }

  function Dec(n: nat): (s: string)
    ensures |s| >= 1
    ensures forall k :: 0 <= k < |s| ==> IsDigit(s[k])
    ensures |s| == 1 <==> n < 10
  {
    if n < 10 then [Digit(n)] else Dec(n / 10) + [Digit(n % 10)]
  }

  lemma {:induction false} DecInjective(i: nat, j: nat)
    requires Dec(i) == Dec(j)
    ensures i == j
  {
    if i >= 10 && j >= 10 {
      var a, b := Dec(i), Dec(j);
      assert a[..|a| - 1] == Dec(i / 10) && b[..|b| - 1] == Dec(j / 10);
      assert a[|a| - 1] == Digit(i % 10) && b[|b| - 1] == Digit(j % 10);
      DecInjective(i / 10, j / 10);
    } else {
      assert Dec(i)[0] == Dec(j)[0];
    }
  }

  /** Why markers are put back in descending order: a numeral that another numeral starts with
      is the smaller number. */
  lemma {:induction false} PrefixIsSmaller(i: nat, j: nat)
    requires Dec(i) <= Dec(j)
    ensures i <= j
    ensures |Dec(i)| < |Dec(j)| ==> i < j
  {
    if |Dec(i)| == |Dec(j)| {
      DecInjective(i, j);
    } else {
      assert Dec(j)[..|Dec(j)| - 1] == Dec(j / 10);
      assert Dec(i) <= Dec(j / 10);
      PrefixIsSmaller(i, j / 10);
    }
  }
}
