/** The handle's textual form, `Wilson (<namespace>) (<count> items)`, with
    the count written in decimal as a JavaScript template literal writes an
    integer. */
module Display {

  predicate IsDigits(s: string) {
    forall i :: 0 <= i < |s| ==> '0' <= s[i] <= '9'
  }

  function Digit(d: nat): (c: char)
    requires d < 10
    ensures '0' <= c <= '9' && c as int - '0' as int == d
  {
    ('0' as int + d) as char
  }

  /** The decimal numeral of `n`: digits only, no leading zero. */
  function Decimal(n: nat): (r: string)
    ensures |r| > 0 && IsDigits(r)
    ensures |r| > 1 ==> r[0] != '0'
    decreases n
  {
    if n < 10 then [Digit(n)] else Decimal(n / 10) + [Digit(n % 10)]
  }

  /** The number a string of decimal digits denotes. */
  function DigitsValue(s: string): nat
    requires IsDigits(s)
  {
    if s == [] then 0
    else DigitsValue(s[..|s| - 1]) * 10 + (s[|s| - 1] as int - '0' as int)
  }

  /** Reading the numeral back gives the number. */
  lemma {:induction false} DecimalRoundTrip(n: nat)
    ensures DigitsValue(Decimal(n)) == n
    decreases n
  {
    if n >= 10 {
      DecimalRoundTrip(n / 10);
      var r := Decimal(n);
      assert r[..|r| - 1] == Decimal(n / 10);
    }
  }

  /** `toString()`: `Wilson (<namespace>) (<count> items)`. */
  function Describe(namespace: string, count: nat): string {
    "Wilson (" + namespace + ") (" + Decimal(count) + " items)"
  }

  /** A namespace followed by ") (" and a run of digits splits in one way
      only: the digits cannot reach back past the last "(". */
  lemma SplitAtLastParen(a1: string, d1: string, a2: string, d2: string)
    requires IsDigits(d1) && IsDigits(d2)
    requires a1 + ") (" + d1 == a2 + ") (" + d2
    ensures a1 == a2 && d1 == d2
  {
    var x := a1 + ") (" + d1;
    var y := a2 + ") (" + d2;
    // the '(' just before each run of digits is not a digit, so neither run
    // can be longer than the other
    assert x[|x| - |d1| - 1] == '(' && y[|y| - |d2| - 1] == '(';
    assert forall q :: |x| - |d1| <= q < |x| ==> x[q] == d1[q - (|x| - |d1|)];
    assert forall q :: |y| - |d2| <= q < |y| ==> y[q] == d2[q - (|y| - |d2|)];
    assert |d1| == |d2|;
    assert d1 == x[|x| - |d1|..] == y[|y| - |d2|..] == d2;
    assert a1 == x[..|a1|] == y[..|a2|] == a2;
  }

  /** The description determines both the namespace and the count, even when
      the namespace itself contains parentheses or digits. */
  lemma DescribeInjective(ns1: string, n1: nat, ns2: string, n2: nat)
    requires Describe(ns1, n1) == Describe(ns2, n2)
    ensures ns1 == ns2 && n1 == n2
  {
    var d1, d2 := Decimal(n1), Decimal(n2);
    var x1, x2 := ns1 + ") (" + d1, ns2 + ") (" + d2;
    var s := Describe(ns1, n1);
    assert s == "Wilson (" + x1 + " items)";
    assert Describe(ns2, n2) == "Wilson (" + x2 + " items)";
    assert x1 == s[8..|s| - 7] == x2;
    SplitAtLastParen(ns1, d1, ns2, d2);
    DecimalRoundTrip(n1);
    DecimalRoundTrip(n2);
  }
}
