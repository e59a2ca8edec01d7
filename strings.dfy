/** The string formatting the graph generator relies on: the decimal text of
    a non-negative integer (what a JavaScript template literal `${n}` yields)
    and `String.fromCharCode`, with the facts that make generated ids unique. */
module Strings {
  import opened Seqs

  /** The decimal digit character of `d`. */
  function Digit(d: int): (c: char)
    requires 0 <= d < 10
    ensures '0' <= c <= '9'
  {
    (48 + d) as char
  }

  /** Decimal text without leading zeros. */
  function NatToString(n: nat): string {
    if n < 10 then [Digit(n)] else NatToString(n / 10) + [Digit(n % 10)]
  }

  predicate IsDigits(s: string) {
    forall i :: 0 <= i < |s| ==> '0' <= s[i] <= '9'
  }

  /** The text of a number is a non-empty run of digits, and more than one
      digit exactly when the number is at least ten. */
  lemma {:induction false} NatToStringDigits(n: nat)
    ensures IsDigits(NatToString(n)) && |NatToString(n)| >= 1
    ensures |NatToString(n)| == 1 <==> n < 10
  {
    if n >= 10 {
      NatToStringDigits(n / 10);
    }
  }

  /** Different numbers print differently. */
  lemma {:induction false} NatToStringInjective(a: nat, b: nat)
    requires NatToString(a) == NatToString(b)
    ensures a == b
  {
    NatToStringDigits(a);
    NatToStringDigits(b);
    if a >= 10 && b >= 10 {
      var sa, sb := NatToString(a), NatToString(b);
      assert sa[..|sa| - 1] == NatToString(a / 10);
      assert sb[..|sb| - 1] == NatToString(b / 10);
      NatToStringInjective(a / 10, b / 10);
      assert Digit(a % 10) == sa[|sa| - 1] == sb[|sb| - 1] == Digit(b % 10);
    }
  }

  /** After a run of digits the first dash is the one that follows it. */
  lemma DashAfterDigits(x: string, y: string)
    requires IsDigits(x)
    ensures '-' in x + "-" + y && IndexOf(x + "-" + y, '-') == |x|
  {
    var s := x + "-" + y;
    assert s[|x|] == '-';
  }

  /** Two digit strings joined by a dash split back into the same two
      strings: `${s}-${t}` determines `s` and `t`. */
  lemma DashJoinInjective(x: string, y: string, z: string, w: string)
    requires IsDigits(x) && IsDigits(y) && IsDigits(z) && IsDigits(w)
    requires x + "-" + y == z + "-" + w
    ensures x == z && y == w
  {
    var s := x + "-" + y;
    DashAfterDigits(x, y);
    DashAfterDigits(z, w);
    assert x == s[..|x|] == z;
    assert y == s[|x| + 1..] == w;
  }

  /** `String.fromCharCode`: the code is taken modulo 2^16 and read as one
      UTF-16 code unit. A lone surrogate is not a character here and is
      replaced by U+FFFD. */
  function CharFromCode(code: nat): (c: char)
    ensures code < 0xD800 ==> c as int == code
  {
    var unit := code % 0x1_0000;
    if 0xD800 <= unit < 0xE000 then '�' else unit as char
  }
}
