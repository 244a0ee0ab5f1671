/** Decimal rendering of counts, as a JavaScript template literal prints a
    non-negative integer, and the reading back of such a rendering. */
module Decimal {
  import opened Wrappers
  import opened Text

  function DigitValue(c: char): (d: nat)
    requires IsDigit(c)
    ensures d < 10
  {
    c as int - '0' as int
  }

  function DigitChar(d: nat): (c: char)
    requires d < 10
    ensures IsDigit(c) && DigitValue(c) == d
  {
    ('0' as int + d) as char
  }

  predicate AllDigits(s: string) {
    forall k :: 0 <= k < |s| ==> IsDigit(s[k])
  }

  /** The number a string of decimal digits denotes. */
  function ValueOf(s: string): nat
    requires AllDigits(s)
  {
    if |s| == 0 then 0 else 10 * ValueOf(s[..|s| - 1]) + DigitValue(s[|s| - 1])
  }

  /** `${n}` for a non-negative integer: digits only, no leading zero, and
      denoting `n`. */
  function Show(n: nat): (s: string)
    ensures 1 <= |s| && AllDigits(s)
    ensures |s| == 1 || s[0] != '0'
    ensures ValueOf(s) == n
  {
    if n < 10 then [DigitChar(n)]
    else
      var prefix := Show(n / 10);
      var s := prefix + [DigitChar(n % 10)];
      assert s[..|s| - 1] == prefix;
      s
  }

  /** Reads the longest run of decimal digits at the start of `s`, and the rest. */
  function ParseNat(s: string): Option<(nat, string)> {
    var e := SpanEnd(s, 0, Digit);
    if e == 0 then None else Some((ValueOf(s[..e]), s[e..]))
  }

  /** Reading back a rendered number gives the number and leaves what follows. */
  lemma ParseShow(n: nat, rest: string)
    requires rest == [] || !IsDigit(rest[0])
    ensures ParseNat(Show(n) + rest) == Some((n, rest))
  {
    var s := Show(n) + rest;
    var m := |Show(n)|;
    assert forall k :: 0 <= k < m ==> InClass(s[k], Digit);
    assert m == |s| || !InClass(s[m], Digit);
    var e := SpanEnd(s, 0, Digit);
    assert e == m;
    assert s[..m] == Show(n) && s[m..] == rest;
  }
}
