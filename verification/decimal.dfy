/** Decimal text of natural numbers, as Python's `str`/`format` writes a
    non-negative `int`: no sign, no leading zeros. */
module Decimal {

  import opened Results

  predicate IsDigit(c: char) {
    '0' <= c <= '9'
  }

  predicate AllDigits(s: string) {
    forall i :: 0 <= i < |s| ==> IsDigit(s[i])
  }

  function DigitChar(d: nat): (c: char)
    requires d < 10
    ensures IsDigit(c) && (c as int) - ('0' as int) == d
  {
    (('0' as int) + d) as char
  }

  /** `str(n)` for a non-negative integer. */
  function Show(n: nat): (s: string)
    ensures 1 <= |s| && AllDigits(s)
    ensures s[0] == '0' ==> n == 0
  {
    if n < 10 then [DigitChar(n)] else Show(n / 10) + [DigitChar(n % 10)]
  }

  /** The number a string of digits denotes. */
  function Value(s: string): nat
    requires AllDigits(s)
  {
    if |s| == 0 then 0
    else 10 * Value(s[..|s| - 1]) + ((s[|s| - 1] as int) - ('0' as int))
  }

  lemma {:induction false} ValueOfShow(n: nat)
    ensures Value(Show(n)) == n
  {
    if n >= 10 {
      var s := Show(n);
      assert s[..|s| - 1] == Show(n / 10);
      ValueOfShow(n / 10);
    }
  }

  /** Splits `s` into its longest all-digit prefix and the rest. */
  function SplitDigits(s: string): (p: (string, string))
    ensures p.0 + p.1 == s && AllDigits(p.0)
    ensures |p.1| == 0 || !IsDigit(p.1[0])
  {
    if |s| == 0 || !IsDigit(s[0]) then ([], s)
    else
      var q := SplitDigits(s[1..]);
      ([s[0]] + q.0, q.1)
  }

  lemma {:induction false} SplitDigitsPrefix(d: string, rest: string)
    requires AllDigits(d)
    requires |rest| == 0 || !IsDigit(rest[0])
    ensures SplitDigits(d + rest) == (d, rest)
  {
    if |d| > 0 {
      assert (d + rest)[0] == d[0];
      assert (d + rest)[1..] == d[1..] + rest;
      SplitDigitsPrefix(d[1..], rest);
      assert [d[0]] + d[1..] == d;
    } else {
      assert d + rest == rest;
    }
  }

  /** Reads back the number at the head of `s` written by `Show`, returning it
      and the text after it; `None` when `s` does not start with a digit. */
  function ReadNat(s: string): (r: Option<(nat, string)>)
    ensures r.Some? ==> |r.value.1| < |s| && r.value.1 == s[|s| - |r.value.1|..]
  {
    var p := SplitDigits(s);
    if |p.0| == 0 then None else Some((Value(p.0), p.1))
  }

  /** `Show` is inverted by `ReadNat` whenever the text that follows is not
      itself a digit. */
  lemma ReadShow(n: nat, rest: string)
    requires |rest| == 0 || !IsDigit(rest[0])
    ensures ReadNat(Show(n) + rest) == Some((n, rest))
  {
    SplitDigitsPrefix(Show(n), rest);
    ValueOfShow(n);
  }
}
