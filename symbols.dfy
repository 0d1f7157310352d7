/** The disambiguation tokens `#0`, `#1`, ...: `f"#{k}"`, a hash sign followed
    by the decimal rendering of `k`. */
module Symbols {
  import opened Lexicon
  import opened PhoneKey

  predicate IsDigit(c: char) { '0' <= c <= '9' }

  predicate IsDecimal(s: string) {
    |s| > 0 && forall i :: 0 <= i < |s| ==> IsDigit(s[i])
  }

  function DigitChar(d: nat): (c: char)
    requires d < 10
  {
    ('0' as int + d) as char
  }

  function DigitValue(c: char): nat
    requires IsDigit(c)
  {
    c as int - '0' as int
  }

  /** Python's `str(n)` for a non-negative integer. */
  function DecimalString(n: nat): (s: string)
    ensures IsDecimal(s)
  {
    if n < 10 then [DigitChar(n)] else DecimalString(n / 10) + [DigitChar(n % 10)]
  }

  /** Python's `int(s)` on a string of decimal digits. */
  function ParseDecimal(s: string): nat
    requires forall i :: 0 <= i < |s| ==> IsDigit(s[i])
  {
    if |s| == 0 then 0 else ParseDecimal(s[..|s| - 1]) * 10 + DigitValue(s[|s| - 1])
  }

  lemma {:induction false} ParseDecimalString(n: nat)
    ensures ParseDecimal(DecimalString(n)) == n
  {
    if n >= 10 {
      var s := DecimalString(n);
      assert s[..|s| - 1] == DecimalString(n / 10);
      ParseDecimalString(n / 10);
    }
  }

  /** A token of the reserved shape `#` followed by decimal digits. */
  predicate IsDisambigSymbol(t: Token) {
    |t| >= 2 && t[0] == '#' && IsDecimal(t[1..])
  }

  /** The disambiguation token `#k`. */
  function DisambigToken(k: nat): (t: Token)
    ensures IsDisambigSymbol(t) && ValidToken(t)
  {
    var t := "#" + DecimalString(k);
    assert t[1..] == DecimalString(k);
    t
  }

  /** Distinct indices give distinct tokens, so `#0` is never any `#k` with k >= 1. */
  lemma DisambigTokenInjective(a: nat, b: nat)
    ensures DisambigToken(a) == DisambigToken(b) <==> a == b
  {
    if DisambigToken(a) == DisambigToken(b) {
      assert DisambigToken(a)[1..] == DecimalString(a);
      assert DisambigToken(b)[1..] == DecimalString(b);
      ParseDecimalString(a);
      ParseDecimalString(b);
    }
  }
}
