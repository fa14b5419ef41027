/**
 * The two decimal conversions of Go's strconv package that the ring uses:
 * Itoa names the virtual replicas, and Atoi is the stub hash of the
 * repository's test.
 */
module Strconv {
  import opened Wrappers

  predicate IsDigit(c: char) {
    '0' <= c <= '9'
  }

  function DigitChar(d: nat): (c: char)
    requires d < 10
    ensures IsDigit(c)
  {
    ('0' as int + d) as char
  }

  function DigitValue(c: char): (d: nat)
    requires IsDigit(c)
    ensures d < 10 && DigitChar(d) == c
  {
    c as int - '0' as int
  }

  /** A non-empty string of decimal digits only. */
  predicate IsDecimal(s: string) {
    |s| > 0 && forall k :: 0 <= k < |s| ==> IsDigit(s[k])
  }

  /** strconv.Itoa on a non-negative int: shortest decimal, no sign, no leading zero. */
  function Itoa(n: nat): (s: string)
    ensures IsDecimal(s)
    ensures (s[0] == '0') == (n == 0)
    ensures n == 0 ==> s == "0"
  {
    if n < 10 then [DigitChar(n)] else Itoa(n / 10) + [DigitChar(n % 10)]
  }

  /** The value of a string of decimal digits, most significant first. */
  function ParseDigits(s: string): (n: nat)
    requires forall k :: 0 <= k < |s| ==> IsDigit(s[k])
  {
    if s == [] then 0 else ParseDigits(s[..|s| - 1]) * 10 + DigitValue(s[|s| - 1])
  }

  /**
   * strconv.Atoi: an optional sign followed by decimal digits; anything
   * else is a syntax error (None).
   */
  function Atoi(s: string): (r: Option<int>)
    ensures r.Some? <==> IsDecimal(s) || (|s| > 1 && (s[0] == '+' || s[0] == '-') && IsDecimal(s[1..]))
    ensures IsDecimal(s) ==> r == Some(ParseDigits(s))
    ensures |s| > 1 && (s[0] == '+' || s[0] == '-') && IsDecimal(s[1..]) ==>
      r == Some(if s[0] == '-' then -(ParseDigits(s[1..]) as int) else ParseDigits(s[1..]) as int)
  {
    if |s| > 0 && (s[0] == '+' || s[0] == '-') then
      if IsDecimal(s[1..]) then
        var v: int := ParseDigits(s[1..]);
        Some(if s[0] == '-' then -v else v)
      else None
    else if IsDecimal(s) then Some(ParseDigits(s))
    else None
  }

  lemma {:induction false} ParseItoa(n: nat)
    ensures ParseDigits(Itoa(n)) == n
  {
    if n >= 10 {
      var s := Itoa(n);
      assert s[..|s| - 1] == Itoa(n / 10);
      ParseItoa(n / 10);
    }
  }

  /** Parsing what Itoa prints gives the number back, so Itoa is injective. */
  lemma AtoiItoa(n: nat)
    ensures Atoi(Itoa(n)) == Some(n)
    ensures forall m: nat :: Itoa(m) == Itoa(n) ==> m == n
  {
    ParseItoa(n);
    forall m: nat | Itoa(m) == Itoa(n)
      ensures m == n
    {
      ParseItoa(m);
    }
  }
}
