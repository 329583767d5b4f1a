/**
 * Go's `strconv.Atoi` and `strconv.Itoa` on a 64-bit platform, and Go's
 * wrap-around `int` addition. The pagination token of the explore service is
 * the decimal text of an offset, written with Itoa and read back with Atoi.
 */
module Decimal {
  import opened Wrappers

  const MinInt64: int := -0x8000_0000_0000_0000
  const MaxInt64: int := 0x7fff_ffff_ffff_ffff
  const TwoTo64: int := 0x1_0000_0000_0000_0000

  /** A value that fits Go's `int` on a 64-bit platform. */
  predicate InInt64(n: int) {
    MinInt64 <= n <= MaxInt64
  }

  /** Go's `int` arithmetic result: the two's-complement wrap of `x`. */
  function Wrap64(x: int): (r: int)
    ensures InInt64(r)
    ensures (x - r) % TwoTo64 == 0
    ensures InInt64(x) ==> r == x
  {
    (x - MinInt64) % TwoTo64 + MinInt64
  }

  predicate IsDigit(c: char) {
    '0' <= c <= '9'
  }

  predicate AllDigits(s: string) {
    forall i :: 0 <= i < |s| ==> IsDigit(s[i])
  }

  function DigitValue(c: char): (d: nat)
    requires IsDigit(c)
    ensures d < 10
  {
    (c as int) - ('0' as int)
  }

  function DigitChar(d: nat): (c: char)
    requires d < 10
    ensures IsDigit(c) && DigitValue(c) == d
  {
    (('0' as int) + d) as char
  }

  /** The number a string of decimal digits denotes, most significant digit first. */
  function DigitsValue(s: string): nat
    requires AllDigits(s)
  {
    if s == [] then 0 else DigitsValue(s[..|s| - 1]) * 10 + DigitValue(s[|s| - 1])
  }

  /** The syntax Atoi accepts: an optional '+' or '-' followed by at least one digit. */
  predicate IsSignedDecimal(s: string) {
    if |s| > 0 && (s[0] == '+' || s[0] == '-') then |s| > 1 && AllDigits(s[1..])
    else |s| > 0 && AllDigits(s)
  }

  /** The integer a signed decimal denotes, before any range check. */
  function SignedValue(s: string): int
    requires IsSignedDecimal(s)
  {
    if s[0] == '-' then -(DigitsValue(s[1..]) as int)
    else if s[0] == '+' then DigitsValue(s[1..])
    else DigitsValue(s)
  }

  /**
   * strconv.Atoi: strip one leading sign, then demand a non-empty run of
   * digits whose value fits the 64-bit `int`; anything else is an error
   * (None). Base 10 is explicit, so no underscores and no prefixes.
   */
  function Atoi(s: string): (r: Option<int>)
    ensures r.Some? ==> IsSignedDecimal(s) && InInt64(r.value)
    ensures !IsSignedDecimal(s) ==> r.None?
  {
    var negative := |s| > 0 && s[0] == '-';
    var body := if |s| > 0 && (s[0] == '+' || s[0] == '-') then s[1..] else s;
    if body == [] || !AllDigits(body) then None
    else
      var n := if negative then -(DigitsValue(body) as int) else DigitsValue(body);
      if InInt64(n) then Some(n) else None
  }

  /** Canonical decimal digits of a natural number: no leading zero except for "0" itself. */
  function NatDigits(v: nat): (s: string)
    ensures |s| > 0 && AllDigits(s)
    ensures DigitsValue(s) == v
    ensures s[0] == '0' ==> s == "0"
  {
    if v < 10 then [DigitChar(v)]
    else
      var prefix := NatDigits(v / 10);
      var s := prefix + [DigitChar(v % 10)];
      assert s[..|s| - 1] == prefix;
      s
  }

  /** strconv.Itoa: a '-' for negative numbers, then the canonical digits of the magnitude. */
  function Itoa(n: int): (s: string)
    ensures s != [] && IsSignedDecimal(s) && SignedValue(s) == n
    ensures s[0] != '+'
    ensures s[0] == '0' ==> s == "0"
    ensures s[0] == '-' ==> |s| > 1 && s[1] != '0'
  {
    if n < 0 then
      var s := "-" + NatDigits(-n);
      assert s[1..] == NatDigits(-n);
      s
    else NatDigits(n)
  }

  /** Atoi accepts every signed decimal in range and returns the value it denotes. */
  lemma AtoiAccepts(s: string)
    requires IsSignedDecimal(s) && InInt64(SignedValue(s))
    ensures Atoi(s) == Some(SignedValue(s))
  {
  }

  /** A signed decimal out of the 64-bit range is rejected. */
  lemma AtoiRejectsOutOfRange(s: string)
    requires IsSignedDecimal(s) && !InInt64(SignedValue(s))
    ensures Atoi(s) == None
  {
  }

  /** Round trip: Atoi reads back exactly what Itoa wrote, for every 64-bit `int`. */
  lemma AtoiItoa(n: int)
    requires InInt64(n)
    ensures Atoi(Itoa(n)) == Some(n)
  {
    AtoiAccepts(Itoa(n));
  }

  /** Leading zeros do not change the value: DigitsValue("0" + s) == DigitsValue(s). */
  lemma {:induction false} LeadingZero(s: string)
    requires AllDigits(s)
    ensures AllDigits("0" + s) && DigitsValue("0" + s) == DigitsValue(s)
  {
    var z := "0" + s;
    if s != [] {
      assert z[..|z| - 1] == "0" + s[..|s| - 1];
      LeadingZero(s[..|s| - 1]);
    } else {
      assert z[..|z| - 1] == [];
    }
  }

  /** Atoi accepts zero-padded tokens: "007" reads as 7. */
  lemma AtoiZeroPadded(s: string)
    requires |s| > 0 && AllDigits(s)
    ensures Atoi("0" + s) == Atoi(s)
  {
    LeadingZero(s);
  }
}
