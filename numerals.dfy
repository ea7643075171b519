/** Shared option type and the decimal rendering that `%lu` and `%d`
    produce in the SDK's `snprintf` calls, with its inverse. */
module Common {

  datatype Option<+T> = None | Some(value: T)

  /** The part of `s` before the first `c` (all of `s` when there is none). */
  function TakeUntil(s: string, c: char): (r: string)
    ensures r <= s
    ensures c !in r
    ensures |r| == |s| || s[|r|] == c
  {
    if s == [] || s[0] == c then [] else [s[0]] + TakeUntil(s[1..], c)
  }

  /** Text followed by a separator it does not contain is cut off exactly at
      that separator. */
  lemma TakeUntilJoin(a: string, c: char, b: string)
    requires c !in a
    ensures TakeUntil(a + [c] + b, c) == a
    ensures TakeUntil(a, c) == a
  {
    assert (a + [c] + b)[|a|] == c;
  }

  lemma AppendAssociative<T>(a: seq<T>, b: seq<T>, c: seq<T>)
    ensures a + b + c == a + (b + c)
  {
  }

  /** The pieces of a sequence put back together, in order. */
  function Concat<T>(parts: seq<seq<T>>): seq<T> {
    if parts == [] then [] else Concat(parts[..|parts| - 1]) + parts[|parts| - 1]
  }

  lemma ConcatAppend<T>(a: seq<seq<T>>, b: seq<seq<T>>)
    ensures Concat(a + b) == Concat(a) + Concat(b)
    decreases |b|
  {
    if b == [] {
      assert a + b == a;
    } else {
      var init, last := b[..|b| - 1], b[|b| - 1];
      ConcatAppend(a, init);
      assert (a + b)[..|a + b| - 1] == a + init;
      assert (a + b)[|a + b| - 1] == last;
      AppendAssociative(Concat(a), Concat(init), last);
    }
  }

  /** Bytes of a file, of a digest, of a request payload. */
  type byte = bv8

  /** Values of the C `uint64_t` type. */
  const UINT64_LIMIT: nat := 0x1_0000_0000_0000_0000

  /** The range of a C `int`. */
  const INT_MIN: int := -0x8000_0000
  const INT_LIMIT: int := 0x8000_0000

  predicate IsCInt(i: int) {
    INT_MIN <= i < INT_LIMIT
  }

  predicate IsDigit(c: char) {
    '0' <= c <= '9'
  }

  predicate AllDigits(s: string) {
    forall i :: 0 <= i < |s| ==> IsDigit(s[i])
  }

  function DigitChar(d: nat): (c: char)
    requires d < 10
    ensures IsDigit(c)
  {
    (('0' as int) + d) as char
  }

  function DigitValue(c: char): (d: nat)
    requires IsDigit(c)
    ensures d < 10
  {
    (c as int) - ('0' as int)
  }

  /** `%lu` of a non-negative value: most significant digit first, no
      leading zero. */
  function Decimal(n: nat): string
    decreases n
  {
    if n < 10 then [DigitChar(n)] else Decimal(n / 10) + [DigitChar(n % 10)]
  }

  /** A rendering is a non-empty run of digits with no leading zero. */
  lemma {:induction false} DecimalDigits(n: nat)
    ensures |Decimal(n)| >= 1 && AllDigits(Decimal(n))
    ensures Decimal(n)[0] == '0' ==> n == 0
    decreases n
  {
    if n >= 10 {
      DecimalDigits(n / 10);
    }
  }

  /** `%d` of a C `int`: a minus sign before the magnitude when negative. */
  function SignedDecimal(i: int): (s: string)
  {
    if i < 0 then "-" + Decimal(-i) else Decimal(i)
  }

  /** The number a string of digits denotes (reading left to right). */
  function DigitsValue(s: string): nat
    requires AllDigits(s)
  {
    if s == [] then 0 else DigitsValue(s[..|s| - 1]) * 10 + DigitValue(s[|s| - 1])
  }

  function ParseDecimal(s: string): Option<nat> {
    if |s| > 0 && AllDigits(s) then Some(DigitsValue(s)) else None
  }

  function ParseSignedDecimal(s: string): Option<int> {
    if |s| > 0 && s[0] == '-' then
      match ParseDecimal(s[1..])
      case Some(m) => Some(-(m as int))
      case None => None
    else
      ParseDecimal(s)
  }

  lemma {:induction false} DecimalRoundTrip(n: nat)
    ensures ParseDecimal(Decimal(n)) == Some(n)
  {
    var s := Decimal(n);
    DecimalDigits(n);
    if n < 10 {
      assert s[..|s| - 1] == [];
      assert DigitsValue(s) == DigitsValue([]) * 10 + DigitValue(s[0]);
    } else {
      DecimalRoundTrip(n / 10);
      assert s[..|s| - 1] == Decimal(n / 10);
      assert DigitsValue(s) == (n / 10) * 10 + n % 10;
    }
  }

  lemma SignedDecimalRoundTrip(i: int)
    ensures ParseSignedDecimal(SignedDecimal(i)) == Some(i)
  {
    var s := SignedDecimal(i);
    if i < 0 {
      assert s[0] == '-' && s[1..] == Decimal(-i);
      DecimalRoundTrip(-i);
    } else {
      DecimalDigits(i);
      assert IsDigit(s[0]);
      DecimalRoundTrip(i);
    }
  }

  /** Distinct numbers render differently, so a decimal field identifies
      its value. */
  lemma DecimalInjective(a: nat, b: nat)
    requires Decimal(a) == Decimal(b)
    ensures a == b
  {
    DecimalRoundTrip(a);
    DecimalRoundTrip(b);
  }
}
