/** ASCII decimal digits: reading a digit string as a number, and the
    zero-padded fixed-width renderings used by `isoformat`. */
module Decimal {

  predicate IsDigit(c: char) {
    '0' <= c <= '9'
  }

  predicate AllDigits(s: string) {
    forall i :: 0 <= i < |s| ==> IsDigit(s[i])
  }

  function DigitValue(c: char): nat
    requires IsDigit(c)
  {
    c as int - '0' as int
  }

  function DigitChar(d: nat): (c: char)
    requires d < 10
    ensures IsDigit(c) && DigitValue(c) == d
  {
    ('0' as int + d) as char
  }

  /** The number a digit string denotes, read most significant digit first
      (what Python's `int` and `float` give for such a string). */
  function Value(s: string): nat
    requires AllDigits(s)
  {
    if |s| == 0 then 0 else 10 * Value(s[..|s| - 1]) + DigitValue(s[|s| - 1])
  }

  /** `%02d`: two digits, zero padded. */
  function Pad2(n: nat): (r: string)
    requires n < 100
    ensures |r| == 2 && AllDigits(r) && Value(r) == n
  {
    var r := [DigitChar(n / 10), DigitChar(n % 10)];
    assert r[..1] == [r[0]] && [r[0]][..0] == [];
    assert Value([r[0]]) == n / 10;
    assert Value(r) == 10 * Value([r[0]]) + n % 10;
    r
  }

  /** `%04d`: four digits, zero padded. */
  function Pad4(n: nat): (r: string)
    requires n < 10000
    ensures |r| == 4 && AllDigits(r) && Value(r) == n
  {
    var hi := Pad2(n / 100);
    var r := hi + Pad2(n % 100);
    ValueAppend(hi, Pad2(n % 100));
    r
  }

  /** `%06d`: six digits, zero padded. */
  function Pad6(n: nat): (r: string)
    requires n < 1000000
    ensures |r| == 6 && AllDigits(r) && Value(r) == n
  {
    var hi := Pad4(n / 100);
    var r := hi + Pad2(n % 100);
    ValueAppend(hi, Pad2(n % 100));
    r
  }

  /** Appending two digits scales the prefix by one hundred. */
  lemma ValueAppend(a: string, b: string)
    requires AllDigits(a) && AllDigits(b) && |b| == 2
    ensures AllDigits(a + b) && Value(a + b) == 100 * Value(a) + Value(b)
  {
    var s := a + b;
    var a' := a + [b[0]];
    assert s[..|s| - 1] == a';
    assert a'[..|a'| - 1] == a;
    assert Value(a') == 10 * Value(a) + DigitValue(b[0]);
    assert b[..1] == [b[0]] && [b[0]][..0] == [];
    assert Value([b[0]]) == DigitValue(b[0]);
    assert Value(b) == 10 * DigitValue(b[0]) + DigitValue(b[1]);
    assert Value(s) == 10 * Value(a') + DigitValue(b[1]);
  }
}
