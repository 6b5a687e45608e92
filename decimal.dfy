/** Decimal text for ticket numbers: reading a stored number back as an
    integer and writing an integer zero-padded to a width of three.

    Reading accepts exactly the non-empty strings of ASCII decimal digits
    (leading zeros allowed); every other string is a parse failure. Writing
    never truncates: values past 999 simply take more digits. */
module Decimal {
  import opened Wrappers

  predicate IsDigit(c: char) {
    '0' <= c <= '9'
  }

  predicate AllDigits(s: string) {
    forall i :: 0 <= i < |s| ==> IsDigit(s[i])
  }

  function DigitValue(c: char): nat
    requires IsDigit(c)
  {
    c as int - '0' as int
  }

  /** The digit character for a value below ten; the inverse of DigitValue. */
  function DigitChar(d: nat): (c: char)
    requires d < 10
    ensures IsDigit(c) && DigitValue(c) == d
  {
    ('0' as int + d) as char
  }

  function Pow10(k: nat): (p: nat)
    ensures p >= 1
  {
    if k == 0 then 1 else 10 * Pow10(k - 1)
  }

  /** The value of a string of digits, most significant digit first. */
  function ValueOf(s: string): nat
    requires AllDigits(s)
  {
    if s == [] then 0 else 10 * ValueOf(s[..|s| - 1]) + DigitValue(s[|s| - 1])
  }

  /** Reading a stored number: None stands for the failure to parse.
      Exactly the non-empty digit strings parse, to a value that fits in
      as many digits as the string has. */
  function Parse(s: string): (r: Option<nat>)
    ensures r.Some? <==> s != [] && AllDigits(s)
    ensures r.Some? ==> r.value < Pow10(|s|)
  {
    if s != [] && AllDigits(s) then ValueBound(s); Some(ValueOf(s)) else None
  }

  /** Shortest decimal representation of n (no leading zeros). */
  function Show(n: nat): string {
    if n < 10 then [DigitChar(n)] else Show(n / 10) + [DigitChar(n % 10)]
  }

  function Zeros(k: nat): string {
    seq(k, _ => '0')
  }

  /** Left-pads s with zeros to at least the given width. */
  function PadLeft(s: string, width: nat): string {
    if |s| >= width then s else Zeros(width - |s|) + s
  }

  /** A value formatted as a ticket number, zero-padded to width three:
      a digit string of exactly three characters below 1000, and of the
      unpadded length from 1000 on. */
  function Format03(n: nat): (r: string)
    ensures AllDigits(r) && |r| >= 3
    ensures |r| == if n < 1000 then 3 else |Show(n)|
  {
    ShowDigits(n);
    ShowWidth(n, 3);
    assert Pow10(3) == 1000 by {
      assert Pow10(3) == 10 * Pow10(2) == 100 * Pow10(1);
    }
    ZerosValue(3, Show(n));
    PadLeft(Show(n), 3)
  }

  /** A digit string's value fits in as many digits as it has. */
  lemma {:induction false} ValueBound(s: string)
    requires AllDigits(s)
    ensures ValueOf(s) < Pow10(|s|)
    decreases |s|
  {
    if s != [] {
      var t := s[..|s| - 1];
      ValueBound(t);
      assert Pow10(|s|) == 10 * Pow10(|t|);
      assert ValueOf(s) == 10 * ValueOf(t) + DigitValue(s[|s| - 1]);
      assert 10 * ValueOf(t) <= 10 * (Pow10(|t|) - 1);
    }
  }

  lemma {:induction false} ShowDigits(n: nat)
    ensures |Show(n)| >= 1 && AllDigits(Show(n)) && ValueOf(Show(n)) == n
    decreases n
  {
    if n >= 10 {
      ShowDigits(n / 10);
      var s := Show(n);
      assert s[..|s| - 1] == Show(n / 10);
    }
  }

  /** Show(n) fits in k characters exactly when n is below 10^k. */
  lemma {:induction false} ShowWidth(n: nat, k: nat)
    requires k >= 1
    ensures |Show(n)| <= k <==> n < Pow10(k)
    decreases n
  {
    if n < 10 {
      assert Pow10(k) == 10 * Pow10(k - 1);
    } else if k == 1 {
      ShowDigits(n / 10);
      assert Pow10(1) == 10;
    } else {
      ShowWidth(n / 10, k - 1);
      var p := Pow10(k - 1);
      assert Pow10(k) == 10 * p;
      assert n / 10 < p <==> n < 10 * p;
    }
  }

  /** Leading zeros do not change the value of a digit string. */
  lemma {:induction false} ZerosValue(k: nat, s: string)
    requires AllDigits(s)
    ensures AllDigits(Zeros(k) + s) && ValueOf(Zeros(k) + s) == ValueOf(s)
    decreases |s|, k
  {
    var t := Zeros(k) + s;
    if s == [] {
      if k > 0 {
        ZerosValue(k - 1, s);
        assert t[..|t| - 1] == Zeros(k - 1) + s;
      }
    } else {
      ZerosValue(k, s[..|s| - 1]);
      assert t[..|t| - 1] == Zeros(k) + s[..|s| - 1];
    }
  }

  /** Reading back a formatted ticket number gives the value that was formatted. */
  lemma {:induction false} Format03RoundTrip(n: nat)
    ensures Parse(Format03(n)) == Some(n)
  {
    ShowDigits(n);
    var s := Show(n);
    if |s| < 3 {
      ZerosValue(3 - |s|, s);
    }
  }

  /** Formatted numbers have at least three characters, and exactly three
      precisely for the values 0..999; 1000 and above take more. */
  lemma {:induction false} Format03Width(n: nat)
    ensures |Format03(n)| >= 3
    ensures |Format03(n)| == 3 <==> n < 1000
  {
    ShowWidth(n, 3);
    assert Pow10(3) == 10 * Pow10(2) == 100 * Pow10(1) == 1000;
  }

  /** Distinct values get distinct ticket numbers. */
  lemma {:induction false} Format03Injective(a: nat, b: nat)
    ensures Format03(a) == Format03(b) ==> a == b
  {
    Format03RoundTrip(a);
    Format03RoundTrip(b);
  }

  /** Concrete formats: the first ticket, and the step past 999. */
  lemma {:induction false} Format03Examples()
    ensures Format03(1) == "001" && Format03(2) == "002" && Format03(3) == "003"
    ensures Format03(999) == "999" && Format03(1000) == "1000"
  {
    assert Show(99) == "99";
    assert Show(100) == "100";
  }
}
