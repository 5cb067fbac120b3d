/**
  The stopwatch face: a millisecond count split into minutes, seconds and
  centiseconds, each rendered as a decimal numeral left-padded with '0' to
  at least two characters.
 */
module TimeFormat {

  /** The three numbers shown on the stopwatch face. */
  datatype Components = Components(minutes: nat, seconds: nat, centiseconds: nat)

  /** The three text fields of the stopwatch face. */
  datatype Display = Display(minutes: string, seconds: string, centiseconds: string)

  /** The milliseconds that a reading of the face accounts for. */
  function Millis(c: Components): nat {
    c.minutes * 60000 + c.seconds * 1000 + c.centiseconds * 10
  }

  /** The reading of the face is exact up to the 10 ms it cannot show. */
  predicate Reads(ms: nat, c: Components) {
    c.seconds < 60 && c.centiseconds < 100 && Millis(c) <= ms < Millis(c) + 10
  }

  /** The arithmetic of formatTime: whole minutes, then whole seconds and centiseconds of what is left. */
  function Decompose(ms: nat): (c: Components)
    ensures Reads(ms, c)
  {
    Components(ms / 60000, (ms % 60000) / 1000, (ms % 1000) / 10)
  }

  /** Any reading that accounts for `ms` exactly is the one Decompose gives. */
  lemma DecomposeUnique(ms: nat, c: Components)
    requires Reads(ms, c)
    ensures c == Decompose(ms)
  {
    var e := ms - Millis(c);
    var sub := c.centiseconds * 10 + e;
    var rest := c.seconds * 1000 + sub;
    assert sub < 1000 && rest < 60000;
    assert ms == c.minutes * 60000 + rest;
    assert ms / 60000 == c.minutes && ms % 60000 == rest;
    assert rest / 1000 == c.seconds;
    assert ms == (c.minutes * 60 + c.seconds) * 1000 + sub;
    assert ms % 1000 == sub;
    assert sub / 10 == c.centiseconds;
  }

  predicate IsDigit(ch: char) {
    '0' <= ch <= '9'
  }

  function DigitValue(ch: char): nat
    requires IsDigit(ch)
  {
    ch as int - '0' as int
  }

  function DigitChar(d: nat): (ch: char)
    requires d < 10
    ensures IsDigit(ch) && DigitValue(ch) == d
  {
    ('0' as int + d) as char
  }

  predicate IsDecimal(s: string) {
    forall i :: 0 <= i < |s| ==> IsDigit(s[i])
  }

  /** The number a string of decimal digits denotes, most significant digit first. */
  function DecimalValue(s: string): nat
    requires IsDecimal(s)
  {
    if s == [] then 0 else DecimalValue(s[..|s| - 1]) * 10 + DigitValue(s[|s| - 1])
  }

  /** The numeral JavaScript's `String` gives for a non-negative integer: shortest, no leading zero. */
  function Digits(n: nat): (s: string)
    ensures IsDecimal(s) && 1 <= |s|
    ensures |s| == 1 <==> n < 10
    ensures n > 0 ==> s[0] != '0'
  {
    if n < 10 then [DigitChar(n)] else Digits(n / 10) + [DigitChar(n % 10)]
  }

  lemma {:induction false} DigitsRoundTrip(n: nat)
    ensures DecimalValue(Digits(n)) == n
  {
    if n >= 10 {
      var d := Digits(n / 10);
      DigitsRoundTrip(n / 10);
      assert (d + [DigitChar(n % 10)])[..|d|] == d;
    }
  }

  /** A string of digits that denotes zero is made of zeros only. */
  lemma {:induction false} ZeroValueAllZeros(s: string)
    requires IsDecimal(s) && DecimalValue(s) == 0
    ensures forall i :: 0 <= i < |s| ==> s[i] == '0'
  {
    if s != [] {
      var t := s[..|s| - 1];
      ZeroValueAllZeros(t);
      assert forall i :: 0 <= i < |t| ==> s[i] == t[i];
    }
  }

  /** Digits is the only numeral without a leading zero: every such numeral is Digits of its value. */
  lemma {:induction false} DigitsCanonical(s: string)
    requires IsDecimal(s) && 1 <= |s| && (|s| > 1 ==> s[0] != '0')
    ensures Digits(DecimalValue(s)) == s
  {
    var c := s[|s| - 1];
    if |s| == 1 {
      assert s == [DigitChar(DigitValue(c))];
    } else {
      var t := s[..|s| - 1];
      assert t[0] == s[0];
      DigitsCanonical(t);
      if DecimalValue(t) == 0 {
        ZeroValueAllZeros(t);
        assert false;
      }
      assert s == t + [DigitChar(DigitValue(c))];
    }
  }

  /** String.prototype.padStart with a one-character filler: never truncates. */
  function PadStart(s: string, width: nat, fill: char): (r: string)
    ensures |r| == if |s| < width then width else |s|
    ensures r[|r| - |s|..] == s
    ensures forall i :: 0 <= i < |r| - |s| ==> r[i] == fill
  {
    if |s| < width then seq(width - |s|, _ => fill) + s else s
  }

  /** The `pad` helper of formatTime. */
  function Pad(n: nat): string {
    PadStart(Digits(n), 2, '0')
  }

  lemma {:induction false} ZerosValue(z: string)
    requires forall i :: 0 <= i < |z| ==> z[i] == '0'
    ensures IsDecimal(z) && DecimalValue(z) == 0
  {
    if z != [] {
      ZerosValue(z[..|z| - 1]);
    }
  }

  /** Leading zeros do not change the number a numeral denotes. */
  lemma {:induction false} LeadingZerosValue(z: string, s: string)
    requires forall i :: 0 <= i < |z| ==> z[i] == '0'
    requires IsDecimal(s)
    ensures IsDecimal(z + s) && DecimalValue(z + s) == DecimalValue(s)
  {
    if s == [] {
      assert z + s == z;
      ZerosValue(z);
    } else {
      var t := s[..|s| - 1];
      LeadingZerosValue(z, t);
      assert (z + s)[..|z + s| - 1] == z + t;
    }
  }

  /** A padded field reads back as the number it shows; below 100 it has exactly two characters. */
  lemma PadRoundTrip(n: nat)
    ensures IsDecimal(Pad(n)) && DecimalValue(Pad(n)) == n
    ensures |Pad(n)| >= 2
    ensures n < 100 <==> |Pad(n)| == 2
    ensures n >= 10 ==> Pad(n) == Digits(n)
  {
    var d := Digits(n);
    DigitsRoundTrip(n);
    if |d| < 2 {
      LeadingZerosValue(seq(2 - |d|, _ => '0'), d);
    } else if n < 100 {
      assert |Digits(n / 10)| == 1;
    } else {
      assert |Digits(n / 10)| >= 2;
    }
  }

  /** What formatTime writes into the three text fields. */
  function FormatTime(ms: nat): Display {
    var c := Decompose(ms);
    Display(Pad(c.minutes), Pad(c.seconds), Pad(c.centiseconds))
  }

  /** The face reads back as the reading of `ms`; seconds and centiseconds always take two characters. */
  lemma FormatTimeReadsBack(ms: nat)
    ensures var f := FormatTime(ms);
      && IsDecimal(f.minutes) && IsDecimal(f.seconds) && IsDecimal(f.centiseconds)
      && Reads(ms, Components(DecimalValue(f.minutes), DecimalValue(f.seconds), DecimalValue(f.centiseconds)))
      && |f.seconds| == 2 && |f.centiseconds| == 2
      && (|f.minutes| == 2 <==> ms < 100 * 60000)
  {
    var c := Decompose(ms);
    PadRoundTrip(c.minutes);
    PadRoundTrip(c.seconds);
    PadRoundTrip(c.centiseconds);
  }

  /** The face after a reset shows 00:00.00. */
  lemma FormatTimeZero()
    ensures FormatTime(0) == Display("00", "00", "00")
  {
    assert Decompose(0) == Components(0, 0, 0);
    assert Digits(0) == "0";
    assert Pad(0) == "00";
  }
}
