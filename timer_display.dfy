/**
 * The elapsed-time display: `updateTimerDisplay` splits the seconds counter
 * into whole minutes and remaining seconds and shows them as MM:SS, each
 * part through `pad`, which puts a '0' in front of a single digit.
 *
 * `Digits` is the decimal text JavaScript gives a non-negative integer, and
 * `ValueOf` reads such a text back; the lemmas show that the display text
 * always reads back as the counter it was made from.
 */
module TimerDisplay {

  predicate IsDigit(c: char) {
    '0' <= c <= '9'
  }

  predicate AllDigits(s: string) {
    forall k | 0 <= k < |s| :: IsDigit(s[k])
  }

  function DigitChar(d: nat): (c: char)
    requires d < 10
    ensures IsDigit(c)
  {
    (48 + d) as char
  }

  /** The decimal text of `n`, most significant digit first and without leading zeros. */
  function Digits(n: nat): (r: string)
    ensures AllDigits(r) && |r| >= 1
    ensures |r| == 1 <==> n < 10
    ensures n < 100 <==> |r| <= 2
    ensures n > 0 ==> r[0] != '0'
    decreases n
  {
    if n < 10 then [DigitChar(n)] else Digits(n / 10) + [DigitChar(n % 10)]
  }

  /** The number a text of decimal digits stands for. */
  function ValueOf(s: string): nat
    requires AllDigits(s)
    decreases |s|
  {
    if s == [] then 0 else ValueOf(s[..|s| - 1]) * 10 + (s[|s| - 1] as int - 48)
  }

  /** Reading back the decimal text of `n` gives `n`. */
  lemma {:induction false} DigitsRoundTrip(n: nat)
    ensures ValueOf(Digits(n)) == n
    decreases n
  {
    var r := Digits(n);
    if n < 10 {
      assert r[..0] == [];
    } else {
      DigitsRoundTrip(n / 10);
      assert r[..|r| - 1] == Digits(n / 10);
    }
  }

  /** A leading '0' does not change the value of a text. */
  lemma {:induction false} LeadingZero(s: string)
    requires AllDigits(s)
    ensures AllDigits(['0'] + s) && ValueOf(['0'] + s) == ValueOf(s)
    decreases |s|
  {
    var z := ['0'] + s;
    if s == [] {
      assert z[..0] == [];
    } else {
      LeadingZero(s[..|s| - 1]);
      assert z[..|z| - 1] == ['0'] + s[..|s| - 1];
    }
  }

  /**
   * `pad`: a single digit gets a leading '0'; anything larger is shown as it is.
   * The text has at least two digits and still reads as `n`.
   */
  function Pad(n: nat): (r: string)
    ensures AllDigits(r) && |r| >= 2
    ensures ValueOf(r) == n
    ensures |r| == 2 <==> n < 100
    ensures r[0] == '0' <==> n < 10
  {
    DigitsRoundTrip(n);
    if n < 10 then
      LeadingZero(Digits(n));
      ['0'] + Digits(n)
    else
      Digits(n)
  }

  /** The minutes and remaining seconds of a counter of whole seconds. */
  function Clock(t: nat): (r: (nat, nat))
    ensures r.0 * 60 + r.1 == t && r.1 < 60
  {
    (t / 60, t % 60)
  }

  /** The text `updateTimerDisplay` puts in the timer element. */
  function TimerText(t: nat): string {
    Pad(Clock(t).0) + ":" + Pad(Clock(t).1)
  }

  /**
   * The display always ends in ':' and two digits of seconds below 60, and
   * reading the minutes before the ':' and the seconds after it gives back
   * the counter.
   */
  lemma TimerTextReadsBack(t: nat)
    ensures var r := TimerText(t);
      && |r| >= 5 && r[|r| - 3] == ':'
      && AllDigits(r[..|r| - 3]) && AllDigits(r[|r| - 2..])
      && ValueOf(r[|r| - 2..]) < 60
      && ValueOf(r[..|r| - 3]) * 60 + ValueOf(r[|r| - 2..]) == t
  {
    var m, s := Pad(Clock(t).0), Pad(Clock(t).1);
    var r := TimerText(t);
    assert r[..|r| - 3] == m;
    assert r[|r| - 2..] == s;
  }
}
