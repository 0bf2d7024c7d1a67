/** `formatTime`: whole minutes, a colon, and the remaining seconds padded to
    two digits; and a parser that recovers the seconds from that text. */
module FormatTime {
  import opened Ipuz

  predicate IsDigit(ch: char)
  {
    '0' <= ch <= '9'
  }

  predicate AllDigits(s: string)
  {
    forall i :: 0 <= i < |s| ==> IsDigit(s[i])
  }

  function DigitChar(d: nat): (ch: char)
    requires d < 10
    ensures IsDigit(ch)
  {
    ('0' as int + d) as char
  }

  function DigitValue(ch: char): (d: nat)
    requires IsDigit(ch)
    ensures d < 10
  {
    ch as int - '0' as int
  }

  /** `n.toString()` for a non-negative integer: decimal, no leading zero. */
  function Digits(n: nat): (s: string)
    ensures |s| >= 1 && AllDigits(s)
    ensures |s| == 1 <==> n < 10
  {
    if n < 10 then [DigitChar(n)] else Digits(n / 10) + [DigitChar(n % 10)]
  }

  /** `toString().padStart(2, "0")`. */
  function Pad2(n: nat): (s: string)
    ensures n < 100 ==> |s| == 2 && AllDigits(s)
    ensures n >= 10 ==> s == Digits(n)
  {
    if n < 10 then ['0', DigitChar(n)] else Digits(n)
  }

  /** `formatTime(seconds)`: the minutes, a colon, then exactly two
      digits. */
  function FormatTime(seconds: nat): (t: string)
    ensures |t| >= 4 && t[|t| - 3] == ':'
    ensures AllDigits(t[..|t| - 3]) && AllDigits(t[|t| - 2..])
  {
    Digits(seconds / 60) + ":" + Pad2(seconds % 60)
  }

  /** The value of a string of decimal digits. */
  function ParseNat(s: string): nat
    requires AllDigits(s)
  {
    if |s| == 0 then 0 else ParseNat(s[..|s| - 1]) * 10 + DigitValue(s[|s| - 1])
  }

  /** Reads "m:ss" back: digits, a colon and exactly two digits below 60. */
  function ParseTime(t: string): Option<nat>
  {
    if |t| < 4 || t[|t| - 3] != ':' then None
    else
      var mins, secs := t[..|t| - 3], t[|t| - 2..];
      if !AllDigits(mins) || !AllDigits(secs) then None
      else if ParseNat(secs) >= 60 then None
      else Some(ParseNat(mins) * 60 + ParseNat(secs))
  }

  lemma {:induction false} ParseDigits(n: nat)
    ensures ParseNat(Digits(n)) == n
  {
    if n >= 10 {
      var s := Digits(n);
      assert s[..|s| - 1] == Digits(n / 10);
      ParseDigits(n / 10);
    }
  }

  /** The seconds field is always two digits, and reads back as the value. */
  lemma Pad2Spec(n: nat)
    requires n < 100
    ensures |Pad2(n)| == 2 && AllDigits(Pad2(n))
    ensures ParseNat(Pad2(n)) == n
  {
    if n < 10 {
      assert Pad2(n)[..1] == ['0'];
      assert ParseNat(['0']) == 0 by {
        assert ['0'][..0] == [];
      }
    } else {
      assert Digits(n) == Digits(n / 10) + [DigitChar(n % 10)];
      ParseDigits(n);
    }
  }

  /** The displayed time determines the elapsed seconds. */
  lemma FormatTimeRoundTrip(seconds: nat)
    ensures ParseTime(FormatTime(seconds)) == Some(seconds)
  {
    var m, s := seconds / 60, seconds % 60;
    var t := FormatTime(seconds);
    Pad2Spec(s);
    ParseDigits(m);
    assert t[..|t| - 3] == Digits(m);
    assert t[|t| - 2..] == Pad2(s);
    assert t[|t| - 3] == ':';
  }

  /** Different elapsed times are displayed differently. */
  lemma FormatTimeInjective(a: nat, b: nat)
    requires FormatTime(a) == FormatTime(b)
    ensures a == b
  {
    FormatTimeRoundTrip(a);
    FormatTimeRoundTrip(b);
  }
}
