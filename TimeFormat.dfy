/**
 * `formatTime` (App.tsx:20-24): seconds as `mm:ss`, minutes and seconds in
 * decimal, each padded on the left with '0' to at least two digits. The
 * callers pass the remaining time and the elapsed time, both never negative.
 */
module TimeFormat {
  import opened Types

  predicate IsDigit(c: char) {
    '0' <= c <= '9'
  }

  function DigitChar(d: nat): (c: char)
    requires d < 10
    ensures IsDigit(c) && c as int - '0' as int == d
  {
    ('0' as int + d) as char
  }

  /** `n.toString()` for a non-negative integer: decimal, no leading zeros. */
  function NatToString(n: nat): (s: string)
    ensures |s| >= 1 && (|s| == 1 <==> n < 10)
    ensures |s| > 1 ==> s[0] != '0'
    decreases n
  {
    if n < 10 then [DigitChar(n)] else NatToString(n / 10) + [DigitChar(n % 10)]
  }

  /** `s.padStart(2, '0')`. */
  function PadStart2(s: string): (r: string)
    ensures |r| == if |s| < 2 then 2 else |s|
    ensures r[|r| - |s|..] == s
    ensures forall i :: 0 <= i < |r| - |s| ==> r[i] == '0'
  {
    if |s| >= 2 then s else if |s| == 1 then "0" + s else "00"
  }

  /** `formatTime` (App.tsx:20-24): padded whole minutes, a colon, padded seconds. */
  function FormatTime(seconds: nat): string {
    var m := seconds / 60;
    var s := seconds % 60;
    PadStart2(NatToString(m)) + ":" + PadStart2(NatToString(s))
  }

  /**
   * The value of a string of decimal digits (leading zeros allowed), or
   * None when some character is not a digit.
   */
  function ParseDigits(s: string): Option<nat>
    decreases |s|
  {
    if s == [] then Some(0)
    else if !IsDigit(s[|s| - 1]) then None
    else match ParseDigits(s[..|s| - 1])
      case None => None
      case Some(v) => Some(v * 10 + (s[|s| - 1] as int - '0' as int))
  }

  /**
   * Reading an `mm:ss` display back: the two characters after the colon are
   * the seconds, the digits before it the minutes.
   */
  function ParseTime(t: string): Option<nat> {
    if |t| >= 5 && t[|t| - 3] == ':' then
      match (ParseDigits(t[..|t| - 3]), ParseDigits(t[|t| - 2..]))
      case (Some(m), Some(s)) => Some(m * 60 + s)
      case _ => None
    else None
  }

  lemma {:induction false} NatToStringParses(n: nat)
    ensures ParseDigits(NatToString(n)) == Some(n)
    decreases n
  {
    if n >= 10 {
      var s := NatToString(n);
      assert s[..|s| - 1] == NatToString(n / 10);
      NatToStringParses(n / 10);
    }
  }

  /** A leading zero does not change what a one-character string reads as. */
  lemma ZeroPrefixParses(s: string)
    requires |s| == 1
    ensures ParseDigits("0" + s) == ParseDigits(s)
  {
    var p := "0" + s;
    assert p[..1] == "0";
    assert s[..0] == [];
  }

  /** Padding a numeral to two digits does not change the value it reads as. */
  lemma PaddedParses(n: nat)
    ensures ParseDigits(PadStart2(NatToString(n))) == Some(n)
  {
    NatToStringParses(n);
    if n < 10 {
      ZeroPrefixParses(NatToString(n));
    }
  }

  lemma ShortNumeral(n: nat)
    requires n < 100
    ensures |NatToString(n)| <= 2
  {
    if n >= 10 {
      assert NatToString(n) == NatToString(n / 10) + [DigitChar(n % 10)];
    }
  }

  /** Two digit strings joined by a colon, the second two long, read back as minutes and seconds. */
  lemma ParseJoined(mm: string, ss: string, m: nat, sec: nat)
    requires |mm| >= 2 && |ss| == 2
    requires ParseDigits(mm) == Some(m) && ParseDigits(ss) == Some(sec)
    ensures ParseTime(mm + ":" + ss) == Some(m * 60 + sec)
  {
    var t := mm + ":" + ss;
    assert t[..|t| - 3] == mm;
    assert t[|t| - 2..] == ss;
  }

  /** The display of m minutes and sec seconds, for sec below 60, reads back as m * 60 + sec. */
  lemma PartsRoundTrip(m: nat, sec: nat)
    requires sec < 60
    ensures ParseTime(PadStart2(NatToString(m)) + ":" + PadStart2(NatToString(sec))) == Some(m * 60 + sec)
  {
    ShortNumeral(sec);
    PaddedParses(m);
    PaddedParses(sec);
    ParseJoined(PadStart2(NatToString(m)), PadStart2(NatToString(sec)), m, sec);
  }

  lemma FormatTimeParts(seconds: nat)
    ensures FormatTime(seconds) == PadStart2(NatToString(seconds / 60)) + ":" + PadStart2(NatToString(seconds % 60))
    ensures seconds / 60 * 60 + seconds % 60 == seconds && seconds % 60 < 60
  {
  }

  lemma LongNumeral(n: nat)
    requires n >= 100
    ensures |NatToString(n)| >= 3
  {
    assert NatToString(n) == NatToString(n / 10) + [DigitChar(n % 10)];
  }

  /** A padded numeral is two characters long exactly below 100. */
  lemma PaddedLength(n: nat)
    ensures |PadStart2(NatToString(n))| >= 2
    ensures |PadStart2(NatToString(n))| == 2 <==> n < 100
  {
    if n < 100 {
      ShortNumeral(n);
    } else {
      LongNumeral(n);
    }
  }

  lemma Joined(mm: string, ss: string)
    requires |ss| == 2
    ensures var t := mm + ":" + ss;
            && |t| == |mm| + 3 && t[|t| - 3] == ':'
            && t[..|t| - 3] == mm && t[|t| - 2..] == ss
  {
    var t := mm + ":" + ss;
    assert t[..|t| - 3] == mm;
    assert t[|t| - 2..] == ss;
  }

  lemma MinutesBelow100(seconds: nat)
    ensures seconds / 60 < 100 <==> seconds < 6000
  {
  }

  /**
   * t has the shape of a display of m minutes and sec seconds: at least five
   * characters with the colon third from the end, two digits after it reading
   * as sec, at least two digits before it reading as m.
   */
  predicate IsDisplayOf(t: string, m: nat, sec: nat) {
    && |t| >= 5 && t[|t| - 3] == ':'
    && ParseDigits(t[|t| - 2..]) == Some(sec)
    && ParseDigits(t[..|t| - 3]) == Some(m)
  }

  /** Two digit strings joined by a colon, and the parts they read as. */
  lemma DisplayShape(mm: string, ss: string, m: nat, sec: nat)
    requires |mm| >= 2 && |ss| == 2
    requires ParseDigits(mm) == Some(m) && ParseDigits(ss) == Some(sec)
    ensures IsDisplayOf(mm + ":" + ss, m, sec) && |mm + ":" + ss| == |mm| + 3
  {
    Joined(mm, ss);
  }

  lemma DisplayParts(seconds: nat)
    ensures var t := FormatTime(seconds);
            var mm, ss := PadStart2(NatToString(seconds / 60)), PadStart2(NatToString(seconds % 60));
            && |mm| >= 2 && |ss| == 2 && (|mm| == 2 <==> seconds < 6000)
            && ParseDigits(mm) == Some(seconds / 60) && ParseDigits(ss) == Some(seconds % 60)
            && t == mm + ":" + ss
  {
    FormatTimeParts(seconds);
    PaddedLength(seconds / 60);
    PaddedLength(seconds % 60);
    PaddedParses(seconds / 60);
    PaddedParses(seconds % 60);
    MinutesBelow100(seconds);
  }

  /**
   * The shape of a display: the minutes before the colon and the seconds
   * within the minute after it, each reading back as its number; exactly
   * five characters when the time is under 100 minutes.
   */
  lemma FormatTimeShape(seconds: nat)
    ensures IsDisplayOf(FormatTime(seconds), seconds / 60, seconds % 60)
    ensures |FormatTime(seconds)| == 5 <==> seconds < 6000
  {
    var mm, ss := PadStart2(NatToString(seconds / 60)), PadStart2(NatToString(seconds % 60));
    DisplayParts(seconds);
    DisplayShape(mm, ss, seconds / 60, seconds % 60);
  }

  /**
   * The display reads back as the number of seconds it was made from:
   * `formatTime` loses nothing.
   */
  lemma FormatTimeRoundTrip(seconds: nat)
    ensures ParseTime(FormatTime(seconds)) == Some(seconds)
  {
    FormatTimeParts(seconds);
    PartsRoundTrip(seconds / 60, seconds % 60);
  }
}
