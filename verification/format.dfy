/** The two small text formatters that feed the decision payload
    (`fmt_hm_from_minutes` and `fmt_remaining` in app/policy.py), each with a
    reader that recovers the numbers it printed. */
module Format {
  import opened Wrappers
  import opened Decimal

  /** Python's `f"{n:02d}"`: at least two characters, zero-padded after any sign. */
  function Pad2(n: int): (s: string)
    ensures 0 <= n < 100 ==> |s| == 2 && AllDigits(s)
  {
    if 0 <= n < 10 then "0" + NatToString(n) else IntToString(n)
  }

  /** `fmt_hm_from_minutes`: minute-of-day as "HH:MM" (floor division and a
      non-negative remainder, as Python's `//` and `%` by 60). */
  function FormatHM(m: int): (s: string)
    ensures 0 <= m < 6000 ==> |s| == 5 && s[2] == ':' && AllDigits(s[..2]) && AllDigits(s[3..])
  {
    Pad2(m / 60) + ":" + Pad2(m % 60)
  }

  /** Reads "H:MM" back into minutes: the hour part is any integer text, the
      minute part exactly two digits below 60. */
  function ParseHM(s: string): Option<int> {
    if |s| < 4 || s[|s| - 3] != ':' then None
    else
      var hours := ParseInt(s[..|s| - 3]);
      var mm := s[|s| - 2..];
      if hours.None? || !AllDigits(mm) || ParseNat(mm) >= 60 then None
      else Some(hours.value * 60 + ParseNat(mm))
  }

  lemma Pad2Reads(n: int)
    ensures ParseInt(Pad2(n)) == Some(n)
  {
    if 0 <= n < 10 {
      var d := NatToString(n);
      ParseNatLeadingZero(d);
      ParseNatOfNatToString(n);
      assert Pad2(n) == "0" + d;
    } else {
      ParseIntOfIntToString(n);
    }
  }

  lemma Pad2ReadsMinutes(n: int)
    requires 0 <= n < 60
    ensures |Pad2(n)| == 2 && AllDigits(Pad2(n)) && ParseNat(Pad2(n)) == n
  {
    Pad2Reads(n);
    var s := Pad2(n);
    assert s[0] != '-' && s[0] != '+';
  }

  /** The "HH:MM" text names exactly the minute it was made from, for every
      integer, including the negative and past-midnight ends a stored schedule
      may carry. */
  lemma {:induction false} FormatHMRoundTrip(m: int)
    ensures ParseHM(FormatHM(m)) == Some(m)
  {
    var h, mm := m / 60, m % 60;
    var s := FormatHM(m);
    Pad2ReadsMinutes(mm);
    Pad2Reads(h);
    assert s == Pad2(h) + ":" + Pad2(mm);
    assert s[..|s| - 3] == Pad2(h);
    assert s[|s| - 2..] == Pad2(mm);
  }

  /** What `fmt_remaining` shows: whole hours and the minutes past them. */
  datatype Shown = Shown(hours: nat, minutes: nat)

  /** `fmt_remaining`: a negative count reads as zero; "Xh Ymin" from one hour
      on, "Ymin" below it; seconds past the last whole minute are dropped. */
  function FormatRemaining(seconds: int): (s: string)
    ensures seconds >= 3600 <==> 'h' in s
  {
    var total := if seconds < 0 then 0 else seconds;
    var minutes := total / 60;
    var h := minutes / 60;
    var mm := minutes % 60;
    assert 'h' !in NatToString(mm) && 'h' !in "min";
    if h > 0 then NatToString(h) + "h " + NatToString(mm) + "min" else NatToString(mm) + "min"
  }

  /** Reads "Xh Ymin" or "Ymin" back into hours and minutes. */
  function ParseRemaining(s: string): Option<Shown> {
    var k := DigitRun(s);
    if k == 0 then None
    else
      var first := ParseNat(s[..k]);
      var rest := s[k..];
      if rest == "min" then Some(Shown(0, first))
      else if |rest| >= 2 && rest[..2] == "h " then
        var tail := rest[2..];
        var k2 := DigitRun(tail);
        if k2 > 0 && tail[k2..] == "min" then Some(Shown(first, ParseNat(tail[..k2]))) else None
      else None
  }

  /** A digit string followed by text that does not start with a digit
      splits back into the two at the end of the digit run. */
  lemma DigitsThen(d: string, rest: string)
    requires AllDigits(d)
    requires |rest| > 0 && !IsDigit(rest[0])
    ensures DigitRun(d + rest) == |d|
    ensures (d + rest)[..|d|] == d && (d + rest)[|d|..] == rest
  {
    DigitRunOfPrefix(d, rest);
  }

  /** The text for `h` hours and `mm` minutes reads back as exactly those. */
  lemma ReadsShown(h: nat, mm: nat)
    ensures h > 0 ==> ParseRemaining(NatToString(h) + "h " + NatToString(mm) + "min") == Some(Shown(h, mm))
    ensures ParseRemaining(NatToString(mm) + "min") == Some(Shown(0, mm))
  {
    ReadsMinutes(mm);
    if h > 0 {
      ReadsHours(h, mm);
    }
  }

  lemma ReadsMinutes(mm: nat)
    ensures ParseRemaining(NatToString(mm) + "min") == Some(Shown(0, mm))
  {
    ParseNatOfNatToString(mm);
    ParsesMinutes(NatToString(mm));
  }

  lemma ReadsHours(h: nat, mm: nat)
    requires h > 0
    ensures ParseRemaining(NatToString(h) + "h " + NatToString(mm) + "min") == Some(Shown(h, mm))
  {
    ParseNatOfNatToString(h);
    ParseNatOfNatToString(mm);
    ParsesHours(NatToString(h), NatToString(mm));
  }

  lemma ParsesMinutes(dm: string)
    requires 1 <= |dm| && AllDigits(dm)
    ensures ParseRemaining(dm + "min") == Some(Shown(0, ParseNat(dm)))
  {
    DigitsThen(dm, "min");
  }

  lemma ParsesHours(dh: string, dm: string)
    requires 1 <= |dh| && AllDigits(dh)
    requires 1 <= |dm| && AllDigits(dm)
    ensures ParseRemaining(dh + "h " + dm + "min") == Some(Shown(ParseNat(dh), ParseNat(dm)))
  {
    var tail := dm + "min";
    var rest := "h " + tail;
    Regroup(dh, "h ", dm, "min");
    assert DigitRun(dh + rest) == |dh| && (dh + rest)[..|dh|] == dh && (dh + rest)[|dh|..] == rest by {
      DigitsThen(dh, rest);
    }
    assert rest != "min" && |rest| >= 2 && rest[..2] == "h " && rest[2..] == tail by {
      HoursMark(tail);
    }
    assert DigitRun(tail) == |dm| && tail[..|dm|] == dm && tail[|dm|..] == "min" by {
      DigitsThen(dm, "min");
    }
    ParseRemainingHours(dh + rest, dh, rest, tail, dm);
  }

  lemma Regroup(a: string, b: string, c: string, d: string)
    ensures a + b + c + d == a + (b + (c + d))
  {
  }

  /** The hours mark "h " in front of any text. */
  lemma HoursMark(t: string)
    ensures "h " + t != "min"
    ensures |"h " + t| >= 2 && ("h " + t)[..2] == "h " && ("h " + t)[2..] == t
  {
    assert ("h " + t)[0] == 'h';
  }

  /** How `ParseRemaining` reads text already cut into its hour digits, the
      mark "h ", its minute digits and "min". */
  lemma ParseRemainingHours(s: string, dh: string, rest: string, tail: string, dm: string)
    requires 1 <= |dh| && AllDigits(dh) && AllDigits(dm)
    requires DigitRun(s) == |dh| && s[..|dh|] == dh && s[|dh|..] == rest
    requires rest != "min" && |rest| >= 2 && rest[..2] == "h " && rest[2..] == tail
    requires 1 <= |dm| && DigitRun(tail) == |dm| && tail[..|dm|] == dm && tail[|dm|..] == "min"
    ensures ParseRemaining(s) == Some(Shown(ParseNat(dh), ParseNat(dm)))
  {
  }

  /** The remaining-time text names the clamped remaining time rounded down to
      whole minutes, split into hours and minutes below 60. */
  lemma {:induction false} FormatRemainingRoundTrip(seconds: int)
    ensures var total := if seconds < 0 then 0 else seconds;
            match ParseRemaining(FormatRemaining(seconds))
            case Some(v) =>
              && v.minutes < 60
              && v.hours * 3600 + v.minutes * 60 <= total < v.hours * 3600 + v.minutes * 60 + 60
            case None => false
  {
    var total := if seconds < 0 then 0 else seconds;
    var minutes := total / 60;
    var h := minutes / 60;
    var mm := minutes % 60;
    ReadsShown(h, mm);
    assert ParseRemaining(FormatRemaining(seconds)) == Some(Shown(h, mm));
    assert total == minutes * 60 + total % 60;
    assert minutes == h * 60 + mm;
    assert h * 3600 + mm * 60 == minutes * 60;
  }
}
