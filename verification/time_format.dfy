/**
 The popup's `formatTime` (popup/popup.js:95-100): a number of minutes shown
 as `"45m"`, `"2h"` or `"1h 30m"`, and a reader that recovers the minutes.
 */
module TimeFormat {
  import opened Basics
  import opened Decimal

  /** Index of the first `c` in `s`. */
  function IndexOf(s: string, c: char): (r: Option<nat>)
    ensures r.None? ==> c !in s
    ensures r.Some? ==> r.value < |s| && s[r.value] == c && c !in s[..r.value]
  {
    if |s| == 0 then None
    else if s[0] == c then Some(0)
    else
      match IndexOf(s[1..], c)
      case None => None
      case Some(k) =>
        assert s[..k + 1] == [s[0]] + s[1..][..k];
        Some(k + 1)
  }

  /** Whole minutes below an hour print as minutes; otherwise as hours, with
      the left-over minutes appended only when there are any. */
  function FormatTime(minutes: int): (s: string)
    ensures |s| >= 2
    ensures minutes < 60 <==> 'h' !in s
    ensures s[|s| - 1] == 'h' <==> minutes >= 60 && minutes % 60 == 0
  {
    if minutes < 60 then
      var digits := IntToString(minutes);
      assert 'h' !in digits by {
        forall k | 0 <= k < |digits| ensures digits[k] != 'h' {
          if k > 0 { assert IsDigit(digits[k]); }
        }
      }
      digits + "m"
    else
      var hours := minutes / 60;
      var mins := minutes % 60;
      var h := NatToString(hours);
      assert (h + "h")[|h|] == 'h';
      if mins == 0 then h + "h"
      else h + "h " + NatToString(mins) + "m"
  }

  /** Inverse of `FormatTime`: `"{h}h"` with at least one hour, `"{h}h {r}m"`
      with at least one hour and `r` from 1 to 59, or `"{m}m"` below an hour,
      each number without leading zeros. Any other text is rejected. */
  function ParseTime(s: string): Option<int> {
    if |s| == 0 then None
    else
      var body := s[..|s| - 1];
      if s[|s| - 1] == 'h' then
        match ParseNat(body)
        case Some(h) => if h >= 1 then Some(h * 60) else None
        case None => None
      else if s[|s| - 1] == 'm' then
        match IndexOf(body, 'h')
        case None =>
          (match ParseInt(body)
           case Some(m) => if m < 60 then Some(m) else None
           case None => None)
        case Some(k) =>
          if k + 1 < |body| && body[k + 1] == ' ' then
            match (ParseNat(body[..k]), ParseNat(body[k + 2..]))
            case (Some(h), Some(m)) => if h >= 1 && 1 <= m < 60 then Some(h * 60 + m) else None
            case _ => None
          else None
      else None
  }

  lemma DigitsHaveNoH(s: string)
    requires AllDigits(s)
    ensures 'h' !in s
  {
    assert forall k :: 0 <= k < |s| ==> s[k] != 'h' by {
      forall k | 0 <= k < |s| ensures s[k] != 'h' {
        assert IsDigit(s[k]);
      }
    }
  }

  /** The first `c` in `a + [c] + b` is the one after `a` when `a` has none. */
  lemma IndexOfFirst(a: string, c: char, b: string)
    requires c !in a
    ensures IndexOf(a + [c] + b, c) == Some(|a|)
  {
    var x := a + [c] + b;
    assert x[|a|] == c;
    assert forall k :: 0 <= k < |a| ==> x[k] == a[k];
    assert forall k :: |a| < k <= |x| ==> x[..k][|a|] == c;
  }

  /** Below an hour: `"{m}m"` reads back as `m`. */
  lemma MinutesRoundTrip(minutes: int)
    requires minutes < 60
    ensures ParseTime(FormatTime(minutes)) == Some(minutes)
  {
    var digits := IntToString(minutes);
    var s := digits + "m";
    assert FormatTime(minutes) == s;
    assert s[..|s| - 1] == digits;
    IntRoundTrip(minutes);
    assert IndexOf(digits, 'h').None? by {
      forall k | 0 <= k < |digits| ensures digits[k] != 'h' {
        if k > 0 { assert IsDigit(digits[k]); }
      }
    }
  }

  /** Whole hours: `"{h}h"` reads back as `60 h`. */
  lemma WholeHoursRoundTrip(minutes: int)
    requires minutes >= 60 && minutes % 60 == 0
    ensures ParseTime(FormatTime(minutes)) == Some(minutes)
  {
    var h := NatToString(minutes / 60);
    var s := h + "h";
    assert FormatTime(minutes) == s;
    assert s[..|s| - 1] == h;
    NatRoundTrip(minutes / 60);
  }

  /** `"{h}h {m}m"` parses to `60 h + m` whenever its two numbers parse. */
  lemma ParseHoursAndMinutes(h: string, m: string, hv: nat, mv: nat)
    requires 'h' !in h
    requires ParseNat(h) == Some(hv) && ParseNat(m) == Some(mv)
    requires hv >= 1 && 1 <= mv < 60
    ensures ParseTime(h + ['h'] + (" " + m) + "m") == Some(hv * 60 + mv)
  {
    var body := h + ['h'] + (" " + m);
    var s := body + "m";
    assert s[..|s| - 1] == body;
    IndexOfFirst(h, 'h', " " + m);
    assert body[|h| + 1] == ' ';
    assert body[..|h|] == h;
    assert body[|h| + 2..] == m;
  }

  /** The text `FormatTime` gives for hours with left-over minutes. */
  lemma HoursAndMinutesText(minutes: int)
    requires minutes >= 60 && minutes % 60 != 0
    ensures FormatTime(minutes) == NatToString(minutes / 60) + ['h'] + (" " + NatToString(minutes % 60)) + "m"
  {
  }

  /** Hours and minutes: `"{h}h {r}m"` reads back as `60 h + r`. */
  lemma HoursAndMinutesRoundTrip(minutes: int)
    requires minutes >= 60 && minutes % 60 != 0
    ensures ParseTime(FormatTime(minutes)) == Some(minutes)
  {
    var hv: nat := minutes / 60;
    var mv: nat := minutes % 60;
    HoursAndMinutesText(minutes);
    DigitsHaveNoH(NatToString(hv));
    NatRoundTrip(hv);
    NatRoundTrip(mv);
    ParseHoursAndMinutes(NatToString(hv), NatToString(mv), hv, mv);
    assert hv * 60 + mv == minutes;
  }

  /** `FormatTime` loses nothing: the minutes can be read back from the text. */
  lemma FormatTimeRoundTrip(minutes: int)
    ensures ParseTime(FormatTime(minutes)) == Some(minutes)
  {
    if minutes < 60 {
      MinutesRoundTrip(minutes);
    } else if minutes % 60 == 0 {
      WholeHoursRoundTrip(minutes);
    } else {
      HoursAndMinutesRoundTrip(minutes);
    }
  }

  /** Distinct minute counts never print the same. */
  lemma FormatTimeInjective(a: int, b: int)
    requires FormatTime(a) == FormatTime(b)
    ensures a == b
  {
    FormatTimeRoundTrip(a);
    FormatTimeRoundTrip(b);
  }

  /** `"{h}h"` with `h >= 1` is what `FormatTime` prints for `60 h`. */
  lemma WholeHoursCanonical(hs: string)
    requires ParseNat(hs).Some? && ParseNat(hs).value >= 1
    ensures FormatTime(ParseNat(hs).value * 60) == hs + "h"
  {
    var h := ParseNat(hs).value;
    NatCanonical(hs);
    assert (h * 60) / 60 == h && (h * 60) % 60 == 0;
  }

  /** `"{m}m"` with `m < 60` is what `FormatTime` prints for `m`. */
  lemma MinutesCanonical(ms: string)
    requires ParseInt(ms).Some? && ParseInt(ms).value < 60
    ensures FormatTime(ParseInt(ms).value) == ms + "m"
  {
    IntCanonical(ms);
  }

  lemma SplitHour(h: nat, r: nat)
    requires r < 60
    ensures (h * 60 + r) / 60 == h && (h * 60 + r) % 60 == r
  {
  }

  /** `"{h}h {r}m"` with `h >= 1` and `1 <= r < 60` is what `FormatTime`
      prints for `60 h + r`. */
  lemma HoursAndMinutesCanonical(hs: string, rs: string)
    requires ParseNat(hs).Some? && ParseNat(hs).value >= 1
    requires ParseNat(rs).Some? && 1 <= ParseNat(rs).value < 60
    ensures FormatTime(ParseNat(hs).value * 60 + ParseNat(rs).value) == hs + ['h'] + (" " + rs) + "m"
  {
    var h := ParseNat(hs).value;
    var r := ParseNat(rs).value;
    NatCanonical(hs);
    NatCanonical(rs);
    SplitHour(h, r);
    HoursAndMinutesText(h * 60 + r);
  }

  /** The reader accepts only what `FormatTime` prints: text that reads as
      `m` is `FormatTime(m)`. With the round trip, `FormatTime(m)` is the one
      text for `m`, so no padding and no other split of hours and minutes. */
  lemma FormatTimeCanonical(s: string)
    requires ParseTime(s).Some?
    ensures FormatTime(ParseTime(s).value) == s
  {
    var body := s[..|s| - 1];
    assert s == body + [s[|s| - 1]];
    if s[|s| - 1] == 'h' {
      WholeHoursCanonical(body);
    } else {
      match IndexOf(body, 'h')
      case None =>
        MinutesCanonical(body);
      case Some(k) =>
        var hs := body[..k];
        var rs := body[k + 2..];
        assert body == hs + ['h'] + (" " + rs);
        HoursAndMinutesCanonical(hs, rs);
    }
  }
}
