/** The popup's rendering of a millisecond count as "Nm" or "Hh Mm". */
module Popup {
  import opened Wrappers
  import opened Strings
  import opened Quota

  /**
   * `formatTime`: whole minutes (`Math.floor`, which Dafny's `/` by a
   * positive divisor matches for negative counts too), shown as minutes
   * alone below an hour and as hours and minutes from an hour on.
   */
  function FormatTime(milliseconds: int): (r: string)
    ensures |r| > 0 && r[|r| - 1] == 'm'
  {
    var minutes := milliseconds / MS_PER_MINUTE;
    if minutes < 60 then
      IntToString(minutes) + "m"
    else
      NatToString(minutes / 60) + "h " + NatToString(minutes % 60) + "m"
  }

  /** What a reader of the popup sees: minutes alone, or hours and minutes. */
  datatype Reading = Minutes(total: int) | HoursMinutes(hours: nat, minutes: nat)

  function TotalMinutes(reading: Reading): int {
    match reading
    case Minutes(total) => total
    case HoursMinutes(h, m) => h * 60 + m
  }

  /** Reads a displayed time back: "<int>m" or "<nat>h <nat>m". */
  function ReadTime(s: string): Option<Reading> {
    if |s| == 0 || s[|s| - 1] != 'm' then None
    else
      var body := s[..|s| - 1];
      match IndexOf(body, "h ")
      case None =>
        (match ParseInt(body)
         case None => None
         case Some(v) => Some(Minutes(v)))
      case Some(i) =>
        (match (ParseNat(body[..i]), ParseNat(body[i + 2..]))
         case (Some(h), Some(m)) => Some(HoursMinutes(h, m))
         case _ => None)
  }

  /** Below an hour the display reads back as the whole minutes alone. */
  lemma FormatTimeMinutesBranch(milliseconds: int)
    requires milliseconds / MS_PER_MINUTE < 60
    ensures ReadTime(FormatTime(milliseconds)) == Some(Minutes(milliseconds / MS_PER_MINUTE))
  {
    var minutes := milliseconds / MS_PER_MINUTE;
    var s := FormatTime(milliseconds);
    var body := IntToString(minutes);
    assert s[..|s| - 1] == body;
    NotContainsByChar(body, "h ", 0);
    ParseIntToString(minutes);
  }

  /**
   * From an hour on the display reads back as hours and minutes with the
   * minutes below 60, and together they are the whole minutes.
   */
  lemma FormatTimeHoursBranch(milliseconds: int)
    requires milliseconds / MS_PER_MINUTE >= 60
    ensures ReadTime(FormatTime(milliseconds)).Some?
    ensures ReadTime(FormatTime(milliseconds)).value.HoursMinutes?
    ensures var reading := ReadTime(FormatTime(milliseconds)).value;
      1 <= reading.hours && reading.minutes < 60 &&
      reading.hours * 60 + reading.minutes == milliseconds / MS_PER_MINUTE
  {
    var minutes := milliseconds / MS_PER_MINUTE;
    var hs, ms := NatToString(minutes / 60), NatToString(minutes % 60);
    var s := FormatTime(milliseconds);
    var body := hs + "h " + ms;
    assert s[..|s| - 1] == body;
    var k := |hs|;
    assert body[k..k + 2] == "h ";
    assert OccursAt(body, "h ", k);
    var i := IndexOf(body, "h ").value;
    forall j | 0 <= j < k ensures !OccursAt(body, "h ", j) {
      assert body[j] == hs[j];
    }
    assert i == k;
    assert body[..i] == hs;
    assert body[i + 2..] == ms;
    ParseNatToString(minutes / 60);
    ParseNatToString(minutes % 60);
  }

  /** Whichever branch is taken, the display loses no whole minute. */
  lemma FormatTimeLosesNoMinutes(milliseconds: int)
    ensures ReadTime(FormatTime(milliseconds)).Some?
    ensures TotalMinutes(ReadTime(FormatTime(milliseconds)).value) == milliseconds / MS_PER_MINUTE
  {
    if milliseconds / MS_PER_MINUTE < 60 {
      FormatTimeMinutesBranch(milliseconds);
    } else {
      FormatTimeHoursBranch(milliseconds);
    }
  }

  /** `Math.max(0, timeLimit - timeUsed)`, the remaining time shown beside each site. */
  function DisplayedRemaining(timeLimit: int, timeUsed: int): (r: int)
    ensures r >= 0
    ensures r == 0 <==> timeUsed >= timeLimit
    ensures timeUsed <= timeLimit ==> r == timeLimit - timeUsed
  {
    Quota.Remaining(timeLimit, timeUsed)
  }
}
