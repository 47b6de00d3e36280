/**
 * The creation time of a shadow copy after DateTimeOffset.Parse with
 * DateTimeStyles.AdjustToUniversal, and the "yyyyMMddTHHmmss" custom format
 * used to put it into a link name.
 */
module Clock {
  import opened Text

  /** A calendar time of day, with the sub-second part in 100 ns ticks. */
  datatype DateTime = DateTime(year: int, month: int, day: int,
                               hour: int, minute: int, second: int, ticks: int)
  {
    /** The ranges DateTimeOffset guarantees for its components. */
    predicate Valid() {
      1 <= year <= 9999 && 1 <= month <= 12 && 1 <= day <= 31
      && 0 <= hour <= 23 && 0 <= minute <= 59 && 0 <= second <= 59
      && 0 <= ticks <= 9_999_999
    }
  }

  /** A parsed creation time, already adjusted to UTC. */
  type UtcTime = t: DateTime | t.Valid() witness DateTime(1, 1, 1, 0, 0, 0, 0)

  /** Two times that agree to the second. */
  predicate SameSecond(a: UtcTime, b: UtcTime) {
    a.year == b.year && a.month == b.month && a.day == b.day
    && a.hour == b.hour && a.minute == b.minute && a.second == b.second
  }

  lemma Pow10Values()
    ensures Pow10(2) == 100 && Pow10(4) == 10000
  {
    assert Pow10(1) == 10;
    assert Pow10(3) == 1000;
  }

  /**
   * The custom format "yyyyMMddTHHmmss": each component zero-padded to its
   * width, a literal 'T' between date and time, nothing below the second.
   */
  function CompactStamp(t: UtcTime): (r: string)
    ensures |r| == 15
  {
    var yyyy, mm, dd := PadNumber(t.year, 4), PadNumber(t.month, 2), PadNumber(t.day, 2);
    var hh, mi, ss := PadNumber(t.hour, 2), PadNumber(t.minute, 2), PadNumber(t.second, 2);
    Pow10Values();
    assert |yyyy| == 4 && |mm| == 2 && |dd| == 2 && |hh| == 2 && |mi| == 2 && |ss| == 2;
    yyyy + mm + dd + "T" + hh + mi + ss
  }

  /** Where the six fields and the separator sit in the stamp. */
  lemma StampLayout(yyyy: string, mm: string, dd: string, hh: string, mi: string, ss: string)
    requires |yyyy| == 4 && |mm| == 2 && |dd| == 2 && |hh| == 2 && |mi| == 2 && |ss| == 2
    ensures var r := yyyy + mm + dd + "T" + hh + mi + ss;
      r[0..4] == yyyy && r[4..6] == mm && r[6..8] == dd && r[8] == 'T'
      && r[9..11] == hh && r[11..13] == mi && r[13..15] == ss
  {
  }

  /** Each component of the time can be read back from its place in the stamp. */
  lemma StampFields(t: UtcTime)
    ensures var r := CompactStamp(t);
      && r[8] == 'T'
      && AllDigits(r[0..4]) && DigitsValue(r[0..4]) == t.year
      && AllDigits(r[4..6]) && DigitsValue(r[4..6]) == t.month
      && AllDigits(r[6..8]) && DigitsValue(r[6..8]) == t.day
      && AllDigits(r[9..11]) && DigitsValue(r[9..11]) == t.hour
      && AllDigits(r[11..13]) && DigitsValue(r[11..13]) == t.minute
      && AllDigits(r[13..15]) && DigitsValue(r[13..15]) == t.second
  {
    Pow10Values();
    StampLayout(PadNumber(t.year, 4), PadNumber(t.month, 2), PadNumber(t.day, 2),
                PadNumber(t.hour, 2), PadNumber(t.minute, 2), PadNumber(t.second, 2));
  }

  /**
   * The stamp tells two times apart exactly when they differ somewhere from
   * the year down to the second; times within the same second share a stamp.
   */
  lemma StampDistinguishesSeconds(a: UtcTime, b: UtcTime)
    ensures CompactStamp(a) == CompactStamp(b) <==> SameSecond(a, b)
  {
    if CompactStamp(a) == CompactStamp(b) {
      StampFields(a);
      StampFields(b);
    }
  }

  /** In particular the ticks never reach the stamp. */
  lemma StampDropsTicks(a: UtcTime, ticks: int)
    requires 0 <= ticks <= 9_999_999
    ensures CompactStamp(a) == CompactStamp(a.(ticks := ticks))
  {
    StampDistinguishesSeconds(a, a.(ticks := ticks));
  }
}
