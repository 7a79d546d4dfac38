/**
 * Due-date text and local-day arithmetic.
 *
 * Taskwarrior exports dates in the compact form `YYYYMMDDTHHMMSSZ`. The widget
 * rebuilds the extended ISO 8601 form `YYYY-MM-DDTHH:MM:SSZ` by slicing, lets the
 * host parse it, then truncates "today" to local midnight and the due instant
 * to the start of its local hour before taking the difference.
 *
 * Instants are integer milliseconds since the epoch. The local time zone is a
 * fixed offset `zone` (milliseconds ahead of UTC), so local time is `t + zone`.
 */
module Timestamp {

  const MsHour := 3600000  // 60 * 60 * 1000
  const MsDay := 86400000  // 24 * MsHour

  predicate IsDigit(c: char) {
    '0' <= c <= '9'
  }

  /** `s.slice(start, end)` for non-negative bounds: both are clamped to the length. */
  function Slice(s: string, start: nat, end: nat): string {
    var e := if end < |s| then end else |s|;
    if start >= e then "" else s[start..e]
  }

  /** `s.slice(start)`: everything from `start` on, or nothing past the end. */
  function SliceFrom(s: string, start: nat): string {
    if start >= |s| then "" else s[start..]
  }

  /**
   * The due-string reformatting: the date parts joined by '-' followed by the
   * time parts joined by ':'. Short (malformed) strings are sliced with
   * clamping, as the host does, and still get all four separators.
   */
  function IsoTimestamp(compact: string): string {
    var dateParts := Slice(compact, 0, 4) + "-" + Slice(compact, 4, 6) + "-" + Slice(compact, 6, 8);
    var timeParts := Slice(compact, 8, 11) + ":" + Slice(compact, 11, 13) + ":" + SliceFrom(compact, 13);
    dateParts + timeParts
  }

  /**
   * For a string of 13 or more characters the reformatting inserts exactly
   * two '-' and two ':' at the extended form's separator positions.
   */
  lemma IsoShape(compact: string)
    requires |compact| >= 13
    ensures var iso := IsoTimestamp(compact);
      && |iso| == |compact| + 4
      && iso[4] == '-' && iso[7] == '-' && iso[13] == ':' && iso[16] == ':'
      && multiset(iso) == multiset(compact) + multiset{'-', '-', ':', ':'}
  {
    IsoPieces(compact);
    var p0, p1, p2, p3, p4 := compact[..4], compact[4..6], compact[6..11], compact[11..13], compact[13..];
    assert compact == p0 + p1 + p2 + p3 + p4;
  }

  /** The inverse of the reformatting: drop the four inserted separators. */
  function CompactTimestamp(iso: string): (compact: string)
    requires |iso| >= 17
    ensures |compact| == |iso| - 4
  {
    iso[..4] + iso[5..7] + iso[8..13] + iso[14..16] + iso[17..]
  }

  /** Taskwarrior's compact date form, e.g. 20191007T110000Z. */
  predicate IsCompact(s: string) {
    && |s| == 16
    && (forall i :: 0 <= i < 16 && i != 8 && i != 15 ==> IsDigit(s[i]))
    && s[8] == 'T' && s[15] == 'Z'
  }

  /** The extended ISO 8601 form, e.g. 2019-10-07T11:00:00Z. */
  predicate IsExtended(s: string) {
    && |s| == 20
    && (forall i :: 0 <= i < 20 && i !in {4, 7, 10, 13, 16, 19} ==> IsDigit(s[i]))
    && s[4] == '-' && s[7] == '-' && s[10] == 'T'
    && s[13] == ':' && s[16] == ':' && s[19] == 'Z'
  }

  /** Reformatting then dropping the separators gives back the original text. */
  lemma CompactRoundTrip(compact: string)
    requires |compact| >= 13
    ensures CompactTimestamp(IsoTimestamp(compact)) == compact
  {
    IsoLayout(compact);
    assert compact == compact[..4] + compact[4..6] + compact[6..11] + compact[11..13] + compact[13..];
  }

  /** The slices the reformatting takes out of a long enough compact string. */
  lemma IsoPieces(compact: string)
    requires |compact| >= 13
    ensures IsoTimestamp(compact) ==
      compact[..4] + "-" + compact[4..6] + "-" + compact[6..11] + ":" + compact[11..13] + ":" + compact[13..]
  {
    assert compact[6..8] + compact[8..11] == compact[6..11];
  }

  /** Where each piece of a long enough compact string lands after reformatting. */
  lemma IsoLayout(compact: string)
    requires |compact| >= 13
    ensures var iso := IsoTimestamp(compact);
      && iso[..4] == compact[..4]
      && iso[5..7] == compact[4..6]
      && iso[8..13] == compact[6..11]
      && iso[14..16] == compact[11..13]
      && iso[17..] == compact[13..]
  {
    IsoPieces(compact);
  }

  /** Dropping the separators of an extended timestamp and reformatting restores it. */
  lemma ExtendedRoundTrip(iso: string)
    requires IsExtended(iso)
    ensures IsoTimestamp(CompactTimestamp(iso)) == iso
  {
    SeparatorsRestored(iso);
  }

  /** Any text with the four separators in place survives their removal and reinsertion. */
  lemma SeparatorsRestored(iso: string)
    requires |iso| >= 17
    requires iso[4] == '-' && iso[7] == '-' && iso[13] == ':' && iso[16] == ':'
    ensures IsoTimestamp(CompactTimestamp(iso)) == iso
  {
    IsoPieces(CompactTimestamp(iso));
    CompactSlices(iso);
    Reassembled(iso);
  }

  /** The pieces of the compact text are the slices between the separators. */
  lemma CompactSlices(iso: string)
    requires |iso| >= 17
    ensures var c := CompactTimestamp(iso);
      && c[..4] == iso[..4] && c[4..6] == iso[5..7] && c[6..11] == iso[8..13]
      && c[11..13] == iso[14..16] && c[13..] == iso[17..]
  {
  }

  /** Text with the separators in place is its slices joined by those separators. */
  lemma Reassembled(iso: string)
    requires |iso| >= 17
    requires iso[4] == '-' && iso[7] == '-' && iso[13] == ':' && iso[16] == ':'
    ensures iso == iso[..4] + "-" + iso[5..7] + "-" + iso[8..13] + ":" + iso[14..16] + ":" + iso[17..]
  {
    assert iso[..4] + "-" + iso[5..7] + "-" == iso[..8];
    assert iso[8..13] + ":" + iso[14..16] + ":" == iso[8..17];
    assert iso == iso[..8] + iso[8..17] + iso[17..];
  }

  /** A well-formed compact timestamp becomes a well-formed extended one, and back. */
  lemma CompactIffExtended(compact: string)
    requires |compact| >= 13
    ensures IsCompact(compact) <==> IsExtended(IsoTimestamp(compact))
  {
    if IsCompact(compact) {
      CompactToExtended(compact);
    }
    if IsExtended(IsoTimestamp(compact)) {
      ExtendedToCompact(compact);
    }
  }

  lemma CompactToExtended(compact: string)
    requires IsCompact(compact)
    ensures IsExtended(IsoTimestamp(compact))
  {
    var iso := IsoTimestamp(compact);
    IsoPieces(compact);
    forall i | 0 <= i < 20 && i !in {4, 7, 10, 13, 16, 19} ensures IsDigit(iso[i]) {
      if i < 4 { assert iso[i] == compact[i]; }
      else if i < 7 { assert iso[i] == compact[i - 1]; }
      else if i < 13 { assert iso[i] == compact[i - 2]; }
      else if i < 16 { assert iso[i] == compact[i - 3]; }
      else { assert iso[i] == compact[i - 4]; }
    }
    assert iso[10] == compact[8];
    assert iso[19] == compact[15];
  }

  lemma ExtendedToCompact(compact: string)
    requires |compact| >= 13
    requires IsExtended(IsoTimestamp(compact))
    ensures IsCompact(compact)
  {
    var iso := IsoTimestamp(compact);
    IsoPieces(compact);
    forall i | 0 <= i < 16 && i != 8 && i != 15 ensures IsDigit(compact[i]) {
      if i < 4 { assert iso[i] == compact[i]; }
      else if i < 6 { assert iso[i + 1] == compact[i]; }
      else if i < 11 { assert iso[i + 2] == compact[i]; }
      else if i < 13 { assert iso[i + 3] == compact[i]; }
      else { assert iso[i + 4] == compact[i]; }
    }
    assert iso[10] == compact[8];
    assert iso[19] == compact[15];
  }

  /**
   * `setMinutes(0)`, `setSeconds(0)`, `setMilliseconds(0)` on an instant: the
   * start of its local hour. The hours are kept.
   */
  function StartOfHour(t: int, zone: int): (r: int)
    ensures r <= t < r + MsHour
    ensures (r + zone) % MsHour == 0
  {
    t - (t + zone) % MsHour
  }

  /** `setHours(0)` followed by the three calls above: local midnight. */
  function StartOfDay(t: int, zone: int): (r: int)
    ensures r <= t < r + MsDay
    ensures (r + zone) % MsDay == 0
  {
    t - (t + zone) % MsDay
  }

  /** The signed difference the widget computes between a due instant and now. */
  function DueDifference(due: int, now: int, zone: int): int {
    StartOfHour(due, zone) - StartOfDay(now, zone)
  }

  /** A whole number of days is a whole number of hours. */
  lemma MidnightIsWholeHour(x: int)
    requires x % 86400000 == 0
    ensures x % 3600000 == 0
  {
    var q := x / 86400000;
    assert x == (24 * q) * 3600000;
  }

  /** Local midnight is a fixed point: truncating again changes nothing. */
  lemma StartOfDayIdempotent(t: int, zone: int)
    ensures StartOfDay(StartOfDay(t, zone), zone) == StartOfDay(t, zone)
    ensures StartOfHour(StartOfDay(t, zone), zone) == StartOfDay(t, zone)
  {
    MidnightIsWholeHour(StartOfDay(t, zone) + zone);
  }

  /**
   * The difference is always a whole number of hours, but not of days: only
   * the due instant's minutes and below are cleared.
   */
  lemma DifferenceInWholeHours(due: int, now: int, zone: int)
    ensures DueDifference(due, now, zone) % MsHour == 0
  {
    var a, b := StartOfHour(due, zone), StartOfDay(now, zone);
    var p, q := (a + zone) / MsHour, (b + zone) / MsDay;
    assert a + zone == p * MsHour;
    assert b + zone == (24 * q) * MsHour;
    assert a - b == (p - 24 * q) * MsHour;
  }

  /**
   * A task due on the current local day has a non-negative difference of
   * less than a day, and it is zero only when it is due in the midnight hour.
   */
  lemma DueToday(due: int, now: int, zone: int)
    requires StartOfDay(due, zone) == StartOfDay(now, zone)
    ensures 0 <= DueDifference(due, now, zone) < MsDay
    ensures DueDifference(due, now, zone) == 0 <==> due - StartOfDay(due, zone) < MsHour
  {
    var m, a := StartOfDay(now, zone), StartOfHour(due, zone);
    var p, q := (a + zone) / MsHour, (m + zone) / MsDay;
    assert a + zone == p * MsHour;
    assert m + zone == (24 * q) * MsHour;
    // Both truncations are whole local hours, and they lie less than an hour apart
    // below `m` and less than a day above it.
    assert a - m == (p - 24 * q) * MsHour;
    assert -MsHour < a - m < MsDay;
    assert -1 < p - 24 * q < 24;
  }
}
