/**
 * What a workspace card derives from its record
 * (frontend/src/components/workspace-card.tsx): the registry link with
 * its GitHub fallback, and the "Updated ... ago" label.
 */
module WorkspaceCard {
  import opened Common
  import opened JsText
  import opened Dataset
  import Normalizer

  /** The registry button's target: the GitHub page when no valid URL was stored. */
  function RegistryLink(w: Workspace): (r: string)
    ensures w.registryUrl == InvalidUrlSentinel ==> r == GithubPrefix + w.repository
    ensures w.registryUrl != InvalidUrlSentinel ==> r == w.registryUrl
  {
    if w.registryUrl == InvalidUrlSentinel then GithubPrefix + w.repository else w.registryUrl
  }

  /**
   * For a normalised record, and a URL check that rejects the sentinel
   * text, the link is the repository's accepted URL, else its GitHub page.
   */
  lemma NormalizedRegistryLink(rt: Runtime, data: RawDataset, i: int, g: int, k: int)
    requires Normalizer.IsSource(data, i, g, k)
    requires !rt.isHttpUrl(InvalidUrlSentinel)
    ensures var key := data[i].0;
            var raw := data[i].1.value.githubPages.GetOr(GithubPrefix + key);
            RegistryLink(Normalizer.SourceRecord(rt, data, i, g, k)) ==
              if rt.isHttpUrl(raw) then raw else GithubPrefix + key
  {
    Normalizer.SourceRecordFields(rt, data, i, g, k);
  }

  /** The units of the label, smallest first. */
  datatype TimeUnit = Minute | Hour | Day | Week | Month | Year

  /** The unit's length in milliseconds; a month is 30 days and a year 365. */
  function UnitMs(u: TimeUnit): (ms: nat)
    ensures ms >= 60000
  {
    match u
    case Minute => 60000
    case Hour => 60 * 60000
    case Day => 24 * 60 * 60000
    case Week => 7 * 24 * 60 * 60000
    case Month => 30 * 24 * 60 * 60000
    case Year => 365 * 24 * 60 * 60000
  }

  function UnitName(u: TimeUnit): string {
    match u
    case Minute => "minute"
    case Hour => "hour"
    case Day => "day"
    case Week => "week"
    case Month => "month"
    case Year => "year"
  }

  function UnitIndex(u: TimeUnit): nat {
    match u
    case Minute => 0
    case Hour => 1
    case Day => 2
    case Week => 3
    case Month => 4
    case Year => 5
  }

  /** The unit for an age: the first whose next threshold the age has not reached. */
  function UnitOf(diff: nat): TimeUnit {
    if diff < UnitMs(Hour) then Minute
    else if diff < UnitMs(Day) then Hour
    else if diff < UnitMs(Week) then Day
    else if diff < UnitMs(Month) then Week
    else if diff < UnitMs(Year) then Month
    else Year
  }

  /**
   * `Math.round(n / d)` for a non-negative ratio: the nearest integer,
   * halves rounded up.
   */
  function RoundRatio(n: nat, d: nat): (r: nat)
    requires d > 0
    ensures 2 * r * d <= 2 * n + d < 2 * (r + 1) * d
  {
    (2 * n + d) / (2 * d)
  }

  /** The rounded ratio does not decrease as the numerator grows. */
  lemma RoundRatioMonotone(n1: nat, n2: nat, d: nat)
    requires d > 0 && n1 <= n2
    ensures RoundRatio(n1, d) <= RoundRatio(n2, d)
  {
    var r1, r2 := RoundRatio(n1, d), RoundRatio(n2, d);
    MulCancel(r1, r2 + 1, 2 * d);
  }

  /** A strict inequality between multiples of a positive number holds between the factors. */
  lemma MulCancel(a: int, b: int, c: int)
    requires c > 0 && a * c < b * c
    ensures a < b
  {
  }

  /** A rounded ratio below `bound` parts stays at most `bound`. */
  lemma RoundRatioBelow(n: nat, d: nat, bound: nat)
    requires d > 0 && n < bound * d
    ensures RoundRatio(n, d) <= bound
  {
    var r := RoundRatio(n, d);
    MulCancel(r, bound + 1, 2 * d);
  }

  /** The label's content: a vague "recently", or a count of units. */
  datatype Updated = Recently | Ago(count: nat, unit: TimeUnit)

  /**
   * `formatRelativeUpdated` up to the text: no later than the epoch reads
   * as recent; otherwise the non-negative age since `timestamp` is
   * rounded in its unit, and never shown as zero. `now` stands for
   * `Date.now()`.
   */
  function RelativeUpdated(timestamp: int, now: int): Updated {
    if timestamp <= 0 then Recently
    else
      var diff: nat := if now - timestamp > 0 then now - timestamp else 0;
      var unit := UnitOf(diff);
      var n := RoundRatio(diff, UnitMs(unit));
      Ago(if n > 1 then n else 1, unit)
  }

  /** The label text, with the plural 's' for every count but one. */
  function FormatUpdated(u: Updated): (s: string)
    ensures u.Recently? ==> s == "Updated recently"
  {
    match u
    case Recently => "Updated recently"
    case Ago(n, unit) => "Updated " + Decimal(n) + " " + UnitName(unit) + (if n == 1 then "" else "s") + " ago"
  }

  /** `formatRelativeUpdated(timestamp)` at the instant `now`. */
  function FormatRelativeUpdated(timestamp: int, now: int): string {
    FormatUpdated(RelativeUpdated(timestamp, now))
  }

  /** The label is vague exactly for timestamps at or before the epoch. */
  lemma RecentlyIff(timestamp: int, now: int)
    ensures RelativeUpdated(timestamp, now) == Recently <==> timestamp <= 0
    ensures FormatRelativeUpdated(timestamp, now) == "Updated recently" <==> timestamp <= 0
  {
    if timestamp > 0 {
      var u := RelativeUpdated(timestamp, now);
      var s := FormatRelativeUpdated(timestamp, now);
      assert s[8] == Decimal(u.count)[0];
      assert "Updated recently"[8] == 'r';
    }
  }

  /** A commit time the host could not parse is stored as 0 and reads as recent. */
  lemma UnparsedCommitIsRecent(rt: Runtime, data: RawDataset, i: int, g: int, k: int, now: int)
    requires Normalizer.IsSource(data, i, g, k)
    requires rt.parseDate(Normalizer.EffectiveLastCommit(data[i].1.value)).None?
    ensures FormatRelativeUpdated(Normalizer.SourceRecord(rt, data, i, g, k).lastCommitTimestamp, now) == "Updated recently"
  {
    Normalizer.SourceRecordFields(rt, data, i, g, k);
  }

  /** A timestamp in the future (clock skew) reads as one minute ago. */
  lemma FutureIsOneMinute(timestamp: int, now: int)
    requires timestamp > 0 && now <= timestamp
    ensures RelativeUpdated(timestamp, now) == Ago(1, Minute)
    ensures FormatRelativeUpdated(timestamp, now) == "Updated 1 minute ago"
  {
    assert Decimal(1) == "1";
  }

  /**
   * The count is at least one; the chosen unit has been reached (except
   * minutes); and the count never exceeds what the next unit starts at:
   * 60 minutes, 24 hours, 7 days, 4 weeks, 12 months.
   */
  lemma CountBounds(timestamp: int, now: int)
    requires timestamp > 0
    ensures var u := RelativeUpdated(timestamp, now);
            var diff := if now - timestamp > 0 then now - timestamp else 0;
            u.Ago? && u.count >= 1 &&
            (u.unit != Minute ==> UnitMs(u.unit) <= diff) &&
            (u.unit == Minute ==> u.count <= 60) &&
            (u.unit == Hour ==> u.count <= 24) &&
            (u.unit == Day ==> u.count <= 7) &&
            (u.unit == Week ==> u.count <= 4) &&
            (u.unit == Month ==> u.count <= 12)
  {
    var diff: nat := if now - timestamp > 0 then now - timestamp else 0;
    var unit := UnitOf(diff);
    match unit
    case Minute => RoundRatioBelow(diff, UnitMs(Minute), 60);
    case Hour => RoundRatioBelow(diff, UnitMs(Hour), 24);
    case Day => RoundRatioBelow(diff, UnitMs(Day), 7);
    case Week => RoundRatioBelow(diff, UnitMs(Week), 5);
      assert 2 * diff + UnitMs(Week) < 2 * 5 * UnitMs(Week);
    case Month => RoundRatioBelow(diff, UnitMs(Month), 13);
      assert 2 * diff + UnitMs(Month) < 2 * 13 * UnitMs(Month);
    case Year =>
  }

  /** The unit chosen never gets smaller as the age grows. */
  lemma UnitOfMonotone(d1: nat, d2: nat)
    requires d1 <= d2
    ensures UnitIndex(UnitOf(d1)) <= UnitIndex(UnitOf(d2))
  {
  }

  /**
   * An older commit never gets a younger label: a larger age has a larger
   * unit, or the same unit and a count at least as large.
   */
  lemma OlderNeverYounger(t1: int, t2: int, now: int)
    requires 0 < t2 <= t1
    ensures var u1, u2 := RelativeUpdated(t1, now), RelativeUpdated(t2, now);
            UnitIndex(u1.unit) < UnitIndex(u2.unit) ||
            (u1.unit == u2.unit && u1.count <= u2.count)
  {
    var d1: nat := if now - t1 > 0 then now - t1 else 0;
    var d2: nat := if now - t2 > 0 then now - t2 else 0;
    UnitOfMonotone(d1, d2);
    if UnitOf(d1) == UnitOf(d2) {
      RoundRatioMonotone(d1, d2, UnitMs(UnitOf(d1)));
    }
  }

  /** The label ends in "s ago" exactly when the count is not one. */
  lemma PluralIff(n: nat, unit: TimeUnit)
    ensures var s := FormatUpdated(Ago(n, unit));
            (|s| >= 5 && s[|s| - 5..] == "s ago") <==> n != 1
  {
    var s := FormatUpdated(Ago(n, unit));
    var name := UnitName(unit);
    assert name[|name| - 1] != 's';
    if n == 1 {
      assert s[|s| - 5] == name[|name| - 1];
    }
  }
}
