/**
  * Release distances computed from the issue tracker side: the fix and
  * affected versions of an issue, measured against the project's version
  * list. The database lookups are inputs: `projectVersions` for the
  * project's version rows and `versionTable` for the rows that a lookup
  * by version id searches.
  */
module JiraCounter {

  import opened Wrappers
  import opened PySort
  import opened Distance

  /** A version row: its id, its name and its release date in milliseconds, which may be NULL. */
  datatype Version = Version(id: int, name: string, date: Stamp)

  function VersionKey(v: Version): Stamp { v.date }

  const MILLIS_PER_SECOND: int := 1000

  // ----- Ranks (get_version_position_jira) ----------------------------------

  /** `[version.date for version in all_versions]` */
  function VersionDates(versions: seq<Version>): (r: seq<Stamp>)
    ensures |r| == |versions| && forall i :: 0 <= i < |versions| ==> r[i] == versions[i].date
  {
    seq(|versions|, i requires 0 <= i < |versions| => versions[i].date)
  }

  /** The number of versions dated at or before `d`; a NULL date is before every date. */
  function VersionsUpTo(versions: seq<Version>, d: Stamp): (n: nat)
    ensures n <= |versions|
  {
    if versions == [] then 0
    else (if Le(versions[0].date, d) then 1 else 0) + VersionsUpTo(versions[1..], d)
  }

  lemma {:induction false} CountVersionDates(versions: seq<Version>, d: Stamp)
    ensures CountLe(VersionDates(versions), d) == VersionsUpTo(versions, d)
  {
    if versions != [] {
      var dates := VersionDates(versions);
      assert dates == [versions[0].date] + VersionDates(versions[1..]);
      CountLeAppend([versions[0].date], VersionDates(versions[1..]), d);
      assert [versions[0].date][1..] == [];
      CountVersionDates(versions[1..], d);
    }
  }

  /**
    * `get_version_position_jira`: the right bisection point of the date in
    * the sorted version dates, which is the number of versions dated at or
    * before it.
    */
  function VersionPositionJira(projectVersions: seq<Version>, versionDate: Stamp): (r: nat)
    ensures r == VersionsUpTo(projectVersions, versionDate)
    ensures r <= |projectVersions|
  {
    var dates := VersionDates(projectVersions);
    BisectSortedCounts(dates, versionDate);
    CountVersionDates(projectVersions, versionDate);
    Bisect(SortBy(dates, Itself), versionDate)
  }

  lemma {:induction false} VersionsUpToMonotone(versions: seq<Version>, d1: Stamp, d2: Stamp)
    requires Le(d1, d2)
    ensures VersionsUpTo(versions, d1) <= VersionsUpTo(versions, d2)
  {
    if versions != [] {
      VersionsUpToMonotone(versions[1..], d1, d2);
    }
  }

  /** A later date never has a lower rank. */
  lemma RankMonotoneJira(projectVersions: seq<Version>, d1: Stamp, d2: Stamp)
    requires Le(d1, d2)
    ensures VersionPositionJira(projectVersions, d1) <= VersionPositionJira(projectVersions, d2)
  {
    VersionsUpToMonotone(projectVersions, d1, d2);
  }

  /** A version of the project list ranks at least 1, so its rank is never the falsy 0. */
  lemma {:induction false} ListedVersionRanked(projectVersions: seq<Version>, v: Version)
    requires v in projectVersions
    ensures VersionsUpTo(projectVersions, v.date) >= 1
  {
    if projectVersions[0] != v {
      ListedVersionRanked(projectVersions[1..], v);
    }
  }

  /** The number of versions dated after `d1` and at or before `d2`. */
  function VersionsBetween(versions: seq<Version>, d1: Stamp, d2: Stamp): nat {
    if versions == [] then 0
    else (if Lt(d1, versions[0].date) && Le(versions[0].date, d2) then 1 else 0)
         + VersionsBetween(versions[1..], d1, d2)
  }

  lemma {:induction false} RankDifferenceCountsJira(versions: seq<Version>, d1: Stamp, d2: Stamp)
    requires Le(d1, d2)
    ensures VersionsUpTo(versions, d2) - VersionsUpTo(versions, d1) == VersionsBetween(versions, d1, d2)
  {
    if versions != [] {
      RankDifferenceCountsJira(versions[1..], d1, d2);
      VersionsUpToMonotone(versions[1..], d1, d2);
    }
  }

  // ----- Release dates (get_release_date_jira) ------------------------------

  /** The index of the first row with that id; |table| when there is none. */
  function FirstWithId(table: seq<Version>, id: int): (i: nat)
    ensures i <= |table|
    ensures forall j :: 0 <= j < i ==> table[j].id != id
    ensures i < |table| ==> table[i].id == id
  {
    if table == [] then 0
    else if table[0].id == id then 0
    else 1 + FirstWithId(table[1..], id)
  }

  /** The rows a lookup by version id returns, in table order. */
  function RowsWithId(table: seq<Version>, id: int): (r: seq<Version>)
    ensures forall v :: v in r <==> v in table && v.id == id
    ensures r != [] <==> FirstWithId(table, id) < |table|
    ensures r != [] ==> r[0] == table[FirstWithId(table, id)]
  {
    if table == [] then []
    else
      var rest := RowsWithId(table[1..], id);
      assert forall v :: v in table <==> v == table[0] || v in table[1..];
      if table[0].id == id then [table[0]] + rest else rest
  }

  /** Python's `if date`: a date that is neither NULL nor 0. */
  predicate Truthy(d: Stamp) {
    d.At? && d.time != 0
  }

  /**
    * `get_release_date_jira`: None when no row has the id or the first
    * such row's date is falsy; otherwise that date in whole seconds,
    * rounded down as Python 2 integer division rounds.
    */
  function ReleaseDateJira(versionTable: seq<Version>, id: int): (r: Option<int>)
    ensures var i := FirstWithId(versionTable, id);
      r.Some? <==> i < |versionTable| && Truthy(versionTable[i].date)
    ensures r.Some? ==>
      var ms := versionTable[FirstWithId(versionTable, id)].date.time;
      r.value * MILLIS_PER_SECOND <= ms < (r.value + 1) * MILLIS_PER_SECOND
  {
    var rows := RowsWithId(versionTable, id);
    if rows != [] && Truthy(rows[0].date) then Some(rows[0].date.time / MILLIS_PER_SECOND) else None
  }

  // ----- Distances (get_release_distance_jira) ------------------------------

  /** The value a version is measured by: its date for days, its rank for releases. */
  function ReleaseValueJira(projectVersions: seq<Version>, versionTable: seq<Version>, v: Version,
                            unit: Unit): (r: Option<int>)
    ensures unit.Releases? ==> r == Some(VersionsUpTo(projectVersions, v.date))
    ensures unit.Days? ==> (r.Some? <==> Dated(versionTable, v.id))
    ensures unit.Days? && r.Some? ==>
      r.value * MILLIS_PER_SECOND <= DateMs(versionTable, v.id) < (r.value + 1) * MILLIS_PER_SECOND
  {
    match unit
    case Days => ReleaseDateJira(versionTable, v.id)
    case Releases => Some(VersionPositionJira(projectVersions, v.date))
  }

  /**
    * `get_release_distance_jira`: None unless both versions are given and
    * both values are truthy; then the value of `other` minus the value of
    * `one` (seconds for days, a rank difference for releases).
    */
  function ReleaseDistanceJira(projectVersions: seq<Version>, versionTable: seq<Version>,
                               one: Option<Version>, other: Option<Version>, unit: Unit): (r: Option<int>)
    ensures one.None? || other.None? ==> r.None?
  {
    if one.None? || other.None? then None
    else Difference(unit, ReleaseValueJira(projectVersions, versionTable, one.value, unit),
                          ReleaseValueJira(projectVersions, versionTable, other.value, unit))
  }

  /** Swapping the two versions negates the distance, in either unit. */
  lemma DistanceJiraAntisymmetric(projectVersions: seq<Version>, versionTable: seq<Version>,
                                  one: Option<Version>, other: Option<Version>, unit: Unit)
    ensures ReleaseDistanceJira(projectVersions, versionTable, one, other, unit)
         == Negated(ReleaseDistanceJira(projectVersions, versionTable, other, one, unit))
  {
    if one.Some? && other.Some? {
      DifferenceAntisymmetric(unit, ReleaseValueJira(projectVersions, versionTable, one.value, unit),
                                    ReleaseValueJira(projectVersions, versionTable, other.value, unit));
    }
  }

  /** A version id some row of the table carries, with a truthy date on the first such row. */
  predicate Dated(versionTable: seq<Version>, id: int) {
    FirstWithId(versionTable, id) < |versionTable| && Truthy(versionTable[FirstWithId(versionTable, id)].date)
  }

  /** The date, in milliseconds, on the first row of a dated id. */
  function DateMs(versionTable: seq<Version>, id: int): int
    requires Dated(versionTable, id)
  {
    versionTable[FirstWithId(versionTable, id)].date.time
  }

  /**
    * In days, two versions whose first rows carry truthy dates are the
    * difference of those dates, in whole seconds, apart.
    */
  lemma DistanceJiraDays(projectVersions: seq<Version>, versionTable: seq<Version>, one: Version, other: Version)
    requires Dated(versionTable, one.id) && Dated(versionTable, other.id)
    ensures ReleaseDistanceJira(projectVersions, versionTable, Some(one), Some(other), Days)
         == Some(DateMs(versionTable, other.id) / MILLIS_PER_SECOND - DateMs(versionTable, one.id) / MILLIS_PER_SECOND)
  {
    var d1 := ReleaseDateJira(versionTable, one.id);
    var d2 := ReleaseDateJira(versionTable, other.id);
    DivFloor(DateMs(versionTable, one.id), d1.value);
    DivFloor(DateMs(versionTable, other.id), d2.value);
  }

  /** In days, a version whose id has no row or whose first row has a falsy date gives no distance. */
  lemma DistanceJiraUndated(projectVersions: seq<Version>, versionTable: seq<Version>, one: Version, other: Version)
    requires !Dated(versionTable, one.id) || !Dated(versionTable, other.id)
    ensures ReleaseDistanceJira(projectVersions, versionTable, Some(one), Some(other), Days).None?
    ensures ReleaseDistanceJira(projectVersions, versionTable, Some(other), Some(one), Days).None?
  {
  }

  /** The whole-second floor characterises integer division by 1000. */
  lemma DivFloor(ms: int, s: int)
    requires s * MILLIS_PER_SECOND <= ms < (s + 1) * MILLIS_PER_SECOND
    ensures s == ms / MILLIS_PER_SECOND
  {
  }

  /**
    * In releases, two versions of the project list, in date order, are as
    * far apart as the number of versions dated after the first and at or
    * before the second: the rank-0 guard never fires for them.
    */
  lemma DistanceJiraReleases(projectVersions: seq<Version>, versionTable: seq<Version>, one: Version, other: Version)
    requires one in projectVersions && other in projectVersions && Le(one.date, other.date)
    ensures ReleaseDistanceJira(projectVersions, versionTable, Some(one), Some(other), Releases)
         == Some(VersionsBetween(projectVersions, one.date, other.date))
  {
    ListedVersionRanked(projectVersions, one);
    ListedVersionRanked(projectVersions, other);
    var p: int, q: int := VersionsUpTo(projectVersions, one.date), VersionsUpTo(projectVersions, other.date);
    DistanceJiraOfRanks(projectVersions, versionTable, one, other, p, q);
    RankGapJira(projectVersions, one.date, other.date, p, q,
                ReleaseDistanceJira(projectVersions, versionTable, Some(one), Some(other), Releases));
  }

  /** A rank difference of ordered dates counts the versions between them. */
  lemma RankGapJira(versions: seq<Version>, d1: Stamp, d2: Stamp, p: int, q: int, x: Option<int>)
    requires Le(d1, d2)
    requires p == VersionsUpTo(versions, d1) && q == VersionsUpTo(versions, d2)
    requires x == Some(q - p)
    ensures x == Some(VersionsBetween(versions, d1, d2))
  {
    RankDifferenceCountsJira(versions, d1, d2);
  }

  /** Two versions with truthy ranks are their rank difference apart. */
  lemma DistanceJiraOfRanks(projectVersions: seq<Version>, versionTable: seq<Version>, one: Version, other: Version,
                            p: int, q: int)
    requires p == VersionsUpTo(projectVersions, one.date) && q == VersionsUpTo(projectVersions, other.date)
    requires p >= 1 && q >= 1
    ensures ReleaseDistanceJira(projectVersions, versionTable, Some(one), Some(other), Releases) == Some(q - p)
  {
    var v1 := ReleaseValueJira(projectVersions, versionTable, one, Releases);
    var v2 := ReleaseValueJira(projectVersions, versionTable, other, Releases);
    var x := ReleaseDistanceJira(projectVersions, versionTable, Some(one), Some(other), Releases);
    assert x == Difference(Releases, v1, v2);
    DifferenceOfRanks(x, v1, v2, p, q);
  }

  /**
    * A version dated before every version of the project ranks 0, which
    * Python reads as "no value": no distance in releases from or to it.
    */
  lemma RankZeroHasNoDistanceJira(projectVersions: seq<Version>, versionTable: seq<Version>, v: Version,
                                  other: Option<Version>)
    requires forall u :: u in projectVersions ==> Lt(v.date, u.date)
    ensures ReleaseDistanceJira(projectVersions, versionTable, Some(v), other, Releases).None?
    ensures ReleaseDistanceJira(projectVersions, versionTable, other, Some(v), Releases).None?
  {
    NoVersionUpTo(projectVersions, v.date);
  }

  lemma {:induction false} NoVersionUpTo(versions: seq<Version>, d: Stamp)
    requires forall u :: u in versions ==> Lt(d, u.date)
    ensures VersionsUpTo(versions, d) == 0
  {
    if versions != [] {
      assert versions[0] in versions;
      NoVersionUpTo(versions[1..], d);
    }
  }

  /**
    * The same listed version on both sides: zero seconds apart, which the
    * falsy timedelta turns into no day count, while the rank distance is 0.
    */
  lemma SameVersionDistances(projectVersions: seq<Version>, versionTable: seq<Version>, v: Version)
    requires v in projectVersions
    requires Dated(versionTable, v.id)
    ensures ReleaseDistanceJira(projectVersions, versionTable, Some(v), Some(v), Days) == Some(0)
    ensures WholeDays(ReleaseDistanceJira(projectVersions, versionTable, Some(v), Some(v), Days)).None?
    ensures ReleaseDistanceJira(projectVersions, versionTable, Some(v), Some(v), Releases) == Some(0)
  {
    ListedVersionRanked(projectVersions, v);
  }

  // ----- First and last version (get_first_last_version) --------------------

  /**
    * `get_first_last_version`: (None, None) for no versions; otherwise the
    * first version of least date and the last version of greatest date,
    * as the stable sort leaves them. A version without a date sorts first.
    */
  function FirstLastVersion(versions: seq<Version>): (r: (Option<Version>, Option<Version>))
    ensures r.0.None? <==> versions == []
    ensures r.1.None? <==> versions == []
    ensures versions != [] ==>
      && r.0 == Some(versions[FirstMin(versions, VersionKey)])
      && r.1 == Some(versions[LastMax(versions, VersionKey)])
    ensures r.0.Some? ==> r.0.value in versions && forall v :: v in versions ==> Le(r.0.value.date, v.date)
    ensures r.1.Some? ==> r.1.value in versions && forall v :: v in versions ==> Le(v.date, r.1.value.date)
    ensures (exists v :: v in versions && v.date.Null?) ==> r.0.Some? && r.0.value.date.Null?
  {
    var sorted := SortBy(versions, VersionKey);
    if |sorted| > 0 then
      SortByHead(versions, VersionKey);
      SortByLast(versions, VersionKey);
      var first, last := FirstMin(versions, VersionKey), LastMax(versions, VersionKey);
      assert forall v :: v in versions ==> Le(versions[first].date, v.date) && Le(v.date, versions[last].date) by {
        forall v | v in versions ensures Le(versions[first].date, v.date) && Le(v.date, versions[last].date) {
          var j :| 0 <= j < |versions| && versions[j] == v;
          assert VersionKey(versions[j]) == v.date;
        }
      }
      (Some(sorted[0]), Some(sorted[|sorted| - 1]))
    else
      (None, None)
  }

  // ----- Closest release (get_closest_release) ------------------------------

  /** A version dated strictly after the creation date (Python 2 `None > x` is false). */
  predicate DatedAfter(v: Version, createdMs: int) {
    v.date.At? && createdMs < v.date.time
  }

  /**
    * Row i is the version `get_closest_release` settles on: dated after
    * the creation date, of least date among those, and the first of that
    * date in project order, as the stable sort leaves ties.
    */
  ghost predicate ClosestReleaseAt(projectVersions: seq<Version>, createdMs: int, i: int) {
    && 0 <= i < |projectVersions| && DatedAfter(projectVersions[i], createdMs)
    && (forall j :: 0 <= j < |projectVersions| && DatedAfter(projectVersions[j], createdMs) ==>
          projectVersions[i].date.time <= projectVersions[j].date.time)
    && (forall j :: 0 <= j < i && DatedAfter(projectVersions[j], createdMs) ==>
          projectVersions[i].date.time < projectVersions[j].date.time)
  }

  /** At most one row is the one the scan settles on: the closest release is determined. */
  lemma ClosestReleaseAtUnique(projectVersions: seq<Version>, createdMs: int, i: int, k: int)
    requires ClosestReleaseAt(projectVersions, createdMs, i) && ClosestReleaseAt(projectVersions, createdMs, k)
    ensures i == k
  {
  }

  /**
    * Scanning the date-sorted versions for the first one after the
    * creation date picks the head of the stably sorted versions dated
    * after it.
    */
  lemma ClosestReleaseIsHead(createdMs: int, projectVersions: seq<Version>, above: Version -> bool)
    requires forall v :: above(v) == Lt(At(createdMs), VersionKey(v))
    ensures var f := Filter(projectVersions, above);
      FirstAbove(SortBy(projectVersions, VersionKey), VersionKey, At(createdMs))
        == if f == [] then None else Some(SortBy(f, VersionKey)[0])
  {
    FirstAboveFilter(SortBy(projectVersions, VersionKey), VersionKey, At(createdMs), above);
    FilterSortBy(projectVersions, VersionKey, above);
  }

  lemma ClosestReleaseFromFilter(projectVersions: seq<Version>, createdMs: int, above: Version -> bool, i: int)
    requires forall v :: above(v) == Lt(At(createdMs), VersionKey(v))
    requires 0 <= i < |projectVersions| && above(projectVersions[i])
    requires forall j :: 0 <= j < |projectVersions| && above(projectVersions[j]) ==>
      Le(VersionKey(projectVersions[i]), VersionKey(projectVersions[j]))
    requires forall j :: 0 <= j < i && above(projectVersions[j]) ==>
      !Le(VersionKey(projectVersions[j]), VersionKey(projectVersions[i]))
    ensures ClosestReleaseAt(projectVersions, createdMs, i)
  {
    forall j | 0 <= j < |projectVersions| && DatedAfter(projectVersions[j], createdMs)
      ensures projectVersions[i].date.time <= projectVersions[j].date.time
    {
      assert above(projectVersions[j]);
    }
    forall j | 0 <= j < i && DatedAfter(projectVersions[j], createdMs)
      ensures projectVersions[i].date.time < projectVersions[j].date.time
    {
      assert above(projectVersions[j]);
    }
  }

  lemma ClosestReleaseStable(createdMs: int, projectVersions: seq<Version>)
    requires FirstAbove(SortBy(projectVersions, VersionKey), VersionKey, At(createdMs)).Some?
    ensures exists i :: (ClosestReleaseAt(projectVersions, createdMs, i)
      && projectVersions[i] == FirstAbove(SortBy(projectVersions, VersionKey), VersionKey, At(createdMs)).value)
  {
    var above := (v: Version) => Lt(At(createdMs), VersionKey(v));
    ClosestReleaseIsHead(createdMs, projectVersions, above);
    var f := Filter(projectVersions, above);
    var i := FilterSortHead(projectVersions, VersionKey, above);
    ClosestReleaseFromFilter(projectVersions, createdMs, above, i);
  }

  lemma ClosestReleaseFacts(createdMs: int, projectVersions: seq<Version>)
    ensures var first := FirstAbove(SortBy(projectVersions, VersionKey), VersionKey, At(createdMs));
      && (first.None? <==> forall v :: v in projectVersions ==> !DatedAfter(v, createdMs))
      && (first.Some? ==> exists i :: ClosestReleaseAt(projectVersions, createdMs, i) && projectVersions[i] == first.value)
  {
    var first := FirstAbove(SortBy(projectVersions, VersionKey), VersionKey, At(createdMs));
    if first.None? {
      var above := (v: Version) => Lt(At(createdMs), VersionKey(v));
      ClosestReleaseIsHead(createdMs, projectVersions, above);
      FilterMembers(projectVersions, above);
      forall v | v in projectVersions ensures !DatedAfter(v, createdMs) {
        assert !above(v);
      }
    } else {
      ClosestReleaseStable(createdMs, projectVersions);
      var i :| ClosestReleaseAt(projectVersions, createdMs, i) && projectVersions[i] == first.value;
      assert projectVersions[i] in projectVersions;
    }
  }

  /**
    * `get_closest_release`: the first version, in date order, dated
    * strictly after the creation date (both in milliseconds); among
    * versions of that date, the first in project order. None when every
    * version is undated or dated at or before it.
    */
  function ClosestRelease(createdMs: int, projectVersions: seq<Version>): (r: Option<Version>)
    ensures r.None? <==> forall v :: v in projectVersions ==> v.date.Null? || v.date.time <= createdMs
    ensures r.Some? ==> exists i :: ClosestReleaseAt(projectVersions, createdMs, i) && projectVersions[i] == r.value
  {
    ClosestReleaseFacts(createdMs, projectVersions);
    FirstAbove(SortBy(projectVersions, VersionKey), VersionKey, At(createdMs))
  }

  // ----- The tracker metrics of an issue (get_JIRA_metrics) -----------------

  /** The record `get_JIRA_metrics` returns. */
  datatype JiraMetrics = JiraMetrics(
    earliestAffected: Option<Version>,
    latestAffectedName: Option<string>,
    earliestFixName: Option<string>,
    latestFixName: Option<string>,
    distance: Option<int>,
    distanceReleases: Option<int>,
    closestReleaseName: Option<string>)

  /** `version.name if version else None` */
  function NameOf(v: Option<Version>): (r: Option<string>)
    ensures r.None? <==> v.None?
    ensures r.Some? ==> r.value == v.value.name
  {
    if v.Some? then Some(v.value.name) else None
  }

  /**
    * `get_JIRA_metrics` for an issue with the given fix and affected
    * versions and creation date in milliseconds. The distances run from
    * the release closest to the creation date to the earliest fix version.
    */
  function JiraMetricsOf(fixVersions: seq<Version>, affectedVersions: seq<Version>, projectVersions: seq<Version>,
                         versionTable: seq<Version>, createdMs: int): (r: JiraMetrics)
    ensures r.earliestAffected.None? <==> affectedVersions == []
    ensures r.latestAffectedName.None? <==> affectedVersions == []
    ensures r.earliestFixName.None? <==> fixVersions == []
    ensures r.latestFixName.None? <==> fixVersions == []
    ensures affectedVersions != [] ==>
      && r.earliestAffected == Some(affectedVersions[FirstMin(affectedVersions, VersionKey)])
      && r.latestAffectedName == Some(affectedVersions[LastMax(affectedVersions, VersionKey)].name)
    ensures fixVersions != [] ==>
      && r.earliestFixName == Some(fixVersions[FirstMin(fixVersions, VersionKey)].name)
      && r.latestFixName == Some(fixVersions[LastMax(fixVersions, VersionKey)].name)
    ensures r.closestReleaseName.None? <==>
      forall v :: v in projectVersions ==> v.date.Null? || v.date.time <= createdMs
    ensures var closest := ClosestRelease(createdMs, projectVersions);
      var earliestFix := FirstLastVersion(fixVersions).0;
      && r.distance == WholeDays(ReleaseDistanceJira(projectVersions, versionTable, closest, earliestFix, Days))
      && r.distanceReleases == ReleaseDistanceJira(projectVersions, versionTable, closest, earliestFix, Releases)
    ensures fixVersions == [] || r.closestReleaseName.None? ==> r.distance.None? && r.distanceReleases.None?
  {
    var (earliestFix, latestFix) := FirstLastVersion(fixVersions);
    var (earliestAffected, latestAffected) := FirstLastVersion(affectedVersions);
    var closest := ClosestRelease(createdMs, projectVersions);
    var timeDistance := ReleaseDistanceJira(projectVersions, versionTable, closest, earliestFix, Days);
    JiraMetrics(earliestAffected, NameOf(latestAffected), NameOf(earliestFix), NameOf(latestFix),
                WholeDays(timeDistance),
                ReleaseDistanceJira(projectVersions, versionTable, closest, earliestFix, Releases),
                NameOf(closest))
  }
}
