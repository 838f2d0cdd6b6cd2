/**
  * Release distances computed from the Git side: the tags attached to an
  * issue's commits, the project's tag list and the issue's commit stats.
  * The database lookups are inputs: `projectTags` for the project's tag
  * rows, `tagsOf` for the tags linked to a commit sha, `commitStats` for
  * the stats rows of the issue's commits. The release-name regular
  * expression of the project is the predicate `isRelease`.
  */
module GitCounter {

  import opened Wrappers
  import opened PySort
  import opened Distance

  /** A tag row: the repository it belongs to, its name and its date in seconds. */
  datatype Tag = Tag(repository: string, name: string, date: int)

  /** A commit stats row; the date column may be NULL. */
  datatype Commit = Commit(repository: string, committer: string, date: Stamp,
                           deletions: int, insertions: int)

  function TagKey(t: Tag): Stamp { At(t.date) }

  function CommitKey(c: Commit): Stamp { c.date }

  // ----- Release names -----------------------------------------------------

  /** `[tag for tag in tags if re.match(release_regex, tag.name)]` */
  function ReleaseTags(tags: seq<Tag>, isRelease: string -> bool): (r: seq<Tag>)
    ensures |r| <= |tags|
    ensures forall t :: t in r <==> t in tags && isRelease(t.name)
  {
    if tags == [] then []
    else (if isRelease(tags[0].name) then [tags[0]] else []) + ReleaseTags(tags[1..], isRelease)
  }

  /** Filtering distributes over concatenation: release tags keep their order. */
  lemma {:induction false} ReleaseTagsAppend(a: seq<Tag>, b: seq<Tag>, isRelease: string -> bool)
    ensures ReleaseTags(a + b, isRelease) == ReleaseTags(a, isRelease) + ReleaseTags(b, isRelease)
  {
    if a == [] {
      assert a + b == b;
    } else {
      assert (a + b)[0] == a[0];
      assert (a + b)[1..] == a[1..] + b;
      ReleaseTagsAppend(a[1..], b, isRelease);
    }
  }

  /** Filtering keeps a date-sorted list sorted. */
  lemma {:induction false} ReleaseTagsSorted(tags: seq<Tag>, isRelease: string -> bool)
    requires SortedBy(tags, TagKey)
    ensures SortedBy(ReleaseTags(tags, isRelease), TagKey)
  {
    if tags != [] {
      ReleaseTagsSorted(tags[1..], isRelease);
      var rest := ReleaseTags(tags[1..], isRelease);
      forall t | t in rest
        ensures tags[0].date <= t.date
      {
        var j :| 0 <= j < |tags[1..]| && tags[1..][j] == t;
        assert TagKey(tags[0]) == At(tags[0].date) && TagKey(tags[j + 1]) == At(t.date);
      }
    }
  }

  // ----- Ranks (get_version_position_git) -----------------------------------

  /** `[parse(tag.date) for tag in all_tags if re.match(release_regex, tag.name)]` */
  function ReleaseDates(tags: seq<Tag>, isRelease: string -> bool): (r: seq<Stamp>)
    ensures |r| == |ReleaseTags(tags, isRelease)|
    ensures forall k :: 0 <= k < |r| ==> r[k] == At(ReleaseTags(tags, isRelease)[k].date)
  {
    if tags == [] then []
    else (if isRelease(tags[0].name) then [At(tags[0].date)] else []) + ReleaseDates(tags[1..], isRelease)
  }

  /** The number of release-named tags dated at or before `d`. */
  function ReleasesUpTo(tags: seq<Tag>, isRelease: string -> bool, d: int): (n: nat)
    ensures n <= |ReleaseTags(tags, isRelease)|
  {
    if tags == [] then 0
    else (if isRelease(tags[0].name) && tags[0].date <= d then 1 else 0) + ReleasesUpTo(tags[1..], isRelease, d)
  }

  lemma {:induction false} CountReleaseDates(tags: seq<Tag>, isRelease: string -> bool, d: int)
    ensures CountLe(ReleaseDates(tags, isRelease), At(d)) == ReleasesUpTo(tags, isRelease, d)
  {
    if tags != [] {
      var head: seq<Stamp> := if isRelease(tags[0].name) then [At(tags[0].date)] else [];
      CountReleaseDates(tags[1..], isRelease, d);
      CountLeAppend(head, ReleaseDates(tags[1..], isRelease), At(d));
      if head != [] {
        assert head[1..] == [];
      }
    }
  }

  /**
    * `get_version_position_git`: None without a date, otherwise the right
    * bisection point of the date among the sorted release dates, which is
    * the number of release tags dated at or before it.
    */
  function VersionPositionGit(tagDate: Option<int>, projectTags: seq<Tag>, isRelease: string -> bool): (r: Option<int>)
    ensures r.None? <==> tagDate.None?
    ensures r.Some? ==> r.value == ReleasesUpTo(projectTags, isRelease, tagDate.value)
    ensures r.Some? ==> 0 <= r.value <= |ReleaseTags(projectTags, isRelease)|
  {
    if tagDate.Some? then
      var dates := ReleaseDates(projectTags, isRelease);
      BisectSortedCounts(dates, At(tagDate.value));
      CountReleaseDates(projectTags, isRelease, tagDate.value);
      Some(Bisect(SortBy(dates, Itself), At(tagDate.value)))
    else None
  }

  lemma {:induction false} ReleasesUpToMonotone(tags: seq<Tag>, isRelease: string -> bool, d1: int, d2: int)
    requires d1 <= d2
    ensures ReleasesUpTo(tags, isRelease, d1) <= ReleasesUpTo(tags, isRelease, d2)
  {
    if tags != [] {
      ReleasesUpToMonotone(tags[1..], isRelease, d1, d2);
    }
  }

  /** A later date never has a lower rank. */
  lemma RankMonotoneGit(projectTags: seq<Tag>, isRelease: string -> bool, d1: int, d2: int)
    requires d1 <= d2
    ensures VersionPositionGit(Some(d1), projectTags, isRelease).value
         <= VersionPositionGit(Some(d2), projectTags, isRelease).value
  {
    ReleasesUpToMonotone(projectTags, isRelease, d1, d2);
  }

  /** A release tag of the list ranks at least 1, so its rank is never the falsy 0. */
  lemma {:induction false} ListedReleaseRanked(projectTags: seq<Tag>, isRelease: string -> bool, t: Tag)
    requires t in projectTags && isRelease(t.name)
    ensures ReleasesUpTo(projectTags, isRelease, t.date) >= 1
  {
    if projectTags[0] != t {
      ListedReleaseRanked(projectTags[1..], isRelease, t);
    }
  }

  /** The number of release tags dated after `d1` and at or before `d2`. */
  function ReleasesBetween(tags: seq<Tag>, isRelease: string -> bool, d1: int, d2: int): nat {
    if tags == [] then 0
    else (if isRelease(tags[0].name) && d1 < tags[0].date <= d2 then 1 else 0)
         + ReleasesBetween(tags[1..], isRelease, d1, d2)
  }

  lemma {:induction false} RankDifferenceCounts(tags: seq<Tag>, isRelease: string -> bool, d1: int, d2: int)
    requires d1 <= d2
    ensures ReleasesUpTo(tags, isRelease, d2) - ReleasesUpTo(tags, isRelease, d1)
         == ReleasesBetween(tags, isRelease, d1, d2)
  {
    if tags != [] {
      RankDifferenceCounts(tags[1..], isRelease, d1, d2);
    }
  }

  // ----- Tag dates (get_release_date_git) -----------------------------------

  /** `get_tag_information`: the project's tag rows carrying a name. */
  function TagsNamed(tags: seq<Tag>, name: string): (r: seq<Tag>)
    ensures forall t :: t in r <==> t in tags && t.name == name
  {
    if tags == [] then []
    else (if tags[0].name == name then [tags[0]] else []) + TagsNamed(tags[1..], name)
  }

  /** Row i is the one and only row carrying the name. */
  ghost predicate OnlyNamed(tags: seq<Tag>, name: string, i: int) {
    0 <= i < |tags| && tags[i].name == name &&
    forall j :: 0 <= j < |tags| && tags[j].name == name ==> j == i
  }

  lemma {:induction false} TagsNamedOnce(tags: seq<Tag>, name: string)
    ensures |TagsNamed(tags, name)| == 1 <==> exists i :: OnlyNamed(tags, name, i)
    ensures forall i :: OnlyNamed(tags, name, i) ==> TagsNamed(tags, name) == [tags[i]]
  {
    if tags != [] {
      TagsNamedOnce(tags[1..], name);
      if tags[0].name == name {
        TagsNamedOnceHead(tags, name);
      } else {
        TagsNamedOnceSkip(tags, name);
      }
    }
  }

  /** The step of `TagsNamedOnce` when the first row carries the name. */
  lemma TagsNamedOnceHead(tags: seq<Tag>, name: string)
    requires tags != [] && tags[0].name == name
    requires |TagsNamed(tags[1..], name)| == 1 <==> exists i :: OnlyNamed(tags[1..], name, i)
    ensures |TagsNamed(tags, name)| == 1 <==> exists i :: OnlyNamed(tags, name, i)
    ensures forall i :: OnlyNamed(tags, name, i) ==> TagsNamed(tags, name) == [tags[i]]
  {
    var rest := tags[1..];
    if TagsNamed(rest, name) != [] {
      var t := TagsNamed(rest, name)[0];
      assert t in TagsNamed(rest, name);
      var j :| 0 <= j < |rest| && rest[j] == t;
      assert tags[j + 1].name == name;
    } else {
      forall j | 1 <= j < |tags| ensures tags[j].name != name {
        assert tags[j] == rest[j - 1];
      }
      assert OnlyNamed(tags, name, 0);
    }
  }

  /** The step of `TagsNamedOnce` when the first row carries another name. */
  lemma TagsNamedOnceSkip(tags: seq<Tag>, name: string)
    requires tags != [] && tags[0].name != name
    requires |TagsNamed(tags[1..], name)| == 1 <==> exists i :: OnlyNamed(tags[1..], name, i)
    requires forall i :: OnlyNamed(tags[1..], name, i) ==> TagsNamed(tags[1..], name) == [tags[1..][i]]
    ensures |TagsNamed(tags, name)| == 1 <==> exists i :: OnlyNamed(tags, name, i)
    ensures forall i :: OnlyNamed(tags, name, i) ==> TagsNamed(tags, name) == [tags[i]]
  {
    var rest := tags[1..];
    forall i | OnlyNamed(tags, name, i) ensures OnlyNamed(rest, name, i - 1) {
      forall j | 0 <= j < |rest| && rest[j].name == name ensures j == i - 1 {
        assert tags[j + 1] == rest[j];
      }
    }
    forall i | OnlyNamed(rest, name, i) ensures OnlyNamed(tags, name, i + 1) {
      forall j | 0 <= j < |tags| && tags[j].name == name ensures j == i + 1 {
        assert tags[j] == rest[j - 1];
      }
    }
  }

  /**
    * `get_release_date_git`: the date of the tag only when exactly one row
    * carries the name (a name tagged in two repositories gives None).
    */
  function ReleaseDateGit(projectTags: seq<Tag>, name: string): (r: Option<int>)
    ensures r.Some? <==> exists i :: OnlyNamed(projectTags, name, i)
    ensures forall i :: OnlyNamed(projectTags, name, i) ==> r == Some(projectTags[i].date)
  {
    TagsNamedOnce(projectTags, name);
    var rows := TagsNamed(projectTags, name);
    if |rows| == 1 then Some(rows[0].date) else None
  }

  // ----- Distances (get_release_distance_git) -------------------------------

  /** Python's `not name` is false: a name that is neither None nor "". */
  predicate Given(name: Option<string>) {
    name.Some? && name.value != ""
  }

  /** The value a tag is measured by: its date for days, its rank for releases. */
  function ReleaseValueGit(projectTags: seq<Tag>, name: string, isRelease: string -> bool, unit: Unit): (r: Option<int>)
    ensures r.Some? <==> exists i :: OnlyNamed(projectTags, name, i)
    ensures forall i :: OnlyNamed(projectTags, name, i) ==>
      r == Some(if unit.Days? then projectTags[i].date else ReleasesUpTo(projectTags, isRelease, projectTags[i].date))
  {
    match unit
    case Days => ReleaseDateGit(projectTags, name)
    case Releases => VersionPositionGit(ReleaseDateGit(projectTags, name), projectTags, isRelease)
  }

  /**
    * `get_release_distance_git`: None unless both names are given and both
    * values are truthy; then the value of `other` minus the value of `one`
    * (seconds for days, a rank difference for releases).
    */
  function ReleaseDistanceGit(projectTags: seq<Tag>, one: Option<string>, other: Option<string>,
                              isRelease: string -> bool, unit: Unit): (r: Option<int>)
    ensures !Given(one) || !Given(other) ==> r.None?
  {
    if !Given(one) || !Given(other) then None
    else Difference(unit, ReleaseValueGit(projectTags, one.value, isRelease, unit),
                          ReleaseValueGit(projectTags, other.value, isRelease, unit))
  }

  /** A name without exactly one tag row has no distance from or to anything, in either unit. */
  lemma DistanceGitUnlisted(projectTags: seq<Tag>, one: string, other: Option<string>, isRelease: string -> bool, unit: Unit)
    requires !exists i :: OnlyNamed(projectTags, one, i)
    ensures ReleaseDistanceGit(projectTags, Some(one), other, isRelease, unit).None?
    ensures ReleaseDistanceGit(projectTags, other, Some(one), isRelease, unit).None?
  {
    assert ReleaseValueGit(projectTags, one, isRelease, unit).None?;
  }

  /** Swapping the two tags negates the distance, in either unit. */
  lemma DistanceGitAntisymmetric(projectTags: seq<Tag>, one: Option<string>, other: Option<string>,
                                 isRelease: string -> bool, unit: Unit)
    ensures ReleaseDistanceGit(projectTags, one, other, isRelease, unit)
         == Negated(ReleaseDistanceGit(projectTags, other, one, isRelease, unit))
  {
    if Given(one) && Given(other) {
      DifferenceAntisymmetric(unit, ReleaseValueGit(projectTags, one.value, isRelease, unit),
                                    ReleaseValueGit(projectTags, other.value, isRelease, unit));
    }
  }

  /** In days, two tags that each have a single row are their dates' difference apart. */
  lemma DistanceGitDays(projectTags: seq<Tag>, one: string, other: string, isRelease: string -> bool, i: int, j: int)
    requires one != "" && other != ""
    requires OnlyNamed(projectTags, one, i) && OnlyNamed(projectTags, other, j)
    ensures ReleaseDistanceGit(projectTags, Some(one), Some(other), isRelease, Days)
         == Some(projectTags[j].date - projectTags[i].date)
  {
  }

  /**
    * In releases, two release tags that each have a single row, in date
    * order, are as far apart as the number of release tags dated after the
    * first and at or before the second: the rank-0 guard never fires for them.
    */
  lemma DistanceGitReleases(projectTags: seq<Tag>, one: string, other: string, isRelease: string -> bool, i: int, j: int)
    requires one != "" && other != "" && isRelease(one) && isRelease(other)
    requires OnlyNamed(projectTags, one, i) && OnlyNamed(projectTags, other, j)
    requires projectTags[i].date <= projectTags[j].date
    ensures ReleaseDistanceGit(projectTags, Some(one), Some(other), isRelease, Releases)
         == Some(ReleasesBetween(projectTags, isRelease, projectTags[i].date, projectTags[j].date))
  {
    var d1, d2 := projectTags[i].date, projectTags[j].date;
    var v1 := ReleaseValueGit(projectTags, one, isRelease, Releases);
    var v2 := ReleaseValueGit(projectTags, other, isRelease, Releases);
    var x := ReleaseDistanceGit(projectTags, Some(one), Some(other), isRelease, Releases);
    DistanceGitUnfold(projectTags, one, other, isRelease, Releases);
    ReleaseValueRanked(projectTags, one, isRelease, i);
    ReleaseValueRanked(projectTags, other, isRelease, j);
    var p: int, q: int := ReleasesUpTo(projectTags, isRelease, d1), ReleasesUpTo(projectTags, isRelease, d2);
    DifferenceOfRanks(x, v1, v2, p, q);
    RankGap(projectTags, isRelease, d1, d2, p, q, x);
  }

  /** Two given names are their values' difference apart. */
  lemma DistanceGitUnfold(projectTags: seq<Tag>, one: string, other: string, isRelease: string -> bool, unit: Unit)
    requires one != "" && other != ""
    ensures ReleaseDistanceGit(projectTags, Some(one), Some(other), isRelease, unit)
         == Difference(unit, ReleaseValueGit(projectTags, one, isRelease, unit),
                             ReleaseValueGit(projectTags, other, isRelease, unit))
  {
  }

  /** A rank difference of ordered dates counts the release tags between them. */
  lemma RankGap(projectTags: seq<Tag>, isRelease: string -> bool, d1: int, d2: int, p: int, q: int, x: Option<int>)
    requires d1 <= d2
    requires p == ReleasesUpTo(projectTags, isRelease, d1) && q == ReleasesUpTo(projectTags, isRelease, d2)
    requires x == Some(q - p)
    ensures x == Some(ReleasesBetween(projectTags, isRelease, d1, d2))
  {
    RankDifferenceCounts(projectTags, isRelease, d1, d2);
  }

  /** A release tag with a single row has a truthy rank: its rank is at least 1. */
  lemma ReleaseValueRanked(projectTags: seq<Tag>, name: string, isRelease: string -> bool, i: int)
    requires isRelease(name) && OnlyNamed(projectTags, name, i)
    ensures ReleaseValueGit(projectTags, name, isRelease, Releases) == Some(ReleasesUpTo(projectTags, isRelease, projectTags[i].date))
    ensures ReleasesUpTo(projectTags, isRelease, projectTags[i].date) >= 1
  {
    ListedReleaseRanked(projectTags, isRelease, projectTags[i]);
  }

  /**
    * A tag whose single row is dated before every release tag ranks 0,
    * which Python reads as "no value": no distance in releases from or to it.
    */
  lemma RankZeroHasNoDistance(projectTags: seq<Tag>, one: string, other: Option<string>, isRelease: string -> bool, i: int)
    requires OnlyNamed(projectTags, one, i)
    requires forall t :: t in projectTags && isRelease(t.name) ==> projectTags[i].date < t.date
    ensures ReleaseDistanceGit(projectTags, Some(one), other, isRelease, Releases).None?
    ensures ReleaseDistanceGit(projectTags, other, Some(one), isRelease, Releases).None?
  {
    NoReleaseUpTo(projectTags, isRelease, projectTags[i].date);
  }

  lemma {:induction false} NoReleaseUpTo(tags: seq<Tag>, isRelease: string -> bool, d: int)
    requires forall t :: t in tags && isRelease(t.name) ==> d < t.date
    ensures ReleasesUpTo(tags, isRelease, d) == 0
  {
    if tags != [] {
      NoReleaseUpTo(tags[1..], isRelease, d);
    }
  }

  /**
    * The same release on both sides: zero seconds apart, which the falsy
    * timedelta turns into no day count, while the rank distance is 0.
    */
  lemma SameTagDistances(projectTags: seq<Tag>, name: string, isRelease: string -> bool, i: int)
    requires name != "" && isRelease(name) && OnlyNamed(projectTags, name, i)
    ensures ReleaseDistanceGit(projectTags, Some(name), Some(name), isRelease, Days) == Some(0)
    ensures WholeDays(ReleaseDistanceGit(projectTags, Some(name), Some(name), isRelease, Days)).None?
    ensures ReleaseDistanceGit(projectTags, Some(name), Some(name), isRelease, Releases) == Some(0)
  {
    ListedReleaseRanked(projectTags, isRelease, projectTags[i]);
  }

  // ----- Closest tag (get_closest_tag) --------------------------------------

  /** The release tags of the date-sorted tag list, as `get_closest_tag` scans them. */
  function SortedReleaseTags(projectTags: seq<Tag>, isRelease: string -> bool): (r: seq<Tag>)
    ensures SortedBy(r, TagKey)
    ensures forall t :: t in r <==> t in projectTags && isRelease(t.name)
  {
    var sorted := SortBy(projectTags, TagKey);
    ReleaseTagsSorted(sorted, isRelease);
    assert forall t :: t in sorted <==> t in multiset(sorted);
    assert forall t :: t in projectTags <==> t in multiset(projectTags);
    ReleaseTags(sorted, isRelease)
  }

  /** A release tag dated strictly after the creation date. */
  predicate ReleasedAfter(t: Tag, created: int, isRelease: string -> bool) {
    isRelease(t.name) && created < t.date
  }

  /**
    * Row i is the tag `get_closest_tag` settles on: a release tag dated
    * after the creation date, of least date among those, and the first
    * of that date in project order, as the stable sort leaves ties.
    */
  ghost predicate ClosestAt(projectTags: seq<Tag>, created: int, isRelease: string -> bool, i: int) {
    && 0 <= i < |projectTags| && ReleasedAfter(projectTags[i], created, isRelease)
    && (forall j :: 0 <= j < |projectTags| && ReleasedAfter(projectTags[j], created, isRelease) ==>
          projectTags[i].date <= projectTags[j].date)
    && (forall j :: 0 <= j < i && ReleasedAfter(projectTags[j], created, isRelease) ==>
          projectTags[i].date < projectTags[j].date)
  }

  /** The release-name filter is the generic filter by that name test. */
  lemma {:induction false} ReleaseTagsFilter(tags: seq<Tag>, isRelease: string -> bool, rel: Tag -> bool)
    requires forall t :: rel(t) == isRelease(t.name)
    ensures ReleaseTags(tags, isRelease) == Filter(tags, rel)
  {
    if tags != [] {
      ReleaseTagsFilter(tags[1..], isRelease, rel);
    }
  }

  lemma ClosestTagFacts(created: int, projectTags: seq<Tag>, isRelease: string -> bool)
    ensures var first := FirstAbove(SortedReleaseTags(projectTags, isRelease), TagKey, At(created));
      && (first.None? <==> forall t :: t in projectTags && isRelease(t.name) ==> t.date <= created)
      && (first.Some? ==> exists i :: ClosestAt(projectTags, created, isRelease, i) && projectTags[i] == first.value)
  {
    var filtered := SortedReleaseTags(projectTags, isRelease);
    var first := FirstAbove(filtered, TagKey, At(created));
    if first.None? {
      forall t | t in projectTags && isRelease(t.name) ensures t.date <= created {
        var j :| 0 <= j < |filtered| && filtered[j] == t;
        assert TagKey(filtered[j]) == At(t.date);
      }
    } else {
      ClosestTagStable(created, projectTags, isRelease);
    }
  }

  /**
    * Scanning the date-sorted release tags for the first one after the
    * creation date picks the head of the stably sorted release tags dated
    * after it.
    */
  lemma ClosestTagIsHead(created: int, projectTags: seq<Tag>, isRelease: string -> bool, both: Tag -> bool)
    requires forall t :: both(t) == (isRelease(t.name) && Lt(At(created), TagKey(t)))
    ensures var f := Filter(projectTags, both);
      FirstAbove(SortedReleaseTags(projectTags, isRelease), TagKey, At(created))
        == if f == [] then None else Some(SortBy(f, TagKey)[0])
  {
    var rel := (t: Tag) => isRelease(t.name);
    var above := (t: Tag) => Lt(At(created), TagKey(t));
    var sorted := SortBy(projectTags, TagKey);
    ReleaseTagsFilter(sorted, isRelease, rel);
    assert SortedReleaseTags(projectTags, isRelease) == Filter(sorted, rel);
    FirstAboveFilter(Filter(sorted, rel), TagKey, At(created), above);
    FilterFilter(sorted, rel, above, both);
    FilterSortBy(projectTags, TagKey, both);
  }

  /** The stable sort makes the scan settle on the first tied tag in project order. */
  lemma ClosestTagStable(created: int, projectTags: seq<Tag>, isRelease: string -> bool)
    requires FirstAbove(SortedReleaseTags(projectTags, isRelease), TagKey, At(created)).Some?
    ensures exists i :: (ClosestAt(projectTags, created, isRelease, i)
      && projectTags[i] == FirstAbove(SortedReleaseTags(projectTags, isRelease), TagKey, At(created)).value)
  {
    var both := (t: Tag) => isRelease(t.name) && Lt(At(created), TagKey(t));
    ClosestTagIsHead(created, projectTags, isRelease, both);
    var f := Filter(projectTags, both);
    var i := FilterSortHead(projectTags, TagKey, both);
    ClosestFromFilter(projectTags, created, isRelease, both, i);
  }

  lemma ClosestFromFilter(projectTags: seq<Tag>, created: int, isRelease: string -> bool, both: Tag -> bool, i: int)
    requires forall t :: both(t) == (isRelease(t.name) && Lt(At(created), TagKey(t)))
    requires 0 <= i < |projectTags| && both(projectTags[i])
    requires forall j :: 0 <= j < |projectTags| && both(projectTags[j]) ==> Le(TagKey(projectTags[i]), TagKey(projectTags[j]))
    requires forall j :: 0 <= j < i && both(projectTags[j]) ==> !Le(TagKey(projectTags[j]), TagKey(projectTags[i]))
    ensures ClosestAt(projectTags, created, isRelease, i)
  {
    forall j | 0 <= j < |projectTags| && ReleasedAfter(projectTags[j], created, isRelease)
      ensures projectTags[i].date <= projectTags[j].date
    {
      assert both(projectTags[j]);
    }
    forall j | 0 <= j < i && ReleasedAfter(projectTags[j], created, isRelease)
      ensures projectTags[i].date < projectTags[j].date
    {
      assert both(projectTags[j]);
    }
  }

  /** At most one row is the one the scan settles on: the closest tag is determined. */
  lemma ClosestAtUnique(projectTags: seq<Tag>, created: int, isRelease: string -> bool, i: int, k: int)
    requires ClosestAt(projectTags, created, isRelease, i) && ClosestAt(projectTags, created, isRelease, k)
    ensures i == k
  {
  }

  /**
    * `get_closest_tag`: the name of the first release tag, in date order,
    * dated strictly after the creation date; among tags of that date, the
    * first in project order. None when there is none.
    */
  function ClosestTag(created: int, projectTags: seq<Tag>, isRelease: string -> bool): (r: Option<string>)
    ensures r.None? <==> forall t :: t in projectTags && isRelease(t.name) ==> t.date <= created
    ensures r.Some? ==> exists i :: ClosestAt(projectTags, created, isRelease, i) && projectTags[i].name == r.value
  {
    ClosestTagFacts(created, projectTags, isRelease);
    match FirstAbove(SortedReleaseTags(projectTags, isRelease), TagKey, At(created))
    case Some(t) => Some(t.name)
    case None => None
  }

  // ----- Version numbers (extract_version_number) ---------------------------

  /** `\d` on a Python 2 byte string. */
  predicate IsDigit(c: char) {
    '0' <= c <= '9'
  }

  /** Every character of s[p..m] is a digit. */
  ghost predicate DigitsBetween(s: string, p: nat, m: nat) {
    forall k :: p <= k < m && k < |s| ==> IsDigit(s[k])
  }

  /**
    * s[p..q] is `parts` non-empty runs of digits joined by dots
    * (`\d+\.\d+\.\d+` for three parts).
    */
  ghost predicate DottedAt(s: string, p: nat, q: nat, parts: nat)
    decreases parts
  {
    if parts <= 1 then parts == 1 && p < q <= |s| && DigitsBetween(s, p, q)
    else exists m :: p < m < q && m < |s| && s[m] == '.' && DigitsBetween(s, p, m) && DottedAt(s, m + 1, q, parts - 1)
  }

  /** Some slice of s is a dotted number of that many parts. */
  ghost predicate HasDotted(s: string, parts: nat) {
    exists p, q :: 0 <= p <= q <= |s| && DottedAt(s, p, q, parts)
  }

  /** Where the run of digits that starts at i ends. */
  function DigitsEnd(s: string, i: nat): (e: nat)
    requires i <= |s|
    ensures i <= e <= |s|
    ensures DigitsBetween(s, i, e)
    ensures e == |s| || !IsDigit(s[e])
    decreases |s| - i
  {
    if i < |s| && IsDigit(s[i]) then DigitsEnd(s, i + 1) else i
  }

  lemma {:induction false} DigitsEndAt(s: string, i: nat, m: nat)
    requires i <= m <= |s|
    requires DigitsBetween(s, i, m)
    requires m == |s| || !IsDigit(s[m])
    ensures DigitsEnd(s, i) == m
    decreases m - i
  {
    if i < m {
      DigitsEndAt(s, i + 1, m);
    }
  }

  /**
    * Where a match of the pattern with `parts` runs that starts at p ends,
    * if one does. Each `\d+` is greedy, and only a maximal run of digits
    * can be followed by a dot, so the match takes maximal runs.
    */
  function MatchEnd(s: string, p: nat, parts: nat): (r: Option<nat>)
    requires p <= |s| && parts >= 1
    ensures r.Some? ==> p < r.value <= |s|
    ensures r.Some? ==> r.value == |s| || !IsDigit(s[r.value])
    decreases parts
  {
    var e := DigitsEnd(s, p);
    if e == p then None
    else if parts == 1 then Some(e)
    else if e < |s| && s[e] == '.' then MatchEnd(s, e + 1, parts - 1)
    else None
  }

  /** A match of the pattern at p spans a dotted number of that many parts. */
  lemma {:induction false} MatchEndSound(s: string, p: nat, parts: nat)
    requires p <= |s| && parts >= 1
    ensures MatchEnd(s, p, parts).Some? ==> DottedAt(s, p, MatchEnd(s, p, parts).value, parts)
    decreases parts
  {
    var e := DigitsEnd(s, p);
    if e != p && parts > 1 && e < |s| && s[e] == '.' {
      MatchEndSound(s, e + 1, parts - 1);
      var r := MatchEnd(s, e + 1, parts - 1);
      if r.Some? {
        assert p < e < r.value && s[e] == '.' && DigitsBetween(s, p, e) && DottedAt(s, e + 1, r.value, parts - 1);
      }
    }
  }

  /** Every dotted slice starting at p makes the pattern match at p. */
  lemma {:induction false} MatchEndComplete(s: string, p: nat, q: nat, parts: nat)
    requires p <= q <= |s| && parts >= 1
    requires DottedAt(s, p, q, parts)
    ensures MatchEnd(s, p, parts).Some?
    decreases parts
  {
    if parts == 1 {
      MatchEndRun(s, p, q);
    } else {
      var m :| p < m < q && m < |s| && s[m] == '.' && DigitsBetween(s, p, m) && DottedAt(s, m + 1, q, parts - 1);
      DigitsEndAt(s, p, m);
      MatchEndComplete(s, m + 1, q, parts - 1);
      MatchEndStep(s, p, m, parts);
    }
  }

  /** A dotted slice whose last run of digits is not followed by a digit is exactly the match at its start. */
  lemma {:induction false} MatchEndExact(s: string, p: nat, q: nat, parts: nat)
    requires p <= q <= |s| && parts >= 1
    requires q == |s| || !IsDigit(s[q])
    requires DottedAt(s, p, q, parts)
    ensures MatchEnd(s, p, parts) == Some(q)
    decreases parts
  {
    if parts == 1 {
      DigitsEndAt(s, p, q);
      MatchEndOne(s, p, q);
    } else {
      var m :| p < m < q && m < |s| && s[m] == '.' && DigitsBetween(s, p, m) && DottedAt(s, m + 1, q, parts - 1);
      DigitsEndAt(s, p, m);
      MatchEndExact(s, m + 1, q, parts - 1);
      MatchEndStep(s, p, m, parts);
    }
  }

  /** With one part, the pattern matches wherever a run of digits starts. */
  lemma MatchEndRun(s: string, p: nat, q: nat)
    requires p < q <= |s| && DigitsBetween(s, p, q)
    ensures MatchEnd(s, p, 1).Some?
  {
    assert IsDigit(s[p]);
  }

  /** With one part, the match is the run of digits, when there is one. */
  lemma MatchEndOne(s: string, p: nat, e: nat)
    requires p < e <= |s| && DigitsEnd(s, p) == e
    ensures MatchEnd(s, p, 1) == Some(e)
  {
  }

  /** After a run of digits ending at m and a dot, matching goes on with one part fewer. */
  lemma MatchEndStep(s: string, p: nat, m: nat, parts: nat)
    requires p <= |s| && parts > 1
    requires DigitsEnd(s, p) == m && p < m < |s| && s[m] == '.'
    ensures MatchEnd(s, p, parts) == MatchEnd(s, m + 1, parts - 1)
  {
  }

  /** `re.findall(pattern, s)[0]`: the leftmost match, as (start, end). */
  function FirstMatch(s: string, from: nat, parts: nat): (r: Option<(nat, nat)>)
    requires from <= |s| && parts >= 1
    ensures r.Some? ==> from <= r.value.0 <= |s| && MatchEnd(s, r.value.0, parts) == Some(r.value.1)
    ensures forall q :: from <= q <= |s| && (r.None? || q < r.value.0) ==> MatchEnd(s, q, parts).None?
    decreases |s| - from
  {
    var m := MatchEnd(s, from, parts);
    if m.Some? then Some((from, m.value))
    else if from == |s| then None
    else FirstMatch(s, from + 1, parts)
  }

  /**
    * name[p..q] is the slice `re.findall` reports first for the pattern
    * with that many parts: dotted with that many parts, its last run of
    * digits not followed by a digit (`\d+` is greedy), and no dotted slice
    * of that many parts starting further left.
    */
  ghost predicate LeftmostAt(name: string, p: nat, q: nat, parts: nat) {
    && p < q <= |name| && DottedAt(name, p, q, parts)
    && (q == |name| || !IsDigit(name[q]))
    && forall p', q' :: 0 <= p' < p && p' <= q' <= |name| ==> !DottedAt(name, p', q', parts)
  }

  /** v is the number the pattern with that many parts finds first in the name. */
  ghost predicate LeftmostNumber(name: string, v: string, parts: nat) {
    exists p: nat, q: nat :: LeftmostAt(name, p, q, parts) && name[p..q] == v
  }

  /** What the leftmost match of one pattern is, when there is one. */
  lemma FirstMatchLeftmost(name: string, parts: nat)
    requires parts >= 1
    ensures FirstMatch(name, 0, parts).Some? <==> HasDotted(name, parts)
    ensures FirstMatch(name, 0, parts).Some? ==>
      var m := FirstMatch(name, 0, parts).value;
      m.0 < m.1 <= |name| && LeftmostNumber(name, name[m.0..m.1], parts)
  {
    var m := FirstMatch(name, 0, parts);
    if HasDotted(name, parts) {
      var p, q :| 0 <= p <= q <= |name| && DottedAt(name, p, q, parts);
      MatchEndComplete(name, p, q, parts);
    }
    if m.Some? {
      var p, q := m.value.0, m.value.1;
      MatchEndSound(name, p, parts);
      forall p', q' | 0 <= p' < p && p' <= q' <= |name| ensures !DottedAt(name, p', q', parts) {
        if DottedAt(name, p', q', parts) {
          MatchEndComplete(name, p', q', parts);
        }
      }
      assert LeftmostAt(name, p, q, parts);
    }
  }

  /** A leftmost number is the slice `re.findall` reports first. */
  lemma LeftmostIsFirstMatch(name: string, v: string, parts: nat)
    requires parts >= 1
    requires LeftmostNumber(name, v, parts)
    ensures FirstMatch(name, 0, parts).Some?
    ensures var m := FirstMatch(name, 0, parts).value; m.0 <= m.1 <= |name| && v == name[m.0..m.1]
  {
    var p: nat, q: nat :| LeftmostAt(name, p, q, parts) && name[p..q] == v;
    MatchEndExact(name, p, q, parts);
    var r := FirstMatch(name, 0, parts);
    assert r.Some? && r.value.0 <= p;
    var a, b := r.value.0, r.value.1;
    MatchEndSound(name, a, parts);
    assert !(a < p);
    assert a == p && b == q;
  }

  /** Two leftmost numbers of the same pattern are the same slice: the match is determined. */
  lemma LeftmostNumberUnique(name: string, v: string, w: string, parts: nat)
    requires parts >= 1
    requires LeftmostNumber(name, v, parts) && LeftmostNumber(name, w, parts)
    ensures v == w
  {
    LeftmostIsFirstMatch(name, v, parts);
    LeftmostIsFirstMatch(name, w, parts);
  }

  /**
    * The loop of `extract_version_number` over the patterns, from `parts`
    * runs down to one: the leftmost number of the longest pattern that
    * occurs in the name at all.
    */
  function FirstPattern(name: string, parts: nat): (r: Option<string>)
    ensures r.None? <==> forall k :: 1 <= k <= parts ==> !HasDotted(name, k)
    ensures r.Some? ==> exists k :: (1 <= k <= parts && LeftmostNumber(name, r.value, k)
      && forall j :: k < j <= parts ==> !HasDotted(name, j))
    decreases parts
  {
    if parts == 0 then None
    else
      FirstMatchLeftmost(name, parts);
      var m := FirstMatch(name, 0, parts);
      if m.Some? then
        var v := name[m.value.0..m.value.1];
        assert LeftmostNumber(name, v, parts);
        Some(v)
      else
        var r := FirstPattern(name, parts - 1);
        FirstPatternFallThrough(name, parts, r);
        r
  }

  /** When the longest pattern does not occur, the loop's answer is that of the shorter ones. */
  lemma FirstPatternFallThrough(name: string, parts: nat, r: Option<string>)
    requires parts >= 1 && !HasDotted(name, parts)
    requires r.None? <==> forall k :: 1 <= k <= parts - 1 ==> !HasDotted(name, k)
    requires r.Some? ==> exists k :: (1 <= k <= parts - 1 && LeftmostNumber(name, r.value, k)
      && forall j :: k < j <= parts - 1 ==> !HasDotted(name, j))
    ensures r.None? <==> forall k :: 1 <= k <= parts ==> !HasDotted(name, k)
    ensures r.Some? ==> exists k :: (1 <= k <= parts && LeftmostNumber(name, r.value, k)
      && forall j :: k < j <= parts ==> !HasDotted(name, j))
  {
    if r.Some? {
      var k :| (1 <= k <= parts - 1 && LeftmostNumber(name, r.value, k)
        && forall j :: k < j <= parts - 1 ==> !HasDotted(name, j));
      assert forall j :: k < j <= parts ==> !HasDotted(name, j);
    }
  }

  /** A single digit is already a one-part number. */
  lemma DigitIsDotted(name: string)
    ensures (exists k :: 0 <= k < |name| && IsDigit(name[k])) ==> HasDotted(name, 1)
  {
    if k :| 0 <= k < |name| && IsDigit(name[k]) {
      assert DottedAt(name, k, k + 1, 1);
    }
  }

  /**
    * `extract_version_number`: the leftmost `d.d.d` number in the name if
    * there is one, else the leftmost `d.d`, else the leftmost run of
    * digits, else None; so None exactly when the name has no digit.
    */
  function ExtractVersionNumber(name: string): (r: Option<string>)
    ensures r.None? <==> forall k :: 0 <= k < |name| ==> !IsDigit(name[k])
    ensures HasDotted(name, 3) ==> r.Some? && LeftmostNumber(name, r.value, 3)
    ensures !HasDotted(name, 3) && HasDotted(name, 2) ==> r.Some? && LeftmostNumber(name, r.value, 2)
    ensures !HasDotted(name, 3) && !HasDotted(name, 2) && r.Some? ==> LeftmostNumber(name, r.value, 1)
    ensures r.Some? ==> exists p, q :: 0 <= p < q <= |name| && name[p..q] == r.value
  {
    DigitIsDotted(name);
    FirstPatternSlice(name, 3);
    FirstPatternCascade(name);
    FirstPattern(name, 3)
  }

  /** Which of the three patterns the loop settles on. */
  lemma FirstPatternCascade(name: string)
    ensures var r := FirstPattern(name, 3);
      && (HasDotted(name, 3) ==> r.Some? && LeftmostNumber(name, r.value, 3))
      && (!HasDotted(name, 3) && HasDotted(name, 2) ==> r.Some? && LeftmostNumber(name, r.value, 2))
      && (!HasDotted(name, 3) && !HasDotted(name, 2) && r.Some? ==> LeftmostNumber(name, r.value, 1))
  {
    var r := FirstPattern(name, 3);
    if r.Some? {
      var k :| (1 <= k <= 3 && LeftmostNumber(name, r.value, k)
        && forall j :: k < j <= 3 ==> !HasDotted(name, j));
      assert HasDotted(name, 3) ==> k == 3;
      assert !HasDotted(name, 3) && HasDotted(name, 2) ==> k == 2;
    } else {
      assert !HasDotted(name, 3) && !HasDotted(name, 2);
    }
  }

  /** A number found by the pattern loop is a slice starting with a digit. */
  lemma FirstPatternSlice(name: string, parts: nat)
    ensures FirstPattern(name, parts).Some? ==>
      exists p, q :: 0 <= p < q <= |name| && name[p..q] == FirstPattern(name, parts).value && IsDigit(name[p])
  {
    var r := FirstPattern(name, parts);
    if r.Some? {
      var k :| (1 <= k <= parts && LeftmostNumber(name, r.value, k)
        && forall j :: k < j <= parts ==> !HasDotted(name, j));
      var p: nat, q: nat :| LeftmostAt(name, p, q, k) && name[p..q] == r.value;
      DottedStartsWithDigit(name, p, q, k);
    }
  }

  /** A dotted number begins with a digit. */
  lemma DottedStartsWithDigit(s: string, p: nat, q: nat, parts: nat)
    requires DottedAt(s, p, q, parts)
    ensures p < |s| && IsDigit(s[p])
  {
    if parts > 1 {
      var m :| p < m < q && m < |s| && s[m] == '.' && DigitsBetween(s, p, m) && DottedAt(s, m + 1, q, parts - 1);
    }
  }

  // ----- Commit stats (get_earliest_commit) ---------------------------------

  /** The integer results of `get_earliest_commit`: the returned row and the two totals; the averages are floats and left out. */
  datatype CommitSummary = CommitSummary(earliest: Option<Commit>, totalDeletions: Option<int>,
                                         totalInsertions: Option<int>)

  /** The sum of the deletions column; with counts that are never negative, it bounds each of them. */
  function TotalDeletions(commits: seq<Commit>): (r: int)
    ensures (forall k :: 0 <= k < |commits| ==> commits[k].deletions >= 0) ==>
      r >= 0 && forall k :: 0 <= k < |commits| ==> commits[k].deletions <= r
  {
    if commits == [] then 0 else commits[0].deletions + TotalDeletions(commits[1..])
  }

  /** The sum of the insertions column; with counts that are never negative, it bounds each of them. */
  function TotalInsertions(commits: seq<Commit>): (r: int)
    ensures (forall k :: 0 <= k < |commits| ==> commits[k].insertions >= 0) ==>
      r >= 0 && forall k :: 0 <= k < |commits| ==> commits[k].insertions <= r
  {
    if commits == [] then 0 else commits[0].insertions + TotalInsertions(commits[1..])
  }

  /** The totals add up over any split of the commit list. */
  lemma {:induction false} TotalsAppend(a: seq<Commit>, b: seq<Commit>)
    ensures TotalDeletions(a + b) == TotalDeletions(a) + TotalDeletions(b)
    ensures TotalInsertions(a + b) == TotalInsertions(a) + TotalInsertions(b)
  {
    if a == [] {
      assert a + b == b;
    } else {
      assert (a + b)[1..] == a[1..] + b;
      TotalsAppend(a[1..], b);
    }
  }

  /**
    * The value a Python 2 list comprehension leaves in its loop variable:
    * the variable leaks into the enclosing function, so after a
    * comprehension over a non-empty list it holds the list's last element,
    * and after one over an empty list it keeps its earlier value.
    */
  function LeakedVariable<T>(before: T, s: seq<T>): (r: T)
    ensures s == [] ==> r == before
    ensures s != [] ==> r == s[|s| - 1]
    decreases |s|
  {
    if s == [] then before else LeakedVariable(s[0], s[1..])
  }

  /**
    * `get_earliest_commit` as written: `commit_info` is first bound to the
    * head of the date-sorted rows, but the four comprehensions computing
    * `avg_lines`, `total_deletions`, `total_insertions` and `avg_files`
    * rebind it, so the returned row is the last one in query order.
    */
  function EarliestCommit(commits: seq<Commit>): (r: CommitSummary)
    ensures commits == [] ==> r == CommitSummary(None, None, None)
    ensures commits != [] ==>
      && r.earliest == Some(commits[|commits| - 1])
      && r.totalDeletions == Some(TotalDeletions(commits))
      && r.totalInsertions == Some(TotalInsertions(commits))
  {
    var sorted := SortBy(commits, CommitKey);
    if |sorted| > 0 then
      var info := sorted[0];
      var info1 := LeakedVariable(info, commits);    // avg_lines
      var info2 := LeakedVariable(info1, commits);   // total_deletions
      var info3 := LeakedVariable(info2, commits);   // total_insertions
      var info4 := LeakedVariable(info3, commits);   // avg_files
      CommitSummary(Some(info4), Some(TotalDeletions(commits)), Some(TotalInsertions(commits)))
    else
      CommitSummary(None, None, None)
  }

  /**
    * What `get_earliest_commit` is evidently meant to return: the head of
    * the date-sorted rows, that is the first commit of least date (the sort
    * is stable), with the same totals.
    */
  function EarliestCommitIntended(commits: seq<Commit>): (r: CommitSummary)
    ensures commits == [] ==> r == CommitSummary(None, None, None)
    ensures commits != [] ==>
      && r.earliest == Some(commits[FirstMin(commits, CommitKey)])
      && r.totalDeletions == Some(TotalDeletions(commits))
      && r.totalInsertions == Some(TotalInsertions(commits))
  {
    var sorted := SortBy(commits, CommitKey);
    if |sorted| > 0 then
      SortByHead(commits, CommitKey);
      CommitSummary(Some(sorted[0]), Some(TotalDeletions(commits)), Some(TotalInsertions(commits)))
    else
      CommitSummary(None, None, None)
  }

  /**
    * The two agree exactly when the last row is the first commit of least
    * date; the totals never differ.
    */
  lemma EarliestCommitAgreement(commits: seq<Commit>)
    ensures EarliestCommit(commits).totalDeletions == EarliestCommitIntended(commits).totalDeletions
    ensures EarliestCommit(commits).totalInsertions == EarliestCommitIntended(commits).totalInsertions
    ensures EarliestCommit(commits) == EarliestCommitIntended(commits)
        <==> commits == [] || commits[|commits| - 1] == commits[FirstMin(commits, CommitKey)]
  {
  }

  /**
    * Two rows in query order, the earlier one first: the code as written
    * reports the later commit, not the earliest one.
    */
  lemma EarliestCommitReportsLastRow()
    ensures var c1 := Commit("repo", "alice", At(100), 1, 2);
            var c2 := Commit("repo", "bob", At(200), 3, 4);
            && EarliestCommit([c1, c2]).earliest == Some(c2)
            && EarliestCommitIntended([c1, c2]).earliest == Some(c1)
            && c1 != c2
  {
    var c1 := Commit("repo", "alice", At(100), 1, 2);
    var c2 := Commit("repo", "bob", At(200), 3, 4);
    var cs := [c1, c2];
    var m := FirstMin(cs, CommitKey);
    assert CommitKey(cs[m]) == At(100) by {
      assert Le(CommitKey(cs[m]), CommitKey(cs[0]));
    }
    assert cs[m] == c1;
  }

  // ----- Tags per commit (get_tags_for_commits) -----------------------------

  /**
    * The release tags of each commit that has any, in commit order: what
    * the loop of `get_tags_for_commits` has collected after the commits given.
    */
  function TagsPerCommit(commits: seq<string>, tagsOf: string -> seq<Tag>, isRelease: string -> bool): (r: seq<seq<Tag>>)
    ensures |r| <= |commits|
    ensures forall l :: l in r ==> l != [] && forall t :: t in l ==> isRelease(t.name)
    ensures forall l :: l in r ==> exists c :: c in commits && l == ReleaseTags(tagsOf(c), isRelease)
    ensures forall c :: c in commits && ReleaseTags(tagsOf(c), isRelease) != [] ==>
      ReleaseTags(tagsOf(c), isRelease) in r
  {
    if commits == [] then []
    else
      var init := commits[..|commits| - 1];
      var last := commits[|commits| - 1];
      var releaseTags := ReleaseTags(tagsOf(last), isRelease);
      var r := TagsPerCommit(init, tagsOf, isRelease) + (if releaseTags != [] then [releaseTags] else []);
      assert forall c :: c in commits ==> c in init || c == last by {
        assert commits == init + [last];
      }
      r
  }

  /**
    * TagsPerCommit keeps commit order: the lists of a concatenation are
    * those of its first part followed by those of its second.
    */
  lemma {:induction false} TagsPerCommitAppend(a: seq<string>, b: seq<string>, tagsOf: string -> seq<Tag>, isRelease: string -> bool)
    ensures TagsPerCommit(a + b, tagsOf, isRelease) == TagsPerCommit(a, tagsOf, isRelease) + TagsPerCommit(b, tagsOf, isRelease)
    decreases |b|
  {
    if b != [] {
      var binit := b[..|b| - 1];
      assert (a + b)[..|a + b| - 1] == a + binit;
      assert (a + b)[|a + b| - 1] == b[|b| - 1];
      TagsPerCommitAppend(a, binit, tagsOf, isRelease);
    } else {
      assert a + b == a;
    }
  }

  /** The commits that have at least one release tag, by position. */
  function TaggedCommits(commits: seq<string>, tagsOf: string -> seq<Tag>, isRelease: string -> bool): set<nat>
  {
    set k: nat | k < |commits| && ReleaseTags(tagsOf(commits[k]), isRelease) != []
  }

  /** Exactly one list per commit that has release tags, none for the others. */
  lemma {:induction false} TagsPerCommitCount(commits: seq<string>, tagsOf: string -> seq<Tag>, isRelease: string -> bool)
    ensures |TagsPerCommit(commits, tagsOf, isRelease)| == |TaggedCommits(commits, tagsOf, isRelease)|
  {
    if commits == [] {
      assert TaggedCommits(commits, tagsOf, isRelease) == {};
    } else {
      var n := |commits| - 1;
      var init := commits[..n];
      var releaseTags := ReleaseTags(tagsOf(commits[n]), isRelease);
      var before := TaggedCommits(init, tagsOf, isRelease);
      var extra: set<nat> := if releaseTags != [] then {n} else {};
      TagsPerCommitCount(init, tagsOf, isRelease);
      TaggedCommitsLast(commits, tagsOf, isRelease);
      assert n !in before;
      assert |before + extra| == |before| + |extra|;
      var listed := TagsPerCommit(init, tagsOf, isRelease) + (if releaseTags != [] then [releaseTags] else []);
      assert TagsPerCommit(commits, tagsOf, isRelease) == listed;
      assert |listed| == |TagsPerCommit(init, tagsOf, isRelease)| + |extra|;
    }
  }

  lemma TaggedCommitsLast(commits: seq<string>, tagsOf: string -> seq<Tag>, isRelease: string -> bool)
    requires commits != []
    ensures var n := |commits| - 1;
      TaggedCommits(commits, tagsOf, isRelease)
        == TaggedCommits(commits[..n], tagsOf, isRelease)
           + (if ReleaseTags(tagsOf(commits[n]), isRelease) != [] then {n} else {})
  {
    var n := |commits| - 1;
    var init := commits[..n];
    var extra: set<nat> := if ReleaseTags(tagsOf(commits[n]), isRelease) != [] then {n} else {};
    forall k: nat | k in TaggedCommits(commits, tagsOf, isRelease)
      ensures k in TaggedCommits(init, tagsOf, isRelease) + extra
    {
      if k < n {
        assert init[k] == commits[k];
      }
    }
    forall k: nat | k in TaggedCommits(init, tagsOf, isRelease)
      ensures k in TaggedCommits(commits, tagsOf, isRelease)
    {
      assert init[k] == commits[k];
    }
  }

  /** `get_tags_for_commits`: for each commit, its release tags when it has any. */
  method TagsForCommits(commits: seq<string>, tagsOf: string -> seq<Tag>, isRelease: string -> bool)
    returns (tagsPerCommit: seq<seq<Tag>>)
    ensures tagsPerCommit == TagsPerCommit(commits, tagsOf, isRelease)
  {
    tagsPerCommit := [];
    for k := 0 to |commits|
      invariant tagsPerCommit == TagsPerCommit(commits[..k], tagsOf, isRelease)
    {
      assert commits[..k + 1][..k] == commits[..k];
      var releaseTags := ReleaseTags(tagsOf(commits[k]), isRelease);
      if releaseTags != [] {
        tagsPerCommit := tagsPerCommit + [releaseTags];
      }
    }
    assert commits[..|commits|] == commits;
  }

  // ----- Earliest tag (get_earliest_tag) ------------------------------------

  /** `[tag for tag_list in tags_per_commit for tag in tag_list]` */
  function Flatten(tagsPerCommit: seq<seq<Tag>>): (r: seq<Tag>)
    ensures forall t :: t in r <==> exists l :: l in tagsPerCommit && t in l
  {
    if tagsPerCommit == [] then []
    else
      var r := tagsPerCommit[0] + Flatten(tagsPerCommit[1..]);
      assert forall l :: l in tagsPerCommit ==> l == tagsPerCommit[0] || l in tagsPerCommit[1..];
      r
  }

  /** `[tag.name for tag in tag_list]` */
  function Names(tags: seq<Tag>): (r: seq<string>)
    ensures |r| == |tags| && forall i :: 0 <= i < |tags| ==> r[i] == tags[i].name
  {
    seq(|tags|, i requires 0 <= i < |tags| => tags[i].name)
  }

  /** `set(tag_names[0]).union(*tag_names)` */
  function NameUnion(tagNames: seq<seq<string>>): (r: set<string>)
    ensures forall n :: n in r <==> exists l :: l in tagNames && n in l
  {
    set l, n | l in tagNames && n in l :: n
  }

  /** The first tag of the list with the given name: the row `tag_bag` keeps for it. */
  function FirstNamed(flat: seq<Tag>, name: string): (t: Tag)
    requires exists u :: u in flat && u.name == name
    ensures t in flat && t.name == name
  {
    if flat[0].name == name then flat[0]
    else
      assert exists u :: u in flat[1..] && u.name == name by {
        var u :| u in flat && u.name == name;
        assert u != flat[0];
      }
      FirstNamed(flat[1..], name)
  }

  lemma {:induction false} FirstNamedAt(flat: seq<Tag>, name: string, i: int)
    requires 0 <= i < |flat| && flat[i].name == name
    requires forall j :: 0 <= j < i ==> flat[j].name != name
    ensures FirstNamed(flat, name) == flat[i]
  {
    if i > 0 {
      FirstNamedAt(flat[1..], name, i - 1);
    }
  }

  /** The union of the per-commit name lists holds exactly the names of the flattened tags. */
  lemma NameUnionOfFlat(tagsPerCommit: seq<seq<Tag>>, tagNames: seq<seq<string>>)
    requires |tagNames| == |tagsPerCommit|
    requires forall j :: 0 <= j < |tagsPerCommit| ==> tagNames[j] == Names(tagsPerCommit[j])
    ensures forall n :: n in NameUnion(tagNames) <==> exists t :: t in Flatten(tagsPerCommit) && t.name == n
  {
    var flat := Flatten(tagsPerCommit);
    forall n ensures n in NameUnion(tagNames) <==> exists t :: t in flat && t.name == n {
      if n in NameUnion(tagNames) {
        var l :| l in tagNames && n in l;
        var j :| 0 <= j < |tagNames| && tagNames[j] == l;
        var i :| 0 <= i < |l| && l[i] == n;
        var t := tagsPerCommit[j][i];
        assert tagsPerCommit[j] in tagsPerCommit && t in tagsPerCommit[j];
        assert t in flat && t.name == n;
      }
      if t :| t in flat && t.name == n {
        var l :| l in tagsPerCommit && t in l;
        var j :| 0 <= j < |tagsPerCommit| && tagsPerCommit[j] == l;
        var i :| 0 <= i < |l| && l[i] == t;
        assert tagNames[j][i] == n;
        assert tagNames[j] in tagNames && n in tagNames[j];
      }
    }
  }

  /**
    * `tag_bag` holds, for each name already visited and for no other, the
    * first row of that name in the flattened lists.
    */
  ghost predicate Represents(flat: seq<Tag>, tagBag: seq<Tag>, visited: set<string>) {
    && (forall t :: t in tagBag ==> t.name in visited && t in flat && t == FirstNamed(flat, t.name))
    && (forall n :: n in visited ==> exists t :: t in tagBag && t.name == n)
  }

  lemma RepresentsStep(flat: seq<Tag>, tagBag: seq<Tag>, visited: set<string>, name: string)
    requires Represents(flat, tagBag, visited)
    requires exists u :: u in flat && u.name == name
    ensures Represents(flat, tagBag + [FirstNamed(flat, name)], visited + {name})
  {
    var bag' := tagBag + [FirstNamed(flat, name)];
    forall n | n in visited + {name} ensures exists t :: t in bag' && t.name == n {
      if n == name {
        assert bag'[|tagBag|] in bag';
      } else {
        var t :| t in tagBag && t.name == n;
        assert t in bag';
      }
    }
  }

  /** Sorting a complete `tag_bag` by date and taking the head gives an earliest tag. */
  lemma EarliestOfBag(flat: seq<Tag>, tagBag: seq<Tag>, names: set<string>)
    requires forall n :: n in names <==> exists t :: t in flat && t.name == n
    requires Represents(flat, tagBag, names)
    ensures flat != [] ==> tagBag != []
    ensures EarliestIn(flat, if tagBag == [] then "" else SortBy(tagBag, TagKey)[0].name)
  {
    if flat != [] {
      assert flat[0] in flat;
      assert flat[0].name in names;
      var t :| t in tagBag && t.name == flat[0].name;
    }
    if tagBag != [] {
      SortByHead(tagBag, TagKey);
      var e := tagBag[FirstMin(tagBag, TagKey)];
      assert e in tagBag;
      forall t | t in flat ensures e.date <= FirstNamed(flat, t.name).date {
        assert t.name in names;
        var b :| b in tagBag && b.name == t.name;
        var j :| 0 <= j < |tagBag| && tagBag[j] == b;
        assert TagKey(tagBag[j]) == At(b.date);
      }
    }
  }

  /**
    * The names `get_earliest_tag` may return, whatever order Python's set
    * yields the names in: "" when no commit has a tag; otherwise the name of
    * a tag of the union of all the per-commit lists whose representative
    * (the first row of that name in flattened order) is dated no later than
    * the representative of any other name.
    */
  ghost predicate IsEarliestTag(tagsPerCommit: seq<seq<Tag>>, name: string) {
    EarliestIn(Flatten(tagsPerCommit), name)
  }

  ghost predicate EarliestIn(flat: seq<Tag>, name: string) {
    if flat == [] then name == ""
    else
      && (exists t :: t in flat && t.name == name)
      && forall t :: t in flat ==> FirstNamed(flat, name).date <= FirstNamed(flat, t.name).date
  }

  /**
    * When every name carries one date (a tag is one release), the earliest
    * tag is dated no later than any tag linked to any of the commits.
    */
  lemma EarliestTagIsEarliest(tagsPerCommit: seq<seq<Tag>>, name: string)
    requires IsEarliestTag(tagsPerCommit, name) && Flatten(tagsPerCommit) != []
    requires forall t, u :: t in Flatten(tagsPerCommit) && u in Flatten(tagsPerCommit) && t.name == u.name ==> t.date == u.date
    ensures exists t :: (t in Flatten(tagsPerCommit) && t.name == name
      && forall u :: u in Flatten(tagsPerCommit) ==> t.date <= u.date)
  {
    var flat := Flatten(tagsPerCommit);
    var e := FirstNamed(flat, name);
    forall u | u in flat ensures e.date <= u.date {
      assert FirstNamed(flat, u.name).date == u.date;
    }
  }

  /**
    * Tag lists [[v1.0, v1.1], [v1.1]] with v1.0 dated first give v1.0,
    * which only the first commit carries: the earliest tag is taken from
    * the union of the lists, not from their intersection.
    */
  lemma EarliestFromUnion()
    ensures var v10, v11 := Tag("repo", "v1.0", 100), Tag("repo", "v1.1", 200);
      forall name :: IsEarliestTag([[v10, v11], [v11]], name) <==> name == "v1.0"
  {
    var v10, v11 := Tag("repo", "v1.0", 100), Tag("repo", "v1.1", 200);
    var perCommit := [[v10, v11], [v11]];
    var flat := Flatten(perCommit);
    assert flat == [v10, v11, v11] by {
      assert Flatten(perCommit[1..]) == [v11] by {
        assert perCommit[1..][1..] == [];
      }
    }
    assert FirstNamed(flat, "v1.0") == v10;
    assert FirstNamed(flat, "v1.1") == v11 by {
      FirstNamedAt(flat, "v1.1", 1);
    }
    forall name | IsEarliestTag(perCommit, name) ensures name == "v1.0" {
      var t :| t in flat && t.name == name;
      assert v10 in flat;
    }
  }

  /**
    * `get_earliest_tag`. The names of the union are visited in the order a
    * Python set happens to yield them, here an arbitrary choice; for each,
    * the first row of that name in the flattened lists joins `tag_bag`,
    * which is then sorted by date.
    */
  method EarliestTag(tagsPerCommit: seq<seq<Tag>>) returns (earliest: string)
    ensures IsEarliestTag(tagsPerCommit, earliest)
  {
    var sortedTags: seq<Tag> := [];
    if tagsPerCommit != [] {
      var tagNames := TagNameLists(tagsPerCommit);
      var nameBag := NameUnion(tagNames);
      var flat := Flatten(tagsPerCommit);
      NameUnionOfFlat(tagsPerCommit, tagNames);
      var tagBag := FirstRowPerName(flat, nameBag);
      EarliestOfBag(flat, tagBag, nameBag);
      sortedTags := SortBy(tagBag, TagKey);
    }
    earliest := if |sortedTags| > 0 then sortedTags[0].name else "";
  }

  /** The loop of `get_earliest_tag` that lists the tag names of each commit. */
  method TagNameLists(tagsPerCommit: seq<seq<Tag>>) returns (tagNames: seq<seq<string>>)
    ensures |tagNames| == |tagsPerCommit|
    ensures forall j :: 0 <= j < |tagsPerCommit| ==> tagNames[j] == Names(tagsPerCommit[j])
  {
    tagNames := [];
    for k := 0 to |tagsPerCommit|
      invariant |tagNames| == k
      invariant forall j :: 0 <= j < k ==> tagNames[j] == Names(tagsPerCommit[j])
    {
      tagNames := tagNames + [Names(tagsPerCommit[k])];
    }
  }

  /** The inner loop of `get_earliest_tag`: scan the flattened tags for the first row with the name. */
  method FindFirstNamed(flat: seq<Tag>, name: string) returns (t: Tag)
    requires exists u :: u in flat && u.name == name
    ensures t == FirstNamed(flat, name)
  {
    var i := 0;
    while i < |flat|
      invariant 0 <= i <= |flat|
      invariant forall j :: 0 <= j < i ==> flat[j].name != name
    {
      if flat[i].name == name {
        FirstNamedAt(flat, name, i);
        return flat[i];
      }
      i := i + 1;
    }
    assert false;
  }

  /**
    * The nested loops of `get_earliest_tag` that build `tag_bag`: for each
    * name of the set, in whatever order the set yields them, the first row
    * of the flattened lists with that name.
    */
  method FirstRowPerName(flat: seq<Tag>, nameBag: set<string>) returns (tagBag: seq<Tag>)
    requires forall n :: n in nameBag ==> exists u :: u in flat && u.name == n
    ensures Represents(flat, tagBag, nameBag)
  {
    tagBag := [];
    var pending := nameBag;
    ghost var visited: set<string> := {};
    while pending != {}
      invariant pending !! visited && pending + visited == nameBag
      invariant Represents(flat, tagBag, visited)
      decreases |pending|
    {
      var name :| name in pending;
      ghost var bagBefore := tagBag;
      var first := FindFirstNamed(flat, name);
      tagBag := tagBag + [first];
      RepresentsStep(flat, bagBefore, visited, name);
      pending := pending - {name};
      visited := visited + {name};
    }
  }

  // ----- The Git metrics of an issue (get_github_metrics) -------------------

  /**
    * The integer and name fields of the `GitMetrics` record. The averages
    * are floats and are left out, and so is the resolution time (whole
    * hours, rounded down, under Python 2's integer division). The commit
    * date is kept as its timestamp in seconds.
    */
  datatype GitMetrics = GitMetrics(
    earliestTag: string,
    distance: Option<int>,
    distanceReleases: Option<int>,
    commitsLen: nat,
    tagsPerCommitLen: nat,
    closestTag: Option<string>,
    committer: Option<string>,
    commitDate: Option<int>,
    repository: Option<string>,
    totalDeletions: Option<int>,
    totalInsertions: Option<int>)

  /**
    * `get_github_metrics` for an issue with the commit shas `issueCommits`,
    * the stats rows `commitStats` and the creation date `createdMs` in
    * milliseconds. The distances run from the tag closest to the creation
    * date to the earliest release tag of the issue's commits.
    */
  method GithubMetrics(issueCommits: seq<string>, tagsOf: string -> seq<Tag>, projectTags: seq<Tag>,
                       commitStats: seq<Commit>, isRelease: string -> bool, createdMs: int)
    returns (m: GitMetrics)
    ensures m.commitsLen == |issueCommits|
    ensures m.tagsPerCommitLen == |TagsPerCommit(issueCommits, tagsOf, isRelease)| <= m.commitsLen
    ensures IsEarliestTag(TagsPerCommit(issueCommits, tagsOf, isRelease), m.earliestTag)
    ensures m.closestTag == ClosestTag(createdMs / 1000, projectTags, isRelease)
    ensures m.distance == WholeDays(ReleaseDistanceGit(projectTags, m.closestTag, Some(m.earliestTag), isRelease, Days))
    ensures m.distanceReleases == ReleaseDistanceGit(projectTags, m.closestTag, Some(m.earliestTag), isRelease, Releases)
    ensures m.earliestTag == "" || m.closestTag.None? ==> m.distance.None? && m.distanceReleases.None?
    ensures commitStats == [] ==>
      && m.committer.None? && m.repository.None? && m.commitDate.None?
      && m.totalDeletions.None? && m.totalInsertions.None?
    ensures commitStats != [] ==>
      var c := commitStats[|commitStats| - 1];
      && m.committer == Some(c.committer) && m.repository == Some(c.repository)
      && (m.commitDate.Some? <==> c.date.At? && c.date.time != 0)
      && (m.commitDate.Some? ==> m.commitDate.value == c.date.time)
      && m.totalDeletions == Some(TotalDeletions(commitStats))
      && m.totalInsertions == Some(TotalInsertions(commitStats))
  {
    var tagsPerCommit := TagsForCommits(issueCommits, tagsOf, isRelease);
    var earliestTag := EarliestTag(tagsPerCommit);
    var closestTag := ClosestTag(createdMs / 1000, projectTags, isRelease);
    var timeDistance := ReleaseDistanceGit(projectTags, closestTag, Some(earliestTag), isRelease, Days);
    var distance := WholeDays(timeDistance);
    var distanceReleases := ReleaseDistanceGit(projectTags, closestTag, Some(earliestTag), isRelease, Releases);
    var summary := EarliestCommit(commitStats);
    var committer: Option<string> := None;
    var repository: Option<string> := None;
    var commitDate: Option<int> := None;
    if summary.earliest.Some? {
      var c := summary.earliest.value;
      committer := Some(c.committer);
      repository := Some(c.repository);
      if c.date.At? && c.date.time != 0 {
        commitDate := Some(c.date.time);
      }
    }
    m := GitMetrics(earliestTag, distance, distanceReleases, |issueCommits|, |tagsPerCommit|, closestTag,
                    committer, commitDate, repository, summary.totalDeletions, summary.totalInsertions);
  }
}
