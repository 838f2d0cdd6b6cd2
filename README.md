# Release distances of fixed issues

This project models the release-distance logic of a research tool. The
tool correlates an issue tracker (JIRA) with a Git history (GitHub) to measure how
long a defect stayed unfixed, in days and in releases. It works per
issue:

- Git side (`gitcounter.py`):
  - Collects the release tags of the issue's commits.
  - Picks the earliest of those tags.
  - Finds the release tag closest after the issue's creation date.
  - Measures the distance between those two tags, in days or in releases. The release count uses the right bisection of the tag's date among the sorted release dates.
  - Summarises the issue's commit statistics.
- Tracker side (`jiracounter.py`):
  - Does the same with the issue's fix and affected versions.
  - Measures against the project's version list.

The modules are:

- `Wrappers`: `Option`.
- `PySort`: the Python 2 behaviour the code relies on.
  - Dates are totally ordered with None below every date (`Stamp`).
  - `sorted` is a stable sort by key (`SortBy`).
  - `bisect`, which is `bisect_right`, is a binary search (`Bisect`), proved equal to the count of elements at or below the key.
  - The first-match scans are `FirstAbove`.
- `Distance`: the tail both distance computations share.
  - A difference exists only when both looked-up values are truthy in Python's sense: a date is truthy, a rank of 0 is not.
  - `timedelta.days if timedelta else None` becomes `WholeDays`, which turns a zero difference into None.
- `GitCounter`: `gitcounter.py`.
  - `get_tags_for_commits` and `get_earliest_tag` append to lists in loops, so they are methods with loop invariants, proved against specification functions.
  - `get_github_metrics` is a method that composes them.
  - The rest are functions.
- `JiraCounter`: `jiracounter.py`, which is expressions and one read-only search loop (`get_closest_release`, lines 93-95), so it is all functions; the loop is the scan `FirstAbove`.

Database queries are inputs:

- The project's tag rows and version rows are sequences.
- The tags linked to a commit sha come from a function `tagsOf`.
- The issue's commit shas and commit statistics rows are sequences.
- The version table searched by id is a sequence.

The project's release-name regular expression is a predicate parameter
`isRelease`. Dates are integer timestamps:

- Tags and commits in seconds.
- JIRA versions and the issue creation date in milliseconds.

In these places the model follows the code:

- An issue whose commits carry no release tag gets the earliest tag `""`, not an absent value. Because `""` is falsy, no distance is computed from it.
- The earliest tag is chosen from one row per tag name, the first in flattened order. The earliest tag is not chosen by sorting the whole union.
- A distance in days is the difference of the two dates in seconds, read through `timedelta.days`. So two releases at the same instant give None, not 0.
- A release that ranks 0, meaning it is dated before every release, gives no distance in releases.
- The tracker side ranks a version without a date instead of returning None: Python 2 orders None first, and `bisect` counts the undated versions.
- `get_earliest_commit` returns the last stats row in query order, not the earliest commit. Under Python 2 the comprehensions that compute the averages and totals rebind `commit_info`, the variable that held the head of the date-sorted rows. `get_github_metrics` then reads the committer, repository and commit date from that last row. See "## Findings".
- No distance reconciliation between the two sources, and no change-log scanning, exists in `gitcounter.py` or `jiracounter.py`. Neither is modelled.

## Model

| member | source | states |
|---|---|---|
| PySort.SortBy | gitcounter.py:44-45 | `sorted` by a key returns a permutation of its input, ordered by key with None first |
| PySort.FirstMin | jiracounter.py:77-78 | the index of the first element of least key: no element has a smaller key, and every element before it has a strictly greater one |
| PySort.LastMax | jiracounter.py:77-79 | the index of the last element of greatest key: no element has a greater key, and every element after it has a strictly smaller one |
| PySort.SortByHead | gitcounter.py:202-206 | the head of the stable sort is the first input element of least key |
| PySort.SortByLast | jiracounter.py:77-79 | the last element of the stable sort is the last input element of greatest key |
| PySort.BisectFrom | jiracounter.py:26 | the library's binary search between `lo` and `hi`: the point lies between them, every element from `lo` up to it is at or below the key, and every element from it up to `hi` is above it |
| PySort.Bisect | jiracounter.py:26 | `bisect_right`: every element before the point is at or below the key and every element from it on is above it |
| PySort.BisectSortedCounts | gitcounter.py:44-47 | bisecting the sorted list gives the number of input elements at or below the key |
| PySort.CountLeMonotone | jiracounter.py:23-26 | a later key never counts fewer elements |
| PySort.FirstAbove | gitcounter.py:186-190 | the first element whose key is strictly above the bound is None exactly when no key is above it; otherwise it is an element above the bound, and the least such one in a sorted list |
| PySort.FilterSortBy | gitcounter.py:181-184 | filtering the stably sorted list gives the stable sort of the filtered list |
| PySort.FirstAboveFilter | gitcounter.py:186-190 | the scan for the first element above a bound finds the head of the elements above it, in order, or None when there is none |
| PySort.FilterSortHead | gitcounter.py:181-190 | the head of the stable sort of the elements passing a filter is a passing element of least key that is the first of that key in input order: every passing element before it has a strictly greater key |
| Distance.Difference | gitcounter.py:74-78 | a difference exists exactly when both values are truthy (a rank must be non-zero), and then `one + difference == other` |
| Distance.DifferenceOfRanks | gitcounter.py:74-78 | two truthy ranks are their difference apart |
| Distance.DifferenceAntisymmetric | jiracounter.py:48-52 | swapping the two values negates the difference, and both sides are None together |
| Distance.WholeDays | gitcounter.py:245 | `timedelta.days if timedelta else None`: None exactly for a missing or zero difference, otherwise the floor of the difference in days |
| GitCounter.ReleaseTags | gitcounter.py:94-95 | the release-name filter keeps exactly the tags whose name matches |
| GitCounter.ReleaseTagsAppend | gitcounter.py:94-95 | the release filter of a concatenation is the filter of the first part followed by that of the second: release tags keep their order |
| GitCounter.ReleaseTagsSorted | gitcounter.py:181-184 | filtering a date-sorted tag list keeps it sorted |
| GitCounter.ReleaseDates | gitcounter.py:44-45 | the dates of the release tags, one per release tag, position by position |
| GitCounter.VersionPositionGit | gitcounter.py:31-49 | None exactly without a date; otherwise the number of release tags dated at or before it, between 0 and the number of release tags |
| GitCounter.RankMonotoneGit | gitcounter.py:44-47 | a later date never ranks lower |
| GitCounter.ListedReleaseRanked | gitcounter.py:44-47 | a release tag of the project ranks at least 1 |
| GitCounter.RankDifferenceCounts | gitcounter.py:44-47 | the rank difference of two ordered dates is the number of release tags dated after the first and at or before the second |
| GitCounter.TagsNamed | gitcounter.py:146 | the project's tag rows carrying the name, exactly |
| GitCounter.TagsNamedOnce | gitcounter.py:146-148 | exactly one row carries the name exactly when some row is the only one with it, and then the lookup returns that row |
| GitCounter.ReleaseDateGit | gitcounter.py:138-153 | a date exactly when one single row carries the name, and then that row's date |
| GitCounter.ReleaseValueGit | gitcounter.py:63-72 | a value exactly when one single row carries the name; then its date for days and its rank among release dates for releases |
| GitCounter.ReleaseDistanceGit | gitcounter.py:52-61 | no distance unless both names are given (not None, not "") |
| GitCounter.DistanceGitAntisymmetric | gitcounter.py:74-78 | swapping the tags negates the distance, in either unit |
| GitCounter.DistanceGitDays | gitcounter.py:63-76 | two singly-listed tags are their dates' difference apart, in seconds |
| GitCounter.DistanceGitReleases | gitcounter.py:67-76 | two singly-listed release tags in date order are as many releases apart as there are release tags after the first and up to the second |
| GitCounter.DistanceGitUnlisted | gitcounter.py:63-78 | a name that no row or more than one row carries gives no distance, from it or to it, in either unit |
| GitCounter.RankZeroHasNoDistance | gitcounter.py:74-78 | a tag dated before every release tag ranks 0 and gives no distance in releases, from it or to it |
| GitCounter.SameTagDistances | gitcounter.py:60-78 | the same release on both sides is 0 seconds apart, so no day count, and 0 releases apart |
| GitCounter.SortedReleaseTags | gitcounter.py:181-184 | the release tags in date order, exactly the project's release-named tags |
| GitCounter.ClosestTagIsHead | gitcounter.py:181-190 | scanning the date-sorted release tags finds the head of the stably sorted release tags dated after the creation date |
| GitCounter.ClosestTagFacts | gitcounter.py:181-190 | the scan finds nothing exactly when no release tag is dated after the creation date; otherwise it finds the project row that is dated after it, of least date, and the first of that date in project order |
| GitCounter.ClosestAtUnique | gitcounter.py:181-190 | at most one row is dated after the creation date, of least date and first of that date: the closest tag is determined |
| GitCounter.ClosestTag | gitcounter.py:172-190 | None exactly when no release tag is dated after the creation date; otherwise the name of the project row that is a release tag dated after it, of least date among those, and the first of that date in project order |
| GitCounter.MatchEnd | gitcounter.py:163-166 | a match of the dotted pattern at a position is non-empty, within the name, and ends at a non-digit: the last run of digits is taken whole |
| GitCounter.MatchEndSound | gitcounter.py:163-166 | a match of the dotted pattern at a position spans a dotted number of that many parts |
| GitCounter.MatchEndComplete | gitcounter.py:163-166 | every dotted number starting at a position makes the pattern match there |
| GitCounter.MatchEndExact | gitcounter.py:163-166 | a dotted number whose last run of digits is not followed by a digit is exactly the match at its start: the greedy match is that slice |
| GitCounter.FirstMatch | gitcounter.py:165-168 | `re.findall(...)[0]` is the leftmost match: a match at its start and none before it |
| GitCounter.FirstMatchLeftmost | gitcounter.py:165-168 | a pattern matches exactly when the name holds a dotted number of that many parts; then the match is the leftmost such number with its last run of digits taken whole |
| GitCounter.LeftmostNumberUnique | gitcounter.py:165-168 | the leftmost greedy number of a pattern is determined: two of them are the same slice |
| GitCounter.FirstPattern | gitcounter.py:164-169 | None exactly when no pattern occurs; otherwise the leftmost greedy number of a pattern that occurs, no longer pattern occurring |
| GitCounter.ExtractVersionNumber | gitcounter.py:156-169 | None exactly when the name has no digit; the leftmost three-part number if the name has one, else the leftmost two-part one, else the leftmost run of digits, each with its last run of digits taken whole; always a slice of the name |
| GitCounter.TotalDeletions | gitcounter.py:210 | with no negative deletion count, the total is non-negative and at least each commit's count |
| GitCounter.TotalInsertions | gitcounter.py:211 | with no negative insertion count, the total is non-negative and at least each commit's count |
| GitCounter.TotalsAppend | gitcounter.py:210-211 | the deletion and insertion totals add up over any split of the commits |
| GitCounter.LeakedVariable | gitcounter.py:206-213 | after a comprehension, its loop variable holds the last element of a non-empty list, and keeps its earlier value after an empty one |
| GitCounter.EarliestCommit | gitcounter.py:193-215 | all None without commits; otherwise the last row in query order, which the rebound `commit_info` holds, and the totals over every commit |
| GitCounter.EarliestCommitIntended | gitcounter.py:203-206 | all None without commits; otherwise the head of the stably date-sorted rows, the first commit of least date, and the same totals |
| GitCounter.EarliestCommitAgreement | gitcounter.py:206-215 | the totals always agree; the two results are equal exactly when the last row is the first commit of least date |
| GitCounter.EarliestCommitReportsLastRow | gitcounter.py:206-215 | with two rows dated 100 and 200 in query order, the code reports the one dated 200 while the earliest is the one dated 100 |
| GitCounter.TagsPerCommit | gitcounter.py:81-100 | non-empty lists of release tags only, each the release tags of some commit, and the release tags of every commit that has any among them |
| GitCounter.TagsPerCommitAppend | gitcounter.py:91-98 | the lists for a concatenation of commits are those of the first part followed by those of the second: commit order is kept |
| GitCounter.TagsPerCommitCount | gitcounter.py:91-98 | there are exactly as many lists as commits with at least one release tag |
| GitCounter.TagsForCommits | gitcounter.py:89-100 | the loop builds exactly the per-commit release-tag lists |
| GitCounter.Flatten | gitcounter.py:120 | a tag is in the flattened list exactly when it is in one of the lists |
| GitCounter.Names | gitcounter.py:114 | the names of the tags of a list, position by position |
| GitCounter.NameUnion | gitcounter.py:117 | a name is in the union exactly when some commit's name list holds it |
| GitCounter.NameUnionOfFlat | gitcounter.py:116-120 | the union of the per-commit name lists is exactly the set of names of the flattened tags |
| GitCounter.FirstNamed | gitcounter.py:123-127 | the row the inner loop keeps for a name is a row with that name |
| GitCounter.RepresentsStep | gitcounter.py:123-127 | visiting one more name adds that name's first row and keeps `tag_bag` holding exactly one first row per visited name |
| GitCounter.EarliestOfBag | gitcounter.py:129-133 | the head of the date-sorted `tag_bag` names an earliest tag, and `tag_bag` is non-empty when there are tags |
| GitCounter.EarliestTagIsEarliest | gitcounter.py:103-135 | when each name carries a single date, the earliest tag is dated no later than any tag of the union |
| GitCounter.EarliestFromUnion | gitcounter.py:116-117 | a tag carried by only one commit can be the earliest tag: the union is used, not the intersection |
| GitCounter.EarliestTag | gitcounter.py:103-135 | "" without tags; otherwise the name of a tag from the union whose representative is dated no later than any other name's, whatever order the set yields the names in |
| GitCounter.TagNameLists | gitcounter.py:112-114 | the name list of each commit's tag list |
| GitCounter.FindFirstNamed | gitcounter.py:124-127 | the inner loop stops at the first row of the flattened list carrying the name |
| GitCounter.FirstRowPerName | gitcounter.py:121-127 | `tag_bag` ends holding exactly the first row of each name of the union |
| GitCounter.GithubMetrics | gitcounter.py:218-276 | commit counts; the earliest tag; the closest tag of the creation date; the distances between them, which are None when either is missing; the committer, repository and truthy date of the last stats row, which `get_earliest_commit` returns, all None without commits; the totals |
| JiraCounter.VersionDates | jiracounter.py:24 | the version dates, position by position |
| JiraCounter.VersionPositionJira | jiracounter.py:16-26 | the number of the project's versions dated at or before the date, at most the number of versions |
| JiraCounter.RankMonotoneJira | jiracounter.py:23-26 | a later date never ranks lower |
| JiraCounter.ListedVersionRanked | jiracounter.py:23-26 | a version of the project ranks at least 1 |
| JiraCounter.RankDifferenceCountsJira | jiracounter.py:44-49 | the rank difference of two ordered dates is the number of versions dated after the first and at or before the second |
| JiraCounter.FirstWithId | jiracounter.py:62-63 | the first row carrying the id, if any |
| JiraCounter.RowsWithId | jiracounter.py:62-63 | the lookup returns exactly the rows with that id, the first of them first |
| JiraCounter.ReleaseDateJira | jiracounter.py:55-68 | None exactly when no row has the id or the first such row's date is NULL or 0; otherwise that date in whole seconds, rounded down |
| JiraCounter.ReleaseValueJira | jiracounter.py:40-46 | for releases, the rank of the version's date among the project's versions; for days, a value exactly when the version's first table row has a truthy date, and then that date in whole seconds, rounded down |
| JiraCounter.ReleaseDistanceJira | jiracounter.py:29-38 | no distance unless both versions are given |
| JiraCounter.DistanceJiraAntisymmetric | jiracounter.py:48-52 | swapping the versions negates the distance, in either unit |
| JiraCounter.DistanceJiraDays | jiracounter.py:40-50 | two versions with truthy dates are their dates' difference in whole seconds apart |
| JiraCounter.DistanceJiraUndated | jiracounter.py:40-52 | a version without a row or with a falsy date gives no distance in days, from it or to it |
| JiraCounter.DistanceJiraReleases | jiracounter.py:44-50 | two listed versions in date order are as many releases apart as there are versions after the first and up to the second |
| JiraCounter.RankZeroHasNoDistanceJira | jiracounter.py:44-52 | a version dated before every project version ranks 0 and gives no distance in releases, from it or to it |
| JiraCounter.SameVersionDistances | jiracounter.py:40-52 | the same dated and listed version on both sides is 0 seconds apart, so no day count, and 0 releases apart |
| JiraCounter.FirstLastVersion | jiracounter.py:71-80 | (None, None) exactly for no versions; otherwise the first of least date and the last of greatest date, both members, bounding every date; an undated version makes the earliest undated |
| JiraCounter.ClosestReleaseIsHead | jiracounter.py:91-95 | scanning the date-sorted versions finds the head of the stably sorted versions dated after the creation date |
| JiraCounter.ClosestReleaseFacts | jiracounter.py:90-97 | the scan finds nothing exactly when no version is dated after the creation date; otherwise the project row dated after it, of least date, and the first of that date in project order |
| JiraCounter.ClosestReleaseAtUnique | jiracounter.py:91-95 | at most one row is dated after the creation date, of least date and first of that date: the closest release is determined |
| JiraCounter.ClosestRelease | jiracounter.py:83-97 | None exactly when every version is undated or dated at or before the creation date; otherwise the project row dated after it, of least date among those, and the first of that date in project order |
| JiraCounter.NameOf | jiracounter.py:111-112 | a name exactly when the version is there, and then its name |
| JiraCounter.JiraMetricsOf | jiracounter.py:100-127 | each version and name field is None exactly when its version list is empty, and otherwise comes from the stable sort's ends; the closest release's name is None exactly when no version is after the creation date; the distances run from the closest release to the earliest fix, and are None without fix versions or a closest release |

## Left out

- Floating-point results are not modelled: `avg_lines` and `avg_files` (gitcounter.py lines 208 and 212).
- `resolution_time` (gitcounter.py line 264) is left out. With an integer creation date, Python 2 computes it in whole hours, rounded down.
- Regular expressions are not modelled. Release-name matching with `re.match` is the predicate `isRelease`. `extract_version_number` is modelled only for its three digit patterns.
- Date parsing and time zones are not modelled. `dateutil.parser.parse`, `datetime.fromtimestamp` and `tzlocal` become integer timestamps. The creation date is compared with tag dates as `createdMs / 1000` whole seconds, which orders them the same way as the exact instant.
- Database access is not modelled. gjdata.py and jdata.py do not define `get_tags_by_project`, `get_tag_information`, `get_commit_information`, `get_versions_by_project`, `get_version_by_id`, `get_fix_versions` or `get_affected_versions`. The two lookups gjdata.py does define, `get_commits_by_issue` and `get_tags_by_commit_sha` (gjdata.py lines 21-28), return three-column rows, which `SHA_INDEX` and `TAG_NAME_INDEX` (both 3) overrun. All lookup results are input sequences and functions, with rows reduced to the columns the code reads. The tag rows of different queries read their name and date from different column indices. All of them become the same `Tag` value.
- The commit date column is taken to be an integer timestamp or NULL. A text date would be truthy even when it reads "0".
- An unknown `unit` string is unrepresentable: `Unit` has only days and releases. In the source, any other string makes the distance functions fail on an unbound local name.
- The GitHub miner, the repository loaders, the release counter, the schema and insert code, and the static project catalogue are outside the modelled core. They are network, process and storage I/O, or configuration.
- `GitCounter.EarliestTag` does not fix the order in which a Python set yields names. Its contract holds for every order, so when two names tie on date it states only that one of them is returned.
- The commit statistics columns are integers. `int(None)` on a NULL deletions or insertions column raises a TypeError in the source (gitcounter.py lines 210-211); the model has no NULL there.

## Findings

| source | as written | input that shows it | evidently intended | confidence | as-written member | corrected member |
|---|---|---|---|---|---|---|
| gitcounter.py:206-215 | the comprehensions at lines 208-212 rebind `commit_info` under Python 2, so the last stats row in query order is returned | two rows dated 100 and 200, in that order: the row dated 200 is returned | the head of the date-sorted rows, the first commit of least date | not executed | GitCounter.EarliestCommitReportsLastRow | GitCounter.EarliestCommitIntended |
