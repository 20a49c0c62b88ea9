# reprepro-updater: the Packages diff announcement, in Dafny

This project models `src/reprepro_updater/diff_repos.py`. The module compares
the old and the new Debian `Packages` index of a ROS distribution and writes
the text that announces the changes: which packages were added, updated and
removed, and which maintainers made them. Its parts are:

- `convert_tuples_list_to_dict` turns a stanza's `(field, value)` pairs into a
  map. A later pair overwrites an earlier one. It is modelled as
  `DiffHelpers.ConvertTuplesListToDict`, a loop filling a map, proved against
  `PairsToMap`.
- `strip_email` (`DiffHelpers.StripEmail`) drops the `<address>` from a
  `Maintainer` field. It is a greedy
  `re.sub("(.*)<.*>", ...)`. On each line, that removes the text from the last
  `<` before the last `>` through that `>`, and keeps what follows.
- `core_rosbuild_version` (`VersionNormalizer.CoreRosbuildVersion`) and
  `core_debian_version` (`VersionNormalizer.CoreDebianVersion`) each delete the last match
  of a suffix pattern on each line:
  - the rosbuild pattern is `-s`, ten digits, `~` and a run of word characters;
  - the Debian pattern is one of four Ubuntu codenames followed by a
    `-YYYYMMDD-HHMM-+ZZZZ` stamp.
- `core_version` (`VersionNormalizer.CoreVersion`) applies the rosbuild rule
  and then the Debian rule. `is_substantial_version_change`
  (`VersionNormalizer.IsSubstantialVersionChange`) compares two versions after that
  normalisation.
- `construct_packages_url` (`DiffHelpers.ConstructPackagesUrl`) builds `<base>/dists/<dist>/<component>/<arch>/Packages`.
- `compute_annoucement` (`Announcement.ComputeAnnouncement`, specified by
  `Announcement.Announcement`) does the following, in this order:
  - collects the stanzas whose `Package` name contains the distribution name;
  - computes the added, updated and removed sets;
  - collects the maintainers of the added and updated packages;
  - renders the report, every section in `sorted` order.

  Each `KeyError` the code can raise is modelled as `Failure(key)` of a
  `Result`. This covers a missing `Package`, `Version` or `Maintainer`.

Modules:

- `Wrappers`: `Option` and `Result`.
- `Strings`: character classes, last-match search, per-line mapping, `rstrip`,
  `strip`, `join` and decimal rendering.
- `Ordering`: Python's code-point string order and `sorted` over a set of
  names.
- `DiffHelpers`: the small helpers.
- `VersionNormalizer`: the version rules.
- `Announcement`: `compute_annoucement`.

Where the code is imperative, the model keeps it imperative.
- Dictionary and set filling are methods with loops. So are the `out += ...`
  appends. Each is proved to compute a specification function.
- The regular-expression helpers are pure functions.

Where the code's behaviour may surprise a reader, the model follows the code:
- A stanza without `Package` is not skipped: it raises `KeyError('Package')`.
- `KeyError('Version')` is raised for a package in both indexes that lacks a
  `Version` in either (line 97), and for an added package without one
  (line 116).
- `KeyError('Maintainer')` is raised for an added or updated package without
  a `Maintainer` (lines 107-108).
- A removed package, or one in both indexes that is not updated, may lack
  `Maintainer`, and a removed package may lack `Version`: nothing is raised
  for them. `Announcement.Versioned`, `Announcement.Maintained` and
  `Announcement.NewVersioned` state exactly these conditions, and every
  `KeyError` is modelled as a `Failure` carrying the key.
- `strip_email` keeps any text after the closing `>`. It removes from the
  last `<` that has a `>` after it, not from the first `<`.
- `core_version` is not idempotent. `VersionNormalizer.CoreVersionNotIdempotent`
  exhibits a version on which a second application changes the result again.

## Model

| member | source | states |
|---|---|---|
| DiffHelpers.PairsToMapLastWins | src/reprepro_updater/diff_repos.py:20-24 | the keys of the dictionary are exactly the first components of the pairs, and each key holds the second component of its last pair |
| DiffHelpers.ConvertTuplesListToDict | src/reprepro_updater/diff_repos.py:20-24 | the loop that stores each pair in turn computes `PairsToMap` of the pairs |
| DiffHelpers.StripEmailLineOf | src/reprepro_updater/diff_repos.py:27-28 | on a line `x<y>z` with no `<` in `y` and no `>` in `z`, the address in brackets goes and `x` and `z` are kept |
| DiffHelpers.StripEmailLineShortens | src/reprepro_updater/diff_repos.py:27-28 | a line holding a `<` with a `>` after it always loses text |
| DiffHelpers.StripEmailUnchanged | src/reprepro_updater/diff_repos.py:27-28 | a text in which no `<` has a `>` after it is returned unchanged, on every line |
| DiffHelpers.StripEmailOfAddress | src/reprepro_updater/diff_repos.py:27-28 | `strip_email("name <address>")` is `"name "` |
| DiffHelpers.MaintainerNameOfAddress | src/reprepro_updater/diff_repos.py:108 | `strip_email(m).strip()` of `name <address>` is the name, for a trimmed one-line name |
| DiffHelpers.PackagesUrlForm | src/reprepro_updater/diff_repos.py:54-55 | the URL is the base without trailing slashes, then `dists`, the distribution, the component, the architecture and `Packages`, each after a `/` |
| DiffHelpers.PackagesUrlShape | src/reprepro_updater/diff_repos.py:54-55 | every URL starts with the base without trailing slashes followed by `/dists/`, so exactly one slash follows the base, and ends in `/Packages` |
| DiffHelpers.PackagesUrlIgnoresTrailingSlash | src/reprepro_updater/diff_repos.py:54-55 | a trailing `/` on the base does not change the URL |
| Strings.RStrip | src/reprepro_updater/diff_repos.py:55 | `rstrip('/')` is the longest prefix after which only `/` follows, and it does not end in `/` |
| Strings.StripSurrounded | src/reprepro_updater/diff_repos.py:108 | `strip()` removes exactly the whitespace around a trimmed text |
| Strings.MapLinesFixed | src/reprepro_updater/diff_repos.py:27-43 | a per-line `re.sub` leaves a text unchanged when its rule leaves every line unchanged and the property guarding that survives splitting at a newline |
| Strings.Contains | src/reprepro_updater/diff_repos.py:81 | `rosdistro in name` holds exactly when `rosdistro` occurs at some position of `name` |
| Strings.Decimal | src/reprepro_updater/diff_repos.py:113 | `%s` of a count is a non-empty run of ASCII digits without a leading zero |
| Strings.DecimalRoundTrip | src/reprepro_updater/diff_repos.py:113 | reading the printed count back gives the count |
| Ordering.LexLessMeansFirstDifference | src/reprepro_updater/diff_repos.py:114 | the string order used by `sorted` is decided by the first differing character, or by a proper prefix |
| Ordering.LexLessIrreflexive | src/reprepro_updater/diff_repos.py:114 | no name sorts before itself |
| Ordering.LexLessTransitive | src/reprepro_updater/diff_repos.py:114 | the order is transitive |
| Ordering.LexLessTotal | src/reprepro_updater/diff_repos.py:114 | any two distinct names are ordered one way or the other |
| Ordering.LexLessAsymmetric | src/reprepro_updater/diff_repos.py:114 | two names are never ordered both ways |
| Ordering.Insert | src/reprepro_updater/diff_repos.py:114 | inserting a new name into an ascending list keeps it ascending and adds exactly that name |
| Ordering.SortedNames | src/reprepro_updater/diff_repos.py:114 | `sorted` of a set is strictly ascending, has the same members and has one entry per member |
| Ordering.SortedExists | src/reprepro_updater/diff_repos.py:114 | every finite set of names has such an arrangement |
| Ordering.AscendingUnique | src/reprepro_updater/diff_repos.py:114 | two ascending arrangements of the same names are equal, so `sorted` is determined by its input |
| Ordering.SortSet | src/reprepro_updater/diff_repos.py:114 | the computed arrangement is the one `SortedList` specifies |
| VersionNormalizer.WordRunEnd | src/reprepro_updater/diff_repos.py:41 | `\w*` consumes the maximal run of word characters |
| VersionNormalizer.CodenameMatchAtSpec | src/reprepro_updater/diff_repos.py:36 | the codename alternation matches at a position exactly when some codename followed by a stamp does, and reports that codename's length |
| VersionNormalizer.DebianMatchAtIff | src/reprepro_updater/diff_repos.py:36 | the Debian pattern matches at a position exactly when a codename and a stamp start there |
| VersionNormalizer.CodenamesSuffixFree | src/reprepro_updater/diff_repos.py:36 | no codename ends with another |
| VersionNormalizer.StripRosbuildSuffixUnchanged | src/reprepro_updater/diff_repos.py:40-43 | a line without the rosbuild pattern is kept |
| VersionNormalizer.CoreRosbuildVersionUnchanged | src/reprepro_updater/diff_repos.py:40-43 | a version without the rosbuild pattern is returned unchanged |
| VersionNormalizer.StripDebianSuffixUnchanged | src/reprepro_updater/diff_repos.py:35-37 | a line without the Debian pattern is kept |
| VersionNormalizer.CoreDebianVersionUnchanged | src/reprepro_updater/diff_repos.py:35-37 | a version without the Debian pattern is returned unchanged |
| VersionNormalizer.CoreVersionUnchanged | src/reprepro_updater/diff_repos.py:31-43 | a version containing neither pattern is its own core version |
| VersionNormalizer.ShortVersionUnchanged | src/reprepro_updater/diff_repos.py:31-43 | a version shorter than thirteen characters is its own core version |
| VersionNormalizer.StripRosbuildSuffixOfMatch | src/reprepro_updater/diff_repos.py:40-43 | on one line `x-sDDDDDDDDDD~wy`, where `w` is word characters, `y` starts with no word character and holds no rosbuild head, the head and `w` go and `x` and `y` are kept |
| VersionNormalizer.RosbuildTagFollowedExample | src/reprepro_updater/diff_repos.py:40-43 | `1.0-s1234567890~trusty.1` becomes `1.0.1`: the text after the `\w*` run stays |
| VersionNormalizer.RosbuildTimestampStripped | src/reprepro_updater/diff_repos.py:40-43 | `prefix-sDDDDDDDDDD~tag` loses the whole rosbuild tail |
| VersionNormalizer.TimestampOnlyChangeNotSubstantial | src/reprepro_updater/diff_repos.py:40-51 | versions that differ only in the rosbuild timestamp and tag are not a substantial change |
| VersionNormalizer.StripDebianSuffixOfMatch | src/reprepro_updater/diff_repos.py:35-37 | on one line, when a codename and its stamp start at `n` and no codename stamp starts further right, the rule removes exactly that codename and its twenty characters of stamp and keeps the text before and after |
| VersionNormalizer.DebianMatchAtStamp | src/reprepro_updater/diff_repos.py:35-37 | a codename followed by a well-formed stamp matches the Debian pattern |
| VersionNormalizer.LastDebianMatchOfStamped | src/reprepro_updater/diff_repos.py:35-37 | in `prefix + codename-stamp`, the last match is the one right after the prefix |
| VersionNormalizer.CodenameMatchOfStamped | src/reprepro_updater/diff_repos.py:36 | at that position the alternation chooses the stamp's own codename |
| VersionNormalizer.StripDebianSuffixOfStamped | src/reprepro_updater/diff_repos.py:35-37 | the Debian rule turns `prefix + codename-stamp` into `prefix` |
| VersionNormalizer.CodenameStampAddsNoRosbuildSuffix | src/reprepro_updater/diff_repos.py:40-43 | appending a codename stamp creates no rosbuild match |
| VersionNormalizer.OnlyStampAfterPrefix | src/reprepro_updater/diff_repos.py:36 | after the prefix, the only Debian match is the appended stamp itself |
| VersionNormalizer.CodenameStampStripped | src/reprepro_updater/diff_repos.py:31-37 | the core version of `prefix + codename-stamp` is the prefix |
| VersionNormalizer.CoreVersionNotIdempotent | src/reprepro_updater/diff_repos.py:31-37 | normalising twice can differ from normalising once: a second stamp is exposed by removing the first |
| VersionNormalizer.SubstantialChangeIrreflexiveSymmetric | src/reprepro_updater/diff_repos.py:46-51 | no version changes substantially against itself, and the comparison is symmetric |
| VersionNormalizer.CodenameStampNotSubstantial | src/reprepro_updater/diff_repos.py:46-51 | adding a codename stamp to a version that is its own core version is not a substantial change |
| VersionNormalizer.ShortVersionStampNotSubstantial | src/reprepro_updater/diff_repos.py:46-51 | the same, for a short one-line prefix |
| VersionNormalizer.RebuildExampleNotSubstantial | src/reprepro_updater/diff_repos.py:46-51 | `1.2.3-s1234567890~trusty` against `1.2.3-s9999999999~trusty` is not substantial |
| VersionNormalizer.CodenameExampleNotSubstantial | src/reprepro_updater/diff_repos.py:46-51 | `1.2.3precise-20230101-1200-+0000` against `1.2.3` is not substantial |
| VersionNormalizer.BumpExampleSubstantial | src/reprepro_updater/diff_repos.py:46-51 | `1.2.3` against `1.3.0` is substantial |
| Announcement.Collect | src/reprepro_updater/diff_repos.py:78-90 | collecting a Packages file fails only with `KeyError('Package')` |
| Announcement.CollectSucceeds | src/reprepro_updater/diff_repos.py:78-90 | collecting fails exactly when some stanza lacks `Package` |
| Announcement.CollectNames | src/reprepro_updater/diff_repos.py:78-90 | the index holds exactly the names of the stanzas whose name contains the distribution name |
| Announcement.CollectLastWins | src/reprepro_updater/diff_repos.py:78-90 | each name holds the fields of the last kept stanza with that name |
| Announcement.CollectNamesContain | src/reprepro_updater/diff_repos.py:81-82 | every collected name contains the distribution name |
| Announcement.CollectPackages | src/reprepro_updater/diff_repos.py:78-90 | the collecting loop computes `Collect`, including its failure |
| Announcement.ComputeUpdated | src/reprepro_updater/diff_repos.py:96-101 | the loop yields the common packages whose versions differ substantially, or `KeyError('Version')` when a common package lacks a version |
| Announcement.DiffSpec | src/reprepro_updater/diff_repos.py:92-104 | added are the new-only names, removed the old-only ones, updated those in both whose core versions differ; the three sets are pairwise disjoint |
| Announcement.RebuildIsNotAnnounced | src/reprepro_updater/diff_repos.py:96-104 | a package whose core version did not change is in none of the three sets |
| Announcement.DiffNamesContainRosdistro | src/reprepro_updater/diff_repos.py:78-104 | every reported package name contains the distribution name |
| Announcement.MaintainersAtMost | src/reprepro_updater/diff_repos.py:106-108 | there are never more maintainers than added and updated packages |
| Announcement.CollectMaintainers | src/reprepro_updater/diff_repos.py:106-108 | the loop yields the stripped maintainer names of the given packages, or `KeyError('Maintainer')` |
| Announcement.AddedLinesAt | src/reprepro_updater/diff_repos.py:114-116 | added line `i` names the `i`-th package and shows its normalised new version |
| Announcement.UpdatedLinesAt | src/reprepro_updater/diff_repos.py:120-124 | updated line `i` names the `i`-th package and shows its normalised old and new versions |
| Announcement.RemovedLines | src/reprepro_updater/diff_repos.py:128-129 | removed line `i` is `- ` and the `i`-th name |
| Announcement.MaintainerLines | src/reprepro_updater/diff_repos.py:137-138 | maintainer line `i` is ` * ` and the `i`-th maintainer |
| Announcement.Sections | src/reprepro_updater/diff_repos.py:110-140 | the position of every line of the report: title, three counted sections each followed by an empty line, then the thanks paragraph and its lines |
| Announcement.ReportHeadings | src/reprepro_updater/diff_repos.py:112-136 | the report's length, its title, its three count headings, the empty lines and the thanks paragraph sit where the code writes them |
| Announcement.ReportVersionLines | src/reprepro_updater/diff_repos.py:113-125 | the added and updated lines follow the given order, with the core versions of the stored versions |
| Announcement.ReportRemovedLines | src/reprepro_updater/diff_repos.py:127-130 | one removed line per name, in the given order, after its heading |
| Announcement.ReportMaintainerLines | src/reprepro_updater/diff_repos.py:132-138 | one line per maintainer, in the given order, after the thanks paragraph |
| Announcement.ReportCounts | src/reprepro_updater/diff_repos.py:112-128 | each heading counts its whole set, and every section is in ascending name order |
| Announcement.AppendAddedLines | src/reprepro_updater/diff_repos.py:114-116 | the loop appends exactly the added lines, or stops with `KeyError('Version')` |
| Announcement.AppendUpdatedLines | src/reprepro_updater/diff_repos.py:120-124 | the loop appends exactly the updated lines |
| Announcement.AppendRemovedLines | src/reprepro_updater/diff_repos.py:128-129 | the loop appends exactly the removed lines |
| Announcement.AppendMaintainerLines | src/reprepro_updater/diff_repos.py:137-138 | the loop appends exactly the maintainer lines |
| Announcement.RenderLines | src/reprepro_updater/diff_repos.py:110-140 | the appends produce the report's lines, each followed by a newline, or `KeyError('Version')` for an added package without a version |
| Announcement.Render | src/reprepro_updater/diff_repos.py:110-140 | rendering in `sorted` order gives `Report`, or `KeyError('Version')` |
| Announcement.ComputeAnnouncement | src/reprepro_updater/diff_repos.py:69-140 | `compute_annoucement` returns the announcement `Announcement` specifies, or the key of the first `KeyError` the code raises |

## Left out

- `get_packagefile_from_url` (src/reprepro_updater/diff_repos.py:58-66) is not part of this model. It fetches a URL with `urlopen`, decodes UTF-8, and turns a `URLError` into a `RuntimeError`.
- The parsing of a Packages file by `debian.debian_support.PackageFile` is not part of this model. Its output is taken as a sequence of stanzas, each a sequence of `(field, value)` pairs.
- The Python 2/3 import shims (lines 4-17) have no counterpart.
- The general regular-expression engine is not modelled. The three patterns the module uses are written out as string functions with the same per-line, last-match behaviour.
- VersionNormalizer.StripRosbuildSuffix: `\d` and `\w` accept ASCII digits and word characters only. Python 3 also accepts other Unicode digits and letters.
- VersionNormalizer.StripDebianSuffix: `\d` accepts ASCII digits only, for the same reason.
- Dictionary and set iteration order is not modelled. No output depends on it except through `sorted`, which the model does specify.
- `core_version` is not claimed to be idempotent, because it is not.
- Announcement.VersionIn: returns the empty text for a missing `Version`. That text is never shown, because every path that would show it fails with `KeyError('Version')` first.
