# pkg_builder release catalog and download cache, in Dafny

This project models two parts of pkg_builder:

- **`distinfo.py`, the release catalog.** Each distribution holds a set of releases. A release has a uid, a lifecycle on a given day (released, end-of-life, supported) and an order that is comparable only within its distribution. `DistInfo.releases` answers filtered and sorted queries, and `distributions` selects distributions by id and `id_like`. The distro-info table loader turns CSV rows into releases. The Debian and Ubuntu set-up assigns suites ('stable', 'oldstable', …, 'testing', 'unstable', 'rc-buggy', 'devel').
- **`downloader.py`, the download cache.** The cache is a map from URL to its staging file, which is pending (None) while a download is under way. A `download` call:
  1. runs the cancellation hook;
  2. either claims an unseen URL and fetches it with the timeouts 1, 2, 3, 5, 7, or waits on a URL already claimed;
  3. installs the staged file by hard link, falling back to a copy when the link fails.

Files:

- `wrappers.dfy`: `Option` and `Result`.
- `catalog.dfy`: module `Catalog`, for `distinfo.py`.
  - `ReleaseInfo` is a datatype. A release knows its distribution by the distribution's id, which is what `DistInfo.uid()` returns.
  - `DistInfo` is a class. Its `releases` field is the `_releases` set, as a sequence in insertion order with Python's set-add semantics.
  - The loader and the suite labelling are methods that update a `DistInfo`.
- `downloader.dfy`: module `Download`, for `downloader.py`. The class `Downloader` holds `downloaded: map<Url, Option<Path>>`.

Abstract inputs:

- The fetch outcomes are a function from the attempt number to an outcome.
- Whether `link` and `copy2` succeed are two flags.
- Whether the cancellation hook raises is two flags: one for the call's entry, one for the first poll of a pending URL.
- Parsing a date is a function `string -> Option<Date>`.
- `date.today()` is a parameter `today`.
- sha256 is a function `digest` fixed when the cache is made.

Dates are ordinals from 1 (0001-01-01) to 3652059 (`date.max`).

The comparisons follow Python's rules:

- `__lt__` and `__eq__` return NotImplemented (None) across distributions.
- `>` is the `__gt__` that `functools.total_ordering` derives from `__lt__`.
- `<` and `>` fall back to the reflected operation, then raise TypeError.
- `==` falls back to identity.

The filter closure, `Catalog.Evaluate`, makes its checks in the source's order, so it raises exactly where the source raises.

`sorted()` is a stable insertion sort by order. Inside one distribution, `<` between releases is the order comparison (`Catalog.ComparisonsFollowOrder`).

## Model

| member | source | states |
|---|---|---|
| Catalog.Uid | distinfo.py:27-28 | the uid starts with the distribution id followed by '-' |
| Catalog.UidRoundTrip | distinfo.py:27-28 | the release id and the codename can be read back from the uid, with the codename None exactly when no '-codename' was appended (release ids without '-') |
| Catalog.UidInjective | distinfo.py:27-28 | within a distribution, two releases share a uid exactly when they share release id and codename |
| Catalog.Released | distinfo.py:30-31 | released() on day `today`: release_date ≤ today |
| Catalog.Eoled | distinfo.py:33-34 | eoled() on day `today`: eol_date ≤ today |
| Catalog.Supported | distinfo.py:36-37 | supported(): released and not eoled |
| Catalog.SupportedWindow | distinfo.py:30-37 | supported ⇔ release_date ≤ today < eol_date |
| Catalog.LifecycleMonotone | distinfo.py:30-34 | released and eoled stay true on every later day |
| Catalog.DefaultDatesNeverReleased | distinfo.py:14-37 | with the default date.max dates a release is never released, eoled or supported before date.max |
| Catalog.LessThan | distinfo.py:39-42 | `__lt__`: NotImplemented (None) for another distribution, else order < other order |
| Catalog.EqualTo | distinfo.py:44-47 | `__eq__`: NotImplemented (None) for another distribution, else equal orders |
| Catalog.EqualOp | distinfo.py:44-47 | the `==` operator: `__eq__`, falling back to identity (false across distributions) when it is NotImplemented |
| Catalog.GreaterThan | distinfo.py:39-47 | the `__gt__` that functools.total_ordering derives: not `<` and not `==`, NotImplemented when `__lt__` is |
| Catalog.LessOp | distinfo.py:39-42 | the `<` operator: `__lt__`, then the reflected `__gt__`, then TypeError |
| Catalog.GreaterOp | distinfo.py:39-47 | the `>` operator: `__gt__`, then the reflected `__lt__`, then TypeError |
| Catalog.ComparisonsFollowOrder | distinfo.py:39-47 | within one distribution `<`, `>` and `==` compare only the order numbers |
| Catalog.ComparisonsAcrossDistributions | distinfo.py:39-47 | across distributions `__lt__`/`__eq__` are NotImplemented, `<` and `>` raise TypeError, `==` is false |
| Catalog.StrictOrderWithinDistribution | distinfo.py:39-47 | within one distribution `<` is irreflexive and transitive, and exactly one of `<`, `==`, `>` holds |
| Catalog.Matches | distinfo.py:73-96 | the reference reading of the filter: every given attribute, date and lifecycle filter holds and the order lies strictly between the bounds |
| Catalog.Evaluate | distinfo.py:73-96 | the filter closure check by check in the source's order, giving Drop, Raise (TypeError) or Keep; EvaluateMeaning ties it to Matches |
| Catalog.EvaluateMeaning | distinfo.py:73-96 | the filter raises exactly when a date filter is reached or a bound of another distribution is reached; otherwise it keeps exactly the releases meeting every given filter, `after`/`before` being strict bounds on the order |
| Catalog.Filtered | distinfo.py:97 | filter() keeps each release as often as it occurs when the closure keeps it, otherwise not at all |
| Catalog.FilteredWithoutDateFilter | distinfo.py:82-85 | without a date filter, the as-written and the corrected closures keep the same releases |
| Catalog.InsertByOrder | distinfo.py:97 | inserting into a sorted list keeps it sorted and adds exactly that release |
| Catalog.SortByOrder | distinfo.py:97 | sorted() gives a list sorted by order that is a permutation of its input |
| Catalog.Select | distinfo.py:73-97 | TypeError iff some release makes the closure raise; otherwise sorted and, as a multiset, exactly the matching releases |
| Catalog.SelectCorrected | distinfo.py:82-85 | with the date filters comparing dates, only a reached bound of another distribution raises; without date filters both readings agree |
| Catalog.DateFilterCounterexample | distinfo.py:82-85 | a one-release store and a release_date filter it matches: as written TypeError, corrected the release itself |
| Catalog.Added | distinfo.py:66-67 | set.add keeps keys unique, contains the new key afterwards, loses nothing and adds nothing but the new release |
| Catalog.AddedIdempotent | distinfo.py:66-67 | adding the same release twice is adding it once |
| Catalog.Key | distinfo.py:44-50 | the identity of a release in the set: `__hash__` is the hash of the uid and `__eq__` compares orders, so the key is (uid, order) |
| Catalog.KeysUniqueAtMostOnce | distinfo.py:44-50 | a store whose keys (hash of the uid, `__eq__` on the order) are unique holds each release at most once |
| Catalog.DistInfo.constructor | distinfo.py:57-61 | id_like is the id followed by the given ids; no releases |
| Catalog.DistInfo.AddRelease | distinfo.py:66-67 | the store becomes the set-add of the new release of this distribution; the store stays valid |
| Catalog.SelectAsWritten | distinfo.py:73-97 | as written, TypeError iff some release passes the id, codename, cpe and suite filters and either a date filter is given or it reaches the bound checks and meets a bound of another distribution |
| Catalog.DistInfo.Releases | distinfo.py:69-97 | as written, on a store of one distribution (which sorted needs): sorted, sound and complete when it answers; TypeError iff some release passes the attribute filters and either a date filter is given or it meets a reached bound of another distribution; always answers without date filters or bounds |
| Catalog.DistInfo.ReleasesCorrected | distinfo.py:69-97 | corrected, on a store of one distribution: sorted, sound and complete; TypeError iff a release reaching the bound checks meets a bound of another distribution; equal to the as-written query without date filters |
| Catalog.ReleasesHaveNoDuplicates | distinfo.py:97 | a query answer has no duplicates |
| Catalog.UnfilteredReleases | distinfo.py:97 | with no filter the answer is every release once, sorted |
| Catalog.DistInfo.SetSuite | distinfo.py:150 | `release.suite = s` on the stored release with the given key, nothing else changes |
| Catalog.WithSuite | distinfo.py:150 | the releases with the key get the suite, all others are unchanged, the length is kept |
| Catalog.Distributions | distinfo.py:109-116 | exactly the distributions with the given id (when given) whose id_like contains every requested id, drawn from the input |
| Catalog.DistributionLikesItself | distinfo.py:57-60 | asking for a distribution's own id as id_like finds it |
| Catalog.DistributionsUnfiltered | distinfo.py:109-116 | with no filter every distribution is kept, in order |
| Catalog.VersionId | distinfo.py:129 | the id is the longest prefix of the version made of digits and dots |
| Catalog.VersionIdHasNoDash | distinfo.py:129 | an id read from a version has no '-', so its uid reads back |
| Catalog.DisplayName | distinfo.py:127-128 | the codename alone for an empty version; else a name starting with "version (", 3 characters longer than version and codename together |
| Catalog.DisplayNameParts | distinfo.py:127-128 | a name with a version reads back as the version, " (", the codename and a closing ")" |
| Catalog.DisplayNameInjective | distinfo.py:127-128 | for a given version, two codenames give the same name exactly when they are equal |
| Catalog.RowRelease | distinfo.py:126-135 | a row with fewer than 3 columns is an IndexError; a row with 3 or more columns and an unparsable date column is a ValueError naming the first bad column (column 4 before column 5); otherwise the release carries the row's order, id, name and codename, and the dates of columns 4 and 5 when present, date.max when absent |
| Catalog.Converted | distinfo.py:125-135 | the releases of well-formed rows, row k giving the release with order `order + k` that RowRelease gives |
| Catalog.LoadRows | distinfo.py:125-136 | the enumerate loop: each row is turned into a release and set-added in turn, and the first bad row stops the loop with its error; LoadRowsAppends and LoadRowsStops state what it gives |
| Catalog.LoadRowsAppends | distinfo.py:125-136 | with well-formed rows and new orders every row adds exactly one release, in row order |
| Catalog.LoadRowsStops | distinfo.py:125-136 | at the first bad row the loop stops with that row's error, after adding exactly the releases of the well-formed rows before it; later rows are not read |
| Catalog.ReadReleaseTable | distinfo.py:124-136 | a missing header is StopIteration; otherwise the loop stops at the first bad row with its error, after adding every earlier row |
| Catalog.FreshTableLoad | distinfo.py:124-136 | loading a table into an empty distribution: release k has order k and comes from body row k |
| Catalog.Olds | distinfo.py:149 | 'old' * n, of length 3n |
| Catalog.SuiteName | distinfo.py:149 | 'old' * n + 'stable' has length 3n + 6 and ends in 'stable' |
| Catalog.SuiteNames | distinfo.py:149 | the first three suites are 'stable', 'oldstable' and 'oldoldstable' |
| Catalog.SuiteNamesDistinct | distinfo.py:149 | two places give the same suite exactly when they are the same place |
| Catalog.SupportedQuery | distinfo.py:148 | the query `releases(supported=True)` |
| Catalog.StableLabelled | distinfo.py:147-150 | what the zip loop over the supported releases, newest first, makes of one release: the suite of the first list position holding its key, or no change; only the suite can differ |
| Catalog.StableLabelledMeaning | distinfo.py:147-150 | the loop gives the k-th oldest of n supported releases 'old' * (n-1-k) + 'stable' and leaves releases not listed alone |
| Catalog.StableLabelledStep | distinfo.py:147-150 | one loop step labels the releases with that step's key and no other |
| Catalog.UnlistedKeepsSuite | distinfo.py:147-150 | a stored release that is not listed shares no key with a listed one, so its suite is kept |
| Catalog.StableLabellingOf | distinfo.py:147-150 | over the supported releases of a valid store: unique keys, exactly the supported releases, newest gets 'stable', each older one more 'old', unsupported releases untouched |
| Catalog.StableLabellingOfDistribution | distinfo.py:147-150 | the same for `releases(supported=True)` of a valid distribution, which never raises |
| Catalog.LabelNewestFirst | distinfo.py:147-150 | the zip loop over reversed(l) sets each stored release to what StableLabelled says, changing only suites |
| Catalog.StableSuites | distinfo.py:147-150 | the store after the stable-suite loop differs from the store before only in suites |
| Catalog.LabelStableSuites | distinfo.py:147-150 | `releases(supported=True)` answers, and the store becomes StableSuites of the old store: each release as StableLabelled says over that answer |
| Catalog.LowestOfAnswer | distinfo.py:151-153 | the first release of a non-empty answer is a matching stored release of lowest order |
| Catalog.EmptyAnswer | distinfo.py:97 | an empty answer means no stored release matches |
| Catalog.Lowest | distinfo.py:151-153 | `releases(q)[0]`, when there is one, is a matching stored release of lowest order; without date filters or bounds there is one iff some release matches |
| Catalog.LabelLowest | distinfo.py:151-153 | `releases(q)[0].suite = s` fails exactly when `releases(q)` raises TypeError or is empty, and then changes nothing; otherwise the store becomes WithSuite(old store, key of the lowest matching release, s); without date filters or bounds it succeeds iff some release matches |
| Catalog.UnreleasedQuery | distinfo.py:151 | the query `releases(released=False)` |
| Catalog.CodenameQuery | distinfo.py:152-153 | the query `releases(codename=c)` |
| Catalog.DevelopmentSuites | distinfo.py:151-153 | the store after the three lookups and whether they got through: 'testing', 'unstable' and 'rc-buggy' on the lowest result of each lookup, each on the store the step before left, stopping at the first empty lookup (IndexError) with the store as it then is |
| Catalog.RelabelKeepsLookups | distinfo.py:151-153 | relabelling changes only suites, so whether an unreleased, a sid or an experimental release exists is unchanged |
| Catalog.RelabelledCodename | distinfo.py:153 | the relabelled release keeps its codename and carries the new suite |
| Catalog.DevelopmentSuitesMeaning | distinfo.py:151-153 | the three development lookups change only suites, and get through when an unreleased, a sid and an experimental release exist |
| Catalog.DevelopmentSuitesNeedMatches | distinfo.py:151-153 | they get through only when those three releases exist |
| Catalog.DevelopmentSuitesRcBuggy | distinfo.py:153 | when they get through, an experimental release is 'rc-buggy' |
| Catalog.LabelDevelopmentSuites | distinfo.py:151-153 | the store and the outcome are DevelopmentSuites of the old store: 'testing' on the lowest unreleased release, then 'unstable' on the lowest sid, then 'rc-buggy' on the lowest experimental, each lookup on the store the step before left; the first empty lookup stops with the store as it then is; only suites change; success iff the three releases exist |
| Catalog.DebianSuites | distinfo.py:147-153 | the Debian store after its set-up: the development suites applied to the stable labelling's result |
| Catalog.LabelDebianSuites | distinfo.py:147-153 | the store and the outcome are DebianSuites of the old store: the stable labelling, then the development suites on its result; only suites change; success iff an unreleased, a sid and an experimental release exist, and then an experimental release is 'rc-buggy' |
| Catalog.LowestUnreleased | distinfo.py:157-159 | the lowest unreleased release found by the query sits at a position of the store, below every other unreleased release |
| Catalog.UbuntuSuites | distinfo.py:157-159 | the Ubuntu store after its set-up: 'devel' on the lowest unreleased release, the store unchanged when there is none |
| Catalog.UbuntuSuitesMeaning | distinfo.py:156-159 | with an unreleased release, the store becomes WithSuite(store, key of the lowest unreleased release, 'devel'); without one it is unchanged; only suites change |
| Catalog.LabelUbuntuDevel | distinfo.py:156-159 | the store becomes UbuntuSuites of the old store: the lowest unreleased release, if any, gets 'devel'; otherwise nothing changes |
| Download.FailureMessage | downloader.py:39-44 | the text of the URLError raised after the last attempt: 'while downloading ' + url + ': ' + str(err) |
| Download.Install | downloader.py:48-51 | link first, copy2 only when the link raises OSError: installed iff the link or the copy succeeds, a hard link exactly when the link succeeds, always from the given source to the given destination; otherwise the install fails |
| Download.FailureMessageNamesUrl | downloader.py:39-44 | the raised message is 'while downloading ' followed by the URL |
| Download.Downloader.FetchWithRetry | downloader.py:29-44 | runs only on a URL already claimed (present and pending); between 1 and 5 attempts; it stops at the first success; it fails iff no attempt succeeds, and then only after the attempt with timeout 7, with that attempt's error and the URL |
| Download.Downloader.constructor | downloader.py:14-19 | an empty cache in the given directory |
| Download.Downloader.StagingPath | downloader.py:31 | the staging file of a URL: the download directory joined with the URL's sha256 digest, the same on every call |
| Download.Downloader.StagingPathInjective | downloader.py:31 | two URLs share a staging file exactly when their sha256 digests agree |
| Download.Downloader.Download | downloader.py:21-51 | a cancelled entry changes nothing; a pending URL blocks (or is cancelled) with no change; a ready URL is installed from its staging file with no fetch; an unseen URL is fetched by the retry policy and becomes ready on success or stays pending on failure with no install; keys only grow and ready paths never change; link first, copy only if the link fails. That the URL is claimed before it is fetched is not an ensures of Download: it follows from FetchWithRetry's requires that the URL be present and pending, which the body must meet |
| Download.DownloadTwice | downloader.py:23-47 | once a URL is installed, a later download of it makes no fetch and installs from the same staging file |

## Left out

- The network fetches (`urlopen`) of the distro-info CSV and of download bodies: the rows and the per-attempt outcomes are inputs.
- CSV parsing, `TextIOWrapper` and `date.fromisoformat` with its `strip()`: dates are parsed by a function passed in.
- `date.today()`, which is the parameter `today`.
- The CentOS, Fedora and RHEL tables of distinfo.py:162-217: constant data built with `add_release`, which is modelled.
- The lazy module-level `__distribs` set and `__init_distribs`' guard: the labelling steps are modelled per distribution.
- `__str__` of both classes: output formatting only.
- The set's iteration order, which Python derives from hashes: the model iterates in insertion order. Hash collisions are not modelled; set membership is by key (uid, order).
- Object identity of releases: a release is a value, and `release.suite = s` replaces the stored value with the same key.
- A distribution's identity: releases refer to their distribution by id.
- `Download.Downloader.Download`: other threads are not modelled. A pending hit whose first poll is not cancelled is the outcome Blocked, which stands for the polling loop that only another thread could end. The sleep and the later polls are not modelled.
- `mkdtemp`, `atexit`/`rmtree`, the bytes written to the staging file, and real `link`/`copy2`. The directory is a constructor argument, sha256 is the function `digest`, and link and copy are success flags.
- Exceptions other than URLError and socket.timeout during a fetch.
- The verbose `print` output.

## Findings

| source | as written | input that shows it | evidently intended | confidence | as-written member | corrected member |
|---|---|---|---|---|---|---|
| distinfo.py:82-85 | `date(release_date)` and `date(eol_date)` are called with one argument, which raises TypeError | `releases(release_date=d)` on a distribution holding a release that passes the id, codename, cpe and suite filters | compare the release's date with the given date | not executed | Catalog.DistInfo.Releases | Catalog.DistInfo.ReleasesCorrected |

`Catalog.DateFilterCounterexample` exhibits the discrepancy on one release. The labelling steps use the as-written query, as the source does. Their queries have no date filter, so the corrected query gives the same answers (`Catalog.SelectCorrected`).

A consequence of the source that the model shows: a download whose attempts all fail leaves its URL pending. Any later download of that URL then waits on it (Blocked in the model) instead of retrying.
