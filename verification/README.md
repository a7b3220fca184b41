# Popcorn Time core, modelled and proved in Dafny

This project models the algorithms and state machines behind the Popcorn Time app and proves what
they guarantee, for every input or every run. Check it with `dafny verify dfyconfig.toml`.

| file | what it is about |
|---|---|
| `AspectRatio.dfy`, `Euclid.dfy` | the continued fraction loop, gcd and lcm behind the VLC aspect ratio |
| `PercentEncoding.dfy`, `QueryString.dfy` | the query-string printer with its batched escaping, and the parser |
| `HtmlDecoding.dfy` | the scanning decoder of character references |
| `BestByKey.dfy`, `MirrorMerge.dfy`, `Catalogue.dfy` | merging what several mirrors return, in any order of arrival |
| `FailureRegistry.dfy` | the persisted failure log |
| `HealthMonitor.dfy`, `HealthRuns.dfy` | the latched playback detector, and what it does over whole runs |
| `RecentlyPlayed.dfy` | the bounded list of recent magnets |
| `TraktSession.dfy` | the token refresh shared by interleaved callers |
| `Torrents.dfy`, `QualityLabels.dfy`, `SourceRanking.dfy` | scores, the quality order, the collapse, the play button and the prefetcher |
| `Subtitles.dfy` | the saved and the shown subtitles kept in step |
| `MagnetTrackers.dfy` | completing magnet links with the forced trackers |
| `LatestEpisode.dfy`, `FileSelection.dfy` | which episode is offered next, which file is fetched and played |
| `Sequences.dfy`, `Sorting.dfy`, `Numerals.dfy` | shared vocabulary |

Objects that the program updates in place are classes here; each of their methods is tied to a pure
step function on the abstract state, and the theorems about runs quantify over all sequences of such
steps. Loops that update variables are methods with invariants, tied to specification functions.

Promises that turn out false of the code are kept as counterexamples beside the exact condition under
which they hold:

- The comment at `SelectTorrentQualityButton.swift:223` gives an order of qualities that `Torrent <`
  does not have (`CommentedOrderFails`, `CommentedOrderExactlyWhen`); on other labels it may not be an
  order at all (`OrderExactlyWhenCompatible`).
- The comment at `Session.swift:446` says the penalty cannot sink a torrent below the screeners; it
  can, for unlabelled releases with nine failures or more (`UnlabelledBeatsScreenersUpToEight`).
- The comments at `PreloadTorrentViewModel.swift:61` and `:141` say the prefetcher picks what the
  button picks. The language filter (`FilterHidesTheBest`), the collapse to one torrent per quality
  (`CollapseHidesTheFirst`), ties (`TiesAreUndetermined`) and failures (`LossCanBeFull`) part them;
  `SameTorrentExactlyWhen` says when they agree on the very torrent, `ButtonAgreesExactlyWhen`,
  `LosslessExactlyWhen` and `PrefetchServesExactlyWhen` when on one as good.
- A failed token refresh is never cleared (`EveryLaterCallFails`, `FreedExactlyOnSuccess`); a logout
  may be undone (`LogoutIsUndone`, `LogoutLastsExactlyWhen`), and so may a login (`LoginIsUndone`,
  `LoginLastsExactlyWhen`).
- The low-speed issue of the health monitor can never be emitted (`LowSpeedIsShadowed`), and two stalls
  may be one seen twice (`OneEpisodeSeenTwiceEmits`, `DocumentedExactlyWhen`). A stall may fire the
  instant the grace period closes, against the comment at `PreloadTorrentViewModel.swift:276`
  (`StallAsGraceCloses`, `StallAsGraceEndsExactlyWhen`).
- `queryString` does not undo `query` on the empty map (`FlatRoundTrip`), and bracketed paths may
  collide (`PathsAreAmbiguous`, `NamesNestedExactlyWhen`, `PrintedTreesAgreeExactlyWhen`).
- Augmenting a magnet is not idempotent when `&amp;` survives one normalisation (`IdempotentExactlyWhen`).
- The torrent kept for a URL depends on the order of arrival when seeds tie
  (`OrderIndependentExactlyWhenTiesAgree`).
- The view may hold a subtitle twice (`DuplicatesExactlyWhen`).
- The warmer may fetch another file than the episode played (`EpisodePicksAgreeExactlyWhen`).
- No episode may be offered though one is started (`UnlistedSeasonsAreMissed`,
  `NoneMeansNothingStartedExactlyWhen`).

## Model

| member | source | states |
|---|---|---|
| `AspectRatio.AdvanceKeepsInvariant` | PopcornTime/Extensions/UIScreen+AspectRatio.swift:34-38 | every pass of the loop keeps the two convergents at determinant ±1 and the input written exactly over them and the remaining fraction; the denominator grows strictly from the second pass on |
| `AspectRatio.GuardBoundsDenominator` | PopcornTime/Extensions/UIScreen+AspectRatio.swift:34 | the guard can hold only while the denominator is at most 31622, which with strict growth ends the loop |
| `AspectRatio.StepFits` | PopcornTime/Extensions/UIScreen+AspectRatio.swift:34-38 | for inputs in (0, 1] no quotient, product or convergent of a pass leaves 64 bits |
| `AspectRatio.StoppedIsClose` | PopcornTime/Extensions/UIScreen+AspectRatio.swift:34-39 | whenever the loop can stop, the fraction is within 1e-9 of the input |
| `AspectRatio.StoppedIsExact` | PopcornTime/Extensions/UIScreen+AspectRatio.swift:34-39 | an input that is a reduced fraction with denominator up to 31622 is returned exactly, not just approximately |
| `AspectRatio.RationalApproximation` | PopcornTime/Extensions/UIScreen+AspectRatio.swift:28-40 | for every real input the loop ends with coprime h, k and h/k within 1e-9 of it, exact for small denominators, bounded for inputs in (0, 1] |
| `AspectRatio.CombineWithUnit` | PopcornTime/Extensions/UIScreen+AspectRatio.swift:14-20 | scaling by the common denominator and dividing by the common divisor are exact and give the reduced pair |
| `AspectRatio.CombineFits` | PopcornTime/Extensions/UIScreen+AspectRatio.swift:15-19 | the products of the vector steps fit in 64 bits |
| `AspectRatio.VlcAspectRatio` | PopcornTime/Extensions/UIScreen+AspectRatio.swift:6-21 | for every positive width and height the pair is in lowest terms, its smaller to larger ratio is within 1e-9 of the true one, and a true ratio with terms up to 31622 is printed exactly |
| `Euclid.GcdLoop` | PopcornTime/Extensions/UIScreen+AspectRatio.swift:46-57 | the loop computes the `Gcd` function, on any two integers and with the truncating remainder |
| `Euclid.GcdIsGreatest` | PopcornTime/Extensions/UIScreen+AspectRatio.swift:46-57 | the common divisors of two integers are exactly the divisors of their gcd |
| `Euclid.Bezout` | PopcornTime/Extensions/UIScreen+AspectRatio.swift:46-57 | the value the loop returns is an integer combination of its arguments |
| `Euclid.LcmIsLeast` | PopcornTime/Extensions/UIScreen+AspectRatio.swift:72-74 | the common multiples of two integers are exactly the multiples of their lcm |
| `Euclid.GcdAllIsGreatest` | PopcornTime/Extensions/UIScreen+AspectRatio.swift:60-62 | the divisors of a vector's gcd are exactly the common divisors of its elements |
| `Euclid.LcmAllIsLeast` | PopcornTime/Extensions/UIScreen+AspectRatio.swift:65-67 | the multiples of a vector's lcm are exactly the common multiples of its elements |
| `PercentEncoding.RoundTrip` | PopcornKit/Sources/HttpClient/HttpClient.swift:152 | decoding undoes percent-encoding for every text and every allowed set without `%`, so encoding is injective |
| `PercentEncoding.EncodingConcat` | PopcornKit/Sources/HttpClient/HttpClient.swift:145-155 | encoding distributes over concatenation, which is why batches are harmless |
| `PercentEncoding.Escape` | PopcornKit/Sources/HttpClient/HttpClient.swift:133-158 | the 50-character batches equal encoding the whole text at once, wherever the character boundaries fall |
| `PercentEncoding.EscapedIsSafe` | PopcornKit/Sources/HttpClient/HttpClient.swift:134-138 | escaped text is made of unreserved characters, `?`, `/` and triplets only, holds no `&` or `=`, and unescapes to the original |
| `PercentEncoding.FixedExactlyWhen` | PopcornKit/Sources/HttpClient/HttpClient.swift:152 | a text is its own percent-encoding if and only if all its characters are allowed |
| `PercentEncoding.EscapeFixesExactlyWhen` | PopcornKit/Sources/HttpClient/HttpClient.swift:121-138 | a text is its own escape if and only if it holds only unreserved characters, `?` and `/`: nothing else is left alone, and these always are |
| `PercentEncoding.UnreservedExactlyWhen` | PopcornKit/Sources/HttpClient/HttpClient.swift:137 | the unreserved characters are letters, digits and four marks |
| `PercentEncoding.QueryCharactersExactlyWhen` | PopcornKit/Sources/HttpClient/HttpClient.swift:137 | the characters of a query, written out |
| `PercentEncoding.TripletReadInAnyCase` | PopcornKit/Sources/Helpers/String+Extension.swift:53-54 | the digits of a triplet are read in upper and in lower case |
| `PercentEncoding.HexDigitIs` | PopcornKit/Sources/HttpClient/HttpClient.swift:152 | and written in upper case |
| `Utf8.EncodedForm` | PopcornKit/Sources/HttpClient/HttpClient.swift:152 | the bytes encoded are the UTF-8 form of the character: length, lead byte, continuation bytes and payload |
| `QueryString.QueryComponents` | PopcornKit/Sources/HttpClient/HttpClient.swift:93-117 | the recursive printer yields one escaped pair per scalar leaf of the tree, with its bracketed path, in order |
| `QueryString.SortedKeys` | PopcornKit/Sources/HttpClient/HttpClient.swift:80 | the keys come out strictly increasing, each exactly once |
| `QueryString.Query` | PopcornKit/Sources/HttpClient/HttpClient.swift:77-85 | the text is the printed leaves of all parameters by increasing top-level key |
| `QueryString.KeyListUnique` | PopcornKit/Sources/HttpClient/HttpClient.swift:80 | the sorted key list, and with it the printed text, is determined by the parameters |
| `Sequences.LessExactlyWhen` | PopcornKit/Sources/HttpClient/HttpClient.swift:80 | keys compare by the first scalar in which they differ, a prefix first |
| `QueryString.ScalarsPrint` | PopcornKit/Sources/HttpClient/HttpClient.swift:104-114 | booleans print as 1 and 0, other scalars by their description |
| `QueryString.ParseQuery` | PopcornKit/Sources/Helpers/String+Extension.swift:48-58 | the loop computes the map of the decoded pairs, later pairs winning; the forced unwrap fails exactly when some piece between `&` has a key or value that cannot be percent-decoded |
| `QueryString.BarePieceRead` | PopcornKit/Sources/Helpers/String+Extension.swift:52-54 | a piece without `=` is read as both key and value |
| `QueryString.PieceRead` | PopcornKit/Sources/Helpers/String+Extension.swift:52-54 | the key is what stands before the first `=`, the value what stands after the last |
| `QueryString.QueryRecoversLeaves` | PopcornKit/Sources/HttpClient/HttpClient.swift:77-117 | parsing a printed query recovers exactly the list of (path, leaf) pairs, if and only if the tree has a leaf |
| `QueryString.FlatRoundTrip` | PopcornKit/Sources/Helpers/String+Extension.swift:48-58 | `queryString` undoes `query` on a flat string map, empty keys and values included, if and only if the map is not empty |
| `QueryString.EmptyTextHasAKey` | PopcornKit/Sources/Helpers/String+Extension.swift:48-58 | the counterexample: the empty text parses to a map with one empty key |
| `QueryString.PathsAreAmbiguous` | PopcornKit/Sources/HttpClient/HttpClient.swift:96-99 | a counterexample to bracketed paths being injective: a key that contains brackets prints like a nested dictionary |
| `QueryString.NamesNestedExactlyWhen` | PopcornKit/Sources/HttpClient/HttpClient.swift:96-103 | a plain key reads as a nested path if and only if it holds `[` and ends in `]` |
| `QueryString.NameInjective` | PopcornKit/Sources/HttpClient/HttpClient.swift:96-103 | without brackets in the keys a printed name stands for one path only, array items counting as empty keys |
| `QueryString.LeavesAreNamed` | PopcornKit/Sources/HttpClient/HttpClient.swift:93-117 | the printer names every leaf by the subscripts of its path in the tree |
| `QueryString.PrintInjective` | PopcornKit/Sources/HttpClient/HttpClient.swift:84 | a printed text stands for one list of pairs only |
| `QueryString.PrintedTreesAgreeExactlyWhen` | PopcornKit/Sources/HttpClient/HttpClient.swift:77-117 | parameters without brackets in their keys print the same query if and only if they have the same leaves at the same paths in the same order |
| `HtmlDecoding.RemovingHtmlEncoding` | PopcornKit/Sources/Resources/HtmlDecoding.swift:305-332 | the index-based loop computes the character-at-a-time scan `Decode`, for every table and text |
| `HtmlDecoding.DecodeNeverLengthens` | PopcornKit/Sources/Resources/HtmlDecoding.swift:305-332 | decoding never lengthens a text, and keeps its length only by leaving it unchanged |
| `ReferenceScan.CutClosed` | PopcornKit/Sources/Resources/HtmlDecoding.swift:309-331 | after a prefix that leaves no `&` open, the scan continues as if started afresh, for any replacement of references |
| `HtmlDecoding.CutsExactlyWhenClosed` | PopcornKit/Sources/Resources/HtmlDecoding.swift:309-331 | a prefix can be decoded on its own whatever follows if and only if it leaves no `&` open |
| `HtmlDecoding.DecodeEncoded` | PopcornKit/Sources/Resources/HtmlDecoding.swift:272-333 | a text made of characters, accepted references, references that are not valid and an `&` left open at the end decodes to the characters, with the invalid references and the open end copied; so decoding inverts every encoding by accepted references |
| `HtmlDecoding.EveryTextDivides` | PopcornKit/Sources/Resources/HtmlDecoding.swift:309-331 | every text is so made, so the row above says what decoding gives for all of them |
| `HtmlDecoding.InvalidIsKept` | PopcornKit/Sources/Resources/HtmlDecoding.swift:321-324 | a reference that is not valid is copied verbatim |
| `HtmlDecoding.NumericReferencesAreDecodable` | PopcornKit/Sources/Resources/HtmlDecoding.swift:280-297 | every character has a decimal and a hexadecimal reference that decodes to it |
| `HtmlDecoding.NumericReadExactlyWhen` | PopcornKit/Sources/Resources/HtmlDecoding.swift:280-284 | a number in digits is accepted exactly when it is a Unicode scalar, and then stands for it |
| `HtmlDecoding.SignedRead` | PopcornKit/Sources/Resources/HtmlDecoding.swift:281 | a plus sign is allowed, a minus sign before zero only |
| `HtmlDecoding.CaseIsIgnored` | PopcornKit/Sources/Resources/HtmlDecoding.swift:294-295 | hexadecimal digits and the `x` before them may be upper case |
| `HtmlDecoding.OnlyDigits` | PopcornKit/Sources/Resources/HtmlDecoding.swift:281 | anything that is not a digit of the base is refused |
| `HtmlDecoding.XmlEntitiesAreDecodable` | PopcornKit/Sources/Resources/HtmlDecoding.swift:292-300 | the five predefined XML entities decode, and their table has the shape the cut theorem asks for |
| `HtmlDecoding.NamedExactlyWhen` | PopcornKit/Sources/Resources/HtmlDecoding.swift:298-300 | a reference that does not begin with `&#` stands for what the table gives for it, if anything |
| `BestByKey.BestIsFirstBest` | PopcornKit/Sources/Managers/MirrorAggregator.swift:391-396 | the keep-best loop holds exactly the keys that occur, each with the first element of highest score |
| `BestByKey.DedupFlat` | PopcornKit/Sources/Managers/MirrorAggregator.swift:270-274 | the flat copy of the loop computes the same map |
| `BestByKey.DedupLists` | PopcornKit/Sources/Managers/MirrorAggregator.swift:390-396 | the nested copy of the loop computes the flat copy's map of all lists together |
| `BestByKey.Values` | PopcornKit/Sources/Managers/MirrorAggregator.swift:397 | the values of the dictionary are listed once each, in an unspecified order |
| `MirrorMerge.BestTorrents` | PopcornKit/Sources/Managers/MirrorAggregator.swift:389-398 | the result lists exactly the best torrent of each URL, once, sorted whenever the comparison is an order on the input |
| `MirrorMerge.ParsedTorrents` | PopcornKit/Sources/Models/Movie.swift:180-185 | the movie initialiser's copy gives the same result on the flattened list, sorted likewise |
| `MirrorMerge.OneEntryPerUrl` | PopcornKit/Sources/Managers/MirrorAggregator.swift:389-398 | a merged list has one entry per URL, and its URLs are the union of the inputs' |
| `MirrorMerge.SeedsAreMost` | PopcornKit/Sources/Managers/MirrorAggregator.swift:391-396 | the seed count kept for a URL is the maximum listed for it, and only URLs listed have one |
| `MirrorMerge.BestConcat` | PopcornKit/Sources/Managers/MirrorAggregator.swift:391-396 | merging a concatenation is the join of the merged parts |
| `MirrorMerge.SeedsJoin` | PopcornKit/Sources/Managers/MirrorAggregator.swift:391-396 | on URL to seeds, concatenation is the pointwise maximum |
| `MirrorMerge.SeedsIgnoreOrder` | PopcornKit/Sources/Managers/MirrorAggregator.swift:389-398 | URL to seeds is unchanged by any order, repetition or grouping of the responses |
| `MirrorMerge.OrderIndependentExactlyWhenTiesAgree` | PopcornKit/Sources/Managers/MirrorAggregator.swift:391-396 | the full entries do not depend on the order of arrival if and only if torrents tied for a URL's most seeds are equal |
| `MirrorMerge.MergeKeepsBest` | PopcornKit/Sources/Managers/MirrorAggregator.swift:389-398 | merging a merged list again changes nothing |
| `MirrorMerge.StagedMerge` | PopcornKit/Sources/Managers/MirrorAggregator.swift:389-398 | merging in stages gives what merging at once gives |
| `Catalogue.GroupBy` | PopcornKit/Sources/Managers/MirrorAggregator.swift:335-342 | the nested loops build the fold of all elements into groups and key order |
| `Catalogue.GroupFoldIs` | PopcornKit/Sources/Managers/MirrorAggregator.swift:337-342 | every key that occurs has exactly its elements, and keys are listed by first occurrence |
| `Catalogue.MergeMovieInfo` | PopcornKit/Sources/Managers/MirrorAggregator.swift:323-330 | nothing for no variants; otherwise the first variant with most torrents, carrying the merged torrents of all |
| `Catalogue.MergeMovies` | PopcornKit/Sources/Managers/MirrorAggregator.swift:334-344 | each id exactly once, in first-seen order, merged from all its variants |
| `Catalogue.MergeEpisode` | PopcornKit/Sources/Managers/MirrorAggregator.swift:380-384 | nothing for no variants; otherwise the first variant carrying the merged torrents of all |
| `Catalogue.MergeShowInfo` | PopcornKit/Sources/Managers/MirrorAggregator.swift:348-364 | episodes strictly increase in (season, episode), cover exactly the union of the variants' keys, and each carries the join of its torrents |
| `Catalogue.MergedShowIgnoresOrder` | PopcornKit/Sources/Managers/MirrorAggregator.swift:348-364 | variants in any order and repetition give the same episode keys with the same URL to seeds maps |
| `Catalogue.MergedMoviesIgnoreOrder` | PopcornKit/Sources/Managers/MirrorAggregator.swift:334-344 | pages built from the same movies list the same ids, once each, with the same URL to seeds maps |
| `Catalogue.RichestMovieIsChosen` | PopcornKit/Sources/Managers/MirrorAggregator.swift:324 | no variant has more torrents than the one chosen, and the earlier ones have fewer |
| `Catalogue.RichestShowIsChosen` | PopcornKit/Sources/Managers/MirrorAggregator.swift:349 | no variant has more episodes than the one chosen, and the earlier ones have fewer |
| `Catalogue.MergedEpisodesIncrease` | PopcornKit/Sources/Managers/MirrorAggregator.swift:362 | merged episodes come by season and then by number, no two alike |
| `Catalogue.MergedEpisodesCover` | PopcornKit/Sources/Managers/MirrorAggregator.swift:353-361 | a season and number is among them exactly when some variant has it |
| `FailureRegistry.PlaybackFailureRegistry.constructor` | PopcornTime/Model/Session.swift:467-474 | a launch loads what was saved and prunes it |
| `FailureRegistry.PlaybackFailureRegistry.Prune` | PopcornTime/Model/Session.swift:455-465 | pruning in place keeps per URL exactly the dates inside the window and drops emptied URLs |
| `FailureRegistry.PlaybackFailureRegistry.RecordFailure` | PopcornTime/Model/Session.swift:431-436 | a failure less than a minute after the URL's last changes nothing; another is appended and saved |
| `FailureRegistry.PlaybackFailureRegistry.FailureCount` | PopcornTime/Model/Session.swift:441-444 | the answer counts the dates inside the window, and the state is pruned |
| `FailureRegistry.PlaybackFailureRegistry.QualityPenalty` | PopcornTime/Model/Session.swift:451-453 | 100 per counted failure, at most 1500 |
| `FailureRegistry.StepRefines` | PopcornTime/Model/Session.swift:431-474 | every record, query and launch keeps memory and disk a remainder of the full unpruned log |
| `FailureRegistry.RunRefines` | PopcornTime/Model/Session.swift:431-474 | so does every run with a non-decreasing clock |
| `FailureRegistry.CountIsRecentFailures` | PopcornTime/Model/Session.swift:441-444 | at any moment of any run the count equals the failures accepted in the last 30 days |
| `FailureRegistry.CountIsAccepted` | PopcornTime/Model/Session.swift:424-444 | said of the events alone: the count is the number of failures of the last 30 days that no accepted one of the 60 seconds before drowns |
| `FailureRegistry.PenaltyGrows` | PopcornTime/Model/Session.swift:451-453 | each failure up to the fifteenth costs 100 points, none after it |
| `FailureRegistry.RestartsAreInvisible` | PopcornTime/Model/Session.swift:455-480 | histories with the same failures answer alike, whatever launches and queries lie between |
| `FailureRegistry.CountIsBounded` | PopcornTime/Model/Session.swift:431-453 | the count is at most 43201 and the penalty within 0..1500 |
| `HealthMonitor.PlaybackHealthMonitor.constructor` | PopcornTime/Flows/Movie Details/PreloadTorrentViewModel.swift:250-267 | a fresh, unlatched monitor |
| `HealthMonitor.PlaybackHealthMonitor.EmitIssue` | PopcornTime/Flows/Movie Details/PreloadTorrentViewModel.swift:366-371 | sets latch and issue and records one failure, unless latched already |
| `HealthMonitor.PlaybackHealthMonitor.ObserveStatus` | PopcornTime/Flows/Movie Details/PreloadTorrentViewModel.swift:271-351 | the new state and the registry are those of the step function, with its priorities |
| `HealthMonitor.PlaybackHealthMonitor.VlcBufferingDidStart` | PopcornTime/Flows/Movie Details/PreloadTorrentViewModel.swift:356-358 | the start of the current buffering episode is kept |
| `HealthMonitor.PlaybackHealthMonitor.DismissIssue` | PopcornTime/Flows/Movie Details/PreloadTorrentViewModel.swift:375-377 | hides the issue and leaves the latch |
| `HealthMonitor.PlaybackHealthMonitor.Reset` | PopcornTime/Flows/Movie Details/PreloadTorrentViewModel.swift:387-393 | clears issue, latch, stalls and both timers |
| `HealthRuns.RunIsReachable` | PopcornTime/Flows/Movie Details/PreloadTorrentViewModel.swift:271-393 | in every reachable state the low-speed timer is unset, and a set buffering time is the start of an uninterrupted episode in the history |
| `HealthRuns.LowSpeedIsShadowed` | PopcornTime/Flows/Movie Details/PreloadTorrentViewModel.swift:290-350 | no run ever sets the low-speed timer or emits its issue: the slow-start test comes first |
| `HealthRuns.NothingDuringGrace` | PopcornTime/Flows/Movie Details/PreloadTorrentViewModel.swift:287 | no run emits in the first 30 seconds |
| `HealthRuns.PlaybackEmitsOnlyStalls` | PopcornTime/Flows/Movie Details/PreloadTorrentViewModel.swift:307-320 | a playback emission is a buffer stall: VLC in one uninterrupted episode of 30 seconds, or of 10 with a stall noted less than 60 seconds before and no reset since |
| `HealthRuns.StallsAreNoted` | PopcornTime/Flows/Movie Details/PreloadTorrentViewModel.swift:297-320 | in every run each remembered stall is the time of an earlier stuck observation with no reset since |
| `HealthRuns.NotedIsRemembered` | PopcornTime/Flows/Movie Details/PreloadTorrentViewModel.swift:297-320 | with a non-decreasing clock every stall noted since the last reset is remembered for a minute |
| `HealthRuns.BufferStallExactlyWhen` | PopcornTime/Flows/Movie Details/PreloadTorrentViewModel.swift:297-320 | with a non-decreasing clock a run emits a buffer stall exactly when a noted stall has lasted 30 seconds or follows another within 60 with no reset between |
| `HealthRuns.StuckMeans` | PopcornTime/Flows/Movie Details/PreloadTorrentViewModel.swift:297-320 | a noted stall is an uninterrupted buffering episode, or a complete progress that every observation repeated, of at least 10 seconds |
| `HealthRuns.SameStallExactlyWhenUninterrupted` | PopcornTime/Flows/Movie Details/PreloadTorrentViewModel.swift:276-320 | two noted stalls are one if and only if no end of buffering, or no change of progress, lies between them |
| `HealthRuns.DocumentedExactlyWhen` | PopcornTime/Flows/Movie Details/PreloadTorrentViewModel.swift:222 | a buffer stall is emitted as documented (30 seconds, or two stalls in 60) if and only if it lasted 30 seconds or some stall of the minute before had ended |
| `HealthRuns.StallAsGraceEndsExactlyWhen` | PopcornTime/Flows/Movie Details/PreloadTorrentViewModel.swift:276-287 | the first observation past the grace period fires a pre-buffer stall if and only if a complete progress was reported half a minute before and no other since |
| `HealthRuns.StallAsGraceCloses` | PopcornTime/Flows/Movie Details/PreloadTorrentViewModel.swift:276-278 | a counterexample to no stall firing the instant grace closes: a progress complete from the start |
| `HealthRuns.WatermarkIsFrozen` | PopcornTime/Flows/Movie Details/PreloadTorrentViewModel.swift:276-284 | in every run the watermark names the event since which every pre-buffer observation reported the same progress |
| `HealthRuns.PreBufferEmissionsHaveCauses` | PopcornTime/Flows/Movie Details/PreloadTorrentViewModel.swift:289-333 | whatever a run emits while pre-buffering has its documented cause; a stall means the complete progress stood still for 30 seconds, or for 10 with a stall noted in the minute before |
| `HealthRuns.TroubleIsReported` | PopcornTime/Flows/Movie Details/PreloadTorrentViewModel.swift:287-333 | past the grace period an armed monitor reports every unfinished pre-buffer as a slow start, and in the first two minutes every swarm of fewer than three peers |
| `HealthRuns.EmissionsBounded` | PopcornTime/Flows/Movie Details/PreloadTorrentViewModel.swift:366-393 | emissions number at most one more than the resets |
| `HealthRuns.RecordingsBounded` | PopcornTime/Flows/Movie Details/PreloadTorrentViewModel.swift:366-371 | over a run the registry gains at most one failure more than there are resets, and only for the monitor's torrent |
| `HealthRuns.EmissionIsRecorded` | PopcornTime/Flows/Movie Details/PreloadTorrentViewModel.swift:366-371 | every emission leaves the registry with a failure of the torrent from the last minute |
| `HealthRuns.OnlyResetsRearm` | PopcornTime/Flows/Movie Details/PreloadTorrentViewModel.swift:366-393 | between any two emissions of a run lies a reset; dismissal never re-arms |
| `HealthRuns.ShownExactlyWhen` | PopcornTime/Flows/Movie Details/PreloadTorrentViewModel.swift:366-393 | in every run the issue shown is exactly the one emitted last, until it is dismissed or the monitor is reset |
| `HealthRuns.OneEpisodeSeenTwiceEmits` | PopcornTime/Flows/Movie Details/PreloadTorrentViewModel.swift:307-319 | in every run one uninterrupted stall observed twice after its tenth second, less than a minute apart, leaves an issue emitted |
| `RecentlyPlayed.Session.RecordRecentlyPlayed` | PopcornTime/Model/Session.swift:168-174 | an empty magnet changes nothing; another moves to the front of at most 20 |
| `RecentlyPlayed.TruncationCommutes` | PopcornTime/Model/Session.swift:170-173 | cutting to 20 before or after moving to the front gives the same list |
| `RecentlyPlayed.StoresNewestDistinct` | PopcornTime/Model/Session.swift:168-174 | after any plays the list is the first 20 of the de-duplicated reversed history of non-empty magnets |
| `TraktSession.Session.constructor` | PopcornKit/Sources/Managers/TraktSession.swift:7-15 | a session starts with no refresh and the saved credentials |
| `TraktSession.Session.StoreCredentials` | PopcornKit/Sources/Managers/TraktSession.swift:49-54 | memory and storage both get the credentials |
| `TraktSession.Session.LogOut` | PopcornKit/Sources/Managers/TraktSession.swift:17-20 | memory and storage both lose them, and nothing else changes |
| `TraktSession.Session.TraktCredentials` | PopcornKit/Sources/Managers/TraktSession.swift:26-47 | up to its first await a call joins the refresh in the slot, starts one, returns, or throws, in that order of priority |
| `TraktSession.RefreshSentExactlyWhen` | PopcornKit/Sources/Managers/TraktSession.swift:28-36 | a refresh is sent exactly by a call that finds none under way and expired credentials with a refresh token, and with that token |
| `TraktSession.EnteredReplies` | PopcornKit/Sources/Managers/TraktSession.swift:28-46 | a call returns at once exactly when none is under way and nothing needs a refresh; it then gets the credentials held, or learns that there are none |
| `TraktSession.CallsReturnWhatIsHeld` | PopcornKit/Sources/Managers/TraktSession.swift:26-47 | in every run a call that did not wait returned the credentials held when it entered, and `MissingSession` exactly when there were none |
| `TraktSession.AnswerEffects` | PopcornKit/Sources/Managers/TraktAuthApi.swift:85-97 | success replaces credentials and storage, a rejected token removes them, any other failure leaves both alone |
| `TraktSession.Session.RefreshTokenAnswered` | PopcornKit/Sources/Managers/TraktAuthApi.swift:85-97 | an answer stores the credentials, a rejected token logs out, any other failure changes nothing |
| `TraktSession.Session.ResumeInitiator` | PopcornKit/Sources/Managers/TraktSession.swift:37-40 | the call that started the refresh stores and clears the slot on success only |
| `TraktSession.Session.ResumeJoiner` | PopcornKit/Sources/Managers/TraktSession.swift:28-30 | a call that joined returns the outcome and changes nothing |
| `TraktSession.StepKeepsInv` | PopcornKit/Sources/Managers/TraktSession.swift:26-54 | every step of every caller keeps the single-flight invariant |
| `TraktSession.SingleFlight` | PopcornKit/Sources/Managers/TraktSession.swift:26-47 | in every interleaving at most one refresh is in flight |
| `TraktSession.WaitersAgree` | PopcornKit/Sources/Managers/TraktSession.swift:28-40 | all calls that waited for one refresh return the same outcome |
| `TraktSession.OnlyInitiatorClears` | PopcornKit/Sources/Managers/TraktSession.swift:34-39 | the slot is never refilled while full, and is cleared only by the call that filled it, after a success |
| `TraktSession.FailureIsForever` | PopcornKit/Sources/Managers/TraktSession.swift:37-39 | after a failed refresh no event of any run changes the slot |
| `TraktSession.EveryLaterCallFails` | PopcornKit/Sources/Managers/TraktSession.swift:28-39 | after a failed refresh every later call returns that same failure, even after a new login, and no refresh is sent again |
| `TraktSession.FreedExactlyOnSuccess` | PopcornKit/Sources/Managers/TraktSession.swift:37-40 | when its initiator resumes, the session is usable again if and only if the refresh succeeded |
| `TraktSession.LogoutIsUndone` | PopcornKit/Sources/Managers/TraktSession.swift:37-38 | a counterexample to a logout lasting: one between answer and resumption is undone by the second store |
| `TraktSession.LogoutLastsExactlyWhen` | PopcornKit/Sources/Managers/TraktSession.swift:17-40 | no run without a new login brings credentials back after a logout if and only if the logout finds the slot empty or holding a failed refresh |
| `TraktSession.LoginIsUndone` | PopcornKit/Sources/Managers/TraktAuthApi.swift:91-92 | a counterexample to a login lasting: a refresh in flight that is then rejected logs the new account out |
| `TraktSession.LoginLastsExactlyWhen` | PopcornKit/Sources/Managers/TraktSession.swift:26-54 | a login keeps its credentials in every run without another login, a logout or a refresh of its own if and only if it finds the slot empty, holding a failed refresh, or holding an answer with those very credentials |
| `QualityLabels.OrderExactlyWhenCompatible` | PopcornKit/Sources/Models/Torrent.swift:333-347 | `Torrent <` is a strict weak order on labels of given lengths if and only if the lengths are compatible, in particular for 2, 4 and 5 |
| `QualityLabels.CommentedOrderFails` | PopcornTime/Flows/Movie Details/SelectTorrentQualityButton.swift:223-225 | against the comment, 3D ranks last rather than first, and 1080p and 2160p tie |
| `QualityLabels.CommentedPairs` | PopcornKit/Sources/Models/Torrent.swift:333-347 | how `Torrent <` orders the five labels, for every pair |
| `QualityLabels.CommentedOrderExactlyWhen` | PopcornTime/Flows/Movie Details/SelectTorrentQualityButton.swift:223-225 | on a set of the five labels `Torrent <` is the commented order if and only if the set lacks 1080p or 2160p and holds 3D only by itself |
| `SourceRanking.ScoreWithinTier` | PopcornKit/Sources/Models/Torrent.swift:237-253 | more seeds never lower a score, and a tier's scores span at most 149 points |
| `SourceRanking.SeedBonusExactlyWhen` | PopcornKit/Sources/Models/Torrent.swift:251 | the bonus is b below 99 exactly when the fifth power of seeds plus one lies between the powers of two of b and b + 1, and 99 exactly from the 99th on |
| `SourceRanking.ScoreIsSum` | PopcornKit/Sources/Models/Torrent.swift:238-252 | the score is the source's rank in thousands, the resolution and the bonus |
| `SourceRanking.TierIsRank` | PopcornKit/Sources/Models/Torrent.swift:190-199 | the tier of a source is its rank |
| `SourceRanking.ResolutionIgnoresCase` | PopcornKit/Sources/Models/Torrent.swift:240-245 | labels are compared without case, and 4k counts as 2160p |
| `SourceRanking.OtherLabelsCountNothing` | PopcornKit/Sources/Models/Torrent.swift:240-247 | other labels, or none, count for nothing |
| `SourceRanking.HigherTierWins` | PopcornKit/Sources/Models/Torrent.swift:237-253 | a better release source always wins when unpenalised, whatever the resolutions and seeds |
| `SourceRanking.ResolutionDecides` | PopcornKit/Sources/Models/Torrent.swift:239-248 | between torrents alike in source and seeds each step of resolution is worth 10 points |
| `SourceRanking.ScreenersLoseExactlyToLabelled` | PopcornTime/Model/Session.swift:446-453 | a source outranks every screener under every failure history if and only if it is rated DVDRip or better |
| `SourceRanking.UnlabelledBeatsScreenersUpToEight` | PopcornTime/Model/Session.swift:446-453 | an unlabelled release with n failures outranks every screener if and only if n is at most 8 |
| `SourceRanking.CollapsedSelectableTorrents` | PopcornTime/Flows/Movie Details/SelectTorrentQualityButton.swift:153-161 | one torrent per quality, the first of its highest score, sorted whenever the comparison is an order on the pool |
| `SourceRanking.Representative` | PopcornTime/Flows/Movie Details/SelectTorrentQualityButton.swift:153-161 | every pool torrent has a representative of its own quality with at least its score |
| `SourceRanking.SameBucketExactlyWhen` | PopcornTime/Flows/Movie Details/SelectTorrentQualityButton.swift:156 | torrents share a bucket exactly when they have the same quality, none counting as 0p |
| `SourceRanking.CollapseCostsAtMost1500` | PopcornTime/Flows/Movie Details/SelectTorrentQualityButton.swift:219-242 | the collapse keeps the best adjusted score without failures, and lowers it by at most 1500 with them |
| `SourceRanking.LosslessExactlyWhen` | PopcornTime/Flows/Movie Details/SelectTorrentQualityButton.swift:153-161 | the collapse loses nothing under every failure history if and only if each torrent not leading its quality is outscored by 1500, or within its URL, by some leader |
| `SourceRanking.LossCanBeFull` | PopcornTime/Flows/Movie Details/SelectTorrentQualityButton.swift:153-161 | the bound is reached: of two equal torrents the collapse keeps the first, however often it failed |
| `SourceRanking.ServesUnderEveryHistoryExactlyWhen` | PopcornTime/Flows/Movie Details/SelectTorrentQualityButton.swift:237 | a smaller pool serves for a larger one under every failure history if and only if whatever it leaves out is outscored by 1500, or within its URL |
| `SourceRanking.SelectableWithin` | PopcornTime/Flows/Movie Details/SelectTorrentQualityButton.swift:132-145 | the language filter yields a part of the torrents, and is empty only when there are none |
| `SourceRanking.SelectableExactly` | PopcornTime/Flows/Movie Details/SelectTorrentQualityButton.swift:120-145 | the pool holds exactly the torrents in the preferred language, and all of them without a preference or when none is in it |
| `SourceRanking.NothingPickedExactlyWhen` | PopcornTime/Flows/Movie Details/SelectTorrentQualityButton.swift:219-250 | the button starts nothing exactly for an empty pool or in Selectable mode, the prefetcher exactly for an empty pool, and both pick from their pool |
| `SourceRanking.SameTorrentExactlyWhen` | PopcornTime/Flows/Movie Details/PreloadTorrentViewModel.swift:61-76 | in every automatic mode and under any failures, whatever list the button holds it plays the very torrent warmed if and only if that one leads its quality in the button's pool and the mode takes it rather than any other leader |
| `SourceRanking.SameTorrentInAnyOrderExactlyWhen` | PopcornTime/Flows/Movie Details/PreloadTorrentViewModel.swift:61-76 | where labels are not ordered, Optimal surely plays the torrent warmed if and only if it leads its quality and outscores every other leader |
| `SourceRanking.CollapseHidesTheFirst` | PopcornTime/Flows/Movie Details/SelectTorrentQualityButton.swift:153-161 | a counterexample caused by the collapse alone: of a WEBRip and a BluRay of one quality Highest and Low warm the first and play the second |
| `SourceRanking.TiesAreUndetermined` | PopcornTime/Flows/Movie Details/SelectTorrentQualityButton.swift:160 | between tying labels, and for Optimal equal scores, both orders of the list are sorted: the button plays now one and now the other, the prefetcher warms the first |
| `SourceRanking.TopLabelsTie` | PopcornKit/Sources/Models/Torrent.swift:333-347 | 1080p and 2160p are such labels |
| `SourceRanking.PrefetchServesExactlyWhen` | PopcornTime/Flows/Movie Details/PreloadTorrentViewModel.swift:61-76 | under every failure history what is played scores as high as what is warmed if and only if whatever filter and collapse leave out is outscored by 1500, or within its URL |
| `SourceRanking.FilterHidesTheBest` | PopcornTime/Flows/Movie Details/PreloadTorrentViewModel.swift:76 | a counterexample to the prefetcher picking what the button picks: the filter hides the best release from the button only |
| `SourceRanking.UnfilteredPoolsAreOne` | PopcornTime/Flows/Movie Details/SelectTorrentQualityButton.swift:132-145 | without a preference, or with none that any torrent meets, the two pools are one and hold an unbeaten torrent |
| `SourceRanking.LastIsHighest` | PopcornTime/Flows/Movie Details/SelectTorrentQualityButton.swift:231-235 | the ends of the sorted collapse are extreme for the whole pool |
| `SourceRanking.ButtonAgreesExactlyWhen` | PopcornTime/Flows/Movie Details/PreloadTorrentViewModel.swift:145-148 | the claim of the same best score and the same extremes: what the button plays never beats what is warmed, and is as good if and only if the language filter leaves a torrent that none of all torrents beats |
| `SourceRanking.CompatiblePoolIsOrdered` | PopcornKit/Sources/Models/Torrent.swift:333-347 | pools with compatible labels meet the ordering condition of the two rows above |
| `Subtitles.SubtitlesViewModel.GenerateSubtitles` | PopcornTime/Flows/PlayerOptions/SubtitlesViewModel.swift:33-45 | the rows are the saved subtitles not yet shown, then the head row, then "Select Other" |
| `Subtitles.GeneratedRows` | PopcornTime/Flows/PlayerOptions/SubtitlesViewModel.swift:33-45 | the rows are the saved subtitles not yet shown, each once and the last saved first, then the current subtitle, or English, or any, then "Select Other"; none exactly without a subtitle |
| `Subtitles.SubtitlesViewModel.DidSelectSubtitle` | PopcornTime/Flows/PlayerOptions/SubtitlesViewModel.swift:47-79 | no selection changes nothing; another updates both lists as the step function says, or fails where an unwrap does |
| `Subtitles.SelectionKeepsStep` | PopcornTime/Flows/PlayerOptions/SubtitlesViewModel.swift:47-79 | on lists in step every selection succeeds and keeps them in step, and the saved list then holds it in place of its language |
| `Subtitles.SelectionShows` | PopcornTime/Flows/PlayerOptions/SubtitlesViewModel.swift:47-79 | after a selection the rows hold it, every row of another language and nothing new besides, one row more exactly when its language was not shown |
| `Subtitles.RunKeepsStep` | PopcornTime/Flows/PlayerOptions/SubtitlesViewModel.swift:33-79 | over every sequence of selections and regenerations: one saved subtitle per language, each shown, "Select Other" once and last, no unwrap fails |
| `Subtitles.FromTheStart` | PopcornTime/Flows/PlayerOptions/SubtitlesViewModel.swift:33-79 | in particular from empty lists after the first generation |
| `Subtitles.DuplicatesExactlyWhen` | PopcornTime/Flows/PlayerOptions/SubtitlesViewModel.swift:52-61 | a selection duplicates a row if and only if it replaces a saved subtitle of its language by another that is already shown |
| `Subtitles.DuplicatesAreReachable` | PopcornTime/Flows/PlayerOptions/SubtitlesViewModel.swift:33-79 | such duplicates do occur |
| `MagnetTrackers.AugmentMagnetWithForcedTrackers` | PopcornKit/Sources/Models/Torrent.swift:263-287 | the loops compute the normalised magnet followed by the missing trackers; other URLs are returned as they are |
| `MagnetTrackers.AppendTrackers` | PopcornKit/Sources/Models/Torrent.swift:279-286 | the loop appends exactly the missing trackers, in order |
| `MagnetTrackers.AugmentationAddsWhatIsMissing` | PopcornKit/Sources/Models/Torrent.swift:263-287 | the normalised magnet is a prefix, the keys appended are pairwise distinct and new, and every forced tracker ends up present |
| `MagnetTrackers.AppendedComponents` | PopcornKit/Sources/Models/Torrent.swift:279-286 | the components are those of the normalised magnet followed by one `tr=` for each missing tracker, in order, that decodes to it |
| `MagnetTrackers.AddressesAreVerbatim` | PopcornKit/Sources/Models/Torrent.swift:282 | an address is appended as it is if and only if all its characters are allowed in a query |
| `MagnetTrackers.ExistingExactlyWhen` | PopcornKit/Sources/Models/Torrent.swift:270-277 | the keys present are exactly those of the decodable `tr=` components |
| `MagnetTrackers.IsMagnetExactlyWhen` | PopcornKit/Sources/Models/Torrent.swift:264 | a magnet is what begins with `magnet:`, in any case |
| `MagnetTrackers.OthersAreLeftAlone` | PopcornKit/Sources/Models/Torrent.swift:264 | a URL that begins otherwise is returned as it is |
| `MagnetTrackers.NormalizeStrips` | PopcornKit/Sources/Models/Torrent.swift:267 | normalising strips one `amp;` from every component but the first |
| `MagnetTrackers.NormalizeKeepsTrackers` | PopcornKit/Sources/Models/Torrent.swift:267-277 | so it loses no tracker |
| `MagnetTrackers.IdempotentExactlyWhen` | PopcornKit/Sources/Models/Torrent.swift:263-287 | augmenting twice equals augmenting once if and only if one normalisation leaves no `&amp;` |
| `MagnetTrackers.CoveredIsFixed` | PopcornKit/Sources/Models/Torrent.swift:263-287 | a magnet with all forced trackers is unchanged if and only if it holds no `&amp;` |
| `MagnetTrackers.YtsMagnetIsFixed` | PopcornKit/Sources/Managers/YTSApi.swift:219-227 | a YTS magnet is unchanged if and only if its hash and name bring in no `&amp;` |
| `MagnetTrackers.YtsComponents` | PopcornKit/Sources/Managers/YTSApi.swift:219-227 | the components of a YTS magnet are the lower-case hash, a name that decodes to the display name, and every forced tracker |
| `MagnetTrackers.ForcedTrackersArePlain` | PopcornKit/Sources/Managers/NetworkConfigurations.swift:180-194 | the program's tracker list meets the condition of the rows above |
| `MagnetTrackers.SpellingsShareAKey` | PopcornKit/Sources/Models/Torrent.swift:292-298 | a tracker's spellings, with final slash, `/announce` or any query, share one key |
| `LatestEpisode.LatestUnwatchedEpisode` | PopcornTime/Model/Show+Extension.swift:14-46 | the loop and branches compute `Offered` |
| `LatestEpisode.ScanFindsLatest` | PopcornTime/Model/Show+Extension.swift:20-28 | the scan by seasons finds the lexicographic maximum of the started episodes of listed seasons, and nothing exactly when there is none |
| `LatestEpisode.OfferedIs` | PopcornTime/Model/Show+Extension.swift:30-45 | the offer is that maximum when unwatched, else its in-season successor, else the opening of the next season, else the unwatched top of the lowest season, else the maximum itself |
| `LatestEpisode.OfferedIsListed` | PopcornTime/Model/Show+Extension.swift:30-45 | whatever is offered is an episode of the list |
| `LatestEpisode.OwnEpisodesAreCovered` | PopcornTime/Model/Show+Extension.swift:14-45 | over any list whose seasons the show lists, all its episodes or a season's, nothing is offered exactly when nothing is started |
| `LatestEpisode.NoneMeansNothingStartedExactlyWhen` | PopcornTime/Model/Show+Extension.swift:14-45 | for an arbitrary list that holds, whatever was watched, if and only if every id in the list belongs to an episode of a listed season |
| `LatestEpisode.UnlistedSeasonsAreMissed` | PopcornTime/Model/Show+Extension.swift:23-26 | a started episode of a season the show does not list is missed |
| `FileSelection.LargestFile` | PopcornTime/Flows/Movie Details/PreloadTorrentViewModel.swift:104-118 | the loop of the prefetcher, and the warmer's copy of it, picks the first largest file when a size is positive, else index 0 |
| `FileSelection.PlayerPicksLargestEligible` | PopcornTime/Flows/Movie Details/PreloadTorrentViewModel.swift:720-739 | the player picks the first largest eligible file, and asks the user exactly when there is none |
| `FileSelection.TagIsNumber` | PopcornTime/Flows/Movie Details/PreloadTorrentViewModel.swift:728-732 | the tag is an e and the decimal digits of the episode's number, two of them below 100 |
| `FileSelection.NegativeTagIsNumber` | PopcornTime/Flows/Movie Details/PreloadTorrentViewModel.swift:728-732 | a negative number is tagged with its sign |
| `FileSelection.MoviePicksAgree` | PopcornTime/Flows/Movie Details/PreloadTorrentViewModel.swift:104-118 | with non-negative sizes the file prefetched for a movie is the file played |
| `FileSelection.MoviePicksAgreeExactlyWhen` | PopcornTime/Flows/Movie Details/PreloadTorrentViewModel.swift:720-739 | for arbitrary sizes that holds if and only if some size is positive or the first file is a largest |
| `FileSelection.EpisodePicksAgreeExactlyWhen` | PopcornTime/Model/Session.swift:357-368 | for an episode the warmed file is played if and only if the name of the first largest file carries the episode tag or it is the only file |
| `FileSelection.WarmedFileMayNotBePlayed` | PopcornTime/Model/Session.swift:357-368 | a larger extra file is warmed in the episode's place |

## Left out

- Floating point: `CGFloat`, dates and progress values are reals; rounding is not modelled. `log2` is exact: five times the logarithm is the logarithm of the fifth power.
- Positive sizes: `vlcAspectRatio` of a zero or negative size (a division by zero or a trap in the program) is not modelled; nor is the decimal rendering of the pair.
- Text: strings are sequences of Unicode scalars. Where Swift counts or compares grapheme clusters the model counts scalars: the prefixes and offsets inside a reference (`HtmlDecoding.swift:294-297`), the length of a quality label in `Torrent <`, prefixes and suffixes in magnets. In `escape` any division into characters is covered. Canonical equivalence is not modelled; lower-casing is that of ASCII, and strings are ordered by scalar value.
- Named entities: the 253-entry table of `HtmlDecoding.swift` is a parameter; only its first five entries are written out.
- Dictionary order: a nested dictionary is given as its entries in iteration order, which the program does not fix; `Array(byUrl.values)` is an arbitrary listing.
- Sorting: `sorted(by:)` is a stable insertion sort. Where `Torrent <` is not an order, Swift may arrange the list differently; the merge results hold for any arrangement.
- `Show.merge` of catalogue pages (`MirrorAggregator.swift:366-376`): the same loop as `MergeMovies`, on shows; it would only repeat it.
- Response shapes: the parsing that collects torrents before `MirrorAggregator.swift:270`, and the concurrent requests themselves; responses are arbitrary lists in arbitrary order.
- Storage: `UserDefaults` and JSON are plain fields with a faithful save and load; a failing encoder is not modelled.
- Clock: `now` is an input. The registry results assume it never goes back over a run; of those about the health monitor only the ones on remembered stalls do.
- Data races: `TraktSession` is unsynchronised; callers are taken to run without interruption between two awaits. Task identities are natural numbers.
- Source classification: `releaseSource` and `audioLanguages` (regular expressions on the title) are a field and an arbitrary function; the quality-floor message is left out.
- Negative seed counts: `qualityScore` stops the program at -1 seeds or fewer, where the logarithm is infinite or undefined. The model then has a stand-in score of 0, and every statement about picks requires non-negative counts.
- The tvOS shortcut for a pool of one torrent in `Selectable` mode (`SelectTorrentQualityButton.swift:244-248`).
- Failure counts inside one ranking: counts are read at one moment; the pruning that each reading triggers is covered by `FailureRegistry`.
- Subtitle storage: entries of the saved list that are not subtitles, and the `movieHash` field.
- File choice: the wait for the user's own choice in `selectFileToStream` ends the model with `None`; indices beyond 32 bits are not modelled.
- `TorrentSessionWarmer`'s bookkeeping of streamers, VLC, libtorrent, the network clients, watch lists, settings and all views.
