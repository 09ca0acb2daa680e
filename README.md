# twitter-media-crawler, modelled in Dafny

The crawler reads five settings from the environment, fetches a user's
timeline, and downloads every image and video attached to the user's posts
into a directory named after the target user id. Each file is named
`<timestamp>_<index>.<extension>`. This project models the decision logic of
`main` in `src/main.ts`:

- **Configuration gate** (`Config`). The settings are checked in a fixed
  order: app key, app secret, access token, access secret, target user id.
  The first undefined setting stops the run with an error naming it.
- **Per-media planning** (`Media`). An image downloads its
  `media_url_https`. Its extension is the fourth dot-separated piece of that
  URL, or the text `undefined` when the URL has fewer than four pieces. A
  video downloads a variant URL and is always saved as `.mp4`.
- **Video variant selection** (`Media.SelectVideoUrl`). This is the loop
  over `video_info.variants`. Its threshold `bitrate` starts at 0 and is
  never reassigned. So the loop picks the LAST variant with a positive
  bitrate, not the one with the highest bitrate. When no variant has a
  positive bitrate, including when there are no variants, the run throws
  `video url could not found`. `Media.BestPlayable` is an arg-max reference
  selection. The lemmas beside it say exactly when the two agree and give
  inputs where they differ.
- **Job collection** (`Planner`). This is the walk over the timeline. Posts
  without `extended_entities.media` are skipped. Every other post adds one
  job per media item, in order. The walk is written twice: as a
  specification function, `PlanTimeline`, and as the imperative
  `Planner.Crawl` method, which is proved equal to it. A thrown error ends
  the walk. The outcome then records the message and the downloads already
  started. `media.map` starts each download as it goes, so these include the
  earlier items of the failing post.

Modules: `Wrappers` (Option, Result), `Text` (split, join, decimal
printing), `Config`, `Media`, `Planner`.

Where the program's written design and the code disagree, the model follows
the code:

- The design says videos use the highest-bitrate variant, with the earliest
  winning ties. The code takes the last variant whose bitrate is above 0.
  `Media.HighestBitrateNotChosen` and `Media.TieGoesToLastListed` show the
  difference.
- The design says the extension is the URL's last piece. The code takes the
  fourth dot-separated piece, whatever follows it.
- The design says every setting must be a non-empty string. The code only
  rejects undefined settings, so an empty string passes.
- The design says a video fails only when it has no variants. The code also
  fails when no variant has a positive bitrate. A variant without a bitrate
  (a streaming playlist) is never picked. The error text is
  `video url could not found`.

## Model

| member | source | states |
|---|---|---|
| Config.CheckConfiguration | src/main.ts:23-41 | succeeds iff all five settings are defined, and then carries exactly their values; on failure the message is that of an undefined setting |
| Config.FirstMissing | src/main.ts:23-41 | reference definition: the first position in a check order whose setting is undefined, with every earlier one defined |
| Config.CheckReportsFirstMissing | src/main.ts:23-41 | the gate fails exactly when some setting is undefined, and then with the message of the first undefined one in the order app key, app secret, access token, access secret, target user id |
| Config.LaterSettingsNotInspected | src/main.ts:23-41 | settings after the first undefined one are never looked at: environments agreeing up to it fail identically |
| Config.MessagesNameOneSetting | src/main.ts:24-40 | each setting has its own error message |
| Media.LastPlayable | src/main.ts:84-88 | the loop's choice is the last variant with a bitrate above 0; no later variant is playable; none exactly when no variant is playable |
| Media.SelectVideoUrl | src/main.ts:81-88 | the loop with `bitrate` fixed at 0 returns the URL of the last playable variant, and no URL exactly when no variant is playable |
| Media.BestPlayable | src/main.ts:81-88 | reference arg-max selection that the loop's naming suggests: a playable variant of maximal bitrate, strictly above every earlier playable one |
| Media.SelectionFailsLikeBest | src/main.ts:84-92 | the program fails on a video exactly when the arg-max selection finds nothing |
| Media.SelectionIsBestIff | src/main.ts:81-88 | the program picks the highest-bitrate variant iff the last playable variant beats every earlier playable one |
| Media.IncreasingBitratesPickBest | src/main.ts:81-88 | when playable bitrates increase along the list, the program's choice is the arg-max |
| Media.HighestBitrateNotChosen | src/main.ts:81-88 | bitrates [300, 1200, 800]: the program downloads the 800 variant, the arg-max is the 1200 one |
| Media.TieGoesToLastListed | src/main.ts:84-88 | bitrates [1200, 1200]: the program takes the second, the arg-max the first |
| Media.SelectedUrl | src/main.ts:84-92 | a video gets no URL exactly when no variant has a bitrate above 0; otherwise it gets the URL of a playable variant with no playable variant after it |
| Media.UnplayableNeverChosen | src/main.ts:84-88 | appending a variant whose bitrate is absent or not above 0 never changes the choice |
| Media.PlaylistVariantSkipped | src/main.ts:85-86 | example: in [832000 `mp4`, no bitrate `m3u8`] the playlist listed last is skipped and the `mp4` URL is chosen |
| Media.PlanMedia | src/main.ts:72-96 | an image downloads `media_url_https`; a video fails iff no variant is playable, with `video url could not found`, and otherwise downloads the last playable variant's URL, the one the variant loop selects; the path is `<dir>/<prefix>_<i>.<ext>` |
| Media.Destination | src/main.ts:78-95 | the path is the directory, a `/`, then exactly the file name |
| Media.FileName | src/main.ts:77-94 | the name starts with `<prefix>_` |
| Media.FileNameSplits | src/main.ts:77 | after `<prefix>_`, the name is the printed index and the extension separated by the only dot |
| Media.ImageJob | src/main.ts:73-78 | an image whose URL has pieces p0.p1.… is saved as `<prefix>_<i>.p3`, or `<prefix>_<i>.undefined` with fewer than four pieces |
| Media.VideoNameIgnoresVariants | src/main.ts:94-95 | a video job's path is `<dir>/<prefix>_<i>.mp4` whatever its variants |
| Media.FileNameInjective | src/main.ts:77-94 | with dot-free extensions, equal file names have the same timestamp prefix, index and extension |
| Media.FileNamesDistinct | src/main.ts:77-95 | names built from different indices differ whatever their dot-free extensions |
| Media.DistinctIndicesDistinctPaths | src/main.ts:72-95 | two items of one post never share a destination |
| Media.ImageNameExample | src/main.ts:75-78 | example: the first image of a post at 2023-06-01 10:15:30 whose URL's fourth piece is `jpg` is saved as `2023-06-01_10-15-30_0.jpg` |
| Media.ExtensionExample | src/main.ts:76 | example: the extension of `https://pbs.twimg.com/media/B.jpg` is `jpg` |
| Text.Split | src/main.ts:76 | `split(".")` always yields at least one piece |
| Text.JoinSplit | src/main.ts:76 | joining the pieces of a split gives back the URL, and no piece contains the separator |
| Text.SplitJoin | src/main.ts:76 | splitting dot-free pieces joined by dots gives back the pieces |
| Text.Extension | src/main.ts:76-77 | the extension never contains a dot |
| Text.ExtensionOfPieces | src/main.ts:76-77 | the extension is the fourth dot-separated piece, or `undefined` when there are fewer than four |
| Text.Decimal | src/main.ts:77 | the printed index is a non-empty string of decimal digits, with no leading zero when it has two or more digits |
| Text.ParseDecimalOfDecimal | src/main.ts:77 | reading the printed index back gives the index |
| Text.DecimalInjective | src/main.ts:77 | different indices print differently |
| Planner.PlanItems | src/main.ts:71-98 | a completed post has one job per item; a failed one has started fewer jobs than it has items and carries `video url could not found` |
| Planner.PlanTimeline | src/main.ts:61-99 | the walk over posts can only stop with `video url could not found` |
| Planner.Run | src/main.ts:22-101 | a failed configuration gate stops the run before any download starts; any other error names an undefined setting |
| Planner.MapMedia | src/main.ts:71-98 | the `media.map` over one post's items, running the variant loop for each video, equals the specification `PlanItems`: one job per item in order, or the error with the jobs started before it |
| Planner.Crawl | src/main.ts:22-101 | the imperative walk (the gate, then the `for await` over posts appending to `tasks`) equals the specification `Run` |
| Planner.ItemsAbortPersists | src/main.ts:71-98 | once an item throws, later items of the post change nothing |
| Planner.TimelineAbortPersists | src/main.ts:61-99 | once a post throws, later posts change nothing |
| Planner.ItemsCompleteIff | src/main.ts:71-72 | a post completes iff the plan of every one of its items succeeds |
| Planner.ItemsCompleted | src/main.ts:71-72 | a completed post yields exactly one job per item, in order, job i being item i's plan |
| Planner.ItemsAborted | src/main.ts:72-92 | a failing post fails at its first failing item, a video with no playable variant, with `video url could not found`; the items before it have started, the failing item and later ones have not |
| Planner.TimelineCompletesIff | src/main.ts:61-99 | the walk completes iff every post with media completes, so one video without a playable variant in any post stops the whole run |
| Planner.PostsWithoutMediaIgnored | src/main.ts:62-66 | dropping the posts without media changes nothing: they add no job and do not stop the walk |
| Planner.OneJobPerMediaItem | src/main.ts:61-99 | a completed walk starts exactly as many downloads as there are media items in posts that have media |
| Planner.MediaJobInDirectory | src/main.ts:78-95 | every planned file lies under `<dir>/` |
| Planner.ItemsInDirectory | src/main.ts:71-98 | every download started for a post lies under `<dir>/` |
| Planner.JobsInDirectory | src/main.ts:59-99 | every download started by the walk, completed or aborted, lies under `<dir>/` |
| Planner.RunWritesIntoTargetDirectory | src/main.ts:39-95 | the run writes only under the directory named after the target user id |
| Planner.DistinctPathsWithinPost | src/main.ts:72-95 | the downloads started for one post have pairwise distinct paths |
| Planner.TimelineNamedFor | src/main.ts:68-95 | every download the walk starts is saved as `<dir>/<prefix>_<i>.<ext>` for the timestamp prefix of some post with media |
| Planner.PathsUniqueInRun | src/main.ts:61-99 | when no two posts with media print the same timestamp, no two downloads of the run, completed or aborted, write the same file |
| Planner.TwoPostScenario | src/main.ts:61-99 | a post without media and a post with an image and a [500, 900] video give exactly two jobs, `<prefix>_0.<ext>` and `<prefix>_1.mp4`, the video from the 900 variant |
| Planner.EmptyVariantsAbort | src/main.ts:84-92 | an empty variant list stops the run with the error; the image before it has started, nothing is started for the video |
| Planner.SameSecondPostsCollide | src/main.ts:68-78 | two different posts whose timestamps print the same to the second, each with an image with the same fourth URL piece but a different URL, give two jobs with the same path and different URLs, so one download overwrites the other |

## Left out

- `downloadMedia` (src/main.ts:16-20): the HTTP fetch and the streaming to a file are I/O. A job records the URL and the path. Whether a started download completes is not modelled.
- `mkdir` (src/main.ts:44): filesystem I/O. The model only states that every path lies under the target user's directory.
- The `TwitterApi` client and the timeline request (src/main.ts:46-57): a foreign network library. The fetched timeline, across all its pages, is an input sequence of posts. Fetch failures are not modelled.
- Asynchronous iteration and `Promise.all` (src/main.ts:61, 101): scheduling and concurrency. Jobs are recorded in the order their downloads are started.
- `dayjs(...).format("YYYY-MM-DD_HH-mm-ss")` (src/main.ts:68-69): a time-zone-dependent date library. Each post carries its formatted prefix as an input string.
- `dotenv` and `process.env` (src/main.ts:8-14): the settings are optional-string inputs.
- `path.join` normalisation (src/main.ts:78, 95): a path is `dir + "/" + name`, without the collapsing of `.`, `..` and repeated slashes, and without the special case of an empty directory.
- Bitrates are modelled as integers or absent. JavaScript numbers can also be fractional or NaN, and a NaN bitrate would never be selected, just like an absent one.
- The process exit on an uncaught error (src/main.ts:104): an error is the `Aborted` outcome.
