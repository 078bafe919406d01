# Reaction-time game pipeline and MP3 playlist, modelled in Dafny

The system measures a player's reaction time on a Raspberry Pi Pico. The
device flashes an LED `N = 10` times and records, for each flash, the
milliseconds until the button is pressed, or a miss when the 500 ms window
passes. It then scores the run (misses, minimum, maximum, average and the
fraction of hits) and names the run `score-<local time>.json`. It uploads the
run into a per-email document of the `game_results` collection by a
read-modify-write over Firestore's REST API.

A Next.js server route (`POST /api/upload-data`) also takes runs. It verifies
a Firebase ID token and appends one flat record per run, carrying the verified
`userId` and the server `timestamp`, unless the body has keys of those names,
whose values then win. The dashboard component `GameResults` queries that
collection for the signed-in user: newest first, at most ten. It shows the
results as a table and as a chart in ascending time order, with a placeholder
view when there are none. A mock-data script fills per-email documents with
`game_1` .. `game_n` entries. A separate React MP3 player keeps a playlist, a
selected index and a play flag, and formats playback times as `m:ss`.

The model is split into modules:
- `ExerciseGame`: the device script, with its polling loop as methods over the clock and button readings.
- `UploadRoute`: the ingestion route.
- `GameResults`: the dashboard's query, projection, component state and rendering.
- `Mock`: the mock script.
- `Mp3Player`: the player component, as a class with one method per handler.
- `EndToEnd`: properties that connect the writers with the reader.
- `Firestore`: the store's values, documents, `add`, `set` and value order.
- `Decimal`: decimal text of integers and `padStart`.
- `Wrappers`: `Option`.

The two storage shapes are not reconciled by the code. The device and the
mock script write one document per email, holding a map of runs and no
top-level `userId`. The dashboard reads only flat records that carry a
`userId`. The model keeps both shapes as written and proves the consequence:
`EndToEnd.DeviceDocumentNeverQueried` and `EndToEnd.MockDocumentNeverQueried`
show that no user's dashboard ever returns such a document. No adapter is
modelled, because the code has none.

The measurement loop reads the clock twice per press: once in the loop test
and once when it records `t0`. So a recorded time is guaranteed below 500 ms
only when the clock does not advance between those two reads.
`ExerciseGame.RoundOutcomeBounds` states that bound under exactly that
assumption and only guarantees `t0 >= 0` otherwise; `ExerciseGame.RecordsOnMs`
shows a press recorded as exactly 500 ms (see "## Findings").

The device and the mock script write the same per-email document. The REST
encoding includes the timestamp values the mock script stores, and
`EndToEnd.DeviceUploadOntoMockDocument` shows that a device upload onto a
mock-written document keeps every `game_n` entry as it was.

## Model

| member | source | states |
|---|---|---|
| ExerciseGame.RecordsOnMs | assignment/exercise_game.py:142-144 | On a clock that runs forwards, a press seen by the loop test at 499 ms and read again at 500 ms is recorded as 500 ms, outside the window |
| ExerciseGame.SingleReadBound | assignment/exercise_game.py:142-144 | Recording the loop test's own reading keeps every recorded time in [0, 500) on a clock that runs forwards |
| ExerciseGame.SameTickAgrees | assignment/exercise_game.py:142-144 | When the clock does not tick between the two reads, the loop as written and the one-read loop record the same outcome |
| ExerciseGame.MeasureRound | assignment/exercise_game.py:140-147 | The polling loop stops at the first poll whose clock passed 500 ms (records a miss) or at the first press before that (records the second clock reading), i.e. the round's `RoundOutcome` |
| ExerciseGame.Measure | assignment/exercise_game.py:137-148 | Exactly `N` entries are recorded, one per round, each the outcome of that round's polls |
| ExerciseGame.RoundOutcomeBounds | assignment/exercise_game.py:141-146 | A recorded time is the second clock reading of a press seen before the window closed; it is non-negative on a monotone clock and below `on_ms` when the clock did not tick between the two reads |
| ExerciseGame.Scorer | assignment/exercise_game.py:90-117 | The run record; its contract is stated by ExerciseGame.ScorerStatistics, ExerciseGame.ScoreInUnitRange and ExerciseGame.AverageBetween |
| ExerciseGame.MissesPlusGood | assignment/exercise_game.py:91-94 | Misses plus hits is the number of rounds |
| ExerciseGame.GoodMembers | assignment/exercise_game.py:94 | A value is a hit exactly when it was recorded as a time |
| ExerciseGame.GoodAppend | assignment/exercise_game.py:94 | Filtering the misses distributes over concatenation, so the hits keep the recorded order |
| ExerciseGame.MinOf | assignment/exercise_game.py:98 | The minimum is a hit and bounds every hit from below |
| ExerciseGame.MaxOf | assignment/exercise_game.py:99 | The maximum is a hit and bounds every hit from above |
| ExerciseGame.AverageBetween | assignment/exercise_game.py:97-100 | The mean of the hits lies between their minimum and maximum |
| ExerciseGame.MeanBetween | assignment/exercise_game.py:100 | A mean of values within bounds stays within the bounds |
| ExerciseGame.ScoreInUnitRange | assignment/exercise_game.py:116 | The score is in [0, 1], 0 for an empty run, and times the run length gives the number of hits |
| ExerciseGame.ScorerStatistics | assignment/exercise_game.py:90-117 | The run record: timestamp is the formatted local time and score is the hit fraction; with hits, min and max are hits bounding all hits, min ≤ avg ≤ max and avg = sum/count; with none, min = max = avg = 0 |
| ExerciseGame.NowStr | assignment/exercise_game.py:108-109 | The `Y-M-DTh_m_s` text; its contract is ExerciseGame.NowStrRoundTrip |
| ExerciseGame.Filename | assignment/exercise_game.py:119 | `score-<now_str>.json`; its contract is ExerciseGame.FilenameRoundTrip and ExerciseGame.FilenameInjective |
| ExerciseGame.ReadNatThenExact | assignment/exercise_game.py:109 | A number's decimal text followed by a non-digit separator reads back as that number and the rest |
| ExerciseGame.ClockRoundTrip | assignment/exercise_game.py:109 | The time-of-day part `h_m_s` parses back to its three fields |
| ExerciseGame.NowStrRoundTrip | assignment/exercise_game.py:108-109 | The timestamp text determines all six time fields: parsing it gives back the local time |
| ExerciseGame.FilenameRoundTrip | assignment/exercise_game.py:119 | The file name `score-<now_str>.json` parses back to the local time it was made from |
| ExerciseGame.FilenameInjective | assignment/exercise_game.py:119 | Two runs get the same file name exactly when their local times are equal |
| ExerciseGame.EncodeRun | assignment/exercise_game.py:55-61 | The REST encoding of one run; its contract is ExerciseGame.RunEncodingRoundTrip |
| ExerciseGame.RunEncodingRoundTrip | assignment/exercise_game.py:55-61 | The REST encoding (min and max as integer text, avg and score as doubles, timestamp as a string) decodes back to the run |
| ExerciseGame.MergeRun | assignment/exercise_game.py:64-68 | The merged games have the old keys plus the file name, the run under the file name, every other key unchanged |
| ExerciseGame.UploadToFirebase | assignment/exercise_game.py:40-72 | A raised GET sends nothing; a non-200 GET or one without `fields` sends just the new run; otherwise the old games merged with the new run |
| ExerciseGame.MergeAddsNoUserId | assignment/exercise_game.py:47-72 | The PATCH body never gains a `userId` key when the fetched document had none |
| ExerciseGame.EncodeValueRoundTrip | assignment/exercise_game.py:46-78 | A stored value the GET renders (integers, doubles, strings, timestamps, maps of them) is read back by the PATCH as the same value |
| ExerciseGame.DecodeFields | assignment/exercise_game.py:70-78 | A map body the store can read becomes fields with exactly the body's keys, each the body value read |
| ExerciseGame.ApplyPatch | assignment/exercise_game.py:70-78 | The document after the PATCH; its contract is ExerciseGame.ApplyPatchKeys |
| ExerciseGame.ApplyPatchKeys | assignment/exercise_game.py:70-78 | An accepted, readable PATCH leaves a document under the email holding exactly the body's keys and values, keeps every other document and adds none, and keeps ids unique; a refused or unreadable one leaves the store unchanged |
| ExerciseGame.UploadKeepsStoredEntries | assignment/exercise_game.py:46-78 | After GET, merge and accepted PATCH the document has its old keys plus the file name, every old entry under another key unchanged and the run under the file name |
| Decimal.DecRoundTrip | assignment/exercise_game.py:58 | The decimal text of a natural number reads back as that number |
| Decimal.NatToDecInjective | assignment/exercise_game.py:109 | Distinct numbers have distinct decimal texts |
| Decimal.IntRoundTrip | assignment/exercise_game.py:58-59 | The integer text of `str(i)` parses back to `i`, negatives included |
| Decimal.SplitDigitsExact | assignment/exercise_game.py:109 | A digit run followed by a non-digit splits exactly at the non-digit |
| Decimal.PadStart | sound/src/components/MP3Player.tsx:132 | Padding gives length max(width, len); the text is a suffix and the prefix is fill characters |
| Decimal.LeadingZero | sound/src/components/MP3Player.tsx:132 | A padding zero does not change the value read back |
| Firestore.Add | frontend/src/app/api/upload-data/route.ts:13-17 | `add` appends one document and keeps every existing one; ids stay unique when the new id is fresh |
| Firestore.SortsBefore | frontend/src/components/GameResults.tsx:33 | The store's cross-type value order used by `orderBy`; its contract is Firestore.SortsBeforePreorder |
| Firestore.SortsBeforePreorder | frontend/src/components/GameResults.tsx:33 | The order is reflexive, transitive and total |
| Firestore.Set | mock.py:38 | `set` leaves a document with the id holding exactly the new fields, keeps all other documents, and keeps ids unique |
| UploadRoute.SplitToken | frontend/src/app/api/upload-data/route.ts:6 | The token is the body's `idToken` if any; the rest is the body without that key, values unchanged |
| UploadRoute.BuildRecord | frontend/src/app/api/upload-data/route.ts:13-17 | The record has the body's keys plus `userId` and `timestamp`; body values win over the uid and the server time |
| UploadRoute.VerifiedUid | frontend/src/app/api/upload-data/route.ts:6-10 | A user id results exactly when `idToken` is present, is a string and the verifier accepts it |
| UploadRoute.Post | frontend/src/app/api/upload-data/route.ts:4-24 | The response is 200 with the new id exactly when the body parses, carries a string token that verifies and the write succeeds, and the store then gains that one record; otherwise 401 `Unauthorized` and the store is unchanged |
| UploadRoute.MissingTokenRejected | frontend/src/app/api/upload-data/route.ts:6-22 | A body without a string `idToken` gets 401 and leaves the store unchanged, whatever the verifier |
| UploadRoute.StoredRecord | frontend/src/app/api/upload-data/route.ts:6-19 | The stored record has no `idToken`, copies every other body field verbatim, and its `userId`/`timestamp` are the body's when present, else the uid and the server time |
| UploadRoute.ClientUserIdWins | frontend/src/app/api/upload-data/route.ts:13-17 | A body that carries `userId` has the record filed under that value, whatever the token says |
| UploadRoute.FailuresLookAlike | frontend/src/app/api/upload-data/route.ts:20-22 | A bad body, a missing or non-string token, a rejected token and a failed write give the same 401 response and leave the store unchanged |
| UploadRoute.PostReadsNothing | frontend/src/app/api/upload-data/route.ts:13-19 | The response and the appended part do not depend on what the store held: no document is read |
| GameResults.FilterMatches | frontend/src/components/GameResults.tsx:31-33 | A document is kept exactly when it is in the collection, its `userId` equals the user's and it has a `timestamp` |
| GameResults.Insert | frontend/src/components/GameResults.tsx:33 | Inserting into a newest-first list keeps it newest first and adds exactly that document |
| GameResults.SortDesc | frontend/src/components/GameResults.tsx:33 | The sorted list is newest first and a permutation of the input |
| GameResults.TakeSorted | frontend/src/components/GameResults.tsx:34 | `limit(10)` keeps at most ten documents in order and drops only documents no newer than every one kept |
| GameResults.Query | frontend/src/components/GameResults.tsx:30-36 | The dashboard query; its contract is GameResults.QueryContract |
| GameResults.QueryContract | frontend/src/components/GameResults.tsx:30-36 | At most ten documents, each a matching document of the collection and none more often than the collection holds it, newest first; a matching document is left out only when ten at least as new are returned |
| GameResults.Project | frontend/src/components/GameResults.tsx:39-46 | A document projects exactly when its `timestamp` is a timestamp; the row carries that instant and the four fields as stored |
| GameResults.ProjectAll | frontend/src/components/GameResults.tsx:37-47 | The rows exist exactly when every document projects; they are the projections in snapshot order |
| GameResults.ProjectionKeepsOrder | frontend/src/components/GameResults.tsx:37-47 | Rows projected from a newest-first snapshot are in non-increasing time order |
| GameResults.GameResultsView.constructor | frontend/src/components/GameResults.tsx:21-23 | The component starts loading, with no error and no results |
| GameResults.GameResultsView.FetchGameResults | frontend/src/components/GameResults.tsx:26-55 | Loading always ends; on success the error is cleared and the results are the projected query; on an unreachable store or a failed projection the error text is set and the results are kept |
| GameResults.Reverse | frontend/src/components/GameResults.tsx:120 | The reversed list has the same length and element i is element n-1-i |
| GameResults.Render | frontend/src/components/GameResults.tsx:57-120 | The rendered view; its contract is GameResults.RenderBranches |
| GameResults.RenderBranches | frontend/src/components/GameResults.tsx:60-120 | Loading shows the loading view, then an error shows its message; otherwise an empty result shows the overlay over five zero placeholder rows, and a non-empty one shows its rows in the table and reversed in the chart |
| GameResults.ChartAscending | frontend/src/components/GameResults.tsx:120 | The chart of newest-first rows is in ascending time order |
| Mock.RandInt | mock.py:13-15 | A draw of `randint(lo, hi)` lies in the inclusive range |
| Mock.RandIntCovers | mock.py:13-15 | Every value of the range is the outcome of some draw |
| Mock.GenerateGameResult | mock.py:12-25 | Email and timestamp are kept; 100 ≤ min ≤ 200, min ≤ max ≤ min + 300, min ≤ avg ≤ max, 0.6 ≤ score ≤ 1.0 |
| Mock.GenerateCoversBounds | mock.py:12-25 | Every record within those bounds, with a score in hundredths, can be generated |
| Mock.GameKeyInjective | mock.py:35 | Distinct game numbers get distinct keys |
| Mock.GameKeyIsNotUserId | mock.py:35 | No game key is `userId` |
| Mock.GameTime | mock.py:31-34 | A game time lies between 1 and 720 hours after the base time, 30 days before now |
| Mock.GamesKeys | mock.py:33-36 | The games map has exactly `num_games` keys, which are `game_1` .. `game_num_games` |
| Mock.GamesKeySet | mock.py:33-36 | A key is in the games map exactly when it is `game_n` for some n from 1 to `num_games` |
| Mock.GamesKeyFresh | mock.py:35 | A later iteration's key is not yet in the map, so no game overwrites another |
| Mock.GamesSize | mock.py:33-36 | The games map has exactly `num_games` entries |
| Mock.GamesHaveNoUserId | mock.py:33-38 | The document the script sets has `num_games` fields and none named `userId` |
| Mock.GamesValues | mock.py:33-36 | `game_n` holds the game generated in iteration n-1 |
| Mock.UploadDataForUser | mock.py:27-38 | The loop builds exactly the games map and the email's document is replaced by it |
| Mock.UploadStep | mock.py:48-49 | Setting one more user's document keeps ids unique, gives every handled user a document of 5 to 10 games without `userId`, and keeps the other documents |
| Mock.BuiltKept | mock.py:42-49 | Setting one user's document adds it and keeps the documents already set for the users before, the two listed emails being distinct |
| Mock.UploadAll | mock.py:41-49 | Each user's document is exactly the `game_1` .. `game_n` map built for that user, with n drawn from 5 to 10, so it holds no `userId`; documents of other ids are exactly the ones kept from before, and ids stay unique |
| Mp3Player.Includes | sound/src/components/MP3Player.tsx:64 | True exactly when the text occurs in the string at some position |
| Mp3Player.FindIndex | sound/src/components/MP3Player.tsx:64 | The first song whose source contains the value, or -1 when none does |
| Mp3Player.Player.constructor | sound/src/components/MP3Player.tsx:23-40 | The three preloaded songs in order, index -1, not playing, no message |
| Mp3Player.Player.HandleFileChange | sound/src/components/MP3Player.tsx:53-61 | A file appends one song, selects it and stops playback; no file changes nothing |
| Mp3Player.Player.HandlePreloadedSongChange | sound/src/components/MP3Player.tsx:63-69 | Selects the first song whose source contains the value and stops playback; with no match nothing changes |
| Mp3Player.Player.HandlePlayPause | sound/src/components/MP3Player.tsx:104 | Toggles playing and changes nothing else |
| Mp3Player.Player.HandleUpload | sound/src/components/MP3Player.tsx:71-102 | With nothing selected, shows the select-first error and sends nothing; otherwise sends the selected song and shows the reply's message |
| Mp3Player.ReplyMessage | sound/src/components/MP3Player.tsx:89-100 | The message for the Pico's reply; its contract is stated by Mp3Player.Player.HandleUpload |
| Mp3Player.Run | sound/src/components/MP3Player.tsx:23-104 | After any sequence of handler calls the index is -1 or valid, the playlist starts with the preloaded songs, and it grew by one per chosen file |
| Mp3Player.FilesAddedSnoc | sound/src/components/MP3Player.tsx:53-61 | One more event adds one song exactly when it is a chosen file |
| Mp3Player.FormatTime | sound/src/components/MP3Player.tsx:129-133 | The `m:ss` text; its contract is Mp3Player.FormatTimeRoundTrip |
| Mp3Player.SecondsField | sound/src/components/MP3Player.tsx:131-132 | The seconds field is always two digits and reads back as the seconds |
| Mp3Player.ParseMinutesSeconds | sound/src/components/MP3Player.tsx:129-133 | Minutes, a colon and a padded seconds field below 60 read back to minutes × 60 + seconds |
| Mp3Player.FormatTimeRoundTrip | sound/src/components/MP3Player.tsx:129-133 | `m:ss` text parses back to the number of seconds it was made from, so minutes and seconds are `t / 60` and `t % 60` |
| EndToEnd.UserlessNeverQueried | frontend/src/components/GameResults.tsx:30-35 | A document without a top-level `userId` is never returned by the dashboard query |
| EndToEnd.ReplacedNeverQueried | frontend/src/components/GameResults.tsx:30-35 | A document whose fields are replaced by fields without `userId` is returned to no user |
| EndToEnd.DeviceDocumentNeverQueried | assignment/exercise_game.py:64-78 | The device's per-email document is never returned to any user's dashboard |
| EndToEnd.MockDocumentNeverQueried | mock.py:28-38 | The mock script's per-email document is never returned to any user's dashboard |
| EndToEnd.MockGamesRenderable | mock.py:33-38 | Every entry of the mock document is a value the device's GET can render |
| EndToEnd.GameKeyIsNoFilename | mock.py:35 | A mock key `game_n` never collides with a device file name `score-….json` |
| EndToEnd.DeviceUploadOntoMockDocument | assignment/exercise_game.py:46-78 | A device upload onto a document the mock script wrote keeps every `game_n` entry as written, timestamps included, next to the new run |
| EndToEnd.FilterAppend | frontend/src/components/GameResults.tsx:32 | Appending a document adds it to a user's matches exactly when it matches |
| EndToEnd.IngestedShape | frontend/src/app/api/upload-data/route.ts:13-17 | A verified upload appends the built record to the collection |
| EndToEnd.OnlyNewRecordQueried | frontend/src/components/GameResults.tsx:30-35 | With no earlier matches, the query after an upload returns the new record exactly when it matches |
| EndToEnd.IngestedRow | frontend/src/app/api/upload-data/route.ts:13-17 | A record stored from a body without `userId`/`timestamp` matches its sender and projects to the server time and the body's four fields |
| EndToEnd.IngestThenDisplay | frontend/src/app/api/upload-data/route.ts:13-17 | A first upload without `userId`/`timestamp` shows one row to its sender, stamped with the server time and carrying the fields as sent |
| EndToEnd.ClientUserIdRedirects | frontend/src/app/api/upload-data/route.ts:13-17 | An upload naming another `userId` shows up on that user's dashboard and not on the sender's |
| EndToEnd.ClientTimestampBreaksDashboard | frontend/src/components/GameResults.tsx:41-51 | A client `timestamp` that is not a timestamp makes the fetch fail for every dashboard the record reaches |

## Left out

- ExerciseGame.EncodeValue: REST value kinds neither writer stores (`nullValue`, `booleanValue`, `arrayValue`, references, geo points, bytes) are not rendered; timestamps are carried as their instant, not as RFC 3339 text.

- Hardware and timing in the device script: Wi-Fi, the LED, the button pin, `sleep`, the blinker and the random wait between flashes. Clock and button readings are inputs (`Poll`).
- `ticks_diff` wrap-around is not modelled; clock readings are unbounded integers.
- `write_json`, every `print`, and the HTTP transport of the GET and PATCH. The GET's outcome is an input (`GetReply`); the PATCH's acceptance is a boolean.
- ExerciseGame.Scorer: floating-point rounding of the average and the score is not modelled; they are exact rationals (`real`).
- Firebase Auth's `verifyIdToken`, the store's id generation and the clock of `new Date()` are parameters of `UploadRoute.Post`.
- UploadRoute.Post: a JSON body that parses to a non-object is folded into the parse failure. It gets the same 401 either way.
- GameResults.Query: documents with equal timestamps keep collection order; the store's tie-break by document name is not modelled.
- GameResults.Query: order within strings, arrays and maps is not modelled; those values tie within their type.
- Table and chart formatting (`toFixed`, `toLocaleString`, the score shown times 100, axis and tooltip formatters) and the JSX markup.
- The React effect runner: the fetch on mount and the `userId` dependency are not modelled; `FetchGameResults` is one call.
- `random.uniform` and `round(…, 2)` in the mock script: the score is drawn as a whole number of hundredths in [60, 100].
- Mock.Games: the per-game clock offset is drawn relative to the `now` given; the `datetime` value is an integer number of seconds.
- Mp3Player: the audio element, playback progress, duration and speed sliders, and the play/pause effect on the audio element.
- Mp3Player.Player.HandleUpload: the form upload to the Pico is an input (`PicoReply`); `URL.createObjectURL` and file names are inside the chosen `Song`.
- Mp3Player.FormatTime: only whole, non-negative seconds are modelled, so fractional times and `NaN` are not.
- The sign-in flow, the page's inactivity timer, the song-upload route and the sound script are not part of this model.

## Findings

| source | as written | input that shows it | evidently intended | confidence | as-written member | corrected member |
|---|---|---|---|---|---|---|
| assignment/exercise_game.py:142-144 | the press time is a second `ticks_ms()` read taken after the loop test | loop test reads 499 ms and the button is pressed; the second read gives 500 ms, recorded as a 500 ms response although the window is `t < on_ms` | record the loop test's own reading, so every recorded time is below `on_ms` | medium, not executed | ExerciseGame.RecordsOnMs | ExerciseGame.SingleReadBound |

The measuring methods keep the loop as written (`ExerciseGame.RoundOutcome`), since that is what the device records; `ExerciseGame.SingleReadOutcome` is the one-read loop, and `ExerciseGame.SameTickAgrees` shows the two agree whenever the clock does not tick between the reads.
