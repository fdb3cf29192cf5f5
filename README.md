# Face-recognition attendance: a verified model of its core

This project models, in Dafny, the decision-making core of a Flask attendance system
that marks students present by recognising their faces. It covers these parts:

- **The encoding store.** It holds parallel `names`/`encodings` arrays.
  - It is rebuilt from a folder per user of face images, by the standalone training script and by the in-app rebuild (`EncodingStore`).
  - Its per-user view is the dictionary built by `build_user_enc_map` (`UserIndex`).
- **The per-face match decision of `api_recognize`.** It has three parts (`MatchDecider`, `MatchDeciderFacts`):
  - a k-nearest-neighbour vote over the flat encoding list;
  - a per-user minimum-distance fallback;
  - the four-way table: `accept`, `low_confidence`, `accept_fallback`, `no_match`.
- **The face loop of `api_recognize`.** An accepted user is marked present at most once per request, and never when the database already holds a Present row for that subject today (`Recognition`).
- **Email verification by one-time password.**
  - Issuing a six-digit code, at registration and on request.
  - Checking a code against the in-memory store with its one-minute expiry, or against the code on the user record. Both verification routes are covered (`EmailOtp`, with the class `OtpService` for the state both routes update).
- **The student dashboard's statistics.** Overall and per-subject totals, present and absent counts, and integer percentages (`AttendanceStats`).
- **The teacher page's current-subject lookup.** It finds the first timetable slot of the day whose window contains the current time (`Timetable`).
- **The offline threshold calibrator.** It computes the following (`ThresholdCalibrator`):
  - the pairwise distance matrix;
  - the split of the pairs `i < j` into same-user and different-user distances;
  - the summary statistics of both lists;
  - the three suggested thresholds;
  - the rows of the per-pair CSV file.

Two things about recognition are proved:

- **The per-user fallback always finds the flat minimum.** The user map partitions the same encodings as the flat list, so its minimum is the flat minimum distance.
- **`low_confidence` is never the final decision**, whenever the match threshold is not negative. The flat minimum never exceeds the KNN mean distance, so a weak vote whose mean passes the threshold is always promoted to `accept_fallback`.

Several things are given rather than computed. Distances come from `face_distance`, which is passed in as a function from a reference encoding to a non-negative real. The image decoder and encoder, the square root, the current time and the random OTP draw are parameters too.

Supporting modules:

- `Wrappers`: `Option` and `Result`.
- `SeqMath`: exact sums, means, minima, maxima and counts.
- `Sorting`: a stable insertion sort with its sortedness and permutation lemmas.

## Model

| member | source | states |
|---|---|---|
| EncodingStore.EncodeImages | train_encodings.py:26-47 | the nested walk over user folders and their files computes exactly `EncodeCorpus` of the listing: non-images passed over, images without a face or raising counted as skipped, otherwise the first face appended with the folder name |
| EncodingStore.CorpusAccounting | train_encodings.py:30-47 | the walk keeps `names` and `encodings` the same length, and encodings plus skips equal the number of image files in user folders |
| EncodingStore.EncodeFolderCounts | train_encodings.py:34-47 | a folder appends one pair per image in which a face was found and counts one skip per image with no face or whose processing raised |
| EncodingStore.CorpusCounts | train_encodings.py:30-47 | the store holds exactly one encoding per image with a face, and `skipped` is exactly the number of images with no face or whose processing raised |
| EncodingStore.EncodeFolderAccounting | train_encodings.py:30-47 | one folder only appends (the earlier entries are kept), appends its own user name, and accounts every image as appended or skipped |
| EncodingStore.CorpusOrigin | app.py:198-212 | every stored (name, encoding) pair is a user folder's name with the first face of one of that folder's image files |
| EncodingStore.EncodeFolderOrigin | app.py:203-210 | the pairs a folder appends carry its user and the first face of one of its images |
| EncodingStore.SortedListingSortedNames | train_encodings.py:26-43 | walking folders in sorted order yields a sorted `names` array, each name being a listed folder |
| EncodingStore.SortedListing | train_encodings.py:26-30 | `sorted(os.listdir(...))` at both levels: the folders ordered by name, every folder's files sorted, nothing lost or added |
| EncodingStore.SortEntry | train_encodings.py:30 | a folder's files sorted and a permutation of the listed files; the name and the directory test kept |
| EncodingStore.TrainEncodings | train_encodings.py:22-55 | an error exactly when no encoding is produced; otherwise the store of the sorted walk, with parallel arrays, sorted names and every image encoded or skipped |
| EncodingStore.BuildEncodingsFromImages | app.py:198-214 | the store saved and returned is that of the walk in listing order, with parallel arrays, every pair coming from the listing |
| EncodingStore.Lower | train_encodings.py:31 | the lower-casing used by the extension test keeps the length and maps exactly `A`-`Z` to `a`-`z` |
| UserIndex.ZipLen | app.py:186 | `zip` stops at the shorter array: the length is the smaller of the two |
| UserIndex.BuildUserEncMap | app.py:174-191 | no store or an empty one gives an empty map; otherwise the map from each name to its encodings, with keys in first-occurrence order |
| UserIndex.UsersInOrderMembers | app.py:186-187 | the dictionary's key order lists exactly the names seen so far, each once |
| UserIndex.EncodingsOfExactly | app.py:186-187 | a user's list holds as many encodings as the user has records, each the encoding of one of those records, and every such encoding is in it |
| UserIndex.EncodingsOfAbsent | app.py:186-187 | a name not yet seen owns no encodings |
| MatchDecider.DistancesTo | app.py:858 | `face_distance` gives one non-negative distance per reference, in order |
| MatchDecider.FlatDistances | app.py:857-860 | the flat distance list is empty when the call raises, otherwise one distance per stored encoding |
| MatchDecider.ArgSort | app.py:868 | `np.argsort` returns a permutation of the indices `0..N-1` |
| MatchDecider.ArgSortSorted | app.py:868 | the argsort orders the indices by non-decreasing distance |
| MatchDecider.TopKAreNearest | app.py:867-868 | every one of the `k` chosen indices is no farther than any index left out |
| MatchDecider.LeaderPos | app.py:874-875 | the first label, in order of first occurrence, with the largest count |
| MatchDecider.MostCommon | app.py:873-875 | `most_common(1)` gives a label of the top names with its count, which no label's count exceeds, and no earlier-occurring label reaches |
| MatchDecider.KnnVote | app.py:866-877 | `k = min(KNN_K, N)`; the `a`-th voter is record `argsort(all_dists)[a]`, its name and its distance taken together; the majority is one of the voters' names and no name has a larger count; confidence is that count over `k`, in (0, 1]; the average is the mean of the voters' distances |
| MatchDecider.KnnVotersAreNearest | app.py:867-870 | at most `KNN_K` voters; the `a`-th voter is record `argsort(all_dists)[a]`, no other voter is the same record, and no record left out of the vote is nearer than any voter |
| MatchDecider.ArgSortDistinct | app.py:868 | `np.argsort` lists every record index exactly once |
| MatchDecider.FirstMinPos | app.py:889-891 | the stable sort by distance puts first the earliest entry with the smallest distance |
| MatchDecider.DecideFace | app.py:857-919 | no outcome exactly when the flat list is empty. Otherwise the vote and the per-user minimum are as above, and the decision follows the table: `accept` iff mean within threshold and confidence at least the confidence threshold, with the majority and the mean; `accept_fallback` with the per-user minimum; `no_match` reporting the flat minimum |
| MatchDeciderFacts.UserMinimaHas | app.py:883-888 | every user of the map with encodings contributes its minimum distance |
| MatchDeciderFacts.UserMinimaFrom | app.py:883-888 | every contributed entry is a user of the map with its minimum distance |
| MatchDeciderFacts.UserMinAtLeastFlatMin | app.py:883-888 | no user's minimum is below the flat minimum |
| MatchDeciderFacts.PerUserMinIsFlatMin | app.py:880-891 | with the map built from the same store, the per-user minimum exists, names a known user and equals the flat minimum |
| MatchDeciderFacts.AvgAtLeastFlatMin | app.py:866-877 | the KNN mean distance is never below the flat minimum |
| MatchDeciderFacts.LowConfidenceAlwaysPromoted | app.py:901-909 | with a non-negative threshold `low_confidence` is never the decision: a weak vote within the threshold always becomes `accept_fallback` at the flat minimum |
| MatchDeciderFacts.RejectionBranch | app.py:910-919 | when the mean misses the threshold: `accept_fallback` iff the flat minimum passes it (choosing that user and distance), otherwise `no_match` reporting the flat minimum |
| MatchDeciderFacts.ZeroThresholdRejectsPositiveDistances | app.py:893-919 | a zero threshold with all distances positive always yields `no_match` |
| Recognition.Step | app.py:921-972 | both directions of the branch: an accepting decision for a non-empty user gives `no_user_record` when the user has no id, `already_marked_request` when the id is in `marked_user_ids`, otherwise `already_marked_db` when present today, otherwise a Marked response with that id and the vote confidence; any other decision gives a not-marked entry carrying the decision and `chosen_dist`, named exactly when it is not `no_match` and has a user; `no_known_encodings` exactly for that outcome |
| Recognition.RunStep | app.py:855-972 | each response is the step of its face given the users marked by the earlier faces |
| Recognition.RunPrefix | app.py:855-972 | the first `i` responses depend only on the first `i` faces |
| Recognition.MarkedIdsMembers | app.py:935-948 | a marked or already-present response's user is in `marked_user_ids` afterwards |
| Recognition.MarkedIdsWitness | app.py:935-948 | every id in `marked_user_ids` comes from a marked or already-present response |
| Recognition.RunMarksOnce | app.py:927-948 | over a request no user is marked twice; a marked user was not present today and was accepted under their own record |
| Recognition.RepeatsHaveAnEarlierMark | app.py:927-935 | `already_marked_request` is reported only after an earlier face of the request marked that user or found them present |
| Recognition.LaterRepeatReported | app.py:927-935 | conversely, once a face has marked a user or found them present, every later face accepted as that user is reported as `already_marked_request` with the same id |
| Recognition.RecordedIdsMembers | app.py:945-947 | the attendance rows written are exactly those of the marked responses |
| Recognition.RecordedDistinct | app.py:945-948 | distinct marked users give distinct rows, none for a user already present |
| Recognition.RunRecordsOnce | app.py:927-948 | the attendance rows written by a request have distinct users, none already present today |
| Recognition.RecordResult | app.py:927-948 | appending a response keeps `marked_user_ids` and the written rows in step with the responses |
| Recognition.Recognize | app.py:842-974 | `no_known_faces` exactly for an empty store; otherwise one response per face as the run defines it, and the rows written have distinct users none of whom was present today |
| EmailOtp.NatToString | app.py:325 | `str(n)` is a non-empty string of decimal digits |
| EmailOtp.ParseNatToString | app.py:325 | reading the decimal string back gives the number |
| EmailOtp.NatToStringLength | app.py:325 | a number with `k+1` digits prints as `k+1` characters |
| EmailOtp.CodeShape | app.py:325 | a code drawn from 100000..999999 is six digits, and distinct draws give distinct codes |
| EmailOtp.CheckOtp | app.py:364-378 | user not found, already verified, expired (store entry without send time or older than a minute) and verified are each characterised exactly; with a store entry the code must equal the stored one, otherwise the non-empty code on the record |
| EmailOtp.AfterIssue | app.py:325-329 | issuing sets the record's code and the store entry with the send time, and changes no other user or entry |
| EmailOtp.AfterVerify | app.py:380-387 | success marks the user verified, clears the record's code, deletes the store entry, and changes nothing else |
| EmailOtp.IssueThenVerify | app.py:366-389 | the code just issued verifies the user at any time within one minute |
| EmailOtp.IssuedCodeOnly | app.py:366-378 | after issuing, any other answer within the minute is invalid and every answer after it has expired |
| EmailOtp.VerifyIsFinal | app.py:364-365 | after verification every later attempt reports the email as already verified |
| EmailOtp.OtpService.constructor | app.py:76 | the store starts empty |
| EmailOtp.OtpService.Issue | app.py:428-431 | the service's new state is the state after issuing |
| EmailOtp.OtpService.SendOtp | app.py:421-438 | an unknown email changes nothing; otherwise the code is issued to a user with that email, and the mail outcome only decides the message |
| EmailOtp.OtpService.Verify | app.py:450-471 | the outcome is `CheckOtp` of the old state; the state changes exactly to the state after verifying when, and only when, the outcome is verified |
| AttendanceStats.Percent | app.py:1098 | zero for no rows; otherwise the floor of `100 * present / total`, between 0 and 100, and 100 when all are present |
| AttendanceStats.PresentAbsentTotal | app.py:1095-1097 | present plus absent equals total |
| AttendanceStats.Summarize | app.py:1095-1098 | the overall figures: total, present and absent counts that add up, and the floor percentage |
| AttendanceStats.OfSubjectMembers | app.py:1102-1103 | a subject's rows are exactly the rows carrying it |
| AttendanceStats.AbsentSubject | app.py:1103-1104 | a subject not yet seen has zero counts |
| AttendanceStats.TallyStep | app.py:1105-1109 | one more row adds one to its subject's total and to exactly one of present or absent, and leaves other subjects alone |
| AttendanceStats.TalliedStep | app.py:1102-1109 | counting a row into the map keeps it equal to the per-subject counts of the rows so far |
| AttendanceStats.CountRow | app.py:1103-1109 | the loop body: the row's subject entry, created with zeros when missing, gets the row counted in |
| AttendanceStats.TallyBySubject | app.py:1100-1109 | the map has exactly the subjects that occur, each with the counts of its rows |
| AttendanceStats.StudentStats | app.py:1095-1114 | the overall summary, and for every subject that occurs (and no other) the summary of that subject's rows |
| Timetable.ParseHour | app.py:777 | a parsed hour is below 24 |
| Timetable.ParseMinute | app.py:777 | a parsed minute is below 60 |
| Timetable.ParseClock | app.py:777-778 | a parsed `%H:%M` time is within the day |
| Timetable.ClockRoundTrip | app.py:777-778 | every `HH:MM` string of a time of day parses back to that time |
| Timetable.CurrentSubject | app.py:776-782 | the first slot whose window contains now, with its subject and `"start - end"`, every earlier slot parsing and missing now; none when every slot misses; an error at the first slot that does not parse |
| ThresholdCalibrator.SqDist | analyze_thresholds.py:36 | a squared distance is non-negative |
| ThresholdCalibrator.SqDistSymmetric | analyze_thresholds.py:36 | the squared distance is symmetric |
| ThresholdCalibrator.SqDistSelf | analyze_thresholds.py:36-37 | a vector is at distance zero from itself |
| ThresholdCalibrator.DistMatrix | analyze_thresholds.py:36 | the matrix is `N` by `N` |
| ThresholdCalibrator.MatrixSymmetric | analyze_thresholds.py:36-37 | the matrix is symmetric, and its diagonal is zero when the square root of zero is zero |
| ThresholdCalibrator.Row | analyze_thresholds.py:41 | a row of the inner loop has `j - i - 1` pairs |
| ThresholdCalibrator.RowMembers | analyze_thresholds.py:41 | a row holds the pairs `(i, k)` with `i < k < j`, by increasing `k` |
| ThresholdCalibrator.PairsMembers | analyze_thresholds.py:40-41 | the nested loops visit every pair `i < j < N` exactly once |
| ThresholdCalibrator.PairsCount | analyze_thresholds.py:40-41 | there are `N(N-1)/2` pairs |
| ThresholdCalibrator.PairsIndex | analyze_thresholds.py:40-43 | every visited pair indexes the names and the matrix |
| ThresholdCalibrator.SplitCount | analyze_thresholds.py:42-45 | every pair lands in exactly one of the two lists |
| ThresholdCalibrator.SplitSides | analyze_thresholds.py:42-45 | every intra distance is that of a same-name pair, every inter distance that of a different-name pair |
| ThresholdCalibrator.SplitBeforePairs | analyze_thresholds.py:40-45 | after the rows before `i` the lists are the split of the pairs visited |
| ThresholdCalibrator.SplitUpToPairs | analyze_thresholds.py:40-45 | inside row `i` up to column `j` the lists are the split of the pairs visited |
| ThresholdCalibrator.SplitUpToStep | analyze_thresholds.py:41-45 | one inner iteration keeps the lists equal to the split of the visited pairs |
| ThresholdCalibrator.PartitionPairs | analyze_thresholds.py:38-45 | the loops compute the split of all pairs, and the lists together hold `N(N-1)/2` distances |
| ThresholdCalibrator.SortedValues | analyze_thresholds.py:54-61 | the sorted values are ascending and a permutation of the input |
| ThresholdCalibrator.SortedWithin | analyze_thresholds.py:54-61 | sorted values lie between minimum and maximum |
| ThresholdCalibrator.Position | analyze_thresholds.py:58-61 | the percentile position lies within the sorted list |
| ThresholdCalibrator.PositionMonotone | analyze_thresholds.py:58-61 | the position grows with `q` |
| ThresholdCalibrator.Interpolate | analyze_thresholds.py:58-61 | linear interpolation lies between the two neighbouring sorted values |
| ThresholdCalibrator.InterpolateMonotone | analyze_thresholds.py:58-61 | interpolation grows with the position |
| ThresholdCalibrator.InterpolateAt | analyze_thresholds.py:54 | at a whole position the interpolation is that value; half-way it is the mean of the two neighbours |
| ThresholdCalibrator.Percentile | analyze_thresholds.py:58-61 | a percentile lies between the minimum and the maximum |
| ThresholdCalibrator.PercentileMonotone | analyze_thresholds.py:58-61 | percentiles grow with `q`, so `p05 <= p25 <= p75 <= p95` |
| ThresholdCalibrator.MedianIsPercentile50 | analyze_thresholds.py:54 | the median is the 50th percentile |
| ThresholdCalibrator.Variance | analyze_thresholds.py:55 | the variance is non-negative |
| ThresholdCalibrator.StatsOf | analyze_thresholds.py:50-62 | the count is the length; all other fields absent exactly for an empty list; otherwise `min <= mean <= max` and `min <= p05 <= p25 <= median <= p75 <= p95 <= max` |
| ThresholdCalibrator.Candidates | analyze_thresholds.py:81-90 | no candidates unless both lists have pairs; otherwise the three named midpoints in order, each between its intra and inter statistic |
| ThresholdCalibrator.SeparatedCandidates | analyze_thresholds.py:81-90 | when every intra distance is at most every inter distance, each candidate lies above its intra statistic and below its inter one, within the overall range |
| ThresholdCalibrator.RowsBeforePairs | analyze_thresholds.py:104-107 | after the rows before `i` the CSV rows are those of the pairs visited |
| ThresholdCalibrator.RowsUpToPairs | analyze_thresholds.py:104-107 | inside row `i` up to column `j` the CSV rows are those of the pairs visited |
| ThresholdCalibrator.RowsUpToStep | analyze_thresholds.py:105-107 | one inner iteration keeps the rows equal to those of the visited pairs |
| ThresholdCalibrator.RowsMatchSplit | analyze_thresholds.py:104-107 | the CSV's `intra` rows carry exactly the intra list and its `inter` rows the inter list, in order |
| ThresholdCalibrator.RowsOfPairs | analyze_thresholds.py:104-107 | one row per pair in pair order, naming the pair, its names and distance, typed `intra` iff the names are equal |
| ThresholdCalibrator.PairRows | analyze_thresholds.py:103-107 | the CSV loop writes exactly the rows of all pairs `i < j` |
| ThresholdCalibrator.Analyze | analyze_thresholds.py:24-107 | an error exactly for an empty store; otherwise the statistics of the intra and inter lists, the candidates, the CSV rows, and `N(N-1)/2` pairs counted |
| SeqMath.Min | analyze_thresholds.py:56 | the minimum is an element and no element is smaller |
| SeqMath.Max | analyze_thresholds.py:57 | the maximum is an element and no element is larger |
| SeqMath.MinLeMeanLeMax | analyze_thresholds.py:53-57 | the mean lies between minimum and maximum |
| Sorting.SortSorted | train_encodings.py:26 | sorting yields a sorted permutation |
| Sorting.LexLeIsTotalPreorder | train_encodings.py:26 | string order is a total preorder |

## Left out

- The web layer is not modelled: Flask routing, sessions, templates, JSON responses, Socket.IO events and the attendance e-mails.
- The database is given as values, not modelled: the username-to-id lookup, the set of users already present for the subject today, the user table for OTPs, and the attendance rows. Commits and their failures are not modelled.
- File I/O is not modelled: `encodings.json` loading and saving, the CSV file write and all printed messages. The CSV rows are values; the `:.6f` formatting of the distance is not modelled.
- Image decoding, face detection and face encoding are given as a function from (folder, file) to the faces found or an exception. `face_distance` is given per face as a function from a reference encoding to a distance.
- The directory listing is given as a sequence in `os.listdir` order, which the in-app rebuild uses unsorted.
- The square root of `np.linalg.norm` and `np.std` is a parameter: square root is not defined in Dafny's reals.
- Floating point is not modelled. Distances, means, percentiles and thresholds are exact reals, and the 1.05 fallback slack is the exact real 1.05.
- UserIndex.BuildUserEncMap: `np.vstack` is not modelled; a user's encodings stay a sequence. For a user whose encodings differ in length, `np.vstack` raises a ValueError, and since the map is built before the face loop the whole recognize request fails. The model instead returns a map, and `Recognition.Recognize` returns one response per face, for every store. For a user whose encodings are all empty vectors, the stacked array has size 0, and the per-user loop skips that user. `MatchDecider.UserMinima` skips only a user with no encodings, so it does not reproduce that skip. The trainer writes neither kind of store, since every encoding it stores is one encoder output of a fixed length.
- `Lower` changes only ASCII letters, and `ParseClock` accepts only ASCII digits. Python's `str.lower()` and `strptime` are Unicode-aware.
- The randomness of `random.randint(100000, 999999)` is a parameter: `code` with `100000 <= code <= 999999`. The current time is a parameter in microseconds.
- The route dispatch of `/verify_email` is not modelled: `SendOtp` when an email and no code is posted, `Verify` otherwise. The GET form is not modelled either.
- The registration route's other work is not modelled: form validation and user creation. Only its OTP issue is modelled, by `Issue`.
- MatchDecider.ArgSort: stated as a stable sort; the tie order of `np.argsort`'s default quicksort is not modelled.
- MatchDecider.KnnVote: requires `KNN_K >= 1`. With `KNN_K = 0` the source votes over nothing and `most_common(1)[0]` raises an index error; a negative `KNN_K` makes `[:k]` drop the last `|KNN_K|` indices instead, giving a vote over the wrong records with a negative confidence, or the same index error when nothing is left. `Recognition.Recognize` and `DecideFace` carry the same requirement.
- Recognition.Recognize: requires `names` and `encodings` of equal length. With more names than encodings the source ignores the extra names; with fewer, it raises an index error in `flat_names[i]` only when a missing index is among the `k` nearest. Neither case is modelled.
- AttendanceStats.Percent: is the floor of the exact quotient. The source computes `int(present / total * 100)` in floating point, which can round a whole percentage down by one.
- ThresholdCalibrator.Analyze: requires `|encodings| <= 1` or `|encodings| <= |names|`, which is exactly when the source does not raise an index error on `names[i]` or `names[j]` (with one encoding the loop reads no name). It also requires every encoding to have one dimension, as `np.array` needs for the subtraction to broadcast.
- Timetable.CurrentSubject: a slot whose time fails to parse ends the lookup with an error carrying its index, where the source raises `ValueError` and the request fails.
