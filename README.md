# Watermelon Meow Meow — a Dafny model of the game's core

Watermelon Meow Meow is a classroom outbreak game played through a Streamlit
app. Students log in with their university username. They report that they
"infected" someone or received an "intervention". The app keeps one shared
interaction log (`interactions.csv` in a storage bucket). It draws the
contact network and cumulative charts from that log. Students in the
intervention group can also upload PDF reports, which the app records in a
submission log.

This project models the four pages that make up that core:

* `pages/user_input.py` is modelled in `user_input.dfy` (module `UserInput`).
  - The chain of checks an event goes through (`Decide`).
  - The infection probability.
  - The row an accepted event produces.
  - The refresh, decide, then read-append-write sequence against the bucket (`AddUserDataToDatabase`, `SaveDatasetToCsvAndS3`).
  - The form normalisation (`Show`).
  - The username rule and the `lower()`/`strip()` normalisation live in `text.dfy` (module `Text`).
* `pages/visual.py` is modelled in `visual.dfy` (module `Visual`).
  - The graph-building loop of `contact_network` (`ContactNetwork`, a loop proved against an index-based definition of each node's label).
  - The user search.
  - The hourly cumulative counts behind both charts.
  - The refresh and the dashboard choice.
* `pages/report_upload.py` is modelled in `report_upload.dfy` (module `ReportUpload`).
  - Report file names and storage keys.
  - The submission log and how an upload extends it.
  - The choice of the most recent report, and the list of a user's submissions.
  - The access gate and the upload flow.
  - The log compares its timestamps as strings. The model defines that comparison and proves it agrees with chronological order.
* `pages/login.py` is modelled in `login.dfy` (module `Login`).
  - The data is loaded into the session only once.
  - The login transition.

Shared pieces:

* `data.dfy` (module `Data`): the rows of both logs, the set of infected users, and generic log queries.
* `state.dfy` (module `State`): two classes holding the mutable state.
  - `Bucket` holds the bucket's objects.
  - `Session` holds the per-browser session state.

Page methods change these in place and state their whole new state.

These are passed in as parameters:

* Things outside the program:
  - the clock (`now`);
  - the uniform draw of `np.random.random()` (`r`);
  - whether each storage read or write succeeds (`readOk`, `writeOk`, ...).
* User input: button presses and text boxes.

Timestamps of the interaction log are whole seconds. Those of the submission log are the text written to the CSV.

## Model

| member | source | states |
|---|---|---|
| Data.InfectedSetAppend | pages/user_input.py:161-170 | one more row adds its audience to the infected users exactly when it is a successful infection |
| Data.MaxTimestamp | pages/user_input.py:153-155 | the latest timestamp of the selected rows: None iff none is selected, otherwise a selected row's timestamp bounding all of them from above |
| Data.MinTimestamp | pages/visual.py:86-91 | the earliest timestamp of the selected rows: None iff none is selected, otherwise a selected row's timestamp bounding all of them from below |
| Data.Select | pages/visual.py:164-167 | a boolean-mask selection keeps only selected rows, and every selected row of the input |
| Data.SelectAppend | pages/report_upload.py:213 | selection keeps log order: it distributes over concatenation |
| Data.Unique | pages/login.py:19 | `unique()` keeps exactly the values of the input, each once |
| Text.ValidateInput | pages/user_input.py:12-16 | accepted exactly when the name matches `[A-Za-z]+\d+` or `[A-Za-z]+\d+[A-Za-z]+` in full, where `$` also allows one final newline |
| Text.ScanUsernameIff | pages/user_input.py:14-16 | the greedy left-to-right scan accepts exactly the strings of the two patterns |
| Text.ScanSound | pages/user_input.py:14-16 | what the scan accepts matches one of the patterns |
| Text.ScanFindsLettersDigits | pages/user_input.py:14 | every string of the first pattern is accepted by the scan |
| Text.ScanFindsLettersDigitsLetters | pages/user_input.py:15 | every string of the second pattern is accepted by the scan |
| Text.ScanRun | pages/user_input.py:14-15 | a maximal run of one character class is exactly what the scan skips |
| Text.UsernameExamples | pages/user_input.py:12-16 | abc123 and abc123d are valid; 123abc, abc and the empty string are not |
| Text.ValidUsernameHasLetterAndDigit | pages/user_input.py:14-15 | a valid name starts with a letter and contains a digit |
| Text.Lower | pages/user_input.py:281 | `lower()` keeps the length and lower-cases each ASCII capital |
| Text.Strip | pages/user_input.py:281 | `strip()` removes a whitespace-only prefix and suffix, leaving a string that neither starts nor ends with whitespace |
| Text.StripEmptyIff | pages/login.py:61 | `strip()` yields "" exactly when the text is all whitespace |
| Text.StripStable | pages/user_input.py:284 | stripping text without outer whitespace changes nothing |
| Text.LowerStable | pages/user_input.py:284 | lower-casing text without capitals changes nothing |
| Text.Normalise | pages/user_input.py:281-309 | `lower().strip()` of a form box: no longer than the input, no ASCII capital, no whitespace at either end |
| Text.NormaliseIdempotent | pages/user_input.py:281-284 | normalising a username twice is the same as once |
| UserInput.InCooldown | pages/user_input.py:152-159 | the real-valued test `seconds / 60 < 1` holds exactly when the pair has a row and `.seconds` since its latest one is below 60; CooldownMeaning restates it over the log |
| UserInput.HadIntervention | pages/user_input.py:224-237 | the audience already has an intervention row of this type; Decide rejects such a duplicate and DecidePreservesWellFormed keeps types distinct per user with it |
| UserInput.ProductOfComplements | pages/user_input.py:179 | `np.prod(1. - values)`: NaN (None) exactly when some value is missing; ProductAppend and ProductInUnitInterval state its value |
| UserInput.InfectionProbability | pages/user_input.py:172-182 | the probability of the attempt: NaN (None) exactly when one of the audience's intervention values is missing; ProbabilityBounds, ProbabilityWithoutInterventions and InterventionScalesProbability state its value |
| UserInput.TimedeltaSeconds | pages/user_input.py:157 | `.seconds` of a time difference lies in [0, 86400) and differs from the difference by whole days |
| UserInput.Decide | pages/user_input.py:132-264 | an accepted event passed every check of its branch; its row records the event, success iff the draw is below the probability, 0.5 as the value of a successful infection, the draw as an intervention's value; a cooldown rejection means the pair met under a minute ago; a missing field is reported exactly when a name is empty |
| UserInput.DecideFollowsChecks | pages/user_input.py:136-264 | an event is rejected exactly when a check of its branch fails, and for the reason of the first failing check in the page's order |
| UserInput.InfectionFollowsChecks | pages/user_input.py:136-214 | an infection report is rejected exactly when one of its eight checks fails, for the first failing one in the page's order |
| UserInput.InterventionFollowsChecks | pages/user_input.py:216-264 | an intervention report is rejected exactly when one of its five checks fails, for the first failing one in the page's order |
| UserInput.CooldownMeaning | pages/user_input.py:152-159 | the cooldown holds exactly when the pair's latest row is, modulo whole days, under 60 s old |
| UserInput.CooldownBoundary | pages/user_input.py:157 | 59 s after the pair's last event it is still blocked, at 60 s it is allowed |
| UserInput.CooldownWrapsAfterADay | pages/user_input.py:157 | a pair last seen one day and 30 s earlier is still in cooldown |
| UserInput.ValuesOfInRangeLog | pages/user_input.py:173 | the intervention values gathered for an audience lie in [0, 1] when the log's do |
| UserInput.DiscountBounds | pages/user_input.py:179 | a factor `1 - v` with v in [0, 1] never raises a probability nor makes it negative |
| UserInput.ProductInUnitInterval | pages/user_input.py:179 | the product of `1 - v` over values in [0, 1] is a number in [0, 1] |
| UserInput.ProbabilityBounds | pages/user_input.py:172-182 | with values in [0, 1] the infection probability is defined and in [0, 0.5] |
| UserInput.ProbabilityWithoutInterventions | pages/user_input.py:174-178 | an audience without interventions is infected with probability 0.5 |
| UserInput.ProductAppend | pages/user_input.py:179 | one more value multiplies the product by `1 - v` |
| UserInput.InterventionScalesProbability | pages/user_input.py:173-179 | one more intervention of value v multiplies the audience's infection probability by `1 - v` |
| UserInput.ProbabilityExamples | pages/user_input.py:174-182 | interventions 0.3 and 0.2 give 0.28; with no intervention a draw of 0.49 infects and 0.5 does not |
| UserInput.AtMostOneInfection | pages/user_input.py:166-170 | in a well-formed log no user is successfully infected twice |
| UserInput.DecidePreservesWellFormed | pages/user_input.py:136-264 | appending an accepted event's row keeps the log well formed: nothing names an infected user again, no intervention type repeats for a user, values stay in [0, 1] |
| UserInput.SeedLogWellFormed | generate_new_dataset.py:22-28 | the seed log is well formed and its infected users are thm220 and gms221 |
| UserInput.SaveDatasetToCsvAndS3 | pages/user_input.py:18-51 | the bucket's log gains exactly the new row and the session copy becomes it, both only when read and write succeed; otherwise nothing changes |
| UserInput.AddUserDataToDatabase | pages/user_input.py:107-264 | the outcome is the decision on the refreshed log (or on the old session copy when the refresh fails); the bucket gains exactly the accepted row; a well-formed log stays well formed when the decision saw the bucket's contents |
| UserInput.Show | pages/user_input.py:266-340 | nothing changes unless the user is logged in and presses Submit; then the infection form decides on the lower-cased, stripped names with type -1 and the intervention form uses its label as actor and type; the bucket gains exactly the accepted row when read and write succeed; the cached log becomes the written log, or the refreshed log, or stays as it was |
| UserInput.BlankInputIsMissing | pages/user_input.py:284 | a whitespace-only infectee box is rejected as a missing field |
| UserInput.LabelIsNotUsername | pages/user_input.py:301 | no intervention label passes the username rule |
| UserInput.InterventionFormRecordsLabel | pages/user_input.py:312 | an accepted intervention records the label as actor and as type |
| Visual.FirstMention | pages/visual.py:19-33 | the index of the first row naming a user, with no earlier row naming them |
| Visual.LastInfectionOn | pages/visual.py:27-33 | the index of the last infection attempt aimed at a user, or None when there is none |
| Visual.MentionedAppend | pages/visual.py:18-33 | a user is in the graph after one more row exactly when they were before or the row names them |
| Visual.EdgeSetAppend | pages/visual.py:34 | each row adds exactly its actor-to-audience edge |
| Visual.ExpectedStatusAppend | pages/visual.py:19-33 | one more row relabels its audience when it is an infection attempt, labels a new user, and leaves everyone else alone |
| Visual.AddNodes | pages/visual.py:19-33 | a row adds each user it names for the first time with the row's label, relabels the target of an infection attempt, and leaves every other label as it was |
| Visual.LabelsAfterRow | pages/visual.py:18-33 | one pass of the loop keeps every node's label equal to its label by the last-infection-attempt / first-mention rule |
| Visual.ContactNetwork | pages/visual.py:17-34 | the nodes are exactly the users named in the log; each node's label comes from the last infection attempt aimed at it, or else from the first row naming it; the edges are exactly the rows' actor-audience pairs |
| Visual.NodeColour | pages/visual.py:39-45 | red exactly for infected nodes, gray exactly for contacted ones |
| Visual.InfectedNodes | pages/visual.py:17-45 | in a log where nobody is named after their infection, a node is red exactly when the user was infected or first appears as a successful infector never targeted |
| Visual.PatientZeroIsRed | pages/visual.py:19-25 | in the seed log exp626 is drawn infected although no one infected them |
| Visual.Successors | pages/visual.py:75 | `G.successors(u)`: exactly the targets of u's edges |
| Visual.SecondaryContacts | pages/visual.py:78 | exactly the targets of edges leaving u's successors, other than u |
| Visual.SearchUser | pages/visual.py:59-91 | no search without a name or graph; "not found" exactly for unknown names; otherwise the subgraph holds the user, their successors and their successors' successors other than the user; the count is the number of successors; the first infection is the earliest successful infection made by the user, None iff there is none |
| Visual.Neighbourhood | pages/visual.py:75-81 | the subgraph's nodes are the user, its successors, and their successors other than the user |
| Visual.SuccessorsFromLog | pages/visual.py:75-85 | on the network of a log, the users counted as directly infected are the audiences of all the user's rows |
| Visual.FailedAttemptCountsAsDirect | pages/visual.py:75-91 | after one failed attempt the search reports one direct infection and no first infection |
| Visual.HourOf | pages/visual.py:154 | the hour bucket of a time contains it |
| Visual.InsertCounts | pages/visual.py:171 | counting one event adds one to its hour's count and to the total |
| Visual.InsertKeepsOrder | pages/visual.py:171-172 | the hourly counts stay sorted by hour, with positive counts |
| Visual.InsertHours | pages/visual.py:171 | counting an event creates no hour bar other than the event's own |
| Visual.HourlyCounts | pages/visual.py:171-172 | the hourly counts are sorted by hour, positive, sum to the number of rows, and give each hour the number of rows in it |
| Visual.CountAtIndex | pages/visual.py:171-172 | in sorted hourly counts an hour's bar carries that hour's count |
| Visual.HourlyCountsMeaning | pages/visual.py:171-172 | each bar counts the rows of its hour, and every row's hour has a bar |
| Visual.Cumulate | pages/visual.py:175 | `cumsum()`: each bar carries the sum of the counts up to and including its hour; the hours are kept, the totals never decrease, and the last bar is the total count |
| Visual.TypesOf | pages/visual.py:202-207 | the intervention types listed are exactly the non-missing types of intervention rows |
| Visual.InfectionChartMeaning | pages/visual.py:164-175 | the infection chart is empty exactly when no infection succeeded; its hours increase and its last bar is the number of successful infections |
| Visual.InfectionCountIsInfectedUsers | pages/visual.py:164-175 | in a log where nobody is named after their infection, that last bar is the number of infected users |
| Visual.InterventionTraceNames | pages/visual.py:202-214 | there is one trace per intervention type that occurs, each type once |
| Visual.InfectionSeries | pages/visual.py:164-175 | the infection chart is empty exactly when no infection succeeded, and otherwise ends at the number of successful infections; InfectionChartMeaning adds the hour order |
| Visual.TraceOf | pages/visual.py:214-225 | the trace of one intervention type is named by that type and ends at the number of interventions of that type |
| Visual.InterventionCharts | pages/visual.py:200-254 | "no interventions" exactly when every row is an infection attempt; "no valid types" exactly when there are interventions but none has a type; otherwise the traces, described by InterventionTraceNames and InterventionTraceTotals |
| Visual.CumulativePlots | pages/visual.py:146-150 | no charts exactly when the log is empty |
| Visual.InterventionTraceTotals | pages/visual.py:214-225 | every trace is non-empty and ends at the number of interventions of its type |
| Visual.RefreshDataFromS3 | pages/visual.py:284-306 | the session copy becomes the bucket's log, or stays as it was when the read fails |
| Visual.Show | pages/visual.py:308-324 | nothing past the login gate; otherwise refresh, then the charts alone for interventionalists, or the charts and the contact network, which fails to draw for an absent or empty log |
| ReportUpload.Pad | pages/report_upload.py:127 | a zero-padded field has exactly the width and only digits |
| ReportUpload.ParsePad | pages/report_upload.py:127 | reading a padded field back gives the number |
| ReportUpload.PadInjective | pages/report_upload.py:127 | padded fields of one width are equal exactly when the numbers are |
| ReportUpload.LexLessMeaning | pages/report_upload.py:41 | the string order used by the timestamp sort holds exactly when, at the first position where the strings differ, the first has ended or has the smaller character |
| ReportUpload.LexIrreflexive | pages/report_upload.py:41 | no string sorts before itself |
| ReportUpload.LexTotal | pages/report_upload.py:41 | any two distinct strings are ordered one way or the other |
| ReportUpload.LexTransitive | pages/report_upload.py:41 | the string order is transitive |
| ReportUpload.LexAsymmetric | pages/report_upload.py:41 | the string order is asymmetric |
| ReportUpload.LexAppend | pages/report_upload.py:41 | strings starting with equal-length fields compare by those fields first |
| ReportUpload.PadOrder | pages/report_upload.py:41 | padded fields of one width compare as strings exactly as the numbers compare |
| ReportUpload.LogStamp | pages/report_upload.py:173 | the log timestamp text is 19 characters |
| ReportUpload.CompactStamp | pages/report_upload.py:127 | the file-name timestamp text is 15 characters |
| ReportUpload.LogStampOrder | pages/report_upload.py:41-42 | log timestamps sort as strings exactly as the times sort, so the descending string sort puts the latest first |
| ReportUpload.CompactStampOrder | pages/report_upload.py:127 | file-name timestamps sort as strings as the times sort |
| ReportUpload.CompactStampInjective | pages/report_upload.py:127 | distinct times give distinct file-name timestamps |
| ReportUpload.ReportFilename | pages/report_upload.py:127-128 | the file name starts with the username and '_', ends with ".pdf", and is 20 characters longer than the username |
| ReportUpload.ReportKey | pages/report_upload.py:139 | the key is the file name under "reports/" |
| ReportUpload.ReportFilenameInjective | pages/report_upload.py:127-128 | two uploads share a file name only when the same user uploads within the same second |
| ReportUpload.ReportKeyIsNotLogKey | pages/report_upload.py:139-145 | no report key is the submission log's key |
| ReportUpload.NewEntry | pages/report_upload.py:169-174 | the log entry records user, file name, the size in KiB and the log timestamp |
| ReportUpload.NextLog | pages/report_upload.py:176-186 | the written log ends with the new entry; it extends the stored log when that was read, otherwise it is the new entry alone |
| ReportUpload.LogSubmission | pages/report_upload.py:159-197 | the stored log becomes the next log when a client exists and the write succeeds, and is untouched otherwise |
| ReportUpload.OfUser | pages/report_upload.py:37 | the entries of one user, in log order: only that user's entries, and every one of them |
| ReportUpload.OfUserAppend | pages/report_upload.py:213 | a new entry extends its user's list and leaves every other user's list unchanged |
| ReportUpload.MostRecent | pages/report_upload.py:37-42 | None exactly when the user has no entry; otherwise one of the user's entries whose timestamp no other entry of theirs exceeds |
| ReportUpload.LatestStaysLatest | pages/report_upload.py:41-42 | an entry no earlier than the latest is no earlier than any |
| ReportUpload.NewEntryIsMostRecent | pages/report_upload.py:37-42 | an entry logged no earlier than all of the user's earlier ones is the one shown as most recent |
| ReportUpload.MostRecentView | pages/report_upload.py:24-86 | nothing is shown without a client, a readable log or an entry of the user; otherwise the user's most recent entry, shown when its PDF exists and reported as unloadable when not |
| ReportUpload.Listings | pages/report_upload.py:219-248 | one listing per entry, in order, downloadable exactly when its PDF exists |
| ReportUpload.PreviousSubmissionsView | pages/report_upload.py:199-255 | "no connection" exactly without a client; "none" exactly when the log is unreadable or has no entry of the user; otherwise the listings of the user's entries in log order |
| ReportUpload.SubmissionIsListed | pages/report_upload.py:150-248 | after a logged upload the user's list is their earlier entries followed by the new one, downloadable |
| ReportUpload.Show | pages/report_upload.py:88-157 | login gate, then group gate; the most recent report as it was before the upload; a stored PDF adds its key and is logged; an upload without a client ends the page before the list |
| Login.AttachWMMData | pages/login.py:9-19 | the log and the group are each read only while the session lacks them, and kept once loaded |
| Login.LoginOutcome | pages/login.py:60-77 | a name blank after stripping gets a warning; any other name logs in, as an interventionalist exactly when it is in the group |
| Login.PaddedNameIsNotRecognised | pages/login.py:61-68 | a group member typing a leading space logs in but not as an interventionalist |
| Login.GroupMembership | pages/login.py:19-65 | keeping only distinct group usernames does not change the login outcome |
| Login.Show | pages/login.py:49-77 | the data is attached first; a press with a non-blank name sets logged-in, the name as typed and the group flag; otherwise the login state is unchanged |

## Left out

- Rendering is not modelled: Streamlit widgets, messages, pyvis HTML, plotly figures, PDF previews and download buttons. A page's outcome stands for what it shows.
- The storage service is not modelled beyond success and failure. The bucket is one object per key, and each read or write either succeeds or fails as a parameter says. Credentials, client creation and CSV parsing are not modelled.
- Concurrent sessions are not modelled. In particular, a lost update between one session's read and its write of `interactions.csv` is not modelled.
- `infection_email` and SMTP are not modelled, since the call is commented out in the page.
- `page_load_time`, the autorefresh and the unused `elapsed_time` of the user-input page are not modelled.
- `main.py`, `get_refresh_token.py`, `create_intervention_group.py` and `display_data` are not part of this model. `generate_new_dataset.py` is modelled only as the seed log.
- The interaction log's timestamps are whole seconds, not "YYYY-MM-DD HH:MM:SS" strings. For four-digit years the string maximum the page takes is the latest time.
- UserInput.Decide: the check that the actor is contagious uses `in`, as the page does. No check is modelled on the type of the `-1` written for infections.
- Text.Lower: only ASCII capitals are lower-cased. Non-ASCII letters are left as they are, unlike `str.lower()`. This also changes what the username rule decides after normalisation: `str.lower()` turns U+212A KELVIN SIGN into an ASCII `k`, so "\u212A123" passes the page's username check while the model rejects it as an invalid name. The comparison with "exp626" is unaffected.
- Text.ValidateInput: `\d` is taken as the ASCII digits. Python's `\d` also matches other Unicode decimal digits.
- Missing intervention values (NaN) are not dropped from the infection probability. The page multiplies them in, so the probability becomes NaN and the attempt fails. `InfectionProbability` returns None in that case.
- After an accepted event the page reports success even when saving the row failed. The failure is swallowed, and the model does the same (`SaveDatasetToCsvAndS3`).
- The cooldown compares only the `.seconds` part of the time difference, which drops whole days. `CooldownWrapsAfterADay` shows the consequence.
- ReportUpload.MostRecent: ties between equal timestamps go to the later log entry. The page's unstable sort leaves the tie unspecified.
- ReportUpload.ValidDateTime: years have four digits. Days are not checked against the month's length.
- ReportUpload.Show:
  - The file name and the log entry use one reading of the clock. The page reads it twice, a moment apart.
  - One flag stands for every read of the submission log during a page run.
  - Reading a listed PDF is modelled by whether its key exists.
- Visual.SearchUser: the search reads the same log the network was built from. The subgraph's own edges and colours are not modelled.
- Visual.Show: `contact_network` draws inside its loop, so with an empty log the drawing is never set up. The model reports that as a network of None.
- Login.AttachWMMData: one flag says whether both reads succeed. A failed read raises and stops the page.
