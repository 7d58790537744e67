# egg: a Dafny model of the cook timer and its web application

The egg site lets a signed-in user cook an egg against a timer. The recipe page runs a timer that counts whole seconds.
- A report of 'cooked' is sent when the user stops the timer between the recipe's winning and losing minute.
- A report of 'burned' is sent when the timer runs past the losing minute.

The server stores these attempts and ranks users on a leaderboard. Its top entry is the "egg master". The server also handles sign-in (registration seeds four default recipes) and the recipe pages. A few client scripts sit beside it: a countdown to an event deadline, a link filter for in-page navigation, and a cookie-integrity script.

The model gives one Dafny module per source file, plus two shared modules:
- `Common` holds `Option`, `Result` and the users-table row.
- `Text` holds the JavaScript string operations the code uses: decimal printing, `padStart`, `split`/`join`, `trim` and `startsWith`.

The model follows the shape of the code:
- **The timer.** Its state changes step by step, so it is a pure step function per action (`StartStep`, `PauseStep`, `TickStep`, `StopStep`) plus a class `CookTimer.Timer` that holds the state in fields. Each method of the class is specified by its step function.
- **The attempt log.** `StatsModel.AttemptLog` is a class over a sequence of records.
- **The users store.** `UserModel.UserStore` is a class over the users and recipes tables. Its `LoginOrRegister` keeps the source's seeding loop.
- **Cookie parsing.** `VerifySession.ParseCookies` keeps the source's loop.
- **Everything else.** The controllers, the route guards and the string rules are pure functions. The database, clocks and foreign libraries appear as their inputs.

Files: `common.dfy`, `text.dfy`, `timer.dfy`, `stats_model.dfy`, `stats_controller.dfy`, `recipe_controller.dfy`, `user_model.dfy`, `auth_controller.dfy`, `countdown.dfy`, `pjax.dfy`, `verify_session.dfy`, `server.dfy`.

Notes on how the code is read:
- **No reset after a burn.** After the automatic burn, `public/timer.js:128-139` stops the interval but does not reset `seconds`; only `stopTimer` sets `seconds` back to 0 (`public/timer.js:182`). `CookTimer.RestartAfterBurnReportsAgain` shows the consequence: start is enabled again, and the next tick reports 'burned' a second time.
- **Thresholds.** The winning and losing times are modelled as exact `real` minutes. `parseFloat` and `Number` give IEEE doubles, whose rounding the model leaves out (see "## Left out"). The modelled comparisons are the code's own: `>=`, `<` and the alarm's `Math.abs(...) < 0.5`.
- **Leaderboard ties.** The order of entries that are equal on both keys is not fixed by the query. `StatsModel.Sort` picks one order, and the properties proved hold for any order.
- **Recipe store calls.** `models/recipeModel.js` exports neither `updateRecipe` nor `deleteRecipe`. Update and delete are modelled over the outcome of the store call, which makes them hold for any store. With the store as written, the update is the "Failed to update recipe." branch, and the delete rejects without a reply (`NoReply`).
- **Unreachable catch blocks.** `getLeaderboard` catches its own errors and returns `[]` (`models/statsModel.js:50-53`). So the catch blocks of `getLeaderboardJson` and `showEggMaster` cannot be reached, and they are not modelled. The same holds for the middleware's catch around `findById`, which catches and returns `null`; `Server.Lookup` still lets a lookup throw.

## Model

| member | source | states |
|---|---|---|
| CookTimer.AnimationProgress | public/timer.js:63-79 | for positive elapsed time the progress is non-negative; it is at most 0.3 up to the winning time and above 0.3 after it |
| CookTimer.ProgressMonotone | public/timer.js:63-79 | for 0 < win < lose the progress never decreases as seconds grow |
| CookTimer.ProgressAtThresholds | public/timer.js:63-79 | progress is exactly 0.3 at the winning second and exactly 1 at the losing second; after that the clamped level is 1 |
| CookTimer.Display | public/timer.js:36-43 | no contract of its own: DisplayShape and DisplayRoundTrip state what the text is |
| CookTimer.BurnLevel | public/timer.js:122 | `Math.min(progress, 1)`: never above 1, and it keeps any progress up to 1 |
| CookTimer.LevelAt | public/timer.js:120-123 | the level a tick hands to the animation, the clamped progress of its second, is in [0, 1] |
| CookTimer.LevelAtMonotone | public/timer.js:120-123 | a later second never gets a lower level |
| CookTimer.DisplayShape | public/timer.js:36-43 | the display is a minutes field of at least two digits, a ':' and a seconds field of two digits |
| CookTimer.DisplayRoundTrip | public/timer.js:37-41 | the minutes field reads back as seconds div 60 and the seconds field as seconds mod 60 (< 60), so the text reads back as the same seconds |
| CookTimer.ButtonStates | public/timer.js:45-50 | start is disabled iff running; pause is disabled iff not running; stop is disabled iff not running and at 0 seconds; start and pause are never both enabled |
| CookTimer.BurnSecond | public/timer.js:128 | the first whole second at which the lose condition holds: it holds there and not one second before |
| CookTimer.BurntIff | public/timer.js:128 | the lose condition holds at a second exactly when it is at or past the burn second |
| CookTimer.Reports | public/timer.js:23-34 | the outcomes of the Reported events; never more outcomes than events |
| CookTimer.ReportsAppend | public/timer.js:23-34 | the reports of two event runs in a row are the reports of the first followed by those of the second |
| CookTimer.ReportEvents | public/timer.js:23-31 | `recordStat`: one report of the outcome when the page has a recipe id, none without one; nothing but reports |
| CookTimer.Levels | public/timer.js:120-123 | the burn levels sent, never more than the events |
| CookTimer.LevelsAppend | public/timer.js:120-123 | the levels of two event runs in a row are those of the first followed by those of the second |
| CookTimer.Commands | public/timer.js:101-192 | the events other than reports, never more than the events |
| CookTimer.CommandsAppend | public/timer.js:101-192 | the commands of two event runs in a row are those of the first followed by those of the second |
| CookTimer.StartStep | public/timer.js:81-153 | start reports nothing and sends no burn level. When already running it changes nothing and emits nothing. Otherwise it keeps the seconds, sets running, hides the lose pop-up, and emits exactly PanStarted (speed 300, then start) when an animation is present, nothing without one |
| CookTimer.PauseStep | public/timer.js:155-168 | pause clears running and keeps the seconds and the pop-up. When not running it emits nothing; when running it emits exactly AlarmStopped, then PanStopped when an animation is present. It reports nothing and sends no burn level |
| CookTimer.TickEvents | public/timer.js:105-139 | the commands of the tick that reaches a second are exactly: AlarmPlayed iff the second is within half a second of the winning time; then, iff an animation is present, the burn level LevelAt of that second; then AlarmStopped iff it is the losing tick. Its reports are one 'burned' (with a recipe id) on the losing tick and none otherwise. It never starts or stops the pan |
| CookTimer.TickStep | public/timer.js:101-142 | a tick adds exactly one second. It clears running iff the new second is at or past the losing time, and then shows the pop-up and reports 'burned' once (only with a recipe id), reporting nothing otherwise. Its commands are those of TickEvents for the new second: the alarm iff within half a second of the winning time, the burn level LevelAt of the new second iff animated, and the alarm stopped on the losing tick |
| CookTimer.StopStep | public/timer.js:170-192 | stop resets to 0 seconds, not running, no pop-up. It reports 'cooked' iff win*60 <= seconds < lose*60 (with a recipe id) and never reports 'burned'. Its events are, in this order, the 'cooked' report (inside the window), AlarmStopped, and then, with an animation, burn level 0 and PanStopped: the alarm is paused and rewound and the animation reset |
| CookTimer.ResetAnimationEvents | public/timer.js:52-60 | `resetAnimation`: with an animation, burn level 0 and then the pan stopped; nothing without one; no report |
| CookTimer.StopReportsCookedIff | public/timer.js:172-175 | stop reports exactly [Cooked] iff the recipe has an id and the stop falls in the cooked window; otherwise it reports nothing |
| CookTimer.RunOutcomeOfTicks | public/timer.js:101-142 | a run of ticks leaves the state and reports the outcomes that RunOutcome derives from each tick's state change and its 'burned' report on the losing second |
| CookTimer.UnattendedOutcome | public/timer.js:128-139 | left alone from before the burn second, the run ends stopped at the burn second with the pop-up shown, and only the losing tick reports 'burned' |
| CookTimer.TicksBeforeBurn | public/timer.js:101-142 | ticks that stay before the burn second keep the timer running at the advanced second and report nothing |
| CookTimer.RunTicks | public/timer.js:101-142 | a run of at most n ticks advances the seconds by at most n, and by exactly n when the timer is still running at its end |
| CookTimer.TickLevelsRise | public/timer.js:116-123 | with an animation, each of two ticks in a row sends exactly one burn level, and the second is never lower than the first |
| CookTimer.UnattendedRunBurnsOnce | public/timer.js:128-139 | a running timer left alone stops at the burn second with the pop-up shown, having reported 'burned' once, however many further ticks are allowed |
| CookTimer.HalfMinuteEggStops | public/timer.js:170-192 | with a 0.5/1 minute recipe: stopping at 45 s reports one 'cooked' and nothing before it; stopping at 10 s reports nothing |
| CookTimer.HalfMinuteEggUnattended | public/timer.js:101-142 | with a 0.5/1 minute recipe: an unattended run stops at 60 s with the pop-up, having reported one 'burned', and a later stop reports nothing |
| CookTimer.RestartAfterBurnReportsAgain | public/timer.js:128-139 | after the burn, seconds are not reset: start is enabled, and the next tick reports 'burned' again |
| CookTimer.Timer.constructor | public/timer.js:4-12 | a new page is at 0 seconds, not running, no pop-up, nothing emitted |
| CookTimer.Timer.Start | public/timer.js:81-153 | the new fields are StartStep of the old state, and the events grow by its events |
| CookTimer.Timer.Pause | public/timer.js:155-168 | the new fields are PauseStep of the old state, and the events grow by its events |
| CookTimer.Timer.Tick | public/timer.js:101-142 | the new fields are TickStep of the old state, and the events grow by its events |
| CookTimer.Timer.Stop | public/timer.js:170-192 | the new fields are StopStep of the old state, and the events grow by its events |
| StatsModel.AttemptResult | models/statsModel.js:10-26 | success iff the outcome is 'cooked' or 'burned' and the insert succeeds, and then the value is true; an invalid outcome is the invalid-outcome error |
| StatsModel.AttemptLog.constructor | models/statsModel.js:16-20 | the log starts empty |
| StatsModel.AttemptLog.RecordAttempt | models/statsModel.js:10-26 | the log gains exactly the record (user, recipe, outcome) at its end iff the call succeeds, and is unchanged otherwise; every stored outcome stays valid |
| StatsModel.CountAppend | models/statsModel.js:16-20 | counts over two logs in a row add up |
| StatsModel.RecordedTwiceCountsTwice | models/statsModel.js:16-20 | no deduplication: recording the same triple twice counts twice |
| StatsModel.CountsCoverAttempts | models/statsModel.js:12-20 | in a log of valid outcomes, a user's cooked plus burned counts are all their attempts |
| StatsModel.UsersOf | models/statsModel.js:38-46 | the users that have records, each listed once |
| StatsModel.EntryFor | models/statsModel.js:44 | an entry's eggs total is its cooked plus burned counts, and those are its user's counts in the log |
| StatsModel.EntriesFor | models/statsModel.js:38-46 | one entry per listed user, in order |
| StatsModel.Insert | models/statsModel.js:46 | inserting adds exactly that entry to the multiset |
| StatsModel.InsertOrdered | models/statsModel.js:46 | inserting into an ordered list keeps it ordered |
| StatsModel.Sort | models/statsModel.js:46 | the result is ordered by cooked descending, then eggs descending, and is a permutation of the input |
| StatsModel.Leaderboard | models/statsModel.js:38-46 | `ORDER BY total_cooked DESC, total_eggs DESC` over the view's rows: ordered, and a permutation of the rows |
| StatsModel.GetLeaderboard | models/statsModel.js:32-54 | with the store up it is the leaderboard query; a failed query is caught and gives the empty leaderboard |
| StatsModel.LeaderboardIsTheProjection | models/statsModel.js:32-54 | the leaderboard is ordered, has eggs = cooked + burned on every row, and holds exactly one entry per user with records, carrying that user's counts |
| StatsModel.DistinctUsersInSort | models/statsModel.js:38-46 | no user appears twice on the leaderboard |
| StatsController.RecordStatReply | controls/statsController.js:3-23 | 401 iff nobody is signed in; 400 iff a field is missing; 200 with the success body iff the outcome is valid and the insert succeeds; 500 for any other failure of the insert, an invalid outcome included |
| StatsController.RecordStat | controls/statsController.js:3-23 | the reply is RecordStatReply; the log gains the one record with the signed-in user's id iff the reply is 200, and is unchanged otherwise |
| StatsController.TimerReportsAreAccepted | controls/statsController.js:11-22 | every outcome the timer page actually sends passes validation: 200 when the store is up, else 500 |
| StatsController.LeaderboardJson | controls/statsController.js:35-45 | 200 with the leaderboard unchanged; currentUser is the caller's id iff signed in, and null otherwise |
| StatsController.EggMaster | controls/statsController.js:50 | the first entry, or null exactly when the leaderboard is empty |
| StatsController.EggMasterLeads | controls/statsController.js:47-56 | there is an egg master iff there is an attempt, and it ranks at or above every entry |
| RecipeController.Lower | controls/recipeController.js:53 | `toLowerCase` on ASCII: same length, each character lowered |
| RecipeController.ReplaceRuns | controls/recipeController.js:53 | `replace(/[^a-z0-9]+/g, '-')`: never longer than its input; ReplaceRunsIsSqueezedDashes fixes where the '-' go |
| RecipeController.DashFor | controls/recipeController.js:53 | the reference reading, step one: same length, and a position holds '-' exactly when the input character there is outside [a-z0-9] |
| RecipeController.Squeeze | controls/recipeController.js:53 | the reference reading, step two: each row of '-' shortened to one; never longer than its input |
| RecipeController.ReplaceRunsIsSqueezedDashes | controls/recipeController.js:53 | the run replacement equals the reference reading on every text: Squeeze(DashFor(s)) |
| RecipeController.ReplaceRunsIsSlugText | controls/recipeController.js:53 | after run replacement the text has only [a-z0-9-] and no two adjacent '-' |
| RecipeController.ReplaceRunsKeepsAlphanumerics | controls/recipeController.js:53 | run replacement keeps every [a-z0-9] character, in order |
| RecipeController.ReplaceRunsFixesSlugText | controls/recipeController.js:53 | text already in slug form is unchanged |
| RecipeController.ReplaceRunsIdempotent | controls/recipeController.js:53 | replacing runs twice is replacing them once |
| RecipeController.ReplaceRunsHead | controls/recipeController.js:53 | an empty name gives an empty prefix; a leading run becomes a single '-' |
| RecipeController.SplitCrlf | controls/recipeController.js:56 | `split('\r\n')`: at least one piece; the first piece is a prefix of the text |
| RecipeController.NonBlank | controls/recipeController.js:57 | `filter(line => line.trim() !== '')`: never more lines than the input; NonBlankKeepsLines and NonBlankKeepsOnlyLines say which |
| RecipeController.Slug | controls/recipeController.js:53 | the slug is Squeeze(DashFor(lowercased name)) + '-' + user id: every character outside [a-z0-9] becomes '-' and each row of '-' is squeezed to one. So it ends in '-' + user id, and the part before is slug text holding exactly the lowercased name's [a-z0-9] characters in order |
| RecipeController.SlugOfShortName | controls/recipeController.js:53 | "A b!" of user 7 gets the slug "a-b--7": the trailing run leaves a '-' before the '-' of the id |
| RecipeController.JoinSplitCrlf | controls/recipeController.js:56 | joining the "\r\n" split with "\r\n" gives the original text |
| RecipeController.SplitCrlfPiecesFree | controls/recipeController.js:56 | no piece of the split contains "\r\n" |
| RecipeController.SplitJoinCrlf | controls/recipeController.js:56 | splitting lines joined by "\r\n" gives those same lines back |
| RecipeController.NonBlankKeepsLines | controls/recipeController.js:56-57 | every non-blank line is kept, and a list with no blank line is kept whole |
| RecipeController.NonBlankKeepsOnlyLines | controls/recipeController.js:56-57 | every kept line is an input line whose trim is not empty |
| RecipeController.NonBlankAppend | controls/recipeController.js:56-57 | the filter works line by line and keeps order |
| RecipeController.SplitLines | controls/recipeController.js:56-57 | every kept line is non-blank and contains no "\r\n" |
| RecipeController.SplitLinesOfJoined | controls/recipeController.js:56-57 | any list of non-blank lines without "\r\n", the empty list included, joined by "\r\n" splits back to the same list |
| RecipeController.WinningMinute | controls/recipeController.js:67 | `parseFloat(...) \|\| 0.5`: the parsed value unless it is NaN or 0, then 0.5 |
| RecipeController.LosingMinute | controls/recipeController.js:68 | `parseInt(...) \|\| 1`: the parsed value unless it is NaN or 0, then 1 |
| RecipeController.SharedFlag | controls/recipeController.js:69 | 1 iff the field is exactly 'true', else 0 |
| RecipeController.AddImagePath | controls/recipeController.js:47-50 | an upload with a file gives '/uploads/' + filename; anything else gives the default image |
| RecipeController.UpdateImagePath | controls/recipeController.js:130-135 | an upload with a file gives '/uploads/' + filename; 'default' gives the default image; otherwise the old path is kept |
| RecipeController.FormData | controls/recipeController.js:59-70 | each stored field comes from its form field: the slug of the name and the owner's id, the name and animation as given, the image path chosen by the caller, the split and filtered ingredient and instruction lines (non-blank, free of "\r\n"), both minutes parsed with their defaults (never zero), and shared 1 exactly when the field was 'true' |
| RecipeController.ShowRecipe | controls/recipeController.js:3-25 | no user redirects to '/'; unknown slug is 404; viewing is allowed iff owner or shared, else 403; the page knows whether the viewer owns it |
| RecipeController.ShowAddRecipeForm | controls/recipeController.js:31-36 | no user redirects to '/', anyone else gets the empty form |
| RecipeController.AddRecipe | controls/recipeController.js:38-92 | 401 iff no user; otherwise the redirect iff the store accepts, the duplicate message iff it reports a duplicate entry, the generic failure otherwise |
| RecipeController.ShowEditRecipeForm | controls/recipeController.js:94-112 | no user redirects to '/'; unknown slug is 404; a non-owner gets 403; only the owner gets the edit form filled with the stored row |
| RecipeController.UpdateRecipe | controls/recipeController.js:114-170 | 401 iff no user; 403 iff the recipe is unknown or not the caller's; the owner is redirected to the new slug iff the store accepts. A duplicate entry refills the form with the submitted data; any other failure refills it with the stored row |
| RecipeController.DeleteRecipe | controls/recipeController.js:172-187 | 401 iff no user; 403 iff unknown or not the caller's; the owner is redirected iff the delete succeeds, and gets no reply otherwise |
| RecipeController.ChangesAreForOwnersOnly | controls/recipeController.js:103-125 | whoever may edit, update or delete a recipe is its owner and may view it as owner |
| RecipeController.UnknownRecipeReplies | controls/recipeController.js:103-125 | an unknown recipe is 404 for the edit form but 403 for update and delete |
| UserModel.FindByEmail | models/userModel.js:35-36 | FindBy on the email column |
| UserModel.FindById | models/userModel.js:79-87 | FindBy on the id column |
| UserModel.FindBy | models/userModel.js:35-36 | a user holding the value in the column, or none iff no user holds it |
| UserModel.FindByIsFirst | models/userModel.js:35-36 | the user found is the first one in table order that holds the value |
| UserModel.DefaultUsername | models/userModel.js:49 | a given non-empty username is kept; DefaultUsernameIsLocalPart states the fallback to the email |
| UserModel.DefaultUsernameIsLocalPart | models/userModel.js:49 | a given non-empty username is kept; otherwise the name is the email text before its first '@', and holds no '@' |
| UserModel.SeedRows | models/userModel.js:62-69 | registration inserts exactly four rows, the i-th built from the i-th default recipe |
| UserModel.SeedSlugsUnique | models/userModel.js:5-30 | two seeded slugs are equal iff they are for the same default recipe and the same user |
| UserModel.SeededRowsBelongToNewUser | models/userModel.js:62-69 | all seeded rows carry the new user's id, and their slugs are pairwise distinct |
| UserModel.LoginOutcome | models/userModel.js:32-77 | wrong_password iff the email is known and the password does not match; login_success iff it matches, with that user; user_created iff the email is new, with the defaulted name and hash(password); a user is returned iff the password was not wrong |
| UserModel.NewEmailFoundLast | models/userModel.js:57-59 | the re-query by email after the insert finds the inserted user |
| UserModel.NewEmailKeepsUnique | models/userModel.js:51-54 | inserting a user whose email is not stored keeps emails unique |
| UserModel.UserStore.constructor | models/userModel.js:32-77 | an empty store has unique emails |
| UserModel.UserStore.LoginOrRegister | models/userModel.js:32-77 | the result is LoginOutcome. A known email writes nothing. A new email appends exactly the new user and then the four seeded rows in order. Emails stay unique |
| AuthController.Login | controls/authController.js:4-45 | wrong_password: "Wrong password" and no cookie; login_success or user_created: the signed userId cookie of that user for 604800000 ms and a redirect to /menu with the welcome text; any other status: "An error occurred"; a thrown error: "Server error during login" |
| AuthController.Logout | controls/authController.js:47-50 | clears the userId cookie and redirects to '/' |
| AuthController.LoginOfStoreOutcome | controls/authController.js:4-45 | for every outcome of loginOrRegister, no error page is shown; no cookie is set iff the password was wrong; the cookie is the new id for a registration and the found user's id for a login |
| Countdown.ClockArithmetic | public/js/countdown.js:28-30 | minutes < 60, seconds < 60, and h*3600000 + m*60000 + s*1000 <= diff < that + 1000 |
| Countdown.ClockText | public/js/countdown.js:32-33 | no contract of its own: ClockTextShape and ClockTextRoundTrip state what the text is |
| Countdown.ClockTextShape | public/js/countdown.js:32-33 | the text is ' ' + hours + ':' + minutes + ':' + seconds, each at least two digits |
| Countdown.ClockTextRoundTrip | public/js/countdown.js:28-33 | the three fields read back as the hours, minutes and seconds left |
| Countdown.LongCountdownsWidenHours | public/js/countdown.js:28-33 | from 100 hours on, the hours field is the plain number, wider than two digits |
| Countdown.Update | public/js/countdown.js:1-34 | nothing is rendered iff the container, the timer element or a non-empty deadline is missing; otherwise the first update is shown |
| Countdown.Tick | public/js/countdown.js:10-34 | a NaN deadline shows NaN fields; a passed deadline shows "00:00:00 - TIME UP" and reloads iff the path is not /egg-master; otherwise it shows the clock text for the time left |
| Pjax.IsNavigableLink | public/pjax.js:11-19 | true iff: there is an anchor with a non-empty href; the href starts with none of "mailto:", "tel:" or "#"; the target is '' or '_self' |
| Pjax.NavigableExamples | public/pjax.js:11-19 | same-window site paths are taken over; mail, phone, fragment, other-window or href-less links are not |
| VerifySession.ParseCookies | verify_session.js:48-58 | no set-cookie header gives the empty map; otherwise the cookies are stored in order |
| VerifySession.ParsedKeys | verify_session.js:52-55 | the map's keys are exactly the keys of the cookies |
| VerifySession.LastCookieWins | verify_session.js:52-55 | a cookie whose key no later cookie repeats gives the stored value: later cookies overwrite earlier ones |
| VerifySession.PairFields | verify_session.js:53-54 | only text before the first ';' is read; the key is the trimmed text before the first '='; the value is the decoded rest, '=' included |
| VerifySession.TamperAsWritten | verify_session.js:122-128 | a value with '.' keeps its length and prefix and ends in 'X'; any other value gets "tampered" appended |
| VerifySession.TamperAsWrittenCanMissTheChange | verify_session.js:122-128 | a signed value already ending in 'X' comes out unchanged |
| VerifySession.Tamper | verify_session.js:122-128 | the intended rule: a value with '.' keeps its length and prefix and gets a different last character |
| VerifySession.TamperChanges | verify_session.js:122-128 | the intended rule always changes the value |
| Server.Sanitise | index.js:94 | one character for one: allowed characters are kept and every other becomes '_' |
| Server.SanitisedAlphabet | index.js:94 | the output uses only [A-Za-z0-9._] |
| Server.SanitiseKeepsAllowed | index.js:94 | allowed names are unchanged, and sanitising twice is sanitising once |
| Server.StoredUploadNameParts | index.js:94 | the stored name cuts at its first '-' into digits that read back as the timestamp and the sanitised name |
| Server.StoredUploadName | index.js:94 | as long as the timestamp digits, a '-' and the original name, with the '-' right after the digits |
| Server.CacheAnonymousOnly | index.js:17-19 | cacheable iff the status is 200 and there is no signed userId |
| Server.ResolveUser | index.js:37-51 | no signed userId, or a lookup that throws, gives no user; otherwise the looked-up user |
| Server.SignedInIffKnownId | index.js:37-51 | a request is signed in iff its cookie names a stored user's id, and then as that user |
| Server.HomeRoute | index.js:58-64 | '/' redirects to /menu iff signed in, else renders home |
| Server.MenuRoute | index.js:69-76 | /menu always sets "private, no-cache"; it redirects to '/' iff anonymous; otherwise it shows the caller's menu with the message |
| Server.NoRedirectLoop | index.js:58-76 | the two guards never redirect a request back and forth |
| Text.NatToStringValue | public/timer.js:41 | `String(n)` reads back as n |
| Text.Pad2 | public/timer.js:41 | `padStart(2, '0')`: at least two digits, exactly two below 100, the plain number from 100 on |
| Text.Pad2Value | public/timer.js:41 | a padded number reads back as the number |
| Text.NatToString | public/timer.js:41 | `String(n)`: at least one digit, all digits; one digit iff n < 10, at most two below 100 |
| Text.PadStart | public/timer.js:41 | `padStart(width, fill)`: the longer of the text and the width, the text at the end, fill before it |
| Text.JoinSplit | verify_session.js:54 | joining a split with the same separator gives the original text |
| Text.Split | verify_session.js:54 | `split(sep)`: at least one piece |
| Text.SplitAtFirst | models/userModel.js:49 | the first piece of a split ends before the first separator, and the rest splits the remainder |
| Text.TrimEmptyIffBlank | controls/recipeController.js:56 | `trim()` is empty iff every character is white space |
| Text.Trim | controls/recipeController.js:57 | `trim()`: never longer than the text; TrimEmptyIffBlank says when it is empty |

## Left out

- I/O of every kind: the DOM, audio, the iframe animation hooks, `fetch`, timers (`setInterval`), `Date.now`, `window.location.reload` and the HTTP client of the integrity script. The timer models its calls on the alarm and the animation frame as emitted events (alarm played or stopped, burn level, pan started or stopped) and its stats request as a report; the countdown takes the clock as an input.
- The audio unlock in `startTimer` (public/timer.js:87-99): a play that its promise pauses and rewinds at once; it is not an event of the model.
- CookTimer.Config: the winning and losing minutes, the products `minutes * 60` (public/timer.js:107, 128, 172) and the animation progress are exact reals, not IEEE doubles. For some decimal minutes the rounded double product lies just above the exact value: 8.3 * 60 is 498.00000000000006 as a double. The page then burns at 499 s where CookTimer.BurnSecond gives 498, and a stop at 498 s with a winning minute of 8.3 reports nothing where CookTimer.CookedWindow holds. So double rounding can move the burn second and the cooked window by one second.
- CookTimer.Config: one `animated` flag stands for the animation frame together with all of its hooks. The page tests each hook on its own (public/timer.js:53-59, 120, 145-151, 164), so a frame with only some of them is not modelled.
- The database: SQL text, the connection pool, the schema and the leaderboard view. Lookups are inputs to the handlers, write outcomes are inputs (`storeUp`, `store`, `deleted`), and the ids the database assigns are parameters.
- bcrypt (`hashSync`, `compareSync`), `decodeURI`, `encodeURIComponent`, `parseInt`, `parseFloat`, multer and apicache: foreign code, given as function parameters or as their results.
- `showLeaderboard`, `getAllRecipes` and `showUserRecipes`: they only pass rows from the store to a view.
- The username join of the leaderboard view is left out, because the view definition is not part of this model. Entries carry the user id.
- StatsModel.Leaderboard: the view `leaderboard` that the query reads (models/statsModel.js:38-46) is defined in schema.sql, which is not part of this model. The model assumes the view has one row per user with at least one stats record, carrying the numbers of that user's 'cooked' and 'burned' records, and no row for a user without records. StatsModel.Rows builds exactly those rows; StatsModel.LeaderboardIsTheProjection and StatsController.EggMasterLeads hold under this assumption.
- The seeded ingredients and instructions texts: they are not part of any of the properties.
- VerifySession.ParseCookies: takes the decoder as a total function. The real `decodeURI` throws a URIError on a malformed escape (a '%' not followed by a valid UTF-8 sequence), which aborts `parseCookies` (verify_session.js:54); the model has no such failure.
- PJAX page swapping, `isSameOrigin` and the test driver of the integrity script: only `isNavigableLink`, `parseCookies` and the tamper rule are modelled there.
- backend/index.js: it repeats the plumbing and the sanitiser of index.js.
- `toLowerCase` and `trim` are modelled for ASCII letters and for the usual white-space characters; JavaScript strings are modelled as sequences of characters, not UTF-16 code units.
- Missing form fields: a body without `name`, `ingredients` or `instructions` makes the JavaScript throw. The model takes these fields as strings.
- CookTimer.Timer.constructor: requires a winning time that is positive and below the losing time, which the page never checks before it divides by the two.
- CookTimer.AnimationProgress: requires the same ordering of the two times, for the same reason.
- Catch blocks that cannot be reached are not modelled: those of `getLeaderboardJson` and `showEggMaster`, which sit above a `getLeaderboard` that never throws.
- The rethrow in `loginOrRegister`: a store error there appears as the failure input of `AuthController.Login`. UserModel.UserStore.LoginOrRegister has no failure path. The user INSERT and the four recipe INSERTs (models/userModel.js:51-69) run without a transaction, so a failure in the seeding loop leaves the new user and a prefix of the seeded rows in the store; the model does not capture that partial state.
- The link from the submitted winning minute to the timer: `createRecipe` does not store `winning_minute` (models/recipeModel.js:33), so the two are not connected in the model.

## Findings

| source | as written | input that shows it | evidently intended | confidence | as-written member | corrected member |
|---|---|---|---|---|---|---|
| verify_session.js:122-128 | the last character of a signed cookie value is replaced by 'X' | the value "s%3A1.abcX", which is unchanged by the rule, so the "tampered" request carries the valid cookie | the tampered value always differs from the original | not executed | VerifySession.TamperAsWrittenCanMissTheChange | VerifySession.TamperChanges |
