# Daily Codeforces problem tracker — verified model

The application is a small React dashboard for a programming club. An
administrator sets a Codeforces problem for each day and registers club
members by their Codeforces handle. A sweep then asks Codeforces which
members solved each day's problem after that day began, and records the
solves in a submissions table. A separate hook lists recent contests and
fetches contest standings. When Codeforces rejects a handle, the hook drops
that handle from the request and asks again.

This project models three parts of that application in Dafny:

- the Codeforces helpers (`src/lib/codeforces.ts`, module `Codeforces`):
  - reading a problem identifier from a contest or problemset link;
  - the "solved after the cutoff" decision;
  - the handle check.
- the contest hook (`src/hooks/useCodeforces.ts`, module `CodeforcesHook`):
  - the recent-contest list;
  - one standings request;
  - the standings fetch that prunes unknown handles and retries, modelled
    as the class `StandingsState`, which holds the hook's loading flag and
    error.
- the admin page (`src/pages/AdminDashboard.tsx`, module `AdminDashboard`):
  - the class `Dashboard`, which holds the page's state and the three
    database tables it writes;
  - the handlers that add one problem, one user, or many users from pasted
    text;
  - the submissions sweep;
  - the user search and the per-problem solved count.

Two more modules support these:

- `Wrappers` holds `Option` and `Result`.
- `Text` holds the string operations the source takes from JavaScript:
  - `split`, `join` and `trim`;
  - case-insensitive matching and ASCII `toLowerCase`;
  - `includes` and `filter`.

The program's outside world becomes inputs to the model:

- Every HTTP request is replaced by the reply it gets, a function from
  request URL to `ApiReply`.
- Every database write is replaced by the error the database answers, if
  any.
- The clock and the date arithmetic are replaced by numbers (`SweepEnv`).

The two regular expressions for problem links (`codeforces.ts` lines 9 and
15) and the unknown-handle pattern (`useCodeforces.ts` line 55) are modelled
as leftmost matches:

- A digit group is taken greedily.
- Letters are compared ignoring ASCII case, as the `i` flag does for these
  ASCII patterns.
- Lemmas show that the match found is the leftmost one.

## Model

| member | source | states |
|---|---|---|
| Codeforces.GetProblemIdFromUrl | src/lib/codeforces.ts:5-20 | any identifier produced is a digit run followed by one letter and digits |
| Codeforces.Normalize | src/lib/codeforces.ts:11 | the problemset link `https://codeforces.com/problemset/problem/<id>/<index>`; `NormalizedLayout` places its parts and `NormalizedLinkMatches` shows it is read back as the same captures |
| Codeforces.NormalizedLayout | src/lib/codeforces.ts:11 | the rewritten link is the 42-character problemset base, the contest id, a slash and the index |
| Codeforces.FirstMatch | src/lib/codeforces.ts:9 | a match found has a non-empty digit contest id and a letter-then-digits index |
| Codeforces.FirstMatchIsLeftmost | src/lib/codeforces.ts:9 | `match` reports the leftmost position where the pattern matches, and no match only when it matches nowhere |
| Codeforces.MatchAt | src/lib/codeforces.ts:15 | a match attempt at a position returns only captures that the pattern accepts there |
| Codeforces.MatchAtFinds | src/lib/codeforces.ts:15 | whenever the pattern accepts captures at a position, the attempt there returns exactly them (the greedy digit run gives back nothing) |
| Codeforces.FirstMatchIs | src/lib/codeforces.ts:15 | a match with no pattern start to its left is the one `match` returns |
| Codeforces.NoLeadNoMatch | src/lib/codeforces.ts:9 | a link that nowhere contains the literal start of a pattern does not match it |
| Codeforces.NormalizedLinkMatches | src/lib/codeforces.ts:11-15 | the problemset link built from a contest match matches the problemset pattern with the same captures, and the contest pattern nowhere |
| Codeforces.ContestLinkAgreesWithProblemsetLink | src/lib/codeforces.ts:9-16 | a contest link and the problemset link it is rewritten to give the same identifier, the contest id followed by the index, whatever the problemset pattern would find elsewhere in the link: the contest match takes precedence |
| Codeforces.NoPatternNoId | src/lib/codeforces.ts:9-16 | null exactly when neither pattern matches; without a contest match the problemset match decides |
| Codeforces.ContestUrlGivesId | src/lib/codeforces.ts:5-20 | `https://codeforces.com/contest/<id>/problem/<index>` gives `<id><index>` |
| Codeforces.ProblemsetUrlGivesId | src/lib/codeforces.ts:5-20 | `https://codeforces.com/problemset/problem/<id>/<index>` gives `<id><index>`, with the index's case kept |
| Codeforces.AnySolvesAfter | src/lib/codeforces.ts:29-37 | `some` holds exactly when one submission is accepted, for the problem, and strictly after the cutoff |
| Codeforces.SubmissionProblemId | src/lib/codeforces.ts:31 | the contest id printed in decimal, or "undefined" when absent, followed by the index; `MissingContestIdNeverMatches` shows the absent case never matches |
| Codeforces.SolvesAfter | src/lib/codeforces.ts:30-36 | the three tests of the callback: strictly after the cutoff, same problem identifier, verdict "OK" |
| Codeforces.UserStatusUrl | src/lib/codeforces.ts:24 | the request for the user's hundred most recent submissions, the one reply `CheckSubmission` reads |
| Codeforces.UserInfoUrl | src/lib/codeforces.ts:45 | the request for the user's profile, the one reply `ValidateHandle` reads |
| Codeforces.CheckSubmission | src/lib/codeforces.ts:22-41 | solved exactly when the reply has status OK and lists a solving submission; another status, a missing result or a thrown error gives false |
| Codeforces.CheckSubmissionCutoffMonotone | src/lib/codeforces.ts:33 | an earlier cutoff never loses a solve |
| Codeforces.CutoffIsStrict | src/lib/codeforces.ts:33 | a submission made in the cutoff second does not count; one made a second later does |
| Codeforces.MissingContestIdNeverMatches | src/lib/codeforces.ts:31 | a submission whose problem has no contest id prints as "undefined…" and never matches an identifier read from a link |
| Codeforces.ValidateHandle | src/lib/codeforces.ts:43-51 | valid exactly when the profile reply has status OK; a thrown error gives invalid |
| CodeforcesHook.FetchContests | src/hooks/useCodeforces.ts:8-20 | at most five contests, all started, the first ones among the started contests of the list in list order; any status but OK, a missing list or a thrown error gives the empty list |
| CodeforcesHook.FetchContestsFromList | src/hooks/useCodeforces.ts:13-15 | the contests returned are a subsequence of the list the server sent |
| CodeforcesHook.StandingsUrlCarriesHandles | src/hooks/useCodeforces.ts:27-29 | splitting the request's handle parameter at semicolons gives back the handle list when no handle holds a semicolon |
| CodeforcesHook.StandingsUrl | src/hooks/useCodeforces.ts:28 | the standings request for the contest with the handles joined by ';'; `StandingsUrlCarriesHandles` and `SameRequestSameHandles` show the handle list is recoverable from it |
| CodeforcesHook.SameRequestSameHandles | src/hooks/useCodeforces.ts:28 | two non-empty lists of semicolon-free handles give the same request only when they are the same list |
| CodeforcesHook.FailedMessage | src/hooks/useCodeforces.ts:33 | the thrown message is the server's comment when it is non-empty, and never empty |
| CodeforcesHook.FetchContestStandings | src/hooks/useCodeforces.ts:22-41 | no handles fails before any request; a thrown error passes through; FAILED fails with the comment; a reply without rows fails with "Invalid response format"; success exactly when the status is not FAILED and rows are present, returning those rows |
| CodeforcesHook.NoHandlesNoRequest | src/hooks/useCodeforces.ts:23-25 | with no handles the outcome is a failure whatever the server would answer |
| CodeforcesHook.OnlyTheRequestMatters | src/hooks/useCodeforces.ts:27-40 | the outcome depends only on the reply to the one request for these handles |
| CodeforcesHook.NamedHandleAt | src/hooks/useCodeforces.ts:55 | an attempt at a position captures only a word run between "handle " and " not found" |
| CodeforcesHook.NamedHandleAtFinds | src/hooks/useCodeforces.ts:55 | whenever the pattern matches at a position, the attempt there captures that handle |
| CodeforcesHook.NamedHandlePosition | src/hooks/useCodeforces.ts:55 | finds the leftmost position where the pattern matches, or shows there is none |
| CodeforcesHook.NotFoundHandle | src/hooks/useCodeforces.ts:55 | the capture is a non-empty run of word characters that the message names; none exactly when the pattern matches nowhere |
| CodeforcesHook.NotFoundHandleIs | src/hooks/useCodeforces.ts:55 | a match with no match of the pattern to its left is the capture reported |
| CodeforcesHook.NamedImpliesMentioned | src/hooks/useCodeforces.ts:54-55 | a message that names a handle contains "handle", so the substring test never hides a match |
| CodeforcesHook.HandleToDrop | src/hooks/useCodeforces.ts:54-56 | the combined test drops exactly the handle the pattern captures |
| CodeforcesHook.BareMessageNamesHandle | src/hooks/useCodeforces.ts:55 | "handle h not found" names h for every word-character handle h |
| CodeforcesHook.ServerMessageNamesHandle | src/hooks/useCodeforces.ts:55 | Codeforces' own "handles: User with handle h not found" names h |
| CodeforcesHook.OddHandleNeverNamed | src/hooks/useCodeforces.ts:55 | a handle holding a non-word character such as '.' or '-' is never the one captured |
| CodeforcesHook.NoLeadNamesNoHandle | src/hooks/useCodeforces.ts:55 | a message in which "handle " starts nowhere names no handle |
| CodeforcesHook.NoLeadAt | src/hooks/useCodeforces.ts:55 | "handle " does not start where its first, second or seventh character is missing |
| CodeforcesHook.NoHandlesMessageNamesNoHandle | src/hooks/useCodeforces.ts:24 | "No valid handles provided" names no handle, so the retry never prunes on it |
| CodeforcesHook.StandingsFailedMessageNamesNoHandle | src/hooks/useCodeforces.ts:33 | "Failed to fetch standings" names no handle, so a FAILED reply without a comment ends the fetch |
| CodeforcesHook.InvalidFormatMessageNamesNoHandle | src/hooks/useCodeforces.ts:36-38 | "Invalid response format" names no handle, so a reply without rows ends the fetch with the generic error |
| CodeforcesHook.Prune | src/hooks/useCodeforces.ts:57 | the pruned list keeps the others in order and no longer holds the named handle |
| CodeforcesHook.PruneRemovesOnlyNamed | src/hooks/useCodeforces.ts:57 | every copy of the named handle goes, and every other handle keeps its count |
| CodeforcesHook.PruneShrinks | src/hooks/useCodeforces.ts:57 | the list shrinks exactly when the named handle is in it; otherwise it is unchanged |
| CodeforcesHook.PruneDistinct | src/hooks/useCodeforces.ts:57 | the distinct handles left are those before, less the named one |
| CodeforcesHook.PruneMiddle | src/hooks/useCodeforces.ts:57 | pruning the middle of three handles leaves the outer two |
| CodeforcesHook.PruneCounts | src/hooks/useCodeforces.ts:57 | pruning a present handle removes exactly one distinct handle, and one distinct member of any set holding it |
| CodeforcesHook.NamesOnlySentHandles | src/hooks/useCodeforces.ts:49-58 | the condition under which the loop ends: a failed request for any non-empty sub-list of the handles names, if any handle, one that request carried |
| CodeforcesHook.NamesOnlySentNarrows | src/hooks/useCodeforces.ts:57 | the condition carries over from a list to each pruned sub-list |
| CodeforcesHook.NamedHandleWasSent | src/hooks/useCodeforces.ts:55-57 | under the condition, the handle a failure names is in the list, so pruning shrinks it |
| CodeforcesHook.Retry | src/hooks/useCodeforces.ts:43-68 | the error is empty or the generic message; an error comes with no rows; no request is made exactly when the list is empty, and then the result is no rows and no error; when every handle has been dropped the result is no rows and no error |
| CodeforcesHook.RetryKeepsOrder | src/hooks/useCodeforces.ts:46-59 | the last request's handles are a subsequence of the handles given |
| CodeforcesHook.RetryEndsOnLastRequest | src/hooks/useCodeforces.ts:49-63 | the rows returned are those of the last request's success; an error means the last request failed naming no handle |
| CodeforcesHook.RetryDropsOnlyNamed | src/hooks/useCodeforces.ts:49-64 | only unknown handles are dropped, and the number of requests is at most the number of distinct handles and at most one more than the number of distinct unknown ones |
| CodeforcesHook.RetryDropsGhostUser | src/hooks/useCodeforces.ts:43-68 | one unknown handle between two known ones costs one extra request, and the rows of the second request are returned |
| CodeforcesHook.GhostServerIsWellBehaved | src/hooks/useCodeforces.ts:49-58 | a server that rejects `[a, g, b]` naming `g` and answers everything else meets the condition and the example's replies, so the example is not vacuous |
| CodeforcesHook.GhostServerNamesSent | src/hooks/useCodeforces.ts:55 | the one request that server rejects names a handle the request carried |
| CodeforcesHook.StandingsState.constructor | src/hooks/useCodeforces.ts:5-6 | not loading, and no error |
| CodeforcesHook.StandingsState.FetchStandingsWithRetry | src/hooks/useCodeforces.ts:43-68 | the loop returns the rows and sets the error that `Retry` specifies, and ends with the loading flag cleared |
| AdminDashboard.AddProblemOutcome | src/pages/AdminDashboard.tsx:79-106 | added exactly when the link yields an identifier and the insert succeeds; a bad link is refused before inserting; 23505 means the problem exists, and any other error is a generic failure |
| AdminDashboard.AddUserOutcome | src/pages/AdminDashboard.tsx:117-145 | added exactly when the handle validates and the insert succeeds; an unknown handle is refused before inserting; 23505 means the user exists, and any other error is a generic failure |
| AdminDashboard.ParseBulkLine | src/pages/AdminDashboard.tsx:161-162 | a parsed line has a non-empty name and handle and at least two comma-separated fields |
| AdminDashboard.LineWithoutCommaSkipped | src/pages/AdminDashboard.tsx:161-162 | a line without a comma gives no user |
| AdminDashboard.LineGivesTrimmedFields | src/pages/AdminDashboard.tsx:161-162 | `name,handle[,…]` gives the trimmed first two fields when neither is blank, and nothing otherwise; further fields are ignored |
| AdminDashboard.LineUser | src/pages/AdminDashboard.tsx:161-170 | a line yields a user exactly when it parses and its handle validates; the user has the parsed name and handle and 0 points |
| AdminDashboard.BulkUsers | src/pages/AdminDashboard.tsx:157-172 | at most one user per line |
| AdminDashboard.BulkUsersSnoc | src/pages/AdminDashboard.tsx:160-172 | one more line appends its user, if any, after the others |
| AdminDashboard.BulkUsersAre | src/pages/AdminDashboard.tsx:157-172 | a user is collected exactly when some line yields it; each has 0 points, a non-empty name and handle, and a handle Codeforces knows |
| AdminDashboard.CollectBulkUsers | src/pages/AdminDashboard.tsx:157-172 | the loop collects exactly `BulkUsers` of the lines |
| AdminDashboard.BulkAddOutcome | src/pages/AdminDashboard.tsx:174-192 | added exactly when some user was collected and the insert succeeds; no user gives "No valid users found"; every insert error, 23505 included, gives "Failed to add users" |
| AdminDashboard.IsEligible | src/pages/AdminDashboard.tsx:202-205 | a problem is swept exactly when the current time is strictly after the start of its day |
| AdminDashboard.Cutoff | src/pages/AdminDashboard.tsx:214 | the cutoff is the second that holds the start of the day |
| AdminDashboard.CutoffMatchesDayStart | src/pages/AdminDashboard.tsx:214 | a submission in a later second than the day's start is after the cutoff; on a whole-second start the two tests agree |
| AdminDashboard.Solves | src/pages/AdminDashboard.tsx:205-229 | the pair is recorded exactly when the problem is eligible, its link yields an identifier, `checkSubmission` says solved at the day's cutoff second, and the upsert goes through |
| AdminDashboard.Upsert | src/pages/AdminDashboard.tsx:217-227 | an upsert on (user id, problem id) writes a solved row stamped with the time, replacing any row with that key |
| AdminDashboard.SweepUsers | src/pages/AdminDashboard.tsx:210-233 | the inner loop as a fold over the users; `SweepUsersClosedForm` gives its result |
| AdminDashboard.SweepProblems | src/pages/AdminDashboard.tsx:201-234 | the outer loop as a fold over the problems; `SweepClosedForm` gives its result |
| AdminDashboard.Sweep | src/pages/AdminDashboard.tsx:201-234 | the whole sweep, with `Solves` deciding each pair |
| AdminDashboard.SweepUsersSnoc | src/pages/AdminDashboard.tsx:210-233 | one more user upserts after the others |
| AdminDashboard.SweepProblemsSnoc | src/pages/AdminDashboard.tsx:201-234 | one more problem is swept after the others |
| AdminDashboard.SweepUsersClosedForm | src/pages/AdminDashboard.tsx:210-233 | for one problem, the table after the loop has the solved row for each hit and every other row unchanged |
| AdminDashboard.SweepClosedForm | src/pages/AdminDashboard.tsx:201-234 | after the nested loops, each hit has the solved row and every other row is unchanged |
| AdminDashboard.SweepUsersNoHit | src/pages/AdminDashboard.tsx:205-208 | a problem no user is found to have solved leaves the table as it was |
| AdminDashboard.SkippedProblemHasNoHit | src/pages/AdminDashboard.tsx:205-208 | a problem whose day has not begun, or whose link yields no identifier, is solved by nobody |
| AdminDashboard.EligibleProblemDecision | src/pages/AdminDashboard.tsx:210-229 | on a swept problem, a pair is a hit exactly when `checkSubmission` says solved at the day's cutoff second and the upsert goes through |
| AdminDashboard.SweepOnlyAdds | src/pages/AdminDashboard.tsx:217-227 | the sweep deletes no row and never clears a solved flag, and every row it adds is solved |
| AdminDashboard.SweepLeavesOthers | src/pages/AdminDashboard.tsx:217-227 | a pair not found solved keeps its row, or stays absent |
| AdminDashboard.SweepWritesOnlySolved | src/pages/AdminDashboard.tsx:201-233 | a row is written or changed only for a user and an eligible problem solved after its day began; the row is solved and stamped with the sweep's time |
| AdminDashboard.SweepAbsorbs | src/pages/AdminDashboard.tsx:220-227 | a second sweep that finds at least the pairs of the first overwrites all of its rows |
| AdminDashboard.SweepIdempotent | src/pages/AdminDashboard.tsx:198-243 | sweeping twice with the same replies is sweeping once; a later sweep that finds the same pairs keeps the same keys and the same solved flags, and any row that differs is a solved row whose time is the later sweep's |
| AdminDashboard.SweepProblemUsers | src/pages/AdminDashboard.tsx:210-233 | the inner loop computes `SweepUsers` for the problem |
| AdminDashboard.SweepSubmissions | src/pages/AdminDashboard.tsx:201-234 | the nested loops with both skips compute `Sweep` of the table |
| AdminDashboard.FilteredUsers | src/pages/AdminDashboard.tsx:245-248 | the listed users keep their order and each passes the search |
| AdminDashboard.FilteredUsersAre | src/pages/AdminDashboard.tsx:245-248 | a user is listed exactly when in the list and passing the search, as often as in the list |
| AdminDashboard.EmptySearchKeepsAll | src/pages/AdminDashboard.tsx:245-248 | an empty search lists every user |
| AdminDashboard.MatchesSearch | src/pages/AdminDashboard.tsx:245-248 | the lower-cased name or handle contains the lower-cased term |
| AdminDashboard.SolvedCount | src/pages/AdminDashboard.tsx:464-466 | the count never exceeds the number of submissions listed |
| AdminDashboard.CountsFor | src/pages/AdminDashboard.tsx:465 | a submission counts when it is for the problem and solved |
| AdminDashboard.SolvedCountAdds | src/pages/AdminDashboard.tsx:464-466 | the count adds up over a split list and counts one for each solved submission of the problem, so it is their number |
| AdminDashboard.Dashboard.constructor | src/pages/AdminDashboard.tsx:11-22 | empty forms, no flags and no message; the selected day is today |
| AdminDashboard.Dashboard.HandleAddProblem | src/pages/AdminDashboard.tsx:72-110 | nothing happens without a date; otherwise the row is inserted and the link cleared, or the message of `AddProblemOutcome` is shown and nothing inserted; every stored problem link keeps yielding an identifier |
| AdminDashboard.Dashboard.HandleAddUser | src/pages/AdminDashboard.tsx:112-149 | the user is inserted with 0 points and the form cleared, or the message of `AddUserOutcome` is shown and nothing inserted |
| AdminDashboard.Dashboard.HandleBulkAddUsers | src/pages/AdminDashboard.tsx:151-196 | the users of the valid lines are inserted together, the text cleared and the form closed, or the message of `BulkAddOutcome` is shown and nothing inserted |
| AdminDashboard.Dashboard.CheckAllSubmissions | src/pages/AdminDashboard.tsx:198-243 | the submissions table becomes `Sweep` of the old table over the page's problems and users, and the checking flag ends cleared |
| Text.Split | src/pages/AdminDashboard.tsx:157 | `split` gives at least one field, none holding the separator, and joining them gives back the text |
| Text.SplitOfJoin | src/hooks/useCodeforces.ts:28 | splitting the joined fields gives them back when none holds the separator |
| Text.Trim | src/pages/AdminDashboard.tsx:161 | `trim` leaves no whitespace at either end |
| Text.TrimIsPaddedSlice | src/pages/AdminDashboard.tsx:161 | the trimmed text is a slice of the input with only whitespace around it |
| Text.Contains | src/hooks/useCodeforces.ts:54 | `includes` holds exactly when the text occurs at some position |
| Text.ToLower | src/pages/AdminDashboard.tsx:246-247 | lower-casing keeps the length and folds each character |
| Text.Filter | src/hooks/useCodeforces.ts:14 | `filter` keeps an ordered subsequence whose elements all pass |
| Text.FilterMembers | src/hooks/useCodeforces.ts:14 | an element is kept exactly when it is in the list and passes |
| Text.FilterCount | src/hooks/useCodeforces.ts:57 | an element that passes keeps its count; one that fails has count 0 |
| Text.NatToDecimal | src/lib/codeforces.ts:31 | a contest id prints as a non-empty digit string of the same value, with no leading zero |
| Text.SubsequenceMembers | src/hooks/useCodeforces.ts:57 | every element of a sub-list is an element of the whole |

## Left out

- Network and JSON are not modelled. Every `fetch` and `response.json()` is replaced by the decoded reply for the request URL, or the message of the error it throws. A reply whose `result` has the wrong JSON type is not modelled.
- Supabase is not modelled. Each insert or upsert is replaced by the error the database returns, if any. Reads of the tables are left out, as are the refreshes `fetchProblems`, `fetchUsers` and `fetchSubmissions` that follow a write. The page's lists stay as the constructor set them.
- React is not modelled: `useState` setters, effects, JSX rendering, `e.preventDefault`, and `console` logging. The admin route guard, src/components/AdminRoute.tsx, is not part of this model. The `await`s run one after another, so the model runs them in order. Intermediate `loading` values inside one handler are not observable in the model.
- AdminDashboard.Dashboard.CheckAllSubmissions: the source reads the clock once per problem (`new Date()`) and again for each upsert's `submitted_at`. The model uses one time, `nowMs`. An ISO timestamp is modelled as its millisecond count.
- AdminDashboard.IsEligible: the model takes the date arithmetic as an input, `SweepEnv.dayStartMs`. That arithmetic is `startOfDay(new Date(problem.date))` in the browser's time zone, and `format(selectedDate, 'yyyy-MM-dd')` when adding a problem. The selected day is modelled as the formatted string.
- AdminDashboard.Dashboard.CheckAllSubmissions: the `catch` at src/pages/AdminDashboard.tsx:238-239 is not modelled, because no call in the sweep throws. `getProblemIdFromUrl` and `checkSubmission` catch their own errors. An upsert reports its error as a value. `fetchSubmissions` and `fetchUsers` catch theirs (src/pages/AdminDashboard.tsx:44-70). An unparsable date gives an Invalid Date, so `isAfter` is false and the problem is skipped; the model expresses that as `dayStartMs >= nowMs`.
- Text.ToLower: only ASCII letters are folded. JavaScript's `toLowerCase` also folds other Unicode letters, so a search by a non-ASCII name may differ.
- CodeforcesHook.Retry: the model requires `NamesOnlySentHandles`: a failed request for any non-empty sub-list of the handles names, if any handle, one that request carried. If a server names a handle the request did not carry, pruning leaves the list unchanged (`PruneShrinks`) and the source asks the same question forever. One way this happens is a stored handle holding ';': the request splits it in two, and the server may name one of the parts.
- CodeforcesHook.ContestStanding: rows are passed through unchanged, so only a few fields of a standings row are kept. The contest list's other endpoints, `../types/codeforces`, and the contest and standings pages that display these results are not part of this model.
- Codeforces.GetProblemIdFromUrl: the `i` flag is modelled for ASCII letters only. Both patterns are ASCII, and without the `u` flag no other character folds onto them.
- Three points where the code departs from the behaviour one might expect of it; the model follows the code:
  - A problem dated today is swept as soon as its day has begun. The code tests `isAfter(now, startOfDay(date))`; it does not wait until the day is over.
  - Pruning removes every copy of the named handle, because the code filters with `!==`. It does not remove only one occurrence.
  - A handle is valid when the profile reply's status is OK. The code does not check that the reply lists a user with that handle.
