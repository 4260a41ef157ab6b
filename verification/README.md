# Verified models of the SIHL ONE core

This project models the parts of the SIHL ONE CRM where a wrong branch costs the most, and proves what
those parts are for. Code that works by changing rows is a class whose methods change its fields, each
method tied to a transition function; code with a loop is a method with that loop; the rest is functions.
The theorems are about the transition functions: one call, every run of calls, every input.

| files | what they model |
|---|---|
| `SessionTable`, `SessionRuns`, `SessionAccess`, `SessionRaces`, `AuthService` | sign-in, refresh-token rotation, logout, password change and reset |
| `RecoveryCodes`, `MfaTables`, `MfaService`, `MfaRuns`, `MfaAccounts` | second factor and recovery codes |
| `EditDistance`, `Names`, `Identity`, `Matching`, `MatchEvidence` | duplicate matching |
| `DelimitedText`, `LooseText` | the CSV parser and separator detection |
| `ImportRows`, `ImportColumns`, `ImportBatch`, `ImportVerdicts` | mapping, validating and committing an import |
| `LeadMerge` | merging two leads |
| `OrgPaths`, `RowScope`, `TreeOrder` | the organisation tree, its materialised paths, row filters on them, its display order |
| `Assignment`, `AssignmentCriteria`, `AssignmentRules`, `AssignmentRuns` | routing rules and their fairness |
| `Allocation`, `AllocationAdvice` | owner recommendations |
| `Rbac`, `Hierarchy`, `HierarchyAccounts`, `Reporting` | roles, scopes, escalation guards, reporting lines |
| `Doubles`, `Money` | rupee amounts and totals through double precision |
| `Text`, `Sorting` | strings, distinctness, stable sorting |

`dafny verify dfyconfig.toml` checks everything.

## Where the code and its promises part

The code is modelled as it is. Where a promise does not hold in full, an input is given on which it fails, and
the exact condition under which it holds is proved.

- A table whose text starts with a byte-order mark in its first cell, unquoted, comes back without it.
  `DelimitedText.RoundTrip` is an equivalence with exactly that exception, `BomIsLost` an instance.
- `rotate` reads the session outside its transaction, so a write may come when the session is no longer live.
  What the table says stays consistent even then: tokens are distinct, rotated sessions name a later one of
  the same user, chains of links do not branch and have at most one live session each
  (`SessionRaces.FineRunValid`). What is lost, and exactly when: if the write retires a session that is not
  live any more, the user gains a live session (`LiveCountKeptIff`) and a revoked row changes
  (`KeptThroughoutIff`). If it retires one that a new password cut off, the promise of the new password falls:
  over every run, earlier tokens never obtain anything exactly if no write does that (`NeverObtainedIff`,
  `ChangedPasswordHoldsIff`, `ResetPasswordHoldsIff`), and `PasswordChangeUndone` is a run in which one does.
  If the session already had a successor, that one is left without a predecessor, and the chains are no longer
  those of the sign-in calls (`RootsAreSignInsIff`, and `InterleavedRotationsFork` for a run).
- `refresh` refuses a suspended or deleted user, but follows the chain of a token rotated moments ago before it
  looks, although the comment on `rotate` has the checks satisfied by then. `SessionRuns.BarredUserObtainsIff`
  says exactly when such a user obtains new tokens, `SuspendedUserRefreshes` is a case.
- The comments on amounts say a rupee value never passes through a float. `Number(s) * 100` makes it pass
  through two roundings, and the total through another. It is exact all the same up to 2^46 rupees in the
  sum, and that bound cannot be raised by a single paisa (`Money.TotalIsExact`, `Money.BoundIsSharp`).
- Merging away a lead that is itself no longer active can fill the survivor with a PAN a third active lead
  holds; the unique index then undoes the merge. `LeadMerge.IndexesBetweenWrites` says exactly when,
  `LostDuplicateTrips` is a case.
- That nobody can grant a role beyond their own has one gap in general: the event switch gives a person
  `event:view` without a role. `Hierarchy.NothingGainedIff` says for which role matrices that lets a
  permission be handed on, `EventViewLeaks` is one that does; the shipped one does not
  (`Hierarchy.ShippedGainsNothing`).
- A reporting line is examined only when a manager is named for somebody who holds a designation. That lets
  loops in, for instance three ways: an account without a designation is put under its own report
  (`Reporting.UndesignatedLoop`); a manager is demoted below a report and then put under it (`DemotionLoop`);
  somebody is demoted and made their own manager in one request, which compares the new level with the old
  one (`OwnManagerLoop`). The lines stay valid exactly as long as every level that changes stays below the
  manager kept and above all reports (`UpdateKeepsLinesIff`, `RelevelKeepsLinesIff`, `ValidThroughoutIff`),
  and valid lines exclude loops exactly if everybody holds a designation (`RuleExcludesLoopsIff`).
- The position an update leads to is examined only if the account then has both a designation and a unit. So a restricted person's update leaves an account within reach exactly if it has a designation
  afterwards, or its unit lies inside all the same (`Hierarchy.EditStaysWithinIff`); `UndesignatedMovesOut` is
  a case in which it does not.
- The move of an organisation unit tests for a loop although the rule on unit types already excludes one
  (`OrgPaths.TypeRuleExcludesLoops`).
- `commit` counts a lead as imported before it writes the row's status. If that write fails, the row is
  counted a second time, as skipped, and marked invalid although the lead exists. The counters add up
  exactly when that never happens (`ImportBatch.Batch.Commit`, `ImportBatch.UnrecordedNone`);
  `UnrecordedIsCountedTwice` is a batch in which it does.
- The length comparison in `assertTargetsAreAssignable` reads like an existence test; it also refuses a
  person named twice, and that is what round-robin fairness rests on.

## Assumptions

- Each endpoint call is one atomic step, except where a lemma says otherwise.
- Hashes are injective, so rows are keyed by what was hashed. Tokens, row ids, the clock and random answers
  are parameters; a token or code hash already present trips the unique index. Whether six digits are a
  valid authenticator code is a parameter.
- `localeCompare` is an arbitrary total preorder; sorting is stable.
- A character is a Dafny `char`; the source's strings are UTF-16 code units. Case is mapped for ASCII letters.
- A double is rounded to nearest as in section 4.3.1 of IEEE 754-2019; ties may go either way. The
  similarity ratio, ratings and fit scores are real numbers.

## Model

| member | source | states |
|---|---|---|
| `EditDistance.EditDistance` | packages/contracts/src/matching.ts:127-148 | the two-row loop returns the length of a shortest insert/delete/substitute script: some script of that cost exists and none is cheaper |
| `EditDistance.DistanceIsShortestScript` | packages/contracts/src/matching.ts:127-148 | the recurrence the loop fills in is the minimum over all edit scripts |
| `EditDistance.CheapestScript` | packages/contracts/src/matching.ts:127-148 | a script that transforms one string into the other at exactly that cost |
| `EditDistance.DistanceIsLowerBound` | packages/contracts/src/matching.ts:127-148 | no script whatever costs less than the distance |
| `EditDistance.DistanceZeroIffEqual` | packages/contracts/src/matching.ts:127-148 | distance 0 exactly for equal strings |
| `EditDistance.DistanceSymmetric` | packages/contracts/src/matching.ts:127-148 | the distance does not depend on direction |
| `EditDistance.DistanceTriangle` | packages/contracts/src/matching.ts:127-148 | triangle inequality: the distance is a metric |
| `EditDistance.DistanceAtMostLonger` | packages/contracts/src/matching.ts:127-148 | never more than the longer length, so a similarity is never negative |
| `EditDistance.DistanceAtLeastDifference` | packages/contracts/src/matching.ts:127-148 | never less than the difference in length |
| `Names.FieldOrderDoesNotMatter` | packages/contracts/src/matching.ts:104-112 | first and last name swapped give the same normalised name, honorifics and punctuation aside |
| `Identity.MobileSchemaAgrees` | packages/contracts/src/common.ts:11-32 | every number the edge schema accepts is found by the last-ten-digits normaliser as exactly the number the schema stores |
| `Identity.StoredMobile` | packages/contracts/src/matching.ts:76-81 | a stored mobile is its own key |
| `Identity.PanSchemaAgrees` | packages/contracts/src/common.ts:37-41 | every PAN the schema accepts is found again, from the input and from the stored value |
| `Identity.StoredPan` | packages/contracts/src/matching.ts:89-93 | a stored PAN is its own key |
| `Identity.MobileAcceptedIff` | packages/contracts/src/common.ts:11-32 | a number is accepted exactly as itself or behind 0, 91 or a plus sign, spaces and hyphens anywhere, and stored as its ten digits |
| `Identity.PanAcceptedIff` | packages/contracts/src/common.ts:37-41 | a PAN is accepted in either case, exactly of the form five letters, four digits, one letter |
| `Matching.SimilarityRange` | packages/contracts/src/matching.ts:151-157 | similarity lies between 0 and 1 and is 1 only for equal, non-empty names |
| `Matching.SimilaritySymmetric` | packages/contracts/src/matching.ts:151-157 | similarity is symmetric |
| `Matching.CloseNames` | packages/contracts/src/matching.ts:151-157 | the 0.85 threshold in whole numbers: at most three edits per twenty characters, neither name over 80 long unless equal |
| `Matching.ScoreMatch` | packages/contracts/src/matching.ts:170-254 | the signal-by-signal scorer computes the declarative score the theorems are about |
| `Matching.DefiniteIffSameIdentity` | packages/contracts/src/matching.ts:170-254 | the cap works: a score is definite exactly on a shared PAN or mobile, whatever else matches, and never above 100 |
| `Matching.ScoreSymmetric` | packages/contracts/src/matching.ts:170-254 | the score does not depend on which record is the incoming one |
| `Matching.BestIsBest` | packages/contracts/src/matching.ts:261-271 | the head of the result is a highest-scoring candidate worth attention, and is missing only if there is none |
| `Matching.SkipIffSameIdentity` | packages/contracts/src/matching.ts:283-288 | SKIP is suggested exactly when some candidate has the same normalised PAN or mobile |
| `MatchEvidence.NameWordsIff` | packages/contracts/src/matching.ts:104-112 | the words a name is compared by: those of both fields, letters only, without the nine honorifics |
| `MatchEvidence.SameNormalNameIff` | packages/contracts/src/matching.ts:104-112 | two names are normalised alike exactly if they have the same words, each as often |
| `MatchEvidence.TitleDoesNotMatter` | packages/contracts/src/matching.ts:104-112 | a title in front of a name, in any case and with or without a stop, adds and removes no word |
| `MatchEvidence.ScoreIs` | packages/contracts/src/matching.ts:170-254 | the points of every pair of records: 100 for the PAN, 95 for the mobile, otherwise the hints up to 89, where city and last digits count only beside a close name |
| `MatchEvidence.ConfidenceIff` | packages/contracts/src/matching.ts:170-254 | without a shared identity a match is probable exactly with a close name and the same e-mail, or with the same name, city and last four digits; an e-mail alone never makes it probable; and exactly when it is possible |
| `MatchEvidence.SuggestionIff` | packages/contracts/src/matching.ts:283-288 | REVIEW is suggested exactly when no candidate is the same person and some candidate has that much evidence in common |
| `MatchEvidence.ShownMatches` | packages/contracts/src/matching.ts:261-271 | what is shown: all matches of 35 points or more up to the limit, the best first |
| `DelimitedText.ParseDelimited` | packages/contracts/src/import.ts:28-83 | the character loop computes the scanner that the round trip is about, for every text and either a given or the detected separator |
| `DelimitedText.RoundTrip` | packages/contracts/src/import.ts:28-83 | for every table, separator, quoting choice and row end as in section 2 of RFC 4180: parsing what was printed gives the rows minus the blank ones, exactly when no byte-order mark is lost |
| `DelimitedText.SeparatorDoesNotMatter` | packages/contracts/src/import.ts:28-83 | any two separators give the same table back |
| `DelimitedText.BomIsLost` | packages/contracts/src/import.ts:28-34 | a table that does not come back: a first cell starting with a byte-order mark |
| `DelimitedText.DetectDelimiter` | packages/contracts/src/import.ts:86-96 | the stable sort by count picks the first candidate in the source's order that no other beats in the first line, or the comma |
| `DelimitedText.DetectedIff` | packages/contracts/src/import.ts:86-96 | in every printed table, with any header and with or without a byte-order mark, the separator is detected exactly if it outnumbers the other candidates in the first line, or ties with later ones |
| `DelimitedText.DetectedRoundTrip` | packages/contracts/src/import.ts:28-96 | whenever it does, the round trip works without naming the separator, with the same single exception |
| `DelimitedText.ClearHeaderPicks` | packages/contracts/src/import.ts:86-96 | texts free of candidates are enough: for the comma always, for every separator with two columns on the first line |
| `DelimitedText.HeaderOccurrences` | packages/contracts/src/import.ts:86-96 | what is counted in the first line of a printed table: each candidate as often as the texts on that line hold it, quoting aside, and the separator once more per gap |
| `DelimitedText.Filter` | packages/contracts/src/import.ts:81-83 | the filter keeps exactly the rows that are not blank, in order |
| `LooseText.OneLooseCell` | packages/contracts/src/import.ts:28-83 | a quoted stretch anywhere in a cell is read as part of the cell, for every text |
| `LooseText.OneUnclosedCell` | packages/contracts/src/import.ts:28-83 | a quote that is never closed takes all the rest, separators and line ends included, into its cell |
| `LooseText.StrayReturn` | packages/contracts/src/import.ts:68-69 | outside quotes a carriage return is no character at all |
| `LooseText.KeptIff` | packages/contracts/src/import.ts:81-83 | a row is kept exactly if one of its cells has something other than white space |
| `AuthService.AuthService.SignIn` | apps/api/src/modules/auth/auth.service.ts:231-290 | the session part of a sign-in is the transition the run theorems cover |
| `AuthService.AuthService.FollowChain` | apps/api/src/modules/auth/auth.service.ts:385-401 | the loop over `replacedById` is the ten-hop walk that `BoundedWalkIsWalk` compares with the unbounded one |
| `AuthService.AuthService.RotateSession` | apps/api/src/modules/auth/auth.service.ts:409-466 | both writes of a rotation, or none |
| `AuthService.AuthService.RefreshTokens` | apps/api/src/modules/auth/auth.service.ts:298-376 | the whole branching of a refresh call, in place, is the transition whose outcomes `LiveTokenOutcomes` and `RevokedTokenOutcomes` list |
| `AuthService.AuthService.LogoutSession` | apps/api/src/modules/auth/auth.service.ts:468-474 | only a live session is marked, and only that one |
| `AuthService.AuthService.LogoutAll` | apps/api/src/modules/auth/auth.service.ts:476-488 | afterwards the user has no live session, and the number reported is how many there were |
| `AuthService.AuthService.ChangeOwnPassword` | apps/api/src/modules/auth/auth.service.ts:490-519 | the transition `ChangedPasswordCutsOff` is about; a wrong current password changes nothing |
| `AuthService.AuthService.RequestReset` | apps/api/src/modules/auth/auth.service.ts:536-602 | silent without an active account, without an address or past five links an hour, and otherwise one new link |
| `AuthService.AuthService.ResetByLink` | apps/api/src/modules/auth/auth.service.ts:649-712 | the transition `ResetPasswordCutsOff` and `ResetSpendsAllLinks` are about |
| `AuthService.AuthService.ResolvePrincipal` | apps/api/src/modules/auth/principal.service.ts:28-94 | a session authenticates only an active, undeleted user, live and unexpired, and is then touched |
| `SessionRuns.StepKeeps` | apps/api/src/modules/auth/auth.service.ts:231-488 | every call keeps: distinct tokens, rotated sessions name a later one of the same user, no branching; sessions are never dropped, re-issued or revived |
| `SessionRuns.RunKeeps` | apps/api/src/modules/auth/auth.service.ts:231-712 | the same over every run of calls |
| `SessionRuns.LeadsToLater` | apps/api/src/modules/auth/auth.service.ts:409-466 | along a chain sessions get later, belong to one user, and all but the end are revoked as rotated |
| `SessionRuns.OneLivePerChain` | apps/api/src/modules/auth/auth.service.ts:409-466 | a sign-in's chain has at most one live session |
| `SessionRuns.ChainsNeverMeet` | apps/api/src/modules/auth/auth.service.ts:409-466 | two chains that meet are one chain |
| `SessionRuns.SignInOf` | apps/api/src/modules/auth/auth.service.ts:409-466 | every session belongs to the chain of exactly one session that replaced nothing; `SessionRaces.SignInCallOf` ties those to the sign-in calls |
| `SessionRuns.WalkFindsLiveEnd` | apps/api/src/modules/auth/auth.service.ts:385-401 | the unbounded walk terminates and finds the live end of the chain if there is one |
| `SessionRuns.BoundedWalkIsWalk` | apps/api/src/modules/auth/auth.service.ts:385-401 | the bounded walk is the unbounded one whenever the end is within its bound |
| `SessionRuns.SignInWorks` | apps/api/src/modules/auth/auth.service.ts:231-290 | the token of a sign-in obtains new tokens and its session resolves, in time; the user has exactly one live session more |
| `SessionRuns.LiveTokenOutcomes` | apps/api/src/modules/auth/auth.service.ts:355-376 | exactly what a live token leads to: refusal without a trace, an idle session ended, or one rotation that leaves as many live sessions |
| `SessionRuns.RevokedTokenOutcomes` | apps/api/src/modules/auth/auth.service.ts:312-354 | a revoked token either rotates the live end of its chain within the grace window, with the number of live sessions unchanged (or nothing happens, if that has expired), or the user has no live session left |
| `SessionRuns.BarredUserObtainsIff` | apps/api/src/modules/auth/auth.service.ts:312-358 | a suspended or deleted user obtains new tokens exactly through a token rotated moments ago whose chain still ends in an unexpired live session within reach |
| `SessionRuns.SuspendedUserRefreshes` | apps/api/src/modules/auth/auth.service.ts:312-358 | sign-in, refresh, suspension: the second token is refused, the first is honoured |
| `SessionRuns.CutOffTokenDenied` | apps/api/src/modules/auth/auth.service.ts:312-354 | once a user's sessions were revoked other than by rotation, no earlier token obtains anything, grace window or not |
| `SessionRuns.CutOffForGood` | apps/api/src/modules/auth/auth.service.ts:298-488 | and that survives every continuation |
| `SessionRuns.EndedForGood` | apps/api/src/modules/auth/auth.service.ts:312-354 | a session ended for any reason but rotation neither resolves nor obtains tokens in any continuation |
| `SessionRuns.LoggedOutForGood` | apps/api/src/modules/auth/auth.service.ts:468-474 | signing out ends that one session, for good |
| `SessionRuns.ChangedPasswordCutsOff` | apps/api/src/modules/auth/auth.service.ts:490-519 | after a password change no earlier token obtains new ones and no earlier session resolves, in any continuation |
| `SessionRuns.ResetPasswordCutsOff` | apps/api/src/modules/auth/auth.service.ts:649-712 | the same after a reset |
| `SessionRuns.ResetSpendsAllLinks` | apps/api/src/modules/auth/auth.service.ts:649-712 | after a reset no earlier link of that user works, in any continuation |
| `SessionRuns.RequestedLinkResets` | apps/api/src/modules/auth/auth.service.ts:536-712 | a requested link used in time sets the password, and over every run that does not write the user's record again, that password and no other is taken as the current one |
| `SessionAccess.OthersLeaveAlone` | apps/api/src/modules/auth/auth.service.ts:231-712 | over every run of calls that name neither a user nor any of the sessions and links of that user, the record, the sessions and the links stay exactly as they are, and none are added |
| `SessionAccess.ChangedPasswordIsCurrent` | apps/api/src/modules/auth/auth.service.ts:490-519 | a change is accepted exactly for the current password of a user who is not deleted; over every run that leaves the record alone, the new password and no other is then taken as current; no other record is touched |
| `SessionAccess.BarredNeverResolves` | apps/api/src/modules/auth/principal.service.ts:28-43 | over every run that leaves the record of a suspended or deleted user alone, no session id acts for that user |
| `SessionAccess.ExpiredNeverResolves` | apps/api/src/modules/auth/principal.service.ts:40-43 | over every run, a session never acts from its expiry on, and never for anybody but its owner |
| `SessionAccess.IdleSinceActivity` | apps/api/src/modules/auth/auth.service.ts:360-372 | idleness counts from the last activity, be it sign-in, refresh or the touch of a request: over every run without another touch the refresh works exactly within the limit, and beyond it ends the session |
| `SessionAccess.SignInIff` | apps/api/src/modules/auth/auth.service.ts:231-290 | a sign-in succeeds exactly for a known user and a token nobody has, and adds one fresh session |
| `SessionAccess.IssuedSession` | apps/api/src/modules/auth/auth.service.ts:409-466 | tokens come with one fresh session of the same owner; the live end of the chain is retired in its favour, and no other row changes |
| `SessionAccess.UnknownTokenDenied` | apps/api/src/modules/auth/auth.service.ts:298-355 | a token nobody holds obtains nothing and changes nothing |
| `SessionAccess.EndedRowsSayWhy` | apps/api/src/modules/auth/auth.service.ts:298-712 | every call either ends a session, with its own time and reason, or touches it, or leaves it as it is |
| `SessionAccess.SignedOutEverywhereForGood` | apps/api/src/modules/auth/auth.service.ts:476-488 | after signing out everywhere, or a cleared second factor, no earlier token or session id works in any continuation |
| `SessionAccess.RequestIff` | apps/api/src/modules/auth/auth.service.ts:536-602 | a link, good for thirty minutes, is sent exactly to a user who may act, has an e-mail address and was sent fewer than five in the last hour |
| `SessionAccess.AtMostFivePerHour` | apps/api/src/modules/auth/auth.service.ts:536-602 | over every run, even with clocks out of order, nobody is sent more than five links within one hour |
| `SessionAccess.LinkWorksIff` | apps/api/src/modules/auth/auth.service.ts:649-712 | after every run, a requested link resets exactly if it is unused, thirty minutes have not passed and the user may act |
| `SessionAccess.ResetWrites` | apps/api/src/modules/auth/auth.service.ts:649-712 | a reset writes the password, marks every unused link of the user with its time, ends every live session of the user, and nothing else |
| `SessionAccess.LinksChangeOnlyBy` | apps/api/src/modules/auth/auth.service.ts:536-712 | no call but a request or a reset touches any link |
| `SessionRaces.FineRunKeeps` | apps/api/src/modules/auth/auth.service.ts:409-466 | with the read and the writes of a rotation as separate steps, from any table: rotated sessions still name a later one of the same user, and nothing is revived |
| `SessionRaces.FineRunValid` | apps/api/src/modules/auth/auth.service.ts:409-466 | and the whole invariant of the table survives every interleaving: distinct tokens, no branching, at most one live session at the end of a chain of links |
| `SessionRaces.LiveCountKeptIff` | apps/api/src/modules/auth/auth.service.ts:428-448 | a write leaves the number of live sessions as it was exactly if the session it retires is still live; otherwise there is one more; other users are never affected |
| `SessionRaces.CutOffStaysIff` | apps/api/src/modules/auth/auth.service.ts:409-466 | over every run: the sessions a new password cut off stay cut off exactly if no write retires one of them; once undone, the cut is undone for good |
| `SessionRaces.NeverObtainedIff` | apps/api/src/modules/auth/auth.service.ts:298-466 | over every run: their tokens never obtain anything, at any moment, exactly under the same condition |
| `SessionRaces.ChangedPasswordHoldsIff` | apps/api/src/modules/auth/auth.service.ts:490-519 | so the promise of a changed password holds in every interleaving exactly if no rotation still under way retires one of the sessions of before |
| `SessionRaces.ResetPasswordHoldsIff` | apps/api/src/modules/auth/auth.service.ts:649-712 | the same for a reset |
| `SessionRaces.LateWriteIsHonoured` | apps/api/src/modules/auth/auth.service.ts:312-354 | right after a write, and within the grace window, the token it retired obtains new tokens whatever had been done to that session before |
| `SessionRaces.PasswordChangeUndone` | apps/api/src/modules/auth/auth.service.ts:409-519 | sign-in, password change, late write: the old token, refused before the write, is honoured after it |
| `SessionRaces.KeptThroughoutIff` | apps/api/src/modules/auth/auth.service.ts:428-448 | over every run: no revoked session is touched at any step exactly if every write hits a live session |
| `SessionRaces.RootsAreSignInsIff` | apps/api/src/modules/auth/auth.service.ts:409-466 | over every run: the sessions without a predecessor are exactly those the sign-in calls opened, if and only if no write retires a session that already had a successor |
| `SessionRaces.SignInCallOf` | apps/api/src/modules/auth/auth.service.ts:231-290 | from an empty table, as long as that holds, every session belongs to the chain of exactly one sign-in call, and each such chain has at most one live session |
| `SessionRaces.AtomicRunsAreFine` | apps/api/src/modules/auth/auth.service.ts:409-466 | runs of whole calls are among these runs and meet both provisos |
| `SessionRaces.InterleavedRotationsFork` | apps/api/src/modules/auth/auth.service.ts:409-466 | two writes after two reads: one sign-in, two live sessions, one of them without a predecessor |
| `RecoveryCodes.GenerateCode` | packages/contracts/src/mfa.ts:59-69 | the nested loops produce five symbols, a hyphen and five symbols out of ten consecutive answers of the random source |
| `RecoveryCodes.GenerateCodes` | packages/contracts/src/mfa.ts:71-93 | the bounded loop returns the first `count` distinct codes in order of drawing, and fails exactly when twenty draws per code do not contain that many |
| `RecoveryCodes.GeneratedIsIssue` | packages/contracts/src/mfa.ts:71-93 | whatever the source answers: failure, or exactly `count` distinct well-formed codes |
| `RecoveryCodes.NormaliseInjective` | packages/contracts/src/mfa.ts:96-98 | distinct issued codes have distinct normal forms |
| `RecoveryCodes.FormattingIgnored` | packages/contracts/src/mfa.ts:96-98 | typed in either case and with any separator, a code is found |
| `RecoveryCodes.NormaliseTwice` | apps/api/src/modules/auth/mfa.service.ts:296-310 | the lookup normalises twice, which changes nothing |
| `RecoveryCodes.TotpIsNoRecoveryCode` | apps/api/src/modules/auth/mfa.service.ts:271-273 | six digits never stand for a recovery code |
| `RecoveryCodes.AlphabetIs` | packages/contracts/src/mfa.ts:45 | the alphabet is the 31 capital letters and digits without five look-alikes, none twice |
| `RecoveryCodes.CodesEqualIff` | packages/contracts/src/mfa.ts:59-69 | a code depends on all of its ten random answers: two codes are equal exactly if all ten are |
| `RecoveryCodes.GeneratedIff` | packages/contracts/src/mfa.ts:71-93 | generation fails exactly if twenty draws per wanted code hold too few different codes, and issues only drawn ones |
| `MfaService.MfaService.EnableFor` | apps/api/src/modules/auth/mfa.service.ts:104-154 | enrolment, in place, is the transition of the run theorems, and answers with ten distinct codes if it answers with codes |
| `MfaService.MfaService.ConsumeRecoveryCode` | apps/api/src/modules/auth/mfa.service.ts:302-316 | the conditional update spends an unused row of this user or none |
| `MfaService.MfaService.DisableFor` | apps/api/src/modules/auth/mfa.service.ts:156-206 | the transition of the run theorems, a recovery code being spent even when the password is wrong |
| `MfaService.MfaService.Verify` | apps/api/src/modules/auth/mfa.service.ts:243-267 | the transition `SecondFactorIff` is about |
| `MfaService.MfaService.Reset` | apps/api/src/modules/auth/mfa.service.ts:328-375 | refused on oneself; otherwise the target is left with no factor, no codes and no live session, everybody else untouched, and the count reported is how many sessions were revoked |
| `SessionTable.CountLive` | apps/api/src/modules/auth/auth.service.ts:476-488 | the number of rows a mass revocation reports is the number of live sessions |
| `MfaRuns.StepWorks` | apps/api/src/modules/auth/mfa.service.ts:104-375 | after any call a code works exactly if the call issued it, or it worked and the call neither accepted it nor ended the enrolment |
| `MfaRuns.EnablingIssues` | apps/api/src/modules/auth/mfa.service.ts:104-154 | the right authenticator code from somebody not yet enrolled enrols, and every code answered works |
| `MfaRuns.DisablesIff` | apps/api/src/modules/auth/mfa.service.ts:156-206 | turning it off takes exactly the password and one of the two kinds of code, and leaves nothing |
| `MfaRuns.WorksIff` | apps/api/src/modules/auth/mfa.service.ts:104-375 | over every run: a code works for a user exactly when an enrolment of that user issued it and it was neither accepted nor voided since |
| `MfaRuns.AcceptedOnce` | apps/api/src/modules/auth/mfa.service.ts:302-316 | between two acceptances of a code it has been issued anew |
| `MfaRuns.VoidedForGood` | apps/api/src/modules/auth/mfa.service.ts:132-144 | after disabling, a reset or a new enrolment no old code is accepted unless issued anew |
| `MfaRuns.StepCounts` | apps/api/src/modules/auth/mfa.service.ts:104-375 | ten rows while enrolled and none otherwise, and each call takes from the unused ones exactly what it accepts |
| `MfaRuns.RemainingAddsUp` | apps/api/src/modules/auth/mfa.service.ts:302-316 | within an enrolment codes left plus codes accepted stay the same number, so at most ten are ever accepted |
| `MfaRuns.SecondFactorIff` | apps/api/src/modules/auth/mfa.service.ts:243-267 | after any run the second factor is accepted exactly for a right authenticator code of somebody enrolled, or a code that works in the sense of `WorksIff` |
| `MfaAccounts.EnablesIff` | apps/api/src/modules/auth/mfa.service.ts:104-154 | enrolment succeeds exactly for a known user without a second factor, with a right six-digit code, drawn codes and none of them anybody else's; what it then stores; every other answer changes nothing |
| `MfaAccounts.DisableWrites` | apps/api/src/modules/auth/mfa.service.ts:156-206 | what turning it off and a refusal leave in every table: a refusal spends the typed code at most |
| `MfaAccounts.VerifyWrites` | apps/api/src/modules/auth/mfa.service.ts:243-267 | when a second factor is accepted, and that the accepted code, used as of now, is the only change |
| `MfaAccounts.AdminResetWrites` | apps/api/src/modules/auth/mfa.service.ts:328-375 | what an administrator's reset leaves of account, codes and sessions, row by row |
| `MfaAccounts.ResetsAgree` | apps/api/src/modules/auth/mfa.service.ts:328-375 | the session model of the reset and this one end the same sessions |
| `MfaAccounts.OthersLeaveAlone` | apps/api/src/modules/auth/mfa.service.ts:104-375 | over every run of calls about other people, a user's account, codes and sessions stay exactly as they are |
| `ImportRows.SoundRow` | apps/api/src/modules/imports/imports.service.ts:479-528 | a row without errors has a valid mobile, and its mobile and PAN come from some mapped cell through the edge schemas; from which, `ImportColumns.PersonContacts` says |
| `ImportRows.SoundIff` | apps/api/src/modules/imports/imports.service.ts:479-528 | only the name and the mobile can fail a row, and exactly how; a bad e-mail, PAN or PIN code never does |
| `ImportRows.LoadCandidatePool` | apps/api/src/modules/imports/imports.service.ts:537-606 | the nested loops collect the keys of the file and the query returns the undeleted leads that share one, up to the cap; which keys and leads those are, `ImportColumns.FileKeysIff` and `PoolIs` say |
| `ImportRows.SoundRowKeys` | apps/api/src/modules/imports/imports.service.ts:537-606 | the mobile and PAN of every sound row are among those keys |
| `ImportRows.CanonicalIdentity` | packages/contracts/src/matching.ts:173-187 | against stored leads, same identity means equal stored keys |
| `ImportRows.PoolLosesBeyondCap` | apps/api/src/modules/imports/imports.service.ts:537-606 | compared with the whole undeleted book the pool loses exactly the identity matches beyond the 5000 rows of the query |
| `ImportRows.PoolLosesNoIdentity` | apps/api/src/modules/imports/imports.service.ts:537-606 | so below the cap it contains an identity match exactly if the book does |
| `ImportRows.NarrowPoolDecides` | apps/api/src/modules/imports/imports.service.ts:537-606 | a full scan would suggest SKIP exactly if the pool does, or if the match lies beyond the cap |
| `ImportColumns.ReadsLastFilled` | apps/api/src/modules/imports/imports.service.ts:486-490 | a field is read exactly if one of its columns has a non-blank cell, and then from the last such column |
| `ImportColumns.MappedFrom` | apps/api/src/modules/imports/imports.service.ts:479-528 | what the checks leave of each field but the name: a bad e-mail, PAN or PIN code is dropped, a good number or PAN normalised, the rest kept |
| `ImportColumns.PlainFields` | apps/api/src/modules/imports/imports.service.ts:479-528 | city, state, product, value and notes are the last filled cell, trimmed; the PIN code likewise if it is one |
| `ImportColumns.PersonContacts` | apps/api/src/modules/imports/imports.service.ts:479-528 | the mobile, e-mail, PAN and city the lead is matched by, said of the cells |
| `ImportColumns.PersonName` | apps/api/src/modules/imports/imports.service.ts:492-498 | the first and last name, said of the cells: split only when no last name is mapped and the first has a space |
| `ImportColumns.ErrorsFromCells` | apps/api/src/modules/imports/imports.service.ts:500-511 | the errors of every row, and so whether it is sound, said of the cells |
| `ImportColumns.EmailShapedIff` | apps/api/src/modules/imports/imports.service.ts:513-517 | the address pattern: a local part, one at sign, a host with a dot inside, no white space |
| `ImportColumns.SplitAtComma` | packages/contracts/src/import.ts:232-250 | what stands before the first comma is the last name |
| `ImportColumns.SplitAtSpace` | packages/contracts/src/import.ts:232-250 | without a comma the first word is the first name and the others the last name |
| `ImportColumns.FileKeysIff` | apps/api/src/modules/imports/imports.service.ts:537-561 | the pool is searched for exactly the mapped mobiles, PANs and name words of three letters or more, said of the cells; words once each, in the order of the file |
| `ImportColumns.PoolIs` | apps/api/src/modules/imports/imports.service.ts:563-606 | a lead is found exactly if it is undeleted and has one of the mobiles, one of the PANs or one of the first forty words in a name; five thousand are returned at most |
| `ImportBatch.JudgeAll` | apps/api/src/modules/imports/imports.service.ts:163-271 | the loop with its map of mobiles seen gives each row the verdict that only looks at earlier rows and the pool, and the three counters are right |
| `ImportBatch.JudgeFile` | apps/api/src/modules/imports/imports.service.ts:144-271 | judged against the file's own pool, valid rows have pairwise distinct mobiles |
| `ImportBatch.SettleAll` | apps/api/src/modules/imports/imports.service.ts:324-365 | the commit loop settles each row by its own decision and outcome; the counters are the imported and the processed rows, each too large by the leads created but not recorded |
| `ImportBatch.Batch.constructor` | apps/api/src/modules/imports/imports.service.ts:96-105 | a parsed batch: rows numbered from one, none judged |
| `ImportBatch.Batch.Validate` | apps/api/src/modules/imports/imports.service.ts:144-289 | never after a commit; otherwise every row is judged anew and the batch may be committed |
| `ImportBatch.Batch.Commit` | apps/api/src/modules/imports/imports.service.ts:303-408 | only a validated batch, and only once; whichever creations fail, every valid or duplicate row ends imported, skipped or invalid, imported plus skipped is the number processed and imported the number of imported rows, up to leads created but not recorded |
| `ImportBatch.UnrecordedNone` | apps/api/src/modules/imports/imports.service.ts:340-364 | that correction is zero exactly when no status write fails after its lead was created |
| `ImportBatch.UnrecordedIsCountedTwice` | apps/api/src/modules/imports/imports.service.ts:340-364 | a batch with wrong counters: one row, imported and skipped, and in the end neither |
| `ImportBatch.ValidRowIsNew` | apps/api/src/modules/imports/imports.service.ts:144-289 | a valid row shares no mobile with another valid row and no mobile or PAN with any undeleted lead in the book, other than leads beyond the cap of the query |
| `ImportBatch.ImportedApart` | apps/api/src/modules/imports/imports.service.ts:303-408 | without a CREATE override imported rows have pairwise distinct mobiles |
| `ImportVerdicts.MatchedIff` | apps/api/src/modules/imports/imports.service.ts:206-220 | a candidate makes a row a duplicate exactly if it is the same person or there is telling evidence that it is |
| `ImportVerdicts.JudgedIs` | apps/api/src/modules/imports/imports.service.ts:144-289 | every row of every file: invalid exactly without a name or number, duplicate exactly if an earlier sound row has its number or a candidate stops it; and what is stored |
| `ImportVerdicts.CountIsSize` | apps/api/src/modules/imports/imports.service.ts:159-282 | each counter is the number of rows with that status |
| `ImportVerdicts.UnrecordedIsSize` | apps/api/src/modules/imports/imports.service.ts:326-365 | the correction is the number of chosen rows whose lead was created and whose status write failed |
| `LeadMerge.PreviewMerge` | packages/contracts/src/merge.ts:101-137 | one outcome per field in order, conflicts and gains being exactly the outcomes of those kinds |
| `LeadMerge.Duplicates.MergeLeads` | apps/api/src/modules/duplicates/duplicates.service.ts:177-264 | goes through exactly for two different unmerged, undeleted leads in scope, the duplicate no customer and no third active lead holding the PAN gained; all writes or none, and both unique indexes kept |
| `LeadMerge.SurvivorIsPreview` | packages/contracts/src/merge.ts:101-137 | after a merge each field of the survivor is what the preview showed: filled fields kept, empty ones taken over |
| `LeadMerge.IndexesBetweenWrites` | apps/api/prisma/migrations/20260808190000_constraints_and_search/migration.sql:22-31 | after the first write both indexes hold; after the second exactly when no third active lead has the PAN gained |
| `LeadMerge.LostDuplicateTrips` | apps/api/src/modules/duplicates/duplicates.service.ts:194-218 | three leads on which an eligible merge is undone by the index |
| `LeadMerge.ActiveDuplicateMerges` | apps/api/src/modules/duplicates/duplicates.service.ts:177-264 | merging an active duplicate never trips them |
| `LeadMerge.FillingFirstBreaksIndex` | apps/api/src/modules/duplicates/duplicates.service.ts:194-218 | the two writes in the other order would |
| `LeadMerge.StepMovesRoots` | apps/api/src/modules/duplicates/duplicates.service.ts:177-264 | a merge sends everything that ended at the duplicate to the survivor and leaves every other link's end alone |
| `LeadMerge.RunKeepsForest` | apps/api/src/modules/duplicates/duplicates.service.ts:177-264 | over every run the links form a forest ending in unmerged leads, and no lead disappears |
| `LeadMerge.RootIsUnmerged` | apps/api/src/modules/duplicates/duplicates.service.ts:177-264 | what a chain of merges ends at is an unmerged lead |
| `LeadMerge.ConvertedNeverMergedAway` | packages/contracts/src/merge.ts:152-172 | over every run a converted lead stays unmerged and keeps its status and customer |
| `LeadMerge.HistoryFollowsThePerson` | apps/api/src/modules/duplicates/duplicates.service.ts:220-252 | over every run each activity, task, document and consent ends on the unmerged lead its own was merged into; none is lost |
| `LeadMerge.RunKeepsHistoryOnUnmerged` | apps/api/src/modules/duplicates/duplicates.service.ts:220-252 | over every run all history, the notes added on the way included, sits on unmerged leads; one note per merge, nothing else comes or goes |
| `LeadMerge.OutcomeIs` | packages/contracts/src/merge.ts:91-137 | a field is gained exactly when only the duplicate has it, and shown as discarded exactly when both have one and they differ |
| `LeadMerge.AnswerIs` | packages/contracts/src/merge.ts:152-172 | which answer every merge gets, check by check, and that a refusal changes nothing |
| `LeadMerge.MergedState` | apps/api/src/modules/duplicates/duplicates.service.ts:177-264 | everything a merge leaves behind: the duplicate disqualified and pointing at the survivor, the survivor's fields, every other lead untouched, every row of history handed over |
| `OrgPaths.PathIdsOfPath` | packages/contracts/src/org-unit.ts:111-118 | splitting a built path gives back the ids it was built from |
| `OrgPaths.PathPrefix` | packages/contracts/src/org-unit.ts:111-118 | one built path starts with another exactly when the lists of ids do |
| `OrgPaths.PathIsChain` | packages/contracts/src/org-unit.ts:111-118 | the ids in a unit's path are its ancestors, root first, and itself |
| `OrgPaths.DepthIsAncestors` | packages/contracts/src/org-unit.ts:120-123 | the depth shown is the number of ancestors |
| `OrgPaths.PrefixIsUnder` | apps/api/src/common/scope.service.ts:28-60 | the prefix test of the scope queries is the recursive ancestor test |
| `OrgPaths.EventAccessIsRecursive` | apps/api/src/common/event-access.ts:21-49 | the one query over the split path is the recursive walk for an opened, active ancestor |
| `OrgPaths.CycleTestIsExact` | packages/contracts/src/org-unit.ts:131-133 | the path test is true exactly when the new parent link would put the unit on a loop of links |
| `OrgPaths.TypeRuleExcludesLoops` | packages/contracts/src/org-unit.ts:35-45 | a placement the type rule allows is never refused for a loop |
| `OrgPaths.MoveKeepsBuilt` | apps/api/src/modules/org-units/org-units.service.ts:196-262 | after prefix rewriting every path is again built from its parent's |
| `OrgPaths.MoveRerootsChains` | apps/api/src/modules/org-units/org-units.service.ts:196-262 | the moved subtree hangs under the new parent with its shape intact, every other chain is untouched |
| `OrgPaths.MoveKeepsTypes` | apps/api/src/modules/org-units/org-units.service.ts:196-262 | the type order between parent and child survives a move |
| `OrgPaths.GrowthKeepsChain` | apps/api/src/modules/org-units/org-units.service.ts:89-146 | adding units changes no existing chain |
| `OrgPaths.OrgUnits.Create` | apps/api/src/modules/org-units/org-units.service.ts:89-146 | refused exactly for a code in use, a missing parent or an impossible placement; the new unit's chain is its parent's and itself; the invariant is kept |
| `OrgPaths.OrgUnits.Move` | apps/api/src/modules/org-units/org-units.service.ts:196-262 | refused exactly for a missing unit, an impossible placement or a loop of links; otherwise one link changes and the invariant is kept |
| `OrgPaths.OrgUnits.Remove` | apps/api/src/modules/org-units/org-units.service.ts:264-296 | only a unit with nothing under it, nobody in it and no leads goes, and only it |
| `OrgPaths.CanParentIff` | packages/contracts/src/org-unit.ts:35-45 | a unit goes under any higher type, and a team only under a branch |
| `RowScope.LeadVisibleIff` | apps/api/src/common/scope.service.ts:28-60 | the lead filter admits exactly what the scope promises about the tree of parent links, for every scope and with or without a unit |
| `RowScope.CustomerVisibleIff` | apps/api/src/common/scope.service.ts:63-90 | the same for customers |
| `RowScope.UnderAfterMove` | apps/api/src/modules/org-units/org-units.service.ts:196-262 | a move changes who sees a subtree exactly so: those at or above the new parent, and those between the row's unit and the moved one; nobody gains or loses any other row |
| `TreeOrder.ToTreeOrder` | packages/contracts/src/org-unit.ts:177-214 | terminates on every list with distinct ids, cycles and dangling parents included, with the order the other lemmas describe |
| `TreeOrder.WalkFrom` | packages/contracts/src/org-unit.ts:195-203 | the recursive closure appends the depth-first walk below one node |
| `TreeOrder.OrderedIsPermutation` | packages/contracts/src/org-unit.ts:177-214 | the result is a permutation of the input |
| `TreeOrder.WalkSound` | packages/contracts/src/org-unit.ts:195-205 | the walk reaches exactly the nodes with a path from a root |
| `TreeOrder.WalkDistinct` | packages/contracts/src/org-unit.ts:195-205 | and each of them once |
| `TreeOrder.PathBounded` | packages/contracts/src/org-unit.ts:195-203 | a path from a root is never longer than the list: why the recursion ends |
| `TreeOrder.ParentFirst` | packages/contracts/src/org-unit.ts:177-214 | every node reachable from a root comes after its parent |
| `TreeOrder.SubtreeContiguous` | packages/contracts/src/org-unit.ts:177-214 | right behind a reachable node comes all that is below it and nothing else |
| `TreeOrder.WalkSiblings` | packages/contracts/src/org-unit.ts:195-205 | among reachable nodes, siblings come in type-then-name order |
| `TreeOrder.ResultOrder` | packages/contracts/src/org-unit.ts:177-214 | any two nodes of the result: reachable ones first, reachable siblings by type and then name, unreachable ones in the order of the list |
| `Assignment.SelectedRuleIsFirst` | packages/contracts/src/assignment.ts:145-155 | the rule that fires matches and no matching rule precedes it; none fires only if none matches |
| `Assignment.OwnerIsActiveTarget` | apps/api/src/modules/assignment/assignment.service.ts:132-188 | an owner is named exactly if a rule fires that assigns and still has an active target, and is then an active target of that rule |
| `Assignment.Assignments.ResolveOwner` | apps/api/src/modules/assignment/assignment.service.ts:132-188 | the decision and its one effect, the counters of the rule that named an owner |
| `Assignment.Assignments.PreviewOwner` | apps/api/src/modules/assignment/assignment.service.ts:194-237 | the dry run names the very owner the next resolution would, and changes nothing |
| `AssignmentCriteria.CitiesAlone` | packages/contracts/src/assignment.ts:125-128 | a rule restricted to cities takes exactly the leads whose own city is one of them, up to case and outer blanks, whatever the rest |
| `AssignmentCriteria.StatesAlone` | packages/contracts/src/assignment.ts:130-133 | likewise for states |
| `AssignmentCriteria.SourcesAlone` | packages/contracts/src/assignment.ts:116-118 | likewise for sources, compared as they are |
| `AssignmentCriteria.ProductsAlone` | packages/contracts/src/assignment.ts:120-123 | one product in common is enough, and needed |
| `AssignmentCriteria.ScoreAlone` | packages/contracts/src/assignment.ts:135-137 | the score must reach the minimum; no score counts as zero |
| `AssignmentCriteria.CampaignAlone` | packages/contracts/src/assignment.ts:139 | the campaign must be the one named |
| `AssignmentCriteria.CriteriaAddUp` | packages/contracts/src/assignment.ts:112-142 | a rule takes a lead exactly if it is active and would on each of its criteria alone |
| `AssignmentCriteria.DecidingRule` | apps/api/src/modules/assignment/assignment.service.ts:132-188 | the rule that decides is active, the lead satisfies each of its criteria, no other such rule has a lower priority number or the same and an earlier name, and the owner is an active target of it; without such a rule nobody is named |
| `AssignmentCriteria.EmptiestThenFirst` | packages/contracts/src/assignment.ts:186-197 | load balancing picks the fewest open leads, and among those the first id |
| `AssignmentCriteria.OpenCountIsSize` | apps/api/src/modules/assignment/assignment.service.ts:240-256 | the load of somebody is the number of open leads they own |
| `AssignmentRules.AssertTargetsAreAssignable` | apps/api/src/modules/assignment/assignment.service.ts:270-292 | passes exactly for lists without repetitions of known, internal, active people |
| `AssignmentRules.RuleBook.CreateRule` | apps/api/src/modules/assignment/assignment.service.ts:67-91 | the creation that `HistoryKeepsValid` is about: accepted exactly for assignable targets |
| `AssignmentRules.RuleBook.UpdateRule` | apps/api/src/modules/assignment/assignment.service.ts:93-116 | not found, refused, or changed but for its counters |
| `AssignmentRules.RuleBook.DeleteRule` | apps/api/src/modules/assignment/assignment.service.ts:118-121 | one rule goes, the others and their order stay; an unknown one fails |
| `AssignmentRules.HistoryKeepsValid` | apps/api/src/modules/assignment/assignment.service.ts:67-188 | whatever rules are created, changed and deleted, leads routed and people come and go: every rule in the table has distinct targets |
| `AssignmentRules.AdministeredRuleIsFair` | packages/contracts/src/assignment.ts:180-183 | after any such history each still active target of a round-robin rule gets floor(k/n) or ceil(k/n) of its next k leads |
| `AssignmentRules.ChangesWhatItNames` | apps/api/src/modules/assignment/assignment.service.ts:93-116 | a change of a rule sets what it names and nothing else, and never the counters |
| `AssignmentRules.TableAfterCreation` | apps/api/src/modules/assignment/assignment.service.ts:67-91 | a rule is added exactly for assignable targets, with its counters at zero, behind all others |
| `AssignmentRules.TableAfterUpdate` | apps/api/src/modules/assignment/assignment.service.ts:93-116 | a changed rule stays in its place, and no other changes |
| `AssignmentRules.TableAfterDeletion` | apps/api/src/modules/assignment/assignment.service.ts:118-125 | a deleted rule is the only one to go |
| `AssignmentRuns.StepRules` | apps/api/src/modules/assignment/assignment.service.ts:132-188 | a resolution changes one counter of one rule, if that |
| `AssignmentRuns.RoundRobinInTurn` | packages/contracts/src/assignment.ts:180-183 | over a run, whatever other rules fire in between, the owners come in turn from the cursor on |
| `AssignmentRuns.RoundRobinIsFair` | packages/contracts/src/assignment.ts:180-183 | k leads of a rule with n distinct active targets give each floor(k/n) or ceil(k/n), from any cursor |
| `AssignmentRuns.PickIsEmptiest` | packages/contracts/src/assignment.ts:185-197 | load balancing names an active target with the fewest open leads, absent workload rows included |
| `AssignmentRuns.SpreadNeverGrows` | packages/contracts/src/assignment.ts:185-197 | over a run, with other rules routing to other people, the spread of open leads never exceeds the larger of one and what it was |
| `AssignmentRuns.SpreadLevels` | packages/contracts/src/assignment.ts:185-197 | once the rule has handed out as many leads as its targets lacked to draw level, the spread is at most one and stays so |
| `Allocation.Gate` | packages/contracts/src/allocation.ts:149-183 | the loop sorts every candidate into eligible, gated and excluded by its own verdict |
| `Allocation.RecommendOwners` | packages/contracts/src/allocation.ts:137-289 | the splices and unshifts amount to the ranking the lemmas describe, cut to the maximum; the floor flag is set exactly when the ranking departs from fit |
| `Allocation.ApplyFloor` | packages/contracts/src/allocation.ts:249-272 | splice and unshift put the first developing entry in front and leave the rest in order, and report whether anything changed |
| `Allocation.RankedAndExcludedPartition` | packages/contracts/src/allocation.ts:149-198 | everybody considered is ranked or excluded, never both, never neither |
| `Allocation.EmptyOnlyIfNobody` | packages/contracts/src/allocation.ts:185-198 | the ranking is empty exactly when nobody is available with spare capacity |
| `Allocation.OrderedByFitButOne` | packages/contracts/src/allocation.ts:203-272 | descending fit, but for at most one promoted developing candidate who was not in front; the others keep their order |
| `Allocation.DevelopmentFloor` | packages/contracts/src/allocation.ts:249-272 | on every fourth cursor value a strong lead ranks a best-fitting developing candidate first whenever one is eligible |
| `Allocation.FitInRange` | packages/contracts/src/allocation.ts:120-135 | ratings from 0 to 100 give fits from 0 to 100, for any load, capacity and confidence |
| `Allocation.FitIsMonotone` | packages/contracts/src/allocation.ts:131-135 | a better rating or a lighter load never lowers a fit |
| `Allocation.LittleEvidenceIsTrustedLess` | packages/contracts/src/allocation.ts:120-124 | the lower the confidence, the closer to neutral a rating counts, from either side |
| `Allocation.StrongLeadsFollowTheRecord` | packages/contracts/src/allocation.ts:199-206 | a better record that outweighs a lighter load on an ordinary lead does so on a strong one too |
| `Allocation.ReinstatedIsMostDisciplined` | packages/contracts/src/allocation.ts:185-197 | whoever is given back after the behaviour gate emptied the list is the most disciplined of those it caught |
| `AllocationAdvice.EligibleIff` | packages/contracts/src/allocation.ts:145-197 | ranked are exactly those with room, not away and, for a strong lead, with a behaviour score of 55 or more; if there is none, the best-behaved of those held back, by name among equals |
| `AllocationAdvice.PassedOverForCause` | packages/contracts/src/allocation.ts:145-197 | nobody is listed as passed over without the reason being true of them |
| `AllocationAdvice.TrustedRatingIs` | packages/contracts/src/allocation.ts:120-124 | a rating counts in full, six tenths or three tenths of the way from fifty, by confidence |
| `AllocationAdvice.HeadroomIs` | packages/contracts/src/allocation.ts:126-135 | the room is the free share of the capacity, sixty if none is given |
| `AllocationAdvice.FitIs` | packages/contracts/src/allocation.ts:199-207 | the fit is to the nearest whole number 65 parts rating to 35 parts room on a strong lead, 40 to 60 otherwise |
| `AllocationAdvice.ByFitIs` | packages/contracts/src/allocation.ts:203-247 | each eligible candidate is listed with the own fit, the better first and by name among equals |
| `AllocationAdvice.NoPromotion` | packages/contracts/src/allocation.ts:249-272 | nobody is promoted on an ordinary lead, off the fourth turn, or without an eligible rating under 55 |
| `Rbac.PermissionsForRoles` | packages/contracts/src/rbac.ts:248-254 | exactly the union, each permission once |
| `Rbac.BroadestIsBroadest` | packages/contracts/src/rbac.ts:237-242 | the fold is some role's default, or SELF, and no role's default is broader |
| `Hierarchy.CanGrantRoles` | packages/contracts/src/hierarchy.ts:299-322 | allowed exactly if nothing in the roles is beyond what the actor holds, or the actor is unrestricted |
| `Hierarchy.CanManageIff` | packages/contracts/src/hierarchy.ts:260-289 | on the tree of parent links: exactly those at or below the actor's unit on a lower level, and everybody for an unrestricted actor |
| `Hierarchy.ScopeNeverWidened` | packages/contracts/src/hierarchy.ts:351-361 | the scope somebody ends up with is the narrowest of the designation's default, the override and the broadest a role allows |
| `Hierarchy.UserAdmin.CreateUser` | apps/api/src/modules/users/user-admin.service.ts:175-235 | guard by guard, from the inactive designation to the code or address that cannot be drawn, a user is created exactly when the permission relation of the chain theorems allows it |
| `Hierarchy.UserAdmin.UpdateUser` | apps/api/src/modules/users/user-admin.service.ts:253-314 | the update that `EditStaysWithinIff` and `Reporting.EditKeepsLinesIff` are about, in place |
| `Hierarchy.ReviewEdit` | apps/api/src/modules/users/user-admin.service.ts:253-289 | guard by guard, an update is accepted exactly when that relation allows it |
| `Hierarchy.EditStaysWithinIff` | apps/api/src/modules/users/user-admin.service.ts:262-283 | an accepted update by a restricted person starts within reach, and ends there exactly if the account then has a designation or its unit lies inside anyway |
| `Hierarchy.UndesignatedMovesOut` | apps/api/src/modules/users/user-admin.service.ts:275-283 | an account without a designation moved to another branch by somebody who manages only their own |
| `Hierarchy.RunGuarded` | packages/contracts/src/hierarchy.ts:260-322 | over every run of creations each account is below its restricted creator in level, place and permissions |
| `Hierarchy.ChainStaysBelow` | packages/contracts/src/hierarchy.ts:260-322 | everyone a restricted person creates, directly or through others, is restricted, that many levels lower, inside the person's subtree, and without role permissions beyond the person's and the slack the matrix leaves |
| `Hierarchy.CreatedStaysBelow` | packages/contracts/src/hierarchy.ts:260-322 | so after every run of creations that starts with nobody created by anybody |
| `Hierarchy.ShippedNeverEscalates` | packages/contracts/src/rbac.ts:93-208 | under the shipped matrix, after every such run, no role permission is beyond those of the restricted person the chain started with |
| `Hierarchy.ChainIsBounded` | packages/contracts/src/hierarchy.ts:260-289 | creation chains are no longer than the starter's level |
| `Hierarchy.NothingGainedIff` | packages/contracts/src/hierarchy.ts:299-322 | no restricted person can hand on a permission beyond the own roles' exactly when every role with event access carries something only such roles carry |
| `Hierarchy.ShippedGainsNothing` | packages/contracts/src/rbac.ts:93-208 | the shipped role matrix is of that kind |
| `Hierarchy.EventViewLeaks` | packages/contracts/src/hierarchy.ts:299-322 | a matrix that is not: somebody without any role grants event access |
| `HierarchyAccounts.CreatesIff` | apps/api/src/modules/users/user-admin.service.ts:175-235 | exactly which requests create an account, with level, place, roles, manager and code written out, and every field stored |
| `HierarchyAccounts.EditsIff` | apps/api/src/modules/users/user-admin.service.ts:253-314 | exactly which requests change an account, guard by guard |
| `HierarchyAccounts.EditSetsWhatItNames` | apps/api/src/modules/users/user-admin.service.ts:290-312 | a change sets what it names and nothing else, and never the creator |
| `HierarchyAccounts.EditTouchesOne` | apps/api/src/modules/users/user-admin.service.ts:290-312 | an accepted change touches the one account, and a refused one none |
| `HierarchyAccounts.GrantedWithinOwn` | packages/contracts/src/hierarchy.ts:299-322 | roles given by a change of an account give nothing that a restricted actor's own roles do not, seeing events aside |
| `HierarchyAccounts.RunKeepsCodes` | apps/api/src/modules/users/user-admin.service.ts:96-314 | over every run of creations, changes and new levels no two accounts share an employee code, no account is lost and nobody's creator changes |
| `HierarchyAccounts.RelevelIs` | apps/api/src/modules/users/user-admin.service.ts:96-129 | a new level reaches everybody who holds the designation, and changes nothing else of anybody |
| `HierarchyAccounts.BroadestIs` | packages/contracts/src/rbac.ts:214-246 | all rows for any of the four central roles, the team's for a sales manager, the own ones otherwise |
| `HierarchyAccounts.ScopesInOrder` | packages/contracts/src/rbac.ts:226-230 | the six scopes from the broadest to the narrowest |
| `HierarchyAccounts.ShippedCreators` | packages/contracts/src/rbac.ts:93-208 | exactly two shipped roles may create users |
| `Reporting.CreateKeepsLines` | apps/api/src/modules/users/user-admin.service.ts:187-189 | creation keeps every reporting line valid |
| `Reporting.ReassignKeepsLines` | apps/api/src/modules/users/user-admin.service.ts:286-288 | naming a manager and nothing else does too |
| `Reporting.UpdateKeepsLinesIff` | apps/api/src/modules/users/user-admin.service.ts:270-314 | an accepted update in general does exactly if the resulting level lies below the manager kept and above all reports, and nobody becomes their own manager |
| `Reporting.EditKeepsLinesIff` | apps/api/src/modules/users/user-admin.service.ts:253-314 | the rest of an update has no bearing on the lines |
| `Reporting.RelevelKeepsLinesIff` | apps/api/src/modules/users/user-admin.service.ts:96-129 | so does a new level for a designation exactly if it fits the line of every holder and of every holder's report |
| `Reporting.ValidThroughoutIff` | apps/api/src/modules/users/user-admin.service.ts:96-314 | over every run of user administration the lines are valid throughout exactly if every change fits in this sense |
| `Reporting.LoopsNeedUndesignated` | packages/contracts/src/hierarchy.ts:331-344 | a loop of valid lines runs through somebody without a designation |
| `Reporting.ReportingIsAcyclic` | packages/contracts/src/hierarchy.ts:331-344 | while nobody without a designation has a manager, valid lines have no loop |
| `Reporting.RuleExcludesLoopsIff` | packages/contracts/src/hierarchy.ts:331-344 | for given people and levels, valid lines never form a loop exactly if everybody holds a designation |
| `Reporting.FittingRunsAreLoopFree` | apps/api/src/modules/users/user-admin.service.ts:96-314 | if everybody does, no run in which every change fits ends in a loop |
| `Reporting.UndesignatedLoop` | apps/api/src/modules/users/user-admin.service.ts:286-288 | an update that closes a loop through an account without a designation |
| `Reporting.DemotionLoop` | apps/api/src/modules/users/user-admin.service.ts:270-314 | two updates that close a loop of two people with designations |
| `Reporting.OwnManagerLoop` | apps/api/src/modules/users/user-admin.service.ts:270-314 | one update that makes somebody with a designation their own manager |
| `Doubles.NearGrid` | packages/contracts/src/activity.ts:65-68 | rounding to nearest moves a number by at most half a step of any grid on which it is in range |
| `Doubles.NoDoubleInGap` | packages/contracts/src/activity.ts:65-68 | no double lies between 2^46 and 2^46 + 1/64 |
| `Money.RoundedPaiseExact` | packages/contracts/src/activity.ts:65-68 | `Math.round(Number(s) * 100)` is the exact number of paise of every accepted amount, despite two roundings |
| `Money.AcceptedBounded` | packages/contracts/src/activity.ts:40-48 | the formats, nine digits for activities and seven for claims, keep amounts below 10^11 paise |
| `Money.TotalIsExact` | packages/contracts/src/visit.ts:314-317 | the printed total of any list of accepted amounts adding up to at most 2^46 rupees is the exact decimal sum |
| `Money.BoundIsSharp` | packages/contracts/src/visit.ts:314-317 | one paisa above the bound every list prints two paise above it |
| `Money.PrintedIsRead` | packages/contracts/src/visit.ts:284-292 | a printed total is an accepted amount denoting the paise it was printed from |
| `Money.PrintIsInjective` | packages/contracts/src/visit.ts:314-317 | totals that print alike are equal |
| `Money.TrailingZeros` | packages/contracts/src/activity.ts:40-48 | zeros left out behind the point change no amount |
| `Money.LeadingZeros` | packages/contracts/src/activity.ts:40-48 | nor does a zero in front |
| `Sorting.SortStable` | packages/contracts/src/matching.ts:261-271 | the sorting the source relies on keeps ties in order |

## Left out

- Guards in front of a sign-in (password, lock-out, challenge token), the e-mail and text messages, audit and outbox rows: outside effects, or decided before the modelled step.
- Finer interleavings than one call, except for rotation: elsewhere too the reads are outside the writing transactions.
- Authenticator validation, hashing, signing and random sources: library code, present as parameters.
- `permissions` of a principal: `event:view` is added by a switch that `OrgPaths.EventAccessIsRecursive` and `Hierarchy` treat separately; the role rows in the database are taken to equal the matrix in the contracts.
- Changes to users, designations and units after creation in the creation-chain theorems (the reporting theorems have them), and the limit of four roles per user.
- Separators of more than one character, which `parseDelimited` would accept and never find.
- Header mapping suggestions, product aliases and amount parsing beyond what decides a row's status.
- Texts of errors, reasons, labels and masked values: decisions and codes only.
- The order in which the pool query returns leads, beyond being the book's: any order is covered, since no theorem depends on it.
- Visibility of batches and leads to a user, except that a merge takes the set of leads in scope.
- The lead created by a committed row: how its creation and the status write go is arbitrary per row; a batch interrupted half-way is not modelled.
- `taskScope`, `visitScope` and `canAssignTo`: one reading of a branch settles them.
- Offboarding, survivor suggestion, grouping of duplicates, renaming of units, e-mail suggestion: easy beside what is proved.
- Geodesy, lead scoring and performance scoring: fractional powers and logarithms.
- `ImportRows.PoolLosesNoIdentity`: stored keys are taken to be canonical, and the 5000-row cap not to be hit; `PoolLosesBeyondCap` says what is lost when it is.
- `Hierarchy.UserAdmin.CreateUser`: how a staff code and a work address are drawn; only whether that succeeds.
- `Hierarchy.UserAdmin.UpdateUser`: names, mobile, status and data scope; the refusal of an inactive designation or unit is one flag.
- `Names.FieldOrderDoesNotMatter`: letters outside ASCII that JavaScript lower-cases into ASCII are not mapped.
- `RecoveryCodes.FormattingIgnored`: likewise for upper-casing, for instance of a long s.
- `Matching.CloseNames`: over the reals; for names up to 80 characters the quotient of doubles falls on the same side of 0.85.
- `OrgPaths.OrgUnits.Move`: the subtree query is a prefix test; ids contain no pattern characters.
- `Allocation.RecommendOwners`: the scores are real numbers, without the rounding of the intermediate doubles.
- `AssignmentRuns.SpreadLevels`: leads enter open with the owner named and none closes during the run.
- `ImportBatch.Batch.Validate`: the stored error lists of rows are not modelled, only the status and the normalised mobile.
