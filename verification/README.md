# Verified models of Discourse's text diff and shared-state protocols

This project models, in Dafny, parts of Discourse whose correctness rests on an
argument rather than on one line of code, and proves what those parts promise.
`dafny verify dfyconfig.toml` checks all of it.

**The O(NP) diff** (`lib/onpdiff.rb`). `LcsGrid` defines the longest common
subsequence of prefixes and the least number of deletions to a grid point.
`Frontiers` states the greedy invariant: after round p, every diagonal holds the
furthest row reachable within its budget of deletions, and every stored visit leads
back to the origin with no more deletions than that. `OnpDiff` is the class itself,
over arrays of string objects, with its `fp` and `path` arrays, its backtracking
list and its memoised results. The main theorem is that `Diff` returns a script that
rebuilds both texts and is shortest among all scripts, for inputs in either length
order, and that it returns nothing exactly when the shorter text has at least 1000
elements outside a longest common subsequence. The entries of a script are the
compared objects themselves, and `ShortDiff` appends to them in place: `HeapTokens`
and `InPlaceRuns` say what every object then holds, and that a `Diff` or
`ParagraphDiff` taken before or after it still spells the two texts if and only if
nothing but empty texts continues a run. `EditScripts` characterises the grouped
script (it is the only one with the same marked characters and differing
neighbours); `ParagraphPairing` and `ParagraphGroups` do so for the paired one, position
by position. Where the inputs are two strings rather than arrays
(`lib/post_revisor.rb:435`), each character read is a new object; `ShortDiffOf` makes
one object per element.

**The Markdown view** (`lib/discourse_diff.rb`). `Tokenizers` and `MarkdownDiff`
prove that either column, with its marks ignored, rejoins to the escaped text
without leading line breaks if and only if neither the line comparison nor any
inner comparison gives up, and that the marks of a row are the deleted and added runs of
a shortest script.

**Presence** (`lib/presence_channel.rb`). `PresenceStore` holds the Redis keys of a
channel and one method per script; a script that aborts keeps what it wrote.
`PresenceRuns` adds publishing and releasing as separate steps of many processes and
proves, over whole runs, that the user hash counts clients exactly and that every
snapshot equals the replay of the messages up to its id, as long as no mutex runs out
before its change is published and the user hash does not expire. `PresenceFaults`
shows that both conditions are exact. The `leave` guard compares the text that HGET
returns with the number 1, which is never equal, although the comment at lines
362-374 says that a change without the mutex raises an error: the order is kept by
the script as written exactly where the numeric guard would not have been needed.
And time keeps the order exactly when nothing lapses. `PresenceExpiry` proves that
the global channel list never hides an expired client, and that a sweep of
`auto_leave_all`, interleaved with other steps, leaves none behind; and that a present
keeps its client in the list until its expiry, whatever other clients do.

**Smaller cores.** `RateLimiting` (the trimmed list decides every run as the full
history would), `DistributedMutex` (mutual exclusion over runs), `LocaleMerging`
(fallback lookup is unchanged by merging), `PostRevisions` (in every run of edits each
revision holds the net change and the version follows), `EditSizes` (the size of an
edit), `ConsecutiveVisits` (the rank trick finds the first run) and `Gaps` (the gaps
rebuild the list).

Times, expiry times, mutex values and the order in which Redis lists members are
inputs or free choices of the model. Proofs use the `hide` statement to keep
definitions they do not need out of the solver's way.

## What the code does not do

Each item names the input and the exact condition.

- After `short_diff` the strings of the compared arrays hold whole runs, so `diff` and
  `paragraph_diff`, earlier or later, no longer spell the texts: of two equal arrays
  `["a", "b"]` the diff becomes `ab`, `b` (`TwoEqualTokens`), and of any two equal arrays
  it spells neither text unless all elements but the first are empty
  (`DiffAfterShortDiff`). In general nothing is lost exactly when every run has one entry
  (`MergedSpellsIff`, `QuietMeansGrouped`).
- A comparison gives up and returns nothing, for instance on a thousand tokens against
  a thousand others (`ThousandTokensGiveUp`); texts without a common element give up
  exactly when both have a thousand (`RewriteGivesUp`).
- `diff_size` is 0 when the comparison gives up, so a complete rewrite of similar
  length passes as a grace-period edit (`RewritePasses`); for limits below 2000 the size
  tests are right exactly when the comparison finishes or the lengths alone differ by
  more than the limit (`SizeTestsAreExactIff`).
- An inner Markdown comparison that gives up leaves both of its cells empty
  (`CompareLines`): a line of a thousand exclamation marks edited into a thousand question
  marks shows neither text (`MarksVanish`). The columns are complete exactly when no
  comparison gives up (`SideBySideMarkdown`); for two single lines that is the comparison
  of these lines (`SingleLinesFinishIff`).
- `leave` never raises the mutex error; from any state where the numeric guard was
  needed, the processes can continue to a wrong snapshot
  (`LiteralLeaveKeepsOrderIff`, `GuardNeededMeansWrongSnapshot`, `LiteralLeaveMisorders`).
- A mutex that runs out before its change is published, ten seconds after an arrival
  (`MutexLapses`), or a user hash that expires, a day after the last expiry time
  (`UsersLapse`), leads to a wrong snapshot; the order is kept exactly when neither happens
  (`LapseBreaksOrderIff`, `LapseMeansWrongSnapshot`).
- `remaining` still counts an event aged exactly `secs`, which `performed!` no longer
  counts (`RemainingMisleads`); it is right exactly when there is none (`Remaining`).
- With `max` zero or negative `is_under_limit?` can answer yes although every attempt
  is refused (`QueryMisleads`); it decides like an attempt exactly when `max` is positive
  or the oldest event is younger than `secs` (`QueryDecidesIff`).
- The aggressive limiter combined with `rollback!` forgets accepted events
  (`AggressiveRollbackForgets`); after any number of rollbacks in a row, exactly when
  max of the remaining attempts are still in the window (`RollbackForgetsIff`).
- `synchronize` can report tampering when time merely passed between reading the clock
  and unlocking (`WarningWithoutTampering`), exactly when the clock was read in time and
  the client no longer held a live entry (`WarnsIff`).
- `find_gaps` does not end for a non-empty subset and an empty original
  (`EmptyOriginalNeverStops`).
- `update_revision` records a change between nil and the empty text that shows no
  difference (`NilChangeIsRecorded`); the modifications stay net exactly when no
  unmodified field changes that way (`AmendmentKeepsNetIff`).

## Model

| member | source | states |
|---|---|---|
| LcsGrid.FurthestFromNeighbours | lib/onpdiff.rb:48-48 | from the furthest rows of the two neighbouring diagonals, one step and a maximal run of matches give the furthest row of this diagonal within its deletion budget |
| LcsGrid.NothingFurther | lib/onpdiff.rb:73-81 | rows past a snake that starts no earlier than both neighbours need more deletions |
| Frontiers.UnfinishedBound | lib/onpdiff.rb:41-44 | the round number never exceeds the length of the shorter text |
| Frontiers.StartOnGrid | lib/onpdiff.rb:46-58 | in every sweep position the array reads are in bounds, the snake starts on the grid, and the two neighbours hold the budgets the greedy step needs |
| Frontiers.InsideBeforeExit | lib/onpdiff.rb:59-59 | before the last round no diagonal has run into the edge it could overshoot |
| Frontiers.SweepDiagonal | lib/onpdiff.rb:46-58 | storing a snake's end completes that diagonal for the round |
| Frontiers.ExitTest | lib/onpdiff.rb:59-59 | after a round the exit test holds exactly when that many deletions suffice |
| Frontiers.NewVisitOk | lib/onpdiff.rb:74-84 | each visit continues one on a neighbouring diagonal, or starts the list, within the deletion budget |
| Frontiers.TrailIsTrace | lib/onpdiff.rb:61-68 | following the links back from a visit gives a valid path whose downward steps are the counted deletions |
| OnpDiff.RoundStep | lib/onpdiff.rb:48-48 | one diagonal of the sweep keeps the whole round invariant: frontier, visits, heads |
| OnpDiff.RoundExit | lib/onpdiff.rb:58-61 | the round reaches the corner exactly when its deletions suffice, and then the last visit's trail is a path with as few deletions as possible |
| OnpDiff.PathGivesShortest | lib/onpdiff.rb:89-117 | the script of that path rebuilds both texts in either length order and is no longer than any other script; on give-up it is empty |
| OnpDiff.RewriteGivesUp | lib/onpdiff.rb:44-44 | texts without a common element give up exactly when both have at least 1000 elements |
| OnpDiff.ThousandTokensGiveUp | lib/onpdiff.rb:44-44 | a concrete input that gives up |
| OnpDiff.ONPDiff.constructor | lib/onpdiff.rb:7-17 | the shorter array comes first and the exchange is remembered |
| OnpDiff.ONPDiff.Snake | lib/onpdiff.rb:73-87 | extends the further of the two rows by a maximal run of matches and records end and predecessor |
| OnpDiff.ONPDiff.SweepDiagonalOf | lib/onpdiff.rb:48-48 | one assignment of the sweep moves the round invariant one diagonal on |
| OnpDiff.ONPDiff.SweepRound | lib/onpdiff.rb:46-58 | the three-part sweep brings every diagonal to round p |
| OnpDiff.ONPDiff.SweepRounds | lib/onpdiff.rb:36-59 | terminates; succeeds exactly when fewer than 1000 deletions suffice, the successful round is min(m, n) − LCS, and the path left then has the fewest deletions |
| OnpDiff.ONPDiff.Compose | lib/onpdiff.rb:33-71 | a path with the fewest deletions, or the empty path exactly on give-up; computed once |
| OnpDiff.ONPDiff.BuildEditScript | lib/onpdiff.rb:89-117 | the script that walks the path, made of the compared objects |
| OnpDiff.ONPDiff.BuildShortEditScript | lib/onpdiff.rb:119-159 | the first objects of the runs, each holding its whole run; the objects of the full script hold what the appends left in them, and only those that start a run change |
| OnpDiff.ONPDiff.NextGroup | lib/onpdiff.rb:164-206 | one group of the paragraph script and where the next one starts |
| OnpDiff.ONPDiff.PairRuns | lib/onpdiff.rb:189-199 | surplus of the first run, then as many pairs as the shorter run allows |
| OnpDiff.ONPDiff.PairParagraphs | lib/onpdiff.rb:212-222 | interleaves the two runs |
| OnpDiff.ONPDiff.BuildParagraphEditScript | lib/onpdiff.rb:161-210 | terminates; the result falls into groups, each a common entry that stays or two opposite runs: the last deletions pair with the first additions (or the other way round), the surplus of the first run stays in front and that of the second begins the next group |
| OnpDiff.ONPDiff.Diff | lib/onpdiff.rb:19-21 | nothing on give-up, else a shortest script between the original texts, made of the compared objects; once grouped it spells the texts if and only if only empty texts continue a run |
| OnpDiff.ONPDiff.ShortDiff | lib/onpdiff.rb:23-25 | the grouped form of the shortest script; objects that start no run keep their text, and an earlier diff now shows the runs in its first objects |
| OnpDiff.ONPDiff.ParagraphDiff | lib/onpdiff.rb:27-29 | the entries of the diff, grouped and paired position by position, each side in its old order; it spells both texts exactly when the diff does |
| OnpDiff.DiffAfterShortDiff | lib/onpdiff.rb:19-25 | `short_diff` and then `diff` of two equal arrays: either text is spelled exactly when all elements but the first are empty |
| OnpDiff.TwoEqualTokens | lib/onpdiff.rb:19-25 | a concrete input on which neither text is spelled |
| OnpDiff.EqualTexts | lib/onpdiff.rb:89-117 | the only shortest script of a text and itself consists of its elements as common entries |
| EditTraces.EditScriptSpells | lib/onpdiff.rb:89-117 | the script of a path spells both prefixes at its end, with one deletion for each downward step |
| EditScripts.CommonAtMostLcs | lib/onpdiff.rb:89-117 | no script has more common entries than a longest common subsequence |
| EditScripts.EveryScriptAtLeast | lib/onpdiff.rb:89-117 | every script has at least m + n - 2 LCS changed entries |
| EditScripts.RunsKeepMarks | lib/onpdiff.rb:119-159 | grouping keeps every character with its mark, and neighbouring runs differ |
| EditScripts.GroupedFormIsUnique | lib/onpdiff.rb:119-159 | marked characters and differing neighbours determine the grouped script |
| EditScripts.RunsKeepText | lib/onpdiff.rb:119-159 | grouping keeps the text of either side |
| EditScripts.ChangedOfRuns | lib/post_revisor.rb:432-437 | grouping keeps the number of changed characters |
| InPlaceRuns.HeadsOfMerged | lib/onpdiff.rb:128-151 | after the in-place appends the first entries of the runs hold the grouped script |
| InPlaceRuns.MergedOrHead | lib/onpdiff.rb:128-151 | no other entry changes |
| InPlaceRuns.MergedSpellsIff | lib/onpdiff.rb:19-29 | the script left behind spells its two texts if and only if only empty texts continue a run |
| InPlaceRuns.QuietMeansGrouped | lib/onpdiff.rb:128-151 | without empty texts that means the script is its own grouped form |
| InPlaceRuns.MergedForgets | lib/onpdiff.rb:128-151 | the script of two equal arrays of two strings, as it is left behind |
| ParagraphPairing.PairedKeepsSides | lib/onpdiff.rb:161-210 | pairing permutes the entries and keeps the order of the common and deleted ones and of the common and added ones |
| ParagraphPairing.PairedSpells | lib/onpdiff.rb:161-210 | so it still spells both texts |
| ParagraphPairing.PairsStandSideBySide | lib/onpdiff.rb:189-222 | a run followed by more than one opposite mark yields min(before, after) adjacent pairs: last of the first run with first of the second |
| ParagraphGroups.PairsUpIff | lib/onpdiff.rb:161-210 | a list pairs up the script, as stated by positions, if and only if it is the paired script |
| ParagraphGroups.CommonStays | lib/onpdiff.rb:165-166 | a common entry keeps its index, and a group starts at it and behind it |
| ParagraphGroups.StartedRunIsPaired | lib/onpdiff.rb:167-206 | at every start of a group, also behind a surplus, the run and the opposite run behind it are paired; the next group starts behind the pairs |
| ParagraphGroups.RunIsPaired | lib/onpdiff.rb:189-222 | for a changed run at the beginning or behind a common entry, with more than one opposite entry behind it: the t-th pair of the last entries with the first opposite ones stands at two adjacent indices, all else stays |
| ParagraphGroups.TwoPairs | lib/onpdiff.rb:189-222 | two deletions and two additions: first with first, second with second |
| HeapTokens.Push | lib/onpdiff.rb:128-132 | appending in place changes the object of the last run's first entry only |
| HeapTokens.Take | lib/onpdiff.rb:124-154 | taking the next object leaves every object that is still to be read unchanged |
| HeapTokens.OnlyHeadsChange | lib/onpdiff.rb:119-159 | after grouping only the objects that start a run hold another text than before |
| HeapTokens.ScriptShows | lib/onpdiff.rb:89-117 | the script of objects shows the script of their texts |
| HeapTokens.PairedShows | lib/onpdiff.rb:161-210 | pairing objects pairs their texts alike |
| Tokenizers.LineTokensRejoin | lib/discourse_diff.rb:164-166 | line tokens rejoin to the text without leading breaks; each is one line with the breaks behind it, and only a break ends a token before the last |
| Tokenizers.WordAt | lib/discourse_diff.rb:172-181 | a word and the blanks behind it make one token |
| Tokenizers.TokenizeMarkdown | lib/discourse_diff.rb:168-191 | the index loop yields the matches from left to right; each is a word with its blanks or another single character, a word is never divided nor separated from its blanks, and they rejoin to the text |
| MarkdownDiff.GenerateSideBySide | lib/discourse_diff.rb:255-269 | both cells carry the common texts plain, the left one also the deletions in del elements and the right one the additions in ins elements, each in order; no ins left, no del right |
| MarkdownDiff.SidePiecesMark | lib/discourse_diff.rb:255-269 | the k-th piece of a side shows the k-th entry of that side, with the mark of its operation |
| MarkdownDiff.SidePiecesText | lib/discourse_diff.rb:255-269 | a side's pieces without their marks are that side's text |
| MarkdownDiff.CompareLines | lib/discourse_diff.rb:112-124 | a row that shows both lines and whose plain, del and ins texts are the common, deleted and added runs of a shortest script, or two empty cells when the inner comparison gives up |
| MarkdownDiff.SymbolsFarApart | lib/discourse_diff.rb:112-120 | lines of symbols are compared by character up to a difference of 200 in length, else as whole lines |
| MarkdownDiff.SymbolsGiveUp | lib/discourse_diff.rb:112-124 | a concrete pair of lines whose comparison gives up |
| MarkdownDiff.RowAt | lib/discourse_diff.rb:97-137 | the row of one entry or pair shows exactly its lines and marks deletions left and additions right, or shows less once a comparison gave up |
| MarkdownDiff.RowStartsAreRows | lib/discourse_diff.rb:92-142 | from the first entry to the last, a row takes two neighbouring opposite entries or one entry |
| MarkdownDiff.DiscourseDiff.LineByLineDiff | lib/discourse_diff.rb:155-162 | the grouped form of a shortest script over the lines of the escaped texts, or nothing when that comparison gives up; both sides rejoin |
| MarkdownDiff.EscapeTellsApart | lib/discourse_diff.rb:155-162 | escaping keeps different texts different |
| MarkdownDiff.DiscourseDiff.SideBySideRows | lib/discourse_diff.rb:92-142 | for the line diff, which groups a shortest script: one row per entry or deletion-addition pair, in order, each showing and marking exactly its own; the columns show all of the line diff exactly when no inner comparison gives up |
| MarkdownDiff.DiscourseDiff.SideBySideMarkdown | lib/discourse_diff.rb:92-142 | either column rejoins to its escaped text without leading breaks if and only if nothing gave up |
| MarkdownDiff.DiscourseDiff.SingleLinesFinishIff | lib/discourse_diff.rb:92-142 | two different single lines are shown completely exactly when their own comparison finishes |
| MarkdownDiff.ShortestReplacement | lib/discourse_diff.rb:155-162 | two different lines are compared as one deletion and one addition |
| MarkdownDiff.MarksVanish | lib/discourse_diff.rb:92-142 | a concrete pair of texts that neither column shows |
| PresenceStore.UserOfElem | lib/presence_channel.rb:457-457 | the user id written into a list member is the one `auto_leave` reads back |
| PresenceStore.CountsAdd | lib/presence_channel.rb:484-487 | adding a client keeps the counts exact |
| PresenceStore.CountsRemove | lib/presence_channel.rb:515-524 | removing a client keeps the counts exact, and a count of one means it was the last |
| PresenceStore.ExpireStep | lib/presence_channel.rb:606-619 | one expired client: either the script stops at the taken mutex, or the client goes, and its user with the last one |
| PresenceStore.AutoLeaveOutcome | lib/presence_channel.rb:583-626 | auto_leave aborts exactly when the mutex is taken and some user would leave |
| PresenceStore.Channel.Advance | lib/presence_channel.rb:497-498 | Redis drops keys whose time has come |
| PresenceStore.Channel.Present | lib/presence_channel.rb:474-501 | refused exactly for a new user while the mutex is taken; else the client's expiry is set, a refresh included, no other one changes, and the answer is 1 exactly for a new user; counts stay exact |
| PresenceStore.PresentPresents | lib/presence_channel.rb:474-501 | the same of the script, with counts replaced by the clients they count |
| PresenceStore.Channel.UpdateGlobalChannels | lib/presence_channel.rb:460-470 | the channel's score becomes its earliest expiry, or the channel is unlisted |
| PresenceStore.Channel.Leave | lib/presence_channel.rb:503-531 | with the guard as written or read numerically: refused exactly where the numeric guard finds the mutex taken and a last client; else the client is gone, no other one changes, and the answer is 1 exactly when the user went with it; counts stay exact |
| PresenceStore.LeaveLeaves | lib/presence_channel.rb:503-531 | the same of the script, with counts replaced by the clients they count |
| PresenceStore.Channel.ReleaseMutex | lib/presence_channel.rb:533-540 | the mutex is released by its own value only |
| PresenceStore.Channel.UserIds | lib/presence_channel.rb:542-561 | the reading script that `SnapshotsAreReplays` is about: last id and users, or the mutex error |
| PresenceStore.Channel.CountUsers | lib/presence_channel.rb:563-581 | the reading script that `CountSnapshotsAddUp` is about: last id and number of users, or the mutex error |
| PresenceStore.Channel.ExpireClient | lib/presence_channel.rb:606-619 | the loop body on the keys |
| PresenceStore.Channel.AutoLeave | lib/presence_channel.rb:583-626 | in any order: removes exactly the expired clients and returns, once each, exactly the users left without one; aborted, it removes no user |
| PresenceRuns.StepKeepsOrder | lib/presence_channel.rb:127-210 | every legal step keeps users and log in agreement but for the one change whose process holds the mutex |
| PresenceRuns.AutoLeaveKeepsOrder | lib/presence_channel.rb:195-210 | a completed auto_leave announces exactly the users it removed |
| PresenceRuns.AbortKeepsOrder | lib/presence_channel.rb:597-602 | an aborted auto_leave is invisible to readers |
| PresenceRuns.RunIsOrdered | lib/presence_channel.rb:362-374 | agreement holds in every state of every legal run |
| PresenceRuns.SnapshotsAreReplays | lib/presence_channel.rb:166-185 | what `UserIds` answers at any state of a run equals the replay of the final log up to the answered id |
| PresenceRuns.CountSnapshotsAddUp | lib/presence_channel.rb:330-345 | what `CountUsers` answers equals the sum of the published deltas of the final log up to the answered id |
| PresenceRuns.RunIsCounted | lib/presence_channel.rb:422-426 | in every run, with the literal guard, aborted scripts and lapsing keys, the hash counts each user's clients exactly |
| PresenceFaults.LiteralLeaveKeepsOrderIff | lib/presence_channel.rb:506-512 | the literal leave keeps the order if and only if the numeric guard was not needed while a message was unpublished |
| PresenceFaults.GuardNeededMeansWrongSnapshot | lib/presence_channel.rb:506-512 | from every state where it was needed, the processes can go on to a wrong snapshot |
| PresenceFaults.LiteralLeaveMisorders | lib/presence_channel.rb:506-512 | a concrete run from the start to a wrong snapshot |
| PresenceFaults.LapseBreaksOrderIff | lib/presence_channel.rb:488-498 | time keeps users and log in agreement exactly when neither the mutex of an unpublished change nor the user hash lapses |
| PresenceFaults.LapseMeansWrongSnapshot | lib/presence_channel.rb:488-498 | otherwise a reader gets a wrong snapshot, at once or once the change is published and its mutex has run out |
| PresenceFaults.MutexLapses | lib/presence_channel.rb:488-490 | a run whose mutex runs out before the publish, and the wrong snapshot |
| PresenceFaults.UsersLapse | lib/presence_channel.rb:497-498 | a run whose user hash expires, and the wrong snapshot |
| PresenceExpiry.StepKeepsListed | lib/presence_channel.rb:460-494 | every step keeps the channel listed no later than its earliest expiry |
| PresenceExpiry.RunIsListed | lib/presence_channel.rb:436-440 | the listing invariant holds in every run with a steady clock |
| PresenceExpiry.ExpiredClientIsListed | lib/presence_channel.rb:223-227 | auto_leave_all finds every channel with an expired client, even after aborted runs |
| PresenceExpiry.ExpiredClientGoes | lib/presence_channel.rb:583-626 | an expired client that is not refreshed is gone after the next auto_leave that completes, whatever steps come between |
| PresenceExpiry.OtherClientsStay | lib/presence_channel.rb:583-626 | a client goes only by its own leave, by an auto_leave at or after its expiry, or with the whole list |
| PresenceExpiry.PresentClientStays | lib/presence_channel.rb:474-501 | after a present that is not refused the client stays in the list with that expiry until a leave of it, an auto_leave at or after that time, its next present, or the lapse of the list |
| PresenceExpiry.SweepMissesNothing | lib/presence_channel.rb:223-228 | the list is read once and each channel found completes an auto_leave at its own later time: every client expired at the reading is then gone unless it was refreshed |
| RateLimiting.DecidesOnHistory | lib/rate_limiter.rb:88-89 | the test of the trimmed list means fewer than max events in the window |
| RateLimiting.PerformTracks | lib/rate_limiter.rb:80-98 | an attempt decides by the full history and keeps the key in step with it |
| RateLimiting.RollbackTracks | lib/rate_limiter.rb:138-143 | a rollback removes the newest event from key and history alike |
| RateLimiting.RunsAgree | lib/rate_limiter.rb:80-98 | every run of attempts and rollbacks on the expiring list decides as the limiter that remembers everything |
| RateLimiting.WindowHoldsAtMostMax | lib/rate_limiter.rb:80-98 | no window of secs seconds holds more than max events |
| RateLimiting.RunsKeepWindow | lib/rate_limiter.rb:80-98 | after any run of attempts and rollbacks no window of secs seconds holds more than max accepted events |
| RateLimiting.WaitIsExact | lib/rate_limiter.rb:75-77 | after a refusal the next attempt succeeds once the reported wait is over and not before |
| RateLimiting.AggressiveDecides | lib/rate_limiter.rb:100-123 | without rollbacks it allows exactly when fewer than max attempts of any kind are in the window |
| RateLimiting.AggressiveRunsAgree | lib/rate_limiter.rb:100-123 | over every run without rollbacks it decides as if it remembered every attempt |
| RateLimiting.AggressiveRollbackForgets | lib/rate_limiter.rb:100-143 | a run in which a rollback makes it allow an event too many |
| RateLimiting.RollbackForgetsIff | lib/rate_limiter.rb:100-143 | after any number of rollbacks in a row it decides by the remaining attempts if and only if fewer than max of them are still in the window |
| RateLimiting.RateLimiter.Performed | lib/rate_limiter.rb:125-136 | allowed exactly when fewer than max accepted events are younger than secs |
| RateLimiting.RateLimiter.RollBack | lib/rate_limiter.rb:138-143 | the newest event is forgotten |
| RateLimiting.RateLimiter.IsUnderLimit | lib/rate_limiter.rb:179-186 | decides by the full history when max is positive |
| RateLimiting.RateLimiter.Remaining | lib/rate_limiter.rb:145-152 | max minus the fetched events no older than secs, for any max; for a positive one this is max minus the events in the window exactly when no kept event is aged exactly secs |
| RateLimiting.RateLimiter.TimeToWait | lib/rate_limiter.rb:75-77 | the wait that `WaitIsExact` is about |
| RateLimiting.RemainingMisleads | lib/rate_limiter.rb:145-152 | a state in which none remains and the attempt is allowed |
| RateLimiting.QueryDecidesIff | lib/rate_limiter.rb:179-186 | the query decides like an attempt exactly when max is positive or the oldest event is younger than secs |
| RateLimiting.QueryMisleads | lib/rate_limiter.rb:179-186 | a state in which it does not |
| DistributedMutex.RedisKey.Lock | lib/distributed_mutex.rb:9-20 | the whole new state of the lock script |
| DistributedMutex.RedisKey.Unlock | lib/distributed_mutex.rb:22-31 | the whole new state of the unlock script |
| DistributedMutex.TimeToLiveIsInvisible | lib/distributed_mutex.rb:14-17 | the key's time to live never changes who gets the lock |
| DistributedMutex.TimeToLiveNeverShows | lib/distributed_mutex.rb:14-17 | in every run of lock and unlock calls all answers are those of a key that never expires |
| DistributedMutex.StepIsSafe | lib/distributed_mutex.rb:46-70 | every client inside owns the key or has passed its expire time, and then any key is younger |
| DistributedMutex.MutualExclusion | lib/distributed_mutex.rb:46-70 | at most one client inside has not passed its expire time |
| DistributedMutex.GrantedIff | lib/distributed_mutex.rb:9-20 | the lock is granted if and only if every client inside has passed its expire time, and it lasts for the validity asked |
| DistributedMutex.RunsExclude | lib/distributed_mutex.rb:78-84 | in every run the lock is granted only once all others have left or passed their expire time |
| DistributedMutex.RunsGrantIff | lib/distributed_mutex.rb:78-84 | in every run an attempt succeeds exactly when all clients inside have passed their expire time |
| DistributedMutex.UnlockTouchesOnlyOwnEntry | lib/distributed_mutex.rb:22-31 | a late unlock never removes another client's entry, and unlocking fails only after the own expire time |
| DistributedMutex.WarnsIff | lib/distributed_mutex.rb:55-65 | without tampering the warning is given exactly when the clock was read in time and the client no longer holds a live entry, and then its expire time has passed in between |
| DistributedMutex.WarningWithoutTampering | lib/distributed_mutex.rb:55-65 | a concrete run that raises it |
| LocaleMerging.LookupAfterDelete | lib/js_locale_helper.rb:73-90 | a path keeps its text exactly when no checked hash has one there |
| LocaleMerging.DeleteIsPruned | lib/js_locale_helper.rb:80-81 | no empty branch is left below the root |
| LocaleMerging.MergedLookup | lib/js_locale_helper.rb:100-109 | a text stays in the first locale of the chain that defines it and in no later one |
| LocaleMerging.MergingKeepsFallback | lib/js_locale_helper.rb:92-112 | merging changes no fallback lookup and leaves each text in one locale |
| LocaleMerging.MergeLocales | lib/js_locale_helper.rb:100-109 | the loop computes the merged chain |
| LocaleMerging.UniqCompactOrder | lib/js_locale_helper.rb:93-93 | the chain stands in the order of first occurrence |
| LocaleMerging.LoadTranslationsMerged | lib/js_locale_helper.rb:92-112 | every locale once; a path has a text in a merged tree exactly when its locale has it and no locale that occurs earlier among the arguments does |
| PostRevisions.Post.UpdateRevision | lib/post_revisor.rb:624-653 | the amended revision, or its removal with both versions lowered; the last editor is then the author of the highest numbered revision left, or the owner; nothing without an open revision |
| PostRevisions.RemovalRestoresEditor | lib/post_revisor.rb:643-649 | the version falls exactly when the revision goes, and only then does the last editor change: to the author of the newest revision left, or the owner |
| PostRevisions.Post.CreateRevision | lib/post_revisor.rb:605-622 | the revision of the current version, by the last editor |
| PostRevisions.Post.StartVersion | lib/post_revisor.rb:465-469 | both version counters go up |
| PostRevisions.FoldStep | lib/post_revisor.rb:629-641 | folding field by field, in any order, gives the same modifications |
| PostRevisions.AmendmentKeepsNetIff | lib/post_revisor.rb:629-641 | the modifications stay the net difference if and only if no unmodified field changes without showing |
| PostRevisions.OpenRevisionIsNet | lib/post_revisor.rb:624-653 | over text fields, amendments leave the open revision with the net difference to its base; it is gone and the version is lower exactly when one of them brought every field back |
| PostRevisions.AmendmentKeepsChain | lib/post_revisor.rb:642-653 | one amendment lowers the version by one exactly when it brings every field back to the base of the open revision |
| PostRevisions.RunsStayNet | lib/post_revisor.rb:601-653 | in every run of new versions and amendments each revision holds the net change to the next, and versions count the revisions left |
| PostRevisions.RunsKeepAuthors | lib/post_revisor.rb:601-653 | in every run each revision left is by the editor of the last edit that went into it, and the last editor is the one of the last edit or, when that removed its revision, the author of the one before or the owner |
| PostRevisions.NewPostsStayNet | lib/post_revisor.rb:601-653 | so it is, with the authors, for every post from its first version on |
| PostRevisions.NilChangeIsRecorded | lib/post_revisor.rb:638-640 | a nil field set to the empty text is recorded although nothing shows |
| EditSizes.DiffSize | lib/post_revisor.rb:432-437 | the edit distance in characters, or 0 on give-up |
| EditSizes.WithinMaxDiff | lib/post_revisor.rb:448-451 | both size tests, and without give-up exactly the edits within the limit |
| EditSizes.SizeTestsAreExactIff | lib/post_revisor.rb:448-451 | for limits below 2000 the tests are right if and only if the comparison finishes or the lengths differ by more than the limit |
| EditSizes.RewritePasses | lib/post_revisor.rb:448-451 | a concrete rewrite of a thousand characters passes a limit of 0 |
| EditSizes.GivingUpHidesLargeEdits | lib/post_revisor.rb:432-437 | a comparison that gives up hides a distance of at least 2000 |
| ConsecutiveVisits.ShiftGrows | lib/badge_queries.rb:263-266 | date minus rank never falls, and stays the same exactly along days without a gap |
| ConsecutiveVisits.RankOneIsLeast | lib/badge_queries.rb:270-278 | rank 1 picks the least shift |
| ConsecutiveVisits.RankedFirstIsFirstRun | lib/badge_queries.rb:262-279 | the selected group start is the start of the earliest run of n days |
| ConsecutiveVisits.GrantedExactly | lib/badge_queries.rb:260-280 | a row is returned exactly for the start of a user's earliest run, dated n days later |
| ConsecutiveVisits.EveryRunIsGrantedOnce | lib/badge_queries.rb:260-280 | whoever has a run gets exactly one row |
| Gaps.EarlyMatchIsEnough | lib/gaps.rb:33-45 | matching as early as possible finds every subsequence |
| Gaps.FoundMatch | lib/gaps.rb:36-42 | a match files the open gap and keeps prefix and gaps rebuilding the list |
| Gaps.Gaps.constructor | lib/gaps.rb:13-20 | the gaps rebuild the list exactly when the subset is a subsequence of it |
| Gaps.Gaps.FindGaps | lib/gaps.rb:26-52 | the same, with a final gap only behind the last element |
| Gaps.OmittedInOneGap | lib/gaps.rb:7-8 | every omitted element lies in exactly one gap |
| Gaps.EmptyOriginalNeverStops | lib/gaps.rb:33-49 | with an empty original and a non-empty subset the loop runs for ever |

## Left out

- OnpDiff.ONPDiff.Diff: compares arrays; on two strings, whose elements are new objects at every read, a `diff` after `short_diff` would lose nothing, but the one caller with strings asks for `short_diff` only.
- OnpDiff.ONPDiff.ShortDiff: requires the string objects of the two arrays to be pairwise distinct, as those made by `scan` are; on an array that holds one object twice an append would change entries still to be read.
- Gaps.Gaps.constructor: requires a non-empty original for a non-empty subset, because the loop does not end otherwise, and elements other than nil, which would end it early.
- LocaleMerging.LoadTranslationsMerged: requires trees that agree on which paths are branches; elsewhere the code indexes a text with a key. The memo of merged chains and the loading of files are not modelled.
- PostRevisions.Post.UpdateRevision: saving, validation and transactions are not modelled; numbers and booleans count as the text they print.
- PresenceExpiry.SweepMissesNothing: assumes that each `auto_leave` of the sweep completes; one that keeps failing on the mutex raises and ends the sweep.
- ConsecutiveVisits.GrantedExactly: dates are day numbers, and the query is read as sets of rows with at most one row per user and day.
- DistributedMutex: waiting, back-off, the read-only check and logging; every attempt is one step.
- RateLimiting: staff and disabled limiters beyond the staff answer of `remaining`, read-only errors, and key names.
- Presence configuration, permissions, user serialisation, `clear`, failing publishes and the bounded number of retries.
- HTML diffing in `lib/discourse_diff.rb` (`tokenize_html`, `tokenize_html_blocks`, `add_class_or_wrap_in_tags`): it depends on an HTML parser. Del and ins elements and cell classes of the Markdown table are constructors or omitted, not strings.
- PostRevisions.Post.CreateRevision: the original text cached in Redis, which can replace the old value of `raw` and `cooked`; and the rest of `lib/post_revisor.rb`.
- The other badge queries.
