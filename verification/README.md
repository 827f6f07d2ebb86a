# NetworkManager-ci: verified models

NetworkManager-ci runs the NetworkManager test suite with behave. Most of it drives `nmcli`, `ip`,
systemd and D-Bus. Some of it is algorithms and state machines that decide which test runs, whether
lists match, what is cleaned up after a scenario and what a report contains. This project models
those parts and proves what they promise. `dafny verify dfyconfig.toml` checks all of it.

| file | models |
|---|---|
| `VersionOrder.dfy`, `VersionTags.dfy` | the evaluation of version tags such as `@ver+=1.28.2`, and its specification over sets of tags |
| `VersionLaws.dfy`, `VersionClosedForm.dfy` | branches, neighbours and stops, and the closed form of the evaluation for any tags and any version |
| `VersionOneSign.dfy` | the documented readings of "+=" and of "-=" tags, and exactly where they fail, for versions of any length |
| `VersionDocs.dfy` | the notes of the documentation: the branches of the tags, ranges and holes |
| `VersionConvenience.dfy` | note 1: "+" and "-" as convenience forms |
| `VersionWrittenStops.dfy` | notes 4 and 5: the stops written out as tags |
| `VersionWritten.dfy` | the verdicts read off the tags as they are written, without padding, branches or stops |
| `Sorting.dfy`, `Selection.dfy` | the stable sort that version tags and embeds use, and filtering lists by position |
| `Text.dfy`, `TagSyntax.dfy`, `StreamFilter.dfy` | the text of tags, and the choice of the tags of a package stream |
| `ListMatcher.dfy` | the comparison of a list of strings with expected entries by backtracking |
| `WhitespaceCodec.dfy` | joining and splitting strings with backslash escapes |
| `Timers.dfy` | timeouts, nested timeouts, sleeping loops and `wait_for` |
| `CleanupQueue.dfy`, `CleanupRun.dfy`, `CleanupState.dfy`, `CleanupPlans.dfy`, `Cleanup.dfy` | the cleanup queue, draining it while actions enqueue more, and the services that are stopped by it |
| `ResourceTree.dfy`, `ResourceParents.dfy`, `MetadataServer.dfy` | the resource trees of the cloud metadata mock |
| `Intervals.dfy`, `EmbedQueue.dfy`, `EmbedRuns.dfy` | the embed queue, its runs, and the captions of combined embeds |
| `MacAddress.dfy` | reading and printing hardware addresses |

Where the source changes objects or lists step by step, the model is a class or a loop proved against
a specification function; the laws are then proved about that function. For each main operation some of
them are said without any function of the specification: of the tags as written (`VersionWritten.dfy`), of what
actions are made from (`CleanupPlans.dfy`), of the nodes along a path (`ResourceParents.dfy`), of the calls
of a run (`EmbedRuns.dfy`), of the callbacks of a wait and of the characters of a text.

## Where the code and its documentation differ

The models follow the code. In each case below there is a concrete input on which the documented
property fails, and a theorem that says exactly when it holds; the limits of a theorem are named under "Left out".

- Two-component versions (`nmci/misc.py:844-876`): tags are grouped by both components while a stop keeps
  only the first. `+=8.4 +=8.6` accepts 7.5 and `+=8 +=8.6` rejects 8.0 (`AcceptedBeforeAllTags`,
  `ListedButRejected`); `-=8.4 -=8.6` accepts 9.0 (`AcceptedAfterAllTags`). `PlusTagsExactly` and
  `MinusTagsExactly` name the versions on which the documented reading fails.
- The sentinel 9999 (`nmci/misc.py:833-838`): `-=1.28 -=1.30` rejects 1.28.9999, the listed tag itself
  (`SentinelRejected`), and `-=8.4 -=9.2` accepts 8.10000 (`PastSentinelAccepted`). `MinusTagsExactly` says
  exactly which versions are affected; each has a component of 9999 or more after its branch (`EndStopNeedsSentinel`).
- Note 1 of the evaluation's documentation calls "+" and "-" convenience forms: "+1.28.5" is exactly the same
  as "+=1.28.6". Beside a further tag it is not (`ConvenienceFormFails`). `ConvenienceForm` gives the exact
  condition where the rewriting keeps the tags in order. It swaps two tags exactly if they let in at most one
  release (`KeepsOrderIff`, `SwappedIff`); verdicts far away can then change (`ConvenienceFormOutOfOrder`), and
  `RewrittenForm` gives the verdict on the rewritten list at every version, in whatever order.
- Note 3 says that of "+=1.26.4 +=1.28.2" the first tag covers nothing but later 1.26 releases; note 4, and
  the code, let it cover 1.27 too (`NoteThreeFails`). `NoteThreeExactly` and `NoteThreeAsWritten` show that,
  misplaced stops aside, the branches between some tag and the highest of the shortest are the only addition.
- Notes 4 and 5 say that the stops can be written out as tags. On two components they can call for further
  stops: "-=6.2 +=8.4 +=8.6" rejects 7.5, and with its stop "-8.0" written out accepts it (`WrittenStopMatters`).
  Written stops are harmless if they call for no further stop (`StopsCanBeWritten`), so on three components
  or more (`PlacedStopsCanBeWritten`) and for tags of one sign (`PlusStopsCanBeWritten`, `MinusStopsCanBeWritten`),
  which are the examples of the notes. `WrittenIff` says from the tags when that is, and
  `WritingMattersExactly` on which versions the verdict changes.
- Needed cleanups are enqueued twice (`nmci/cleanup.py:82`, `nmci/cleanup.py:697-699`). For needs that need
  nothing themselves that is harmless (`NeededTwiceIsOnce`). Otherwise a needed action can overtake what it
  needs itself (`NeededAgainReorders`). `NeededAgain` says, for any needs, exactly when the second enqueuing
  changes nothing.
- `compare_strv_list` drops optional entries that match nothing but looks up the flags of the others by
  their new positions (`nmci/util.py:1205`, `nmci/util.py:1228`). The entries "?x", "a", "a" match the
  single string "a" (`MisalignedFlags`). `FlagsLineUp` says for which flags the search is right whatever
  the candidates are.
- With extra strings not ignored, `compare_strv_list` asks only that each string is a candidate of some entry,
  not that the assignment uses it (`nmci/util.py:1183-1190`): one entry that matches two strings is enough
  (`UnusedString`). `ExtraStringsUsed` says for which flags and numbers of strings the two come to the same.
- `was_expired` of a timer is documented to follow `expired()`. Every internal check counts, so also one made
  by `sleep`, `loop_sleep`, `remaining_time` or a nested timer: a timer of no time that slept once has it set
  although `expired()` was never called (`ExpiredByItself`). `DocumentedWasExpired` says exactly when the
  documented reading holds.

## Model

| member | source | states |
|---|---|---|
| `VersionTags.TestVersionTagEval` | nmci/misc.py:752-938 | the evaluator returns the verdict, assertion failure or error that the specification over the set of padded tags gives: only the nearest tags at or below and at or above the version, among the tags and their stops, decide |
| `VersionTags.FillVer` | nmci/misc.py:833-840 | the result has the length of the version and begins with what is written; every further component is 9999 for "+" and "-=" and 0 for "-" and "+=" |
| `VersionWritten.OneTag` | nmci/misc.py:833-938 | a tag of any length, compared with as many components of the version: "-" accepts what is before it, "+=" what is not; "-=" accepts what is not after it and "+" what is, where on the written version itself components past the sentinel count as after |
| `VersionWritten.OneOrdinaryTag` | nmci/misc.py:833-938 | so each operator compares just the written components, unless those after them exceed the sentinel |
| `VersionWritten.BareTag` | nmci/misc.py:813-821 | a lone bare "+" always accepts, a lone bare "-" never, and with "=" an assertion fails |
| `VersionWritten.Refusals` | nmci/misc.py:809-830 | an assertion fails exactly for a bare tag beside others or with "=", and the error is raised exactly for a tag longer than the version where there is none |
| `VersionWritten.PlusList` | nmci/misc.py:752-938 | "+=" tags of any lengths, in any order, on three components or more: accepted exactly if named, or not before some tag and not before any whose first two components are its own |
| `VersionWritten.MinusList` | nmci/misc.py:752-938 | "-=" tags, below the sentinel: accepted exactly if named in full, or not after some tag and not after any whose first two components are its own |
| `VersionTags.AddAuxTags` | nmci/misc.py:867-883 | a pass adds exactly one stop for each tag that directly follows one of the same sign in another group, and nothing else |
| `VersionTags.AddStops` | nmci/misc.py:885-904 | after both sorts and both passes the list is sorted and holds exactly the tags and the stops of adjacent tags |
| `VersionTags.SearchClosestTags` | nmci/misc.py:919-929 | the search finds the greatest tag at or below the version and the least at or above it, and nothing exactly when there is none |
| `VersionTags.PlusPassAddsStops` | nmci/misc.py:898-901 | the pass over the sorted list with duplicates adds the stops that adjacency in the set of tags demands |
| `VersionTags.MinusPassAddsStops` | nmci/misc.py:894-896 | the pass over the reversed list adds exactly the upper stops |
| `VersionClosedForm.ClosedForm` | nmci/misc.py:752-938 | for any tags of any operators and any version of any length: on a version with a tag or a stop, acceptance means that all of them are inclusive; elsewhere the signs of the nearest tags, and the stops of their branches and its own, decide |
| `VersionLaws.StopBetween` | nmci/misc.py:848-865 | except for two components and "-" tags past the sentinel, a stop has the opposite sign and lies between the two tags it separates |
| `VersionLaws.AtTagVersion` | nmci/misc.py:906-938 | among any given marks, tags and stops together, the search accepts a marked version exactly if every mark on it is inclusive |
| `VersionDocs.OrderAndRepetitionDoNotMatter` | nmci/misc.py:842-904 | evaluation depends only on which tags there are, not on their order or repetition |
| `VersionOneSign.PlusTagsExactly` | nmci/misc.py:773-790 | "+=" tags on versions of any length: accepted exactly if listed, or after some tag and before none of its own branch, except where a stop is misplaced, which needs two components |
| `VersionOneSign.MinusTagsExactly` | nmci/misc.py:833-904 | "-=" tags on versions of any length: the mirrored reading holds exactly unless a stop lies above all tags, which needs two components, or the version is at or past the sentinel end of a branch with a stop |
| `VersionOneSign.EndStopNeedsSentinel` | nmci/misc.py:833-838 | the last exception concerns only versions with a component of 9999 or more after the branch |
| `VersionOneSign.PlusTagsAsWritten` | nmci/misc.py:752-938 | the same for a list of "+=" tags as written, of any lengths up to that of the version and in any order |
| `VersionOneSign.MinusTagsAsWritten` | nmci/misc.py:752-938 | the same for a list of "-=" tags as written |
| `VersionOneSign.AcceptedBeforeAllTags` | nmci/misc.py:844-876 | "+=8.4 +=8.6" accepts 7.5 |
| `VersionOneSign.ListedButRejected` | nmci/misc.py:844-876 | "+=8 +=8.6" rejects 8.0 |
| `VersionOneSign.AcceptedAfterAllTags` | nmci/misc.py:844-876 | "-=8.4 -=8.6" accepts 9.0 |
| `VersionOneSign.SentinelRejected` | nmci/misc.py:833-865 | "-=1.28 -=1.30" rejects 1.28.9999 |
| `VersionOneSign.PastSentinelAccepted` | nmci/misc.py:833-865 | "-=8.4 -=9.2" accepts 8.10000 |
| `VersionDocs.NoteThreeExactly` | nmci/misc.py:773-785 | padded "+=" tags, one of which is taken as the top: accepted is what note 3 says, and besides exactly the branches without tags between some tag and the top one, apart from misplaced stops |
| `VersionDocs.NoteThreeAsWritten` | nmci/misc.py:773-785 | the same for a list of "+=" tags as written, with the highest of the shortest as top |
| `VersionDocs.NoteThreeFails` | nmci/misc.py:773-785 | "+=1.26.4 +=1.28.2" accepts 1.27.0, which note 3 does not cover |
| `VersionDocs.AlternatingRanges` | nmci/misc.py:770-771 | alternating "+=" and "-=" tags accept exactly the union of the closed intervals between them, open at the ends, for versions of any length |
| `VersionDocs.AlternatingHasNoStops` | nmci/misc.py:867-904 | alternating tags get no auxiliary tag |
| `VersionWrittenStops.StopsCanBeWritten` | nmci/misc.py:787-794 | for versions of any length, writing the stops out changes no verdict if the written stops call for no stop that is not there |
| `VersionWrittenStops.PlacedStopsCanBeWritten` | nmci/misc.py:787-794 | on other than two components, with no "-" tag past the sentinel, written stops call for no stop at all |
| `VersionWrittenStops.PlusStopsCanBeWritten` | nmci/misc.py:787-790 | the stops of "+" tags on any number of components call for no stop that is not there |
| `VersionWrittenStops.MinusStopsCanBeWritten` | nmci/misc.py:792-794 | nor do those of "-" tags that are not past the sentinel |
| `VersionWrittenStops.WrittenStopsExactly` | nmci/misc.py:842-904 | below the sentinel, the written stops call exactly for the missing halves between branches of which only one is stopped, and for the stops of tags next to a stop of their own branch and sign |
| `VersionWrittenStops.WrittenIff` | nmci/misc.py:842-904 | so they call for nothing new exactly if no two neighbouring branches are half stopped and those last stops are already there |
| `VersionWrittenStops.WrittenForm` | nmci/misc.py:842-938 | the verdict on the written list at any version, read off the original tags and all stops |
| `VersionWrittenStops.WritingMattersExactly` | nmci/misc.py:842-938 | writing the stops out changes the verdict exactly on the versions named by WritingMatters: outside the branches of the tags it opens those whose sides become open, inside it shuts those on, over or under a new stop |
| `VersionWrittenStops.HalfStoppedOpens` | nmci/misc.py:844-876 | between two half stopped branches it opens every version |
| `VersionWrittenStops.HalfStoppedMatters` | nmci/misc.py:844-876 | and there always is one |
| `VersionWrittenStops.WrittenStopMatters` | nmci/misc.py:787-794 | "-=6.2 +=8.4 +=8.6" rejects 7.5, and with its stop "-8.0" written out accepts it |
| `VersionConvenience.ConvenienceForm` | nmci/misc.py:767-768 | for tags of all four operators, rewriting "+x" as "+=" on the next release and "-x" as "-=" on the previous one changes the verdict exactly on the versions named by RewritingMatters, where it keeps the tags in order |
| `VersionConvenience.ConvenienceFormFails` | nmci/misc.py:767-768 | "+1.28.5 +=1.28.9" rejects 1.28.6, "+=1.28.6 +=1.28.9" accepts it |
| `VersionConvenience.ConvenienceFormOutOfOrder` | nmci/misc.py:767-768 | "+1.28.5 -=1.28.6", which rewriting puts out of order, rejects 1.20.0, and the rewritten tags accept it |
| `VersionConvenience.KeepsOrderIff` | nmci/misc.py:767-768 | the rewriting keeps the order exactly if it swaps no "+" tag with a later "-" tag |
| `VersionConvenience.SwappedIff` | nmci/misc.py:767-768 | it swaps the two exactly if they let in at most one release |
| `VersionConvenience.RewrittenForm` | nmci/misc.py:767-768 | the verdict on the rewritten list at every version before the sentinel, in whatever order, read off the tags as they were: a swapped pair counts with the other sign |
| `TagSyntax.TestVersionTagParseVer` | nmci/misc.py:400-433 | the loop over stream components reads what the specification of the syntax reads, and the prefix test on the rebuilt candidate never fails |
| `TagSyntax.AcceptedIff` | nmci/misc.py:353-433 | a text is read as a tag exactly if it is "ver", each stream component after a slash, and an operator with numbers between dots, possibly before a newline, or a bare "+" or "-" |
| `TagSyntax.ExampleTag` | nmci/misc.py:400-433 | "ver/rhel/8+=1.28.10" is the tag "+=" of 1.28.10 for the stream rhel, 8 |
| `TagSyntax.ParseAfterPrint` | nmci/misc.py:353-433 | every well-formed tag, printed, parses to itself |
| `TagSyntax.PrintAfterParse` | nmci/misc.py:353-433 | every accepted tag is well formed, and printing it again gives a tag that parses to the same |
| `TagSyntax.PrintIsInjective` | nmci/misc.py:400-411 | distinct tags have distinct texts |
| `StreamFilter.TestVersionTagFilterForStream` | nmci/misc.py:461-472 | the loop ends and returns, in order, the tags of the longest prefix of the package stream that some tag names, or none |
| `StreamFilter.FilterMeaning` | nmci/misc.py:461-472 | the result is, by position, the operator and version of every tag of the longest named prefix, however many there are, in order; it is empty if no prefix is named |
| `StreamFilter.OtherStreamsDoNotMatter` | nmci/misc.py:435-452 | a tag for a stream that is no prefix changes nothing, wherever it stands |
| `StreamFilter.SpecificHidesGeneral` | nmci/misc.py:448-450 | a tag for a longer matching prefix hides all more general tags |
| `ListMatcher.Search.HasUniquePermutation` | nmci/util.py:1201-1223 | the search succeeds exactly if indexes can be picked for all required and some optional entries, distinct or increasing, and leaves the marks as it found them |
| `ListMatcher.CompareStrvList` | nmci/util.py:1131-1239 | the first required entry without a candidate, else the first extra string, else the verdict of the search on the kept lists |
| `ListMatcher.ComparisonIsFunctional` | nmci/util.py:1174-1239 | the candidates determine the result |
| `ListMatcher.DroppingWithFlags` | nmci/util.py:1192-1200 | dropping empty optional entries together with their flags would not change which assignments exist |
| `ListMatcher.FlagsLineUp` | nmci/util.py:1201-1230 | the search on the kept lists is right for all candidates exactly if the flags still line up or at most one entry is required |
| `ListMatcher.ComparisonMeaning` | nmci/util.py:1106-1239 | under that condition the comparison succeeds exactly if the documented assignment exists and, with extra strings not ignored, each string is a candidate of some entry |
| `ListMatcher.ExtraStringsUsed` | nmci/util.py:1183-1190 | that check means that some assignment uses every string, whatever the candidates are, exactly if there is at most one string, no entry, or a required entry for each string |
| `ListMatcher.ComparisonOfAll` | nmci/util.py:1116-1239 | under both conditions the comparison with no extra string ignored succeeds exactly if some assignment uses every string |
| `ListMatcher.UnusedString` | nmci/util.py:1183-1190 | one entry that matches both of two strings is reported to match, with one string unused |
| `ListMatcher.MisalignedFlags` | nmci/util.py:1205-1230 | a list that is reported to match although two required entries need the same string |
| `WhitespaceCodec.StrWhitespaceSplit` | nmci/util.py:1061-1096 | the loop reads escapes and separators as the specification of words does |
| `WhitespaceCodec.SplitAfterJoin` | nmci/util.py:1027-1096 | splitting undoes joining for every list of strings; dropping empty words drops exactly the empty strings |
| `WhitespaceCodec.SplitOfWriting` | nmci/util.py:1061-1092 | every way of writing words splits into what it means: plain characters, escaped backslashes and spaces, a backslash that stays before any other character, and one that stays at the end |
| `WhitespaceCodec.EveryTextIsWritten` | nmci/util.py:1061-1092 | every text is written in such a way, so this determines the words of every text |
| `WhitespaceCodec.SplitKeeps` | nmci/util.py:1093-1096 | dropping empty words keeps exactly the others, by position |
| `WhitespaceCodec.JoinIsInjective` | nmci/util.py:1018-1030 | distinct lists have distinct texts, the empty list included |
| `WhitespaceCodec.EscapeStep` | nmci/util.py:1030 | the two replacements in a row escape each character once |
| `WhitespaceCodec.PlainText` | nmci/util.py:1046-1051 | without backslashes a text splits at its spaces |
| `Timers.Timeout.After` | nmci/util.py:23-43 | a timer expires its timeout after its start, or never, and has not answered any check |
| `Timers.Timeout.Nested` | nmci/util.py:28-43 | a timer made from another has the same expiry, or is expired from the start, and making it is a check of the other |
| `Timers.Timeout.ExpiredAt` | nmci/util.py:62-69 | a check answers "expired" from the first positive answer on, from the expiry on, or always if the timer was born expired |
| `Timers.Timeout.WasExpiredIsHistory` | nmci/util.py:94 | the property is true exactly if some check so far, of whatever origin, answered "expired" |
| `Timers.Timeout.DocumentedWasExpired` | nmci/util.py:80-94 | it is true exactly if some call of `expired()` answered so, unless a check of the timer's own was late and no call came with it or after it |
| `Timers.Timeout.DocumentedOnMonotoneClock` | nmci/util.py:80-94 | on a clock that does not run backwards: unless some check of the timer's own was late and no call of `expired()` was |
| `Timers.ExpiredByItself` | nmci/util.py:113-131 | a timer whose property is true although `expired()` was never called |
| `Timers.Timeout.RemainingTime` | nmci/util.py:96-111 | the time left is positive and exact, or zero exactly if the check answered "expired" |
| `Timers.Timeout.Sleep` | nmci/util.py:113-131 | no sleep passes the expiry, and an expired timer does not sleep |
| `Timers.Timeout.LoopSleep` | nmci/util.py:133-169 | the first call does not sleep and by default lets the loop run; later calls sleep until the timer is expired |
| `Timers.Poll` | nmci/util.py:1302-1328 | a polling loop runs at least once, sleeps a bounded number of times, ends with the first finished round, and gives up only once the time is over |
| `Timers.RoundMeaning` | nmci/util.py:1302-1322 | a round goes on exactly if the callback returned a value that is not final or raised what is swallowed, and then remembers the exception, if any; otherwise it ends with the final value, the exception of a handler, or its own |
| `Timers.WaitFor` | nmci/util.py:1241-1328 | each call before the last returned a value on which the handler said not done, or raised what the handler swallowed; the last ends the wait with the final value, the exception of a handler or its own, or else the time is over and the timeout handler gets its exception, or none if it returned; a timeout in seconds or none, and at most 1 + ceil(timeout / pace) calls, where the pace is the poll time or, if that is zero, what a call takes at least |
| `Timers.WaitForDefault` | nmci/util.py:1282-1300 | with the default handlers the first value returned ends the wait, and at the end of the time the exception of the last call is raised, never the error for a timeout |
| `Timers.WaitForWithin` | nmci/util.py:1241-1328 | the same with another timer as timeout: one round if that has expired, otherwise as many as fit before its expiry |
| `CleanupPlans.AddReplaces` | nmci/cleanup.py:72-78 | adding removes exactly what agrees with the new action: the same object if both are distinct, else one of the same class, both made without arguments or both with equal ones |
| `CleanupPlans.PendingIff` | nmci/cleanup.py:660-714 | at any moment an action is pending exactly if it was added and since then neither run nor followed by an addition that agrees with it |
| `CleanupPlans.NoTwoAgree` | nmci/cleanup.py:672-695 | no two pending actions agree, and priorities ascend |
| `CleanupPlans.AddActionReplaces` | nmci/cleanup.py:660-699 | enqueuing with all needs leaves pending what differs from everything added, and removes what agrees and is not added again |
| `CleanupPlans.AddActionAlone` | nmci/cleanup.py:660-699 | without needs, or in place of a pending action, only what agrees with the action goes |
| `CleanupPlans.NeedsAreMade` | nmci/cleanup.py:697-699 | an action that agrees with none pending is enqueued before all it needs, and each of those is made and enqueued twice; otherwise nothing but the action is added |
| `CleanupPlans.SpawnsAreMade` | nmci/cleanup.py:98-109 | a run is followed by the additions of everything it enqueues |
| `CleanupPlans.RaisedByPosition` | nmci/cleanup.py:701-714 | the exceptions are, by position, those of the runs that raise, in run order |
| `CleanupQueue.QueueOfHistory` | nmci/cleanup.py:660-699 | after any additions the queue is the last addition of each tag, by priority and newest first |
| `CleanupRun.QueueOfLog` | nmci/cleanup.py:660-714 | at any moment of a run the queue is what was added and neither run nor replaced since, by priority and newest first |
| `CleanupQueue.DescriptionIsUnique` | nmci/cleanup.py:672-695 | that description determines the queue |
| `CleanupQueue.DescribedIsOrdered` | nmci/cleanup.py:684-695 | the queue is always sorted by priority and has no tag twice |
| `CleanupQueue.AddTwice` | nmci/cleanup.py:660-695 | adding an action again right away changes nothing |
| `CleanupQueue.AddChangesNothing` | nmci/cleanup.py:660-695 | adding an action to an ordered queue changes nothing exactly if it is already the newest of its priority |
| `CleanupQueue.AddAllChangesNothing` | nmci/cleanup.py:660-699 | adding a list to an ordered queue changes nothing exactly if in each priority its last additions of each tag are the front already, newest first |
| `CleanupQueue.ListTwice` | nmci/cleanup.py:697-699 | adding a whole list a second time changes nothing, even if its actions replace one another |
| `CleanupRun.EveryAdditionEnds` | nmci/cleanup.py:701-714 | once the queue is empty every addition was run or replaced by a later one of its tag |
| `CleanupRun.NoActionRunsTwice` | nmci/cleanup.py:98-101 | no action object runs twice |
| `CleanupRun.RunsAreMinimal` | nmci/cleanup.py:684-714 | each run takes an action of least priority among those pending |
| `CleanupRun.PendingWasAdded` | nmci/cleanup.py:660-714 | what is pending was added and neither run nor replaced since |
| `CleanupState.AddActionGood` | nmci/cleanup.py:660-699 | enqueuing an action with all it needs keeps every invariant and only adds |
| `CleanupState.ConstructGood` | nmci/cleanup.py:53-82 | so does constructing one, which enqueues it |
| `CleanupState.NeededTwiceIsOnce` | nmci/cleanup.py:672-699 | needed actions that need nothing themselves are enqueued when made and once more; the queue is as if each had been enqueued once |
| `CleanupState.NeededAgain` | nmci/cleanup.py:672-699 | whatever the needed actions need themselves, enqueuing them again changes nothing exactly if in each priority they are in front already |
| `CleanupState.NeededAgainReorders` | nmci/cleanup.py:697-699 | a chain of needs in which the second enqueuing moves a needed action before the one it needs |
| `CleanupState.AddAgainGood` | nmci/cleanup.py:697-699 | the second enqueuing never expands an action's needs again |
| `CleanupState.RunHeadGood` | nmci/cleanup.py:701-714 | running the head, with whatever it enqueues, keeps every invariant |
| `CleanupState.RunHeadWeight` | nmci/cleanup.py:701-714 | each run makes the remaining work smaller, so draining ends |
| `CleanupState.DrainingIsComplete` | nmci/cleanup.py:701-714 | draining leaves nothing pending and no service listed, in a valid log, and the exceptions are exactly those of the runs in run order |
| `CleanupState.DrainedRunsAll` | nmci/cleanup.py:701-714 | in a drained log every addition is followed by its run or by its replacement |
| `CleanupState.ServiceIsNotDisplaced` | nmci/cleanup.py:72-78 | no later action displaces the callback of a running service |
| `CleanupState.ServicesWithout` | nmci/pexpect.py:78-94 | a service's callback finds the service listed, and removes exactly it, before anything can raise |
| `Cleanup.CleanupModule.DeleteTag` | nmci/cleanup.py:674-682 | deletes the first action with the tag, and reports whether there was one |
| `Cleanup.CleanupModule.Put` | nmci/cleanup.py:672-695 | the two loops perform the primitive addition: what agrees with the action goes, and everything else stays |
| `Cleanup.CleanupModule.CleanupAdd` | nmci/cleanup.py:660-699 | adds the action and, if none that agrees with it is pending, makes and adds what it needs; pending actions that differ from all of these in class, kind, arguments or identity stay, and those that agree and are not added again go |
| `Cleanup.CleanupModule.InitAll` | nmci/cleanup.py:87-96 | what an action needs is made, and so enqueued, one after the other |
| `Cleanup.CleanupModule.AddMade` | nmci/cleanup.py:697-699 | what was made is enqueued once more, in order |
| `Cleanup.CleanupModule.Init` | nmci/cleanup.py:53-82 | a new object enqueues itself, with all that needs |
| `Cleanup.CleanupModule.Make` | nmci/cleanup.py:53-82 | an action constructed from outside keeps every invariant, and an action of its tag is pending |
| `Cleanup.CleanupModule.PexpectService` | nmci/pexpect.py:265-278 | a started service is listed last, its callback is pending, and nothing pending is displaced |
| `Cleanup.CleanupModule.PexpectServiceCleanup` | nmci/pexpect.py:78-79 | removes the first entry of the service, and nothing else |
| `Cleanup.CleanupModule.DoCleanup` | nmci/cleanup.py:98-109 | a run marks the action, stops its service first, and enqueues what it enqueues whether or not it raises |
| `Cleanup.CleanupModule.RunFirst` | nmci/cleanup.py:709-713 | the head runs, the assertion that it has not run before holds, and everything it enqueues is added after its run |
| `Cleanup.CleanupModule.ProcessCleanup` | nmci/cleanup.py:701-714 | drains the queue, keeps every invariant, empties both lists and returns the exceptions of the runs in order |
| `ResourceParents.FoundIff` | contrib/cloud/test-cloud-meta-mock.py:258-273 | a path resolves to a node exactly if nodes lead there from the root, each the value of a key of a dictionary or the element of a list at an index |
| `ResourceParents.SetSucceedsIff` | contrib/cloud/test-cloud-meta-mock.py:281-312 | a set succeeds exactly if each component whose parent exists is a number up to the length of a list or another key of a dictionary, and each number below the first missing parent is zero |
| `ResourceParents.FirstMisfitDecides` | contrib/cloud/test-cloud-meta-mock.py:283-290 | the first component that does not fit decides with which error the set is refused |
| `ResourceParents.ParentsAreMade` | contrib/cloud/test-cloud-meta-mock.py:292-304 | each missing parent that the walk reaches, also in a set that fails, becomes a list exactly if its component is a number, else a dictionary, and holds nothing else |
| `ResourceTree.GetAfterSet` | contrib/cloud/test-cloud-meta-mock.py:275-312 | a resource that was set is found |
| `ResourceTree.SetKeepsOthers` | contrib/cloud/test-cloud-meta-mock.py:281-312 | setting changes nothing on diverging paths, even when parents are created, and even when it fails |
| `ResourceTree.SetTwice` | contrib/cloud/test-cloud-meta-mock.py:306-312 | a second set at the path makes the first one void |
| `ResourceTree.SetSame` | contrib/cloud/test-cloud-meta-mock.py:306-312 | setting what is there changes nothing |
| `ResourceTree.FailedSetKeepsLeaves` | contrib/cloud/test-cloud-meta-mock.py:283-304 | a failed set leaves every leaf where it was |
| `ResourceTree.DeletedIffFound` | contrib/cloud/test-cloud-meta-mock.py:314-338 | exactly the paths that resolve can be deleted; otherwise nothing changes, and only a leaf as parent raises |
| `ResourceTree.DeleteFromDict` | contrib/cloud/test-cloud-meta-mock.py:337 | under a dictionary the path is gone and every diverging path is as it was |
| `ResourceTree.DeleteKeepsKeys` | contrib/cloud/test-cloud-meta-mock.py:337 | every other key of the dictionary keeps what is below it, also one that is the same number written otherwise |
| `ResourceTree.DeleteFromList` | contrib/cloud/test-cloud-meta-mock.py:337 | under a list earlier elements keep their place and each later one moves down by one |
| `ResourceTree.DeleteKeepsOthers` | contrib/cloud/test-cloud-meta-mock.py:320-338 | paths that part above the last component are untouched |
| `ResourceTree.DeleteAfterSet` | contrib/cloud/test-cloud-meta-mock.py:275-338 | deleting what was set as a new key of an existing parent restores the tree |
| `MetadataServer.Server.GetResource` | contrib/cloud/test-cloud-meta-mock.py:250-273 | the walk finds what the path names in the provider's tree, and refuses unknown and disabled providers |
| `MetadataServer.Server.FindParent` | contrib/cloud/test-cloud-meta-mock.py:281-304 | the walk creates missing parents in place and stops at the parent exactly if every component fits, else with the status and tree of the failed set |
| `MetadataServer.Server.SetResource` | contrib/cloud/test-cloud-meta-mock.py:275-312 | the provider's tree, an empty dictionary if there is none, becomes the one with the path set; it succeeds exactly if every component fits, and other providers keep theirs |
| `MetadataServer.Server.DelResource` | contrib/cloud/test-cloud-meta-mock.py:314-338 | the provider's tree becomes the one with the path deleted; other providers keep theirs |
| `Intervals.ListToIntervals` | nmci/misc.py:1520-1547 | the loop writes the texts of the maximal runs |
| `Intervals.RunsAreMaximal` | nmci/misc.py:1520-1546 | the runs make up the list, each is consecutive, and no two neighbours could be joined |
| `Intervals.CaptionItems` | nmci/misc.py:1537-1543 | a caption has one item for each run and two for a run of two numbers, and no item stands for exactly two |
| `Intervals.DocumentedCaption` | nmci/misc.py:1520-1547 | 1, 2, 4, 5, 6, 7, 10 is written "1,2,4..7,10" |
| `Intervals.ExpandCaption` | nmci/misc.py:1520-1547 | a caption expands back to exactly the numbers it was made from |
| `EmbedQueue.Embeds.GetEmbedContext` | nmci/embed.py:140-161 | a context takes the next number; a stored name gets its object and nothing new is handed out, anything else a new object exactly if there is a formatter, stored under its name if that is not empty |
| `EmbedRuns.NumbersIncrease` | nmci/embed.py:140-161 | in any run of calls numbers are reserved in the order of the contexts, and none twice |
| `EmbedRuns.SameObjectIff` | nmci/embed.py:140-165 | two contexts share an object exactly if they were made for one name that is not empty with no end of a step between |
| `EmbedRuns.NoObject` | nmci/embed.py:154-161 | without a formatter no context has an object |
| `EmbedRuns.CombinedIff` | nmci/embed.py:140-369 | in any run two named entries are in one combined output exactly if they have one name and one context, or contexts made within one step for a name that is not empty |
| `EmbedRuns.CombinedOutput` | nmci/embed.py:319-369 | a combined output has exactly the queued entries of its name and object, and its caption expands to their numbers one by one |
| `EmbedRuns.WrittenAsQueued` | nmci/embed.py:345-369 | an entry is written as often as it is queued, if it has a context and may be embedded, and else never |
| `EmbedRuns.AloneIff` | nmci/embed.py:359-361 | it is written alone exactly if it has no tag |
| `EmbedRuns.OutputsInOrder` | nmci/embed.py:350-369 | single embeds come first, by number, then the groups, by their first numbers |
| `EmbedQueue.Embeds.AfterStep` | nmci/embed.py:163-165 | after a step no name has an object any more |
| `EmbedQueue.Embeds.Queue` | nmci/embed.py:255-261 | an entry is appended with its own context or a newly reserved one |
| `EmbedQueue.Embeds.Consume` | nmci/embed.py:353-367 | consuming the sorted queue writes the single embeds and collects each group in order, under keys in order of first entry |
| `EmbedQueue.Embeds.ProcessEmbeds` | nmci/embed.py:345-369 | the queue ends empty and the output is that of the specification |
| `EmbedQueue.OutputsConserveEntries` | nmci/embed.py:345-369 | every entry with a context and an embeddable tag is written exactly once, and no other is |
| `EmbedQueue.GroupsAreClasses` | nmci/embed.py:319-369 | a group is exactly one class of tag and embed object, in ascending order, and its caption expands to its numbers |
| `EmbedQueue.OneGroupPerKey` | nmci/embed.py:362-369 | no key is combined twice |
| `EmbedQueue.SortedQueue` | nmci/embed.py:350-352 | the sorted queue is in ascending order of reserved numbers, and entries of one number stay in the order in which they were queued |
| `Sorting.SortIsStable` | nmci/embed.py:350-352 | elements that the order does not tell apart keep their order, for any total order with ties |
| `MacAddress.MacAton` | nmci/ip.py:232-262 | accepts exactly pairs of hexadecimal digits separated by colons, with an optional colon at the end and the forced length, and returns the value of each pair |
| `MacAddress.ReadAfterPrint` | nmci/ip.py:264-277 | any bytes, printed, read back as themselves |
| `MacAddress.MacNorm` | nmci/ip.py:279-291 | accepts what the reader does, and returns it in lower case without a colon at its end |
| `MacAddress.NormalForm` | nmci/ip.py:264-291 | what was read, printed, is the text itself in lower case without a colon at its end |
| `MacAddress.HexValueIsPlace` | nmci/ip.py:246-253 | the value of a digit, in either case, is its place among 0-9 and a-f |
| `MacAddress.NormIsIdempotent` | nmci/ip.py:279-291 | normalising twice is normalising once, and drops a trailing colon |

## Left out

- Processes, D-Bus, sockets, files, the journal and HTTP: a cleanup action, callback or process is an outcome that succeeds, fails or enqueues more.
- Version detection and selection, including the in-place increment for upstream builds: the evaluator takes parsed versions by value.
- MinusTagsExactly: requires that no tag is past the sentinel end of its branch, and MinusTagsAsWritten that no written component is past the sentinel; ClosedForm covers such tags.
- ConvenienceForm: is about lists that the rewriting keeps in order; RewrittenForm is about any order. Both are about tags written in full on three components or more, before the sentinel: for others there is no next or previous release of the written tag.
- WrittenStopsExactly: requires that no tag is past the sentinel end of its branch, and so do WrittenIff and WritingMattersExactly; StopsCanBeWritten and WrittenForm do not.
- StopBetween: excludes two components and "-" tags past the sentinel, where it fails; ClosedForm covers both.
- Regular expressions and match modes in the list comparison: which entry matches which string is an arbitrary relation.
- The length limit of Python's `int` on very long digit strings, and digits outside ASCII.
- Real clocks and floating point: time is exact, and sleeping takes exactly as long as asked.
- WaitFor: requires that poll time and round together take some least time, and without a timeout a callback that ends the wait at some point; anything else need not end.
- The flag that forbids additions after cleanup: the source never sets it.
- Needed actions that are made one at a time while the earlier ones are already enqueued again; the model makes them all first.
- Classes of cleanup actions: an action is its tag, priority, outcome, and what it needs and enqueues; running it enqueues all of that before it may raise.
- Identities are numbers that are never used again; Python may reuse the identity of an object that is gone, which by then is no longer pending.
- Splitting a request path into components, the provider configuration, request handlers and default data of the mock.
- SetResource: keeps resources as values, so it does not capture a caller that goes on changing the object it passed in; the walk stores the whole tree with the reached node put back in its place.
- Contents, formatting and truncation of embeds, and the assertion on the type of combined ones: an entry is its identity, tag and context.
- MacAton: takes text, not bytes or a missing value.
