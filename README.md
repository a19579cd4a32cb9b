# Planning-poker room state, modelled in Dafny

The application is a planning-poker ("Fibonacci voting") web app. A user picks a
name and one or more groups (General, Frontend, Backend), then creates or joins a
room. The room's admin moves everyone from the waiting screen to a voting round.
In the round each user picks a card per group (`☕`, 1, 2, 3, 5, 8, 13, 21) and
submits. The reveal screen then shows per-group tallies and medians.

The room document lives in the browser's local storage under `room_<code>`. Every
client polls it every two seconds. The poll writes a heartbeat, drops users not
heard from for 30 seconds, and makes non-admins follow the admin's screen. A
server-side in-memory store and a two-tier network/local service hold rooms too.

The model covers:

- **Types and constants** (`types.dfy`, `constants.dfy`). The cards, groups,
  screens, votes, users, submissions and the room document. The card scale and
  the group tables.
- **Text helpers** (`text.dfy`). Decimal printing of naturals, ASCII
  upper-casing and whitespace trimming, as the code relies on them.
- **Vote aggregation** (`voting.dfy`). The median of a list of cards, kept as an
  integer count of halves and rendered as `k` or `k.5`. The group → card → count
  tally, built by a loop. The count of local selections.
- **Room mutations** (`room_updates.dfy`, `room_state_hook.dfy`). The heartbeat
  upsert, screen change, vote submission, pruning and new-room document as pure
  functions. The local-storage store as a class whose methods load, update and
  save a room.
- **The client session** (`client_session.dfy`, `menu_screen.dfy`). The page
  controller as a class over the local store: the poll tick, room creation and
  joining, vote toggling, ballot submission and the admin's screen moves. Also
  the menu's group toggle, disabled-button predicates and room-code field.
- **Server store** (`room_store.dfy`). Rooms and subscriber sets, notification on
  set, unsubscribe, and the 24-hour sweep.
- **Room service** (`room_service.dfy`). The network map with its local-storage
  backup, load with fallback and re-sync, room listing and deletion.
- **Voting progress** (`voting_progress.dfy`). The per-user status tables, built
  by loops. The pending / skipped / partial / full classes and the summary counts.
- **Task editor** (`task_editor.dfy`). The edit / save / cancel state machine,
  with trim-or-default on save.

Modelling choices:

- The clock and random generators become parameters. `now` is one value per
  call, and the generated user id and room code are arguments.
- JSON serialisation is the identity: a store maps keys to parsed values.
- The median is twice its value, as a natural. The cards are integers, so the
  median is a whole number or a half.

Four behaviours of the code are easy to miss:

- The median is `☕` only when no numeric card is present, however many pass
  cards there are (utils/voting.ts:9).
- Entering the voting screen clears the votes but keeps `submissions`
  (hooks/useRoomState.ts:49-52).
- Nothing in the modelled code writes `submissions`. The room created at
  app/page.tsx:93-101 omits the field; the model gives it an empty list.
- Nothing sets a room's `currentTask`. The page renders the waiting screen
  without a task or an update callback (app/page.tsx:333-343), and the waiting
  screen passes both on to the task editor (components/screens/WaitingScreen.tsx:43-47).
  In the app a non-admin therefore never sees the editor, and an admin sees
  `Untitled Task`. A save throws before it leaves edit mode: it fails at the
  trim of the still-undefined edit text, or at the missing callback once text
  was typed (components/TaskEditor.tsx:13-19).

Two behaviours of the code are modelled as written:

- When a tick prunes, its write is built from the room read at the tick's start.
  It therefore overwrites the heartbeat written earlier in the same tick
  (`ClientApp.TickLosesHeartbeatWhenPruning`).
- The page is handed that start-of-tick room, not the heartbeat.

## Model

| member | source | states |
|---|---|---|
| Types.Token | types/index.ts:1 | every card has a non-empty text |
| Types.TokenRoundTrip | types/index.ts:1 | reading a card's text gives back the card, so the eight texts are exactly the eight cards |
| Types.TokenInjective | types/index.ts:1 | distinct cards have distinct texts |
| Types.NumericValue | types/index.ts:1 | only the pass card has no number; every other card stands for an integer from 1 to 21 |
| Types.NumericTokensAreIntegerLiterals | types/index.ts:1 | every non-pass card text is a positive decimal literal without leading zero whose value is the card's number |
| Constants.ScaleListsEveryCardOnce | constants/index.ts:3 | the scale has 8 entries and lists each card exactly once |
| Constants.ScaleIsOrdered | constants/index.ts:3 | the pass card is first and the numbers after it strictly increase |
| Constants.GroupTablesCoverEveryGroup | constants/index.ts:5-33 | names and colours are keyed by exactly G, F, B; the names are General, Frontend, Backend |
| Text.NatToString | utils/voting.ts:16 | decimal text of a natural: digits only, no leading zero, reads back as the number |
| Text.NatToStringInjective | utils/voting.ts:16 | different numbers print differently |
| Text.ToUpper | components/screens/MenuScreen.tsx:92 | same length, every character upper-cased, no lower-case ASCII letter left |
| Text.ToUpperIdempotent | components/screens/MenuScreen.tsx:92 | upper-casing twice equals upper-casing once |
| Text.TrimStartCutsWhitespace | components/TaskEditor.tsx:17 | everything cut from the front is whitespace |
| Text.TrimEndCutsWhitespace | components/TaskEditor.tsx:17 | everything cut from the back is whitespace |
| Text.Trim | components/TaskEditor.tsx:17 | never longer than the input, and neither starts nor ends with whitespace |
| Text.TrimIsCore | components/TaskEditor.tsx:17 | the trimmed text is a contiguous slice, everything cut is whitespace, and it neither starts nor ends with whitespace |
| Text.TrimIdempotent | components/TaskEditor.tsx:17 | trimming twice equals trimming once |
| Text.TrimEmptyIffBlank | components/TaskEditor.tsx:17 | the trimmed text is empty exactly when the input is all whitespace |
| Voting.NumericValuesEmptyIffAllPass | utils/voting.ts:4-9 | no number remains exactly when every card is the pass card |
| Voting.SortAscending | utils/voting.ts:7 | the numbers are sorted ascending and are a permutation of the input |
| Voting.RenderMedian | utils/voting.ts:9-16 | the result is `☕` exactly when there is no median |
| Voting.CalculateMedian | utils/voting.ts:3-17 | the result is the pass card or a decimal number |
| Voting.MedianIsPassIffNoNumericCard | utils/voting.ts:4-9 | the median is `☕` exactly when no card is numeric, including the empty list |
| Voting.PassCardDoesNotChangeMedian | utils/voting.ts:4-5 | inserting a pass card anywhere leaves the result unchanged |
| Voting.MedianIgnoresOrder | utils/voting.ts:4-7 | any permutation of the cards gives the same result |
| Voting.OddCountMedianIsMiddle | utils/voting.ts:11-16 | for an odd count `2·mid+1` of numbers, the result is the decimal text of element `mid` of any ascending arrangement of them |
| Voting.EvenCountMedianIsMean | utils/voting.ts:11-16 | for an even, non-zero count `2·mid`, the result prints half the sum of elements `mid-1` and `mid` of any ascending arrangement (`RenderHalves`: `k`, or `k.5` for an odd sum) |
| Voting.RenderHalvesInjective | utils/voting.ts:13-16 | different medians print differently: the printed text determines the median |
| Voting.MedianWithinRange | utils/voting.ts:7-14 | the median lies between the smallest and the largest number |
| Voting.MedianOfThreeAndEight | utils/voting.ts:11-16 | the cards 3 and 8 give `5.5` |
| Voting.MedianOfSingleCard | utils/voting.ts:11-16 | a single 5 gives `5` |
| Voting.GetResultsByGroup | utils/voting.ts:19-30 | no room gives an empty table; otherwise each count equals that group and card's vote count, zero counts are absent, and all counts sum to the number of votes |
| Voting.Increment | utils/voting.ts:24-26 | the vote's group and card count grows by one, the group table and the card entry are created when missing, and nothing else changes |
| Voting.CountsStep | utils/voting.ts:23-27 | one loop step keeps the table counting exactly the votes seen so far |
| Voting.SumResultsIsVoteCount | utils/voting.ts:19-30 | the counts of a table that counts the votes add up to the number of votes |
| Voting.TalliesSumToVoteCount | utils/voting.ts:23-27 | over all groups and cards, the tallies add up to the number of votes |
| Voting.GetVoteCount | utils/voting.ts:33-36 | `current` is the number of selected groups (at most three) and `total` is passed through unchanged |
| StorageKeys.RoomKeyInjective | hooks/useRoomState.ts:6 | different codes are stored under different keys |
| StorageKeys.StripRoomPrefix | services/roomService.ts:48-49 | removing the first `room_` from a prefixed key gives the code it is the key of |
| StorageKeys.RoomKeyRoundTrip | services/roomService.ts:48-49 | a room key has the prefix, and removing it gives back the code |
| RoomUpdates.UpsertKeepsPositions | hooks/useRoomState.ts:20-22 | every entry with the user's id becomes the stamped user in place; all others are untouched |
| RoomUpdates.UpsertAppendsIffAbsent | hooks/useRoomState.ts:25-27 | the list grows by exactly one, with the stamped user last, exactly when no entry had the id |
| RoomUpdates.UpsertMakesUserPresent | hooks/useRoomState.ts:20-27 | afterwards the user is present and every entry with its id carries `lastSeen == now` |
| RoomUpdates.UpsertIdempotent | hooks/useRoomState.ts:20-27 | a second identical heartbeat changes nothing |
| RoomUpdates.UpsertUsers | hooks/useRoomState.ts:20-27 | the list keeps its length or grows by exactly one |
| RoomUpdates.WithUser | hooks/useRoomState.ts:29-33 | only `users` and `lastUpdated` (set to `now`) change |
| RoomUpdates.WithScreen | hooks/useRoomState.ts:43-52 | the screen and `lastUpdated` are set, votes are emptied only on `voting`, users and submissions are kept |
| RoomUpdates.WithSubmittedVotes | hooks/useRoomState.ts:63-68 | only `votes` and `lastUpdated` change |
| RoomUpdates.RemoveVotesOfKeepsOthers | hooks/useRoomState.ts:63 | dropping one user's votes keeps every other user's votes in order |
| RoomUpdates.RemoveVotesOf | hooks/useRoomState.ts:63 | no vote of the user remains, and the list does not grow |
| RoomUpdates.SubmissionReplacesOwnVotes | hooks/useRoomState.ts:63-66 | after a submission the submitter's votes are exactly the submitted ones, and other users keep theirs |
| RoomUpdates.SubmissionIdempotent | hooks/useRoomState.ts:63-66 | when every submitted vote carries the submitter's id, submitting twice equals submitting once |
| RoomUpdates.ActiveUsersMembership | app/page.tsx:47 | a user is kept exactly when it is listed and was seen less than 30000 ms ago |
| RoomUpdates.ActiveUsersKeepsLengthIffAllActive | app/page.tsx:47-49 | the pruned list has the same length exactly when every user is active |
| RoomUpdates.PruneBoundary | app/page.tsx:47 | a user silent for exactly 30000 ms is dropped; one silent for 29999 ms is kept |
| RoomUpdates.ActiveUsers | app/page.tsx:47 | no longer than the input, and every kept user is active |
| RoomUpdates.Pruned | app/page.tsx:50-54 | only `users` (now all active, no more than before) and `lastUpdated` (set to `now`) change |
| RoomUpdates.InitialRoom | app/page.tsx:93-101 | waiting screen, the creator as sole user and admin, no votes or submissions, `createdAt == lastUpdated == now`, no task |
| RoomStateHook.LocalRoomStorage.SaveRoomState | hooks/useRoomState.ts:5-7 | writes the room under its code's key; other codes load as before |
| RoomStateHook.LocalRoomStorage.LoadRoomState | hooks/useRoomState.ts:9-15 | returns the stored room for the code, which carries that code, or None |
| RoomStateHook.LocalRoomStorage.UpdateUserInRoom | hooks/useRoomState.ts:17-38 | an absent room changes nothing; otherwise stores and hands back the heartbeat room |
| RoomStateHook.LocalRoomStorage.UpdateRoomScreen | hooks/useRoomState.ts:40-57 | an absent room changes nothing; otherwise stores and hands back the room moved to the screen |
| RoomStateHook.LocalRoomStorage.SubmitUserVotes | hooks/useRoomState.ts:59-73 | an absent room changes nothing; otherwise stores and hands back the room with the user's votes replaced |
| RoomStateHook.LastSaved | hooks/useRoomState.ts:5-15 | the room for a code after a sequence of saves is one saved with that code with no later save of the code, or None exactly when none had it |
| RoomStateHook.LoadAfterSaves | hooks/useRoomState.ts:5-15 | saving a sequence of rooms and loading a code gives the last room saved with that code, and nothing when none had it |
| MenuScreen.ToggleGroup | components/screens/MenuScreen.tsx:29-36 | only `groups` changes: a selected group is removed, an unselected one appended at the end |
| MenuScreen.RemoveGroup | components/screens/MenuScreen.tsx:33 | removes every occurrence of the group and keeps every other group with all its copies |
| MenuScreen.RemoveGroupIsSubsequence | components/screens/MenuScreen.tsx:33 | the remaining groups keep their order: the result is a subsequence |
| MenuScreen.ToggleTwiceRestores | components/screens/MenuScreen.tsx:32-34 | toggling an unselected group twice restores the user |
| MenuScreen.CreateDisabled | components/screens/MenuScreen.tsx:74 | a request in progress disables it; when enabled, the user has a name and a group |
| MenuScreen.JoinDisabled | components/screens/MenuScreen.tsx:99 | whatever disables create disables join; when enabled, a room code was typed |
| MenuScreen.RoomCodeInput | components/screens/MenuScreen.tsx:90-96 | the stored code is the typed text cut to 6 characters, each upper-cased; no lower-case letter is left |
| MenuScreen.RoomCodeInputIdempotent | components/screens/MenuScreen.tsx:90-96 | entering a stored code again gives the same code |
| ClientApp.TickPrunesExactlyWhenSomeoneSilent | app/page.tsx:41-59 | when a user is silent the tick stores exactly the active users of the snapshot; otherwise it stores the heartbeat and shows the snapshot |
| ClientApp.TickRecordsHeartbeatWhenNobodySilent | app/page.tsx:43-49 | with nobody silent, the stored room holds the user stamped `now` |
| ClientApp.TickLosesHeartbeatWhenPruning | app/page.tsx:41-55 | with somebody silent, a user absent from the snapshot stays absent, although its heartbeat had added it |
| ClientApp.TickWrite | app/page.tsx:41-59 | the tick's stored room differs from the snapshot only in `users` (at most one more) and `lastUpdated` (set to `now`) |
| ClientApp.TickView | app/page.tsx:49-59 | the room handed to the page differs from the snapshot only in `users`, which do not grow, and `lastUpdated` |
| ClientApp.ClientSession.constructor | app/page.tsx:17-34 | the menu screen, an anonymous non-admin online user with the given id, no room, no selections, nothing loading |
| ClientApp.ClientSession.PollTick | app/page.tsx:38-70 | no code or no room: nothing changes; otherwise storage gets the tick's write, the page gets the snapshot or its pruned form, and the screen is synced |
| ClientApp.ClientSession.SyncScreen | app/page.tsx:62-69 | a non-admin adopts the room's screen, and a new voting round clears selections and completion; an admin's screen stays |
| ClientApp.ClientSession.GenerateRoomCode | app/page.tsx:86-104 | the code is upper-cased, the user becomes admin stamped `now`, and the initial room is stored and shown |
| ClientApp.ClientSession.CreateRoom | app/page.tsx:158-175 | rejected with no change exactly when the name or groups are missing; otherwise the room is created, the screen is waiting, and the typed code, group, selections and completion are kept |
| ClientApp.ClientSession.JoinRoom | app/page.tsx:116-155 | missing information changes nothing; an unknown code keeps storage, room code, typed code, user, room and screen; otherwise the heartbeat room is stored and its screen adopted |
| ClientApp.ButtonsMatchHandlers | app/page.tsx:117-159 | when nothing is loading, a menu button is disabled exactly when its handler would reject |
| ClientApp.ToggleVote | app/page.tsx:188-209 | re-choosing the chosen value clears the group, any other choice sets it, and other groups are untouched |
| ClientApp.ToggleTwice | app/page.tsx:191-209 | choosing a value twice restores the selections unless the group held a different value |
| ClientApp.ToggleIsSelectionEdit | app/page.tsx:191-209 | a card click is the reveal screen's edit: clear when chosen, set otherwise |
| ClientApp.ClientSession.VoteForNumber | app/page.tsx:178-215 | without a selected group nothing changes; otherwise the group's selection is toggled |
| ClientApp.Ballot | app/page.tsx:222-233 | one vote per selected group of the user, in the order of its groups, with its selection and `now` |
| ClientApp.BuildBallot | app/page.tsx:222-233 | the loop over the user's groups returns exactly the ballot, and the vote count is its length |
| ClientApp.Chosen | app/page.tsx:222-223 | the user's groups that have a selection |
| ClientApp.BallotEmptyIffNothingChosen | app/page.tsx:222-242 | the ballot is empty exactly when none of the user's groups has a selection, and every vote carries the user's id |
| ClientApp.ClientSession.SubmitVotes | app/page.tsx:218-251 | the loop builds the ballot; an empty one changes nothing; otherwise the room's votes are replaced and voting is complete; screen, user, codes, selections and loading are kept |
| ClientApp.ClientSession.ProceedToVoting | app/page.tsx:271-282 | the room moves to voting with no votes, and local selections, group and completion are reset; user, codes and loading are kept |
| ClientApp.ClientSession.MoveRoomTo | app/page.tsx:284-297 | the room and the page move to reveal or waiting; selections, group, completion, user, codes and loading stay |
| ClientApp.SetSelection | app/page.tsx:300-310 | None clears the group's selection, Some sets it, other groups are untouched |
| ClientApp.ClientSession.HandleVoteUpdate | app/page.tsx:300-310 | the selections become the edited ones |
| ClientApp.ClientSession.SelectGroup | app/page.tsx:354 | the selected group becomes the chosen one |
| ClientApp.ClientSession.ToggleUserGroup | app/page.tsx:323 | the user becomes the menu's group toggle of it |
| ClientApp.ClientSession.ChangeJoinRoomCode | app/page.tsx:324 | the typed code is stored as the room code field keeps it |
| ServerRoomStore.Survivors | lib/roomStore.ts:65-73 | the sweep keeps exactly the rooms set within 24 hours |
| ServerRoomStore.SweepBoundary | lib/roomStore.ts:67-70 | a room exactly 24 h old survives; one a millisecond older is swept |
| ServerRoomStore.RoomStore.SetRoom | lib/roomStore.ts:12-30 | the room is stored stamped `now`, other codes unchanged, and exactly the code's current subscribers receive the state |
| ServerRoomStore.RoomStore.GetRoom | lib/roomStore.ts:32-35 | the last state set, or None for a code never set or deleted |
| ServerRoomStore.RoomStore.Subscribe | lib/roomStore.ts:37-41 | the id is added to the code's set, created when missing |
| ServerRoomStore.RoomStore.Unsubscribe | lib/roomStore.ts:44-52 | the id is removed and the code's entry is dropped once empty |
| ServerRoomStore.RoomStore.GetRooms | lib/roomStore.ts:55-57 | exactly the stored codes, each once |
| ServerRoomStore.RoomStore.DeleteRoom | lib/roomStore.ts:59-62 | removes the room and all its subscribers |
| ServerRoomStore.RoomStore.Cleanup | lib/roomStore.ts:65-74 | deletes exactly the rooms older than 24 h, and their subscribers |
| RoomServiceModel.Lookup | services/roomService.ts:24-43 | None exactly when neither store has the code; the network copy wins whenever it exists |
| RoomServiceModel.SecondLoadTakesNetworkPath | services/roomService.ts:34-40 | a second load returns the same room, from the network store |
| RoomServiceModel.LoadAfterSave | services/roomService.ts:16-31 | after a save the load returns the saved data; other codes are unaffected |
| RoomServiceModel.LoadAfterDelete | services/roomService.ts:52-56 | after a delete the load finds nothing |
| RoomServiceModel.RoomService.SaveRoom | services/roomService.ts:16-22 | writes both stores |
| RoomServiceModel.RoomService.LoadRoom | services/roomService.ts:24-43 | returns the lookup and copies a local-only room to the network store |
| RoomServiceModel.RoomService.GetRoomList | services/roomService.ts:45-50 | exactly the codes whose room key is in the network store, each once |
| RoomServiceModel.RoomService.DeleteRoom | services/roomService.ts:52-56 | removes the code from both stores |
| VotingProgressModel.VotedGroups | components/VotingProgress.tsx:20-25 | the groups in which the user has a vote |
| VotingProgressModel.LastSubmission | components/VotingProgress.tsx:27-29 | the last submission carrying the user's id, or None when there is none |
| VotingProgressModel.BuildTables | components/VotingProgress.tsx:16-29 | the loops fill the tables with the voted groups and the last submission of each user |
| VotingProgressModel.GetUserVoteStatus | components/VotingProgress.tsx:31-49 | one status per user, in order, equal to the status computed from votes and submissions |
| VotingProgressModel.StatusFor | components/VotingProgress.tsx:31-48 | the status carries the user, its group count as total, a voted count no larger, the last submission; complete iff submitted, pending iff not, never both partial and skipped |
| VotingProgressModel.Classify | components/VotingProgress.tsx:77-85 | the icon test order: pending exactly when the status is pending; full only without the skipped and partial flags; a submitted user without votes is skipped |
| VotingProgressModel.CountVoted | components/VotingProgress.tsx:35 | the voted count is between 0 and the number of groups; 0 exactly when no group is voted, full exactly when all are |
| VotingProgressModel.StatusBasics | components/VotingProgress.tsx:32-44 | complete exactly when some submission carries the id; the voted count is at most the number of groups, which is the total |
| VotingProgressModel.ExactlyOneClass | components/VotingProgress.tsx:44-85 | each user is in exactly one summary class, the one its icon shows: pending, skipped, partial or full |
| VotingProgressModel.SubmittedWithoutGroupsIsSkipped | components/VotingProgress.tsx:34-46 | a submitted user with no groups is skipped |
| VotingProgressModel.ClassIgnoresHasVotes | components/VotingProgress.tsx:45-46 | a submission's `hasVotes` flag does not change any class |
| VotingProgressModel.CountsAddUp | components/VotingProgress.tsx:133-151 | the four counts sum to the number of users, and completed equals users minus pending |
| VotingProgressModel.CompletedUsers | components/VotingProgress.tsx:53-55 | at most the number of users |
| TaskEditorModel.SavedTask | components/TaskEditor.tsx:17 | the trimmed text, or `Untitled Task` when the text is blank |
| TaskEditorModel.SavedTaskIsTrimmedAndNonEmpty | components/TaskEditor.tsx:17 | a saved label is never empty and has nothing left to trim |
| TaskEditorModel.DisplayText | components/TaskEditor.tsx:54 | the task, or `Untitled Task` when empty; never empty |
| TaskEditorModel.OnlyAdminSeesPlaceholder | components/TaskEditor.tsx:26-54 | when the editor is rendered, a non-admin sees the task itself, so only an admin can see the placeholder for an empty task |
| TaskEditorModel.TaskEditor.HandleSave | components/TaskEditor.tsx:16-19 | in edit mode, emits the saved label and leaves edit mode |
| TaskEditorModel.TaskEditor.HandleCancel | components/TaskEditor.tsx:21-24 | in edit mode, restores the text to the task and leaves edit mode |
| TaskEditorModel.TaskEditor.StartEdit | components/TaskEditor.tsx:56-59 | only an admin enters edit mode |
| TaskEditorModel.TaskEditor.KeyDown | components/TaskEditor.tsx:38-41 | in edit mode, Enter saves, Escape cancels, other keys change nothing |
| TaskEditorModel.TaskEditor.constructor | components/TaskEditor.tsx:12-14 | not editing, with the edited text set to the current task |
| TaskEditorModel.TaskEditor.ReceiveProps | components/TaskEditor.tsx:12 | the task and admin flag become the new properties; the editor's own state is kept |
| TaskEditorModel.TaskEditor.ChangeEditValue | components/TaskEditor.tsx:33-35 | in edit mode, the edited text becomes what was typed |

## Left out

- Rendering, toasts, `window.history.pushState`, the URL `room` parameter,
  clipboard copying, the QR code URL and the show-QR / show-admin toggles. One
  piece of rendering does matter: the waiting screen is rendered without the
  task properties, so the room's task is never written. That wiring is
  described above, and the model does not contain it.
- TaskEditorModel.TaskEditor: models the component with the string properties
  and callback its interface declares. It does not model the undefined values
  the page actually passes. With those values the app's save throws and stays
  in edit mode, whereas `HandleSave` and `KeyDown` emit a label and leave it.
- Timers and asynchrony. Each poll tick and each handler is one atomic step.
  The 800 ms and 1000 ms delays of create and join are collapsed, so
  `isLoading` is only observable as false afterwards. The service's network
  delay is gone.
- Several clients writing the same room at once. The model is sequential.
- ClientApp.ClientSession.PollTick: uses a single `now` for every clock read of
  a tick. The code reads the clock separately for the heartbeat and the pruning.
- ClientApp.ClientSession.GenerateRoomCode: takes the random code as an
  argument. The random user id is a constructor argument.
- ClientApp.BuildBallot: stamps every vote with one `now`. The code reads the
  clock once per vote.
- Text.ToUpper: upper-cases ASCII letters only. The code's `toUpperCase` also
  maps other Unicode letters.
- Text.Trim: removes ASCII whitespace only. The code's `trim` also removes
  Unicode spaces and line terminators.
- RoomServiceModel.RoomService: keeps its own local map. In the browser it
  shares local storage with `LocalRoomStorage`, and that aliasing is not
  modelled.
- RoomServiceModel.RoomService.LoadRoom: treats every stored entry as present.
  The code would skip an empty stored string, which serialisation never
  produces.
- ServerRoomStore.RoomStore.GetRooms: promises the set of codes without
  duplicates, not the map's insertion order.
- RoomServiceModel.RoomService.GetRoomList: likewise promises the set of codes
  without duplicates, not the key order.
- ServerRoomStore.RoomStore.SetRoom: subscribers are opaque ids, and
  notification is the map of what each received. The callbacks' own effects,
  their exceptions and the call order are not modelled.
- ServerRoomStore.RoomStore.Subscribe: models the returned closure as
  `Unsubscribe(code, id)` rather than as a value.
- The hourly sweep timer of the server store. `Cleanup` is one call.
- VotingProgressModel.CompletedUsers: models the completed and total counts, not
  the floating-point percentage.
- The name field of the menu, which only copies the typed text into the user.
- The vote-toggle copies in the voting and reveal screen components. They repeat
  `ToggleVote`.
