# Verified model of the room directory and its companions

This project models, in Dafny, the parts of the repository whose correctness is
hardest to see by reading one function at a time, and proves what they promise
over every input, every reachable state and every run.

- **Room directory** (`RoomModel`, `RoomHandlers`, `RoomRuns`, `RoomSafety`,
  `DirectorySync`, `SeatAllocation`, `RoomOutcomes`, `RoomLoops`, `RoomStore`). Clients create, join, resume and
  spectate rooms, game servers send heartbeats and sync their rooms, administrators
  end and delete rooms and delete users; all of them write one store, in any order.
  `RoomHandlers` says what each handler does as one transaction: what it answers and the
  state it commits. `RoomStore` is the imperative form, a class whose methods rewrite
  rows in loops as the handlers do, each proved equal to its transaction. `RoomOutcomes` says
  what each handler answers and leaves behind in terms of the state before and the request
  alone; the other modules prove what the transactions keep over whole runs.
- **Match archive** (`MatchArchive`, `ArchiveOutcomes`, `ArchiveStore`): uploads, finalised matches,
  deletions, and the list and detail views of them.
- **User deletion** (`UserDeletion`), across rooms, matches and accounts.
- **Accounts** (`AccountModel`, `AccountStore`) and **device codes** (`DeviceCodes`,
  sections 3.4 and 3.5 of RFC 8628).
- **Audio worklet** (`AudioChannels`, `AudioRing`): interleaving of channels and the ring
  buffer, which refines a FIFO queue.
- **Counters and statistics** (`CountMaps`, `MetricKeys`, `StatMatrix`): canonical keys of
  backend and portal, and the statistics table.
- **Text tools** (`LiteralScanner`, `FenceExtent`, `FenceMask`, `DocsGovernance`): the balanced-bracket
  scanner, the fence masker, and what a clean documentation report implies. `TextTools` holds what they share about characters, lower case and stripping.

A "step" or "run" below is over atomic handlers: a handler computes on a copy and commits
if the unique indexes of the schema accept the result, and otherwise leaves the state as it was.

## Assumptions about the surroundings

Room codes are trimmed and in upper case, user ids and e-mail addresses normalised. Room
statuses are the five the program uses. A run's game servers sync live rooms only: no item
is Ended, and no listed member has left (`RoomRuns.LiveItem`). A created room's drawn code
is nonblank and has no tombstone; `create_room` does not look tombstones up itself
(`RoomSafety.CreateRespectsTombstonesIff`). The database query for the most recently heard
healthy game server returns such a server, or none if there is none; ties are its to break.

## Where the code does less than one would expect

Each of these is stated as an exact condition, and a lemma gives an input that fails.

- `create_room` revives a deleted code if the draw repeats it: tombstones stay respected
  exactly when the drawn code has none (`RoomSafety.CreateRespectsTombstonesIff`,
  `DrawnAgainRevives`).
- A sync that lists a member as left, or lists members of an Ended room, leaves an open row
  that is not live (`DirectorySync.SyncKeepsRostersIff`, `DepartedEntryBreaksRoster`).
- `join_room` reads the desired player count with `int()`, the resume bindings read it more
  strictly. A bound seat stays below the count that join enforces exactly when the stricter
  reading accepts it too (`SeatAllocation.BoundSeatsFitIff`, `TextCountLetsSeatPass`).
- In an arbitrary state the list view can miss snapshots that the detail view shows: exactly
  when two listed matches contest an orphan snapshot (`MatchArchive.SnapshotCountsAgreeIff`,
  `ContestedSnapshotIsMissed`).
  States that runs reach have no such snapshot (`MatchArchive.ReachableViewsAgree`).
- The portal looks keys up in plain objects, so the product names `constructor` and
  `__proto__` find inherited properties. Fixed point and idempotence hold exactly where
  those names are not looked up (`CountMaps.PortalKeepsBackendMapIff`, `ConstructorMapDrifts`,
  `MetricKeys.MetricKeyIsIdempotentIff`, `ConstructorHasNoMetricKey`).
- A decision with status superseded whose only replacement entry is blank passes the
  documentation check (`DocsGovernance.SupersededMeansReplacedIff`,
  `BlankEntryPassesForReplacement`).

## Model

| member | source | states |
|---|---|---|
| RoomModel.SeatFrom | backend/app/rooms.py:456-462 | the seat search ends at the least seat that is not taken, at most the number of taken seats away |
| RoomModel.ActiveRow | backend/app/rooms.py:91-100 | the row found is an open, live row of that user and room, and none is found only if there is none |
| RoomModel.PuttingStaysUnique | backend/app/models.py:78-97 | a row whose user and seat no other open row of its room has can be written without violating either partial unique index |
| RoomModel.ShrinkingStaysUnique | backend/app/models.py:78-97 | closing or deleting rows never violates the partial unique indexes |
| RoomHandlers.LastEntry | backend/app/internal.py:270-294 | finds the last payload entry of a user, or none if no entry names the user |
| RoomRuns.JoinRowFits | backend/app/rooms.py:437-472 | whatever seat join chose, its new row violates no unique index, so the IntegrityError branch is dead without concurrency |
| RoomRuns.JoinSound | backend/app/rooms.py:386-505 | join keeps the directory invariant and never answers with a conflict or an unreadable stored configuration |
| RoomRuns.ResumeSound | backend/app/rooms.py:508-552 | resume keeps the invariant, also when it seats a member, and never conflicts |
| RoomRuns.SpectateSound | backend/app/rooms.py:555-627 | spectate keeps the invariant, also when it adds a spectator, and never conflicts |
| RoomRuns.CreateSound | backend/app/rooms.py:330-374 | create keeps the invariant and conflicts exactly when its configuration reads and its code already has a room |
| RoomRuns.HeartbeatSound | backend/app/internal.py:63-132 | a heartbeat, with its claiming and collecting, keeps the invariant |
| RoomRuns.SyncedRowIs | backend/app/internal.py:263-299 | each row of a synced room is the old one, the old one updated from its user's last entry, closed as left, or newly entered |
| RoomRuns.AcceptItemSound | backend/app/internal.py:233-299 | an accepted sync item keeps the invariant, fencing of earlier tokens included |
| RoomRuns.SyncSound | backend/app/internal.py:187-321 | a sync of live rooms keeps the invariant, whether it commits or is refused |
| RoomRuns.EndSound | backend/app/admin.py:996-1026 | ending rooms keeps the invariant: their open rows are closed as ended |
| RoomRuns.DeleteSound | backend/app/admin.py:384-407 | deleting rooms keeps the invariant: tombstones appear where rooms go, and no row is left without a room |
| RoomRuns.DropUsersSound | backend/app/admin.py:755-818 | deleting users keeps the directory invariant |
| RoomRuns.StepSound | backend/app/internal.py:63-321 | every one of the nine kinds of step keeps the invariant |
| RoomRuns.EmptyIsSound | backend/app/models.py:62-110 | runs can start from the empty directory |
| RoomRuns.RunsAreSound | backend/app/models.py:62-110 | in every state of every interleaving: per room one open row per user and per seat, open exactly when live, Ended rooms empty, tombstoned codes without room, tokens per row strictly increasing and below the stored generation |
| RoomSafety.RetiredCodesStayRetired | backend/app/internal.py:222-232 | over any run, a code once deleted or ended is never live again, and a deleted one never has a room again |
| RoomSafety.StepKeepsGone | backend/app/internal.py:88-111 | no step of any kind brings back a code that is deleted or ended |
| RoomSafety.CreateRespectsTombstonesIff | backend/app/rooms.py:330-374 | create leaves no tombstoned code with a room exactly when the drawn code has no tombstone |
| RoomSafety.DrawnAgainRevives | backend/app/rooms.py:330-374 | a directory that only remembers one deleted code, in which create with that code succeeds |
| RoomSafety.JoinTokenIsFresh | backend/app/rooms.py:386-505 | join either refuses and changes nothing, or answers with a token for that user and room whose generation exceeds all earlier ones of the row |
| RoomSafety.ResumeTokenIsFresh | backend/app/rooms.py:508-552 | the same for resume |
| RoomSafety.CreateTokenIsFresh | backend/app/rooms.py:330-374 | the same for create |
| RoomSafety.ReplyIsFresh | backend/app/rooms.py:190-213 | any step's token carries a fresh generation, already passed by the stored one, and steps without a token issue nothing |
| RoomSafety.IssuedOnlyGrows | backend/app/rooms.py:190-213 | over a run, the generations handed out are only ever appended to |
| RoomSafety.AnswerHasRow | backend/app/rooms.py:190-213 | every answer that carries a generation hands it to an open row of the token's user and room |
| RoomSafety.LaterGrantsOutrank | backend/app/rooms.py:190-213 | of two generations handed out for one row anywhere in a run, syncs with stale or newer generations in between, the later is larger |
| RoomSafety.LaterTokensOutrank | backend/app/rooms.py:190-213 | any two answers of a run with generations were handed to open rows of their users and rooms; for one row the later generation is larger, and it is one row whenever the earlier row still is an open row of the later token's user and room |
| RoomSafety.StepKeepsPin | backend/app/rooms.py:46-82 | no step moves a room that left Pending to another server, unless it is a heartbeat or sync that names the room |
| RoomSafety.RoomsStayPinned | backend/app/rooms.py:46-82 | over any part of a run in which no server names the room, it keeps its server, however healthy others are |
| RoomSafety.ClientsReachPinnedServer | backend/app/rooms.py:46-82 | a client let into a pinned room gets the address its server advertises if that server is healthy and has one, else the room's own or the fallback |
| DirectorySync.HeartbeatIsExact | backend/app/internal.py:88-129 | afterwards the server's active rooms are exactly the reported rooms that exist and are not Ended; reported Pending rooms became Lobby, dropped ones Ended, all others are untouched |
| DirectorySync.HeartbeatEmptiesDropped | backend/app/internal.py:115-129 | a heartbeat closes exactly the open rows of the rooms the server held and no longer reports |
| DirectorySync.RaisedToTheMaximum | backend/app/internal.py:289-293 | for distinct entries, a named user's generation becomes the maximum of the stored and the reported one |
| DirectorySync.RowsSettle | backend/app/internal.py:263-299 | after an accepted item the open rows of the room are exactly the payload's users with its role, seat and status |
| DirectorySync.RowsFare | backend/app/internal.py:263-299 | each old row of the room: closed ones are untouched, unnamed ones left now, named ones are the same row with the generation raised to the maximum |
| DirectorySync.SyncItemsCommit | backend/app/internal.py:218-299 | a payload without repeats is never rejected by the unique indexes, and rooms it does not name keep room and rows |
| DirectorySync.SyncConverges | backend/app/internal.py:214-321 | accepted and skipped codes are exactly those not retired and retired; each accepted room is as the payload says with exactly its users open; every active room of the server is named |
| DirectorySync.SyncSparesOthers | backend/app/internal.py:301-314 | a room the payload does not name is untouched, unless the server held it active: then only its status and time changed, to Ended and now, and exactly its open rows are closed as ended |
| DirectorySync.SyncIsIdempotent | backend/app/internal.py:187-321 | an identical second sync gives the same answer and changes nothing but timestamps |
| DirectorySync.SyncKeepsRostersIff | backend/app/internal.py:276-294 | a sync leaves rows open exactly when live and Ended rooms empty if and only if no accepted item lists a departed member or lists members of an Ended room |
| DirectorySync.DepartedEntryBreaksRoster | backend/app/internal.py:276-294 | one payload, from the empty directory, after which an open row has status left |
| SeatAllocation.SecondSizeCheckIsDead | backend/app/rooms.py:437-462 | once the size check passed, the least free seat is below the desired count, so the second check cannot fire |
| SeatAllocation.FullExactlyWhenAllTaken | backend/app/rooms.py:437-462 | for seats within the desired count, the size check fires exactly when every seat is taken |
| SeatAllocation.JoinFillsSeats | backend/app/rooms.py:386-505 | a new player is refused for want of room exactly when all seats are taken; otherwise gets the least free seat, the taken seats grow by just it and stay within the desired count |
| SeatAllocation.FirstBindingIsBound | backend/app/rooms.py:159-166 | the binding found is the first of that user, and none is found only if none names the user |
| SeatAllocation.ResumeSeatIsBoundAndFree | backend/app/rooms.py:169-187 | a seat resolved from the bindings is one the user is bound to, is free, and lies below a desired count given as a number |
| SeatAllocation.BoundSeatsFitIff | backend/app/rooms.py:125-187 | bound seats stay below the count join enforces exactly when the stricter integer reading accepts that count |
| SeatAllocation.TextCountLetsSeatPass | backend/app/rooms.py:125-187 | a configuration whose desired count is the text 4 and whose binding to seat 4 is honoured |
| SeatAllocation.AsIntIs | backend/app/rooms.py:437-437 | what int() makes of each kind of value, fractions losing what is behind the point |
| SeatAllocation.CoercedIsIntegral | backend/app/rooms.py:125-132 | exactly the whole numbers are read, as themselves |
| SeatAllocation.FirstBindingIsBoundTo | backend/app/rooms.py:135-166 | over the entries as written: the seat found is that of the first entry that binds the user, by seat index or else by player id, and none is found only if no entry does |
| SeatAllocation.ResumeSeatIsGiven | backend/app/rooms.py:169-187 | the seat of a resumed game is the one the user is bound to, exactly when it is free and no whole desired count rules it out |
| RoomOutcomes.OccupiedSeatsAre | backend/app/rooms.py:452-456 | the taken seats are exactly those that some row of the room that has not left holds |
| RoomOutcomes.ParticipantsAre | backend/app/rooms.py:445-449 | the participants counted are exactly the hosts and players that have neither left nor ended |
| RoomOutcomes.TargetIsDirected | backend/app/rooms.py:46-82 | a room is directed to its own server if that is up, else left where it is if active or if no server is up, else moved to the healthy server heard last; only server, address and time change |
| RoomOutcomes.JoinAnswers | backend/app/rooms.py:386-468 | exactly who join lets in, and the condition of each refusal: unknown, waiting, over, wrong password, forfeited, in game, unreadable count, full |
| RoomOutcomes.JoinLeavesIt | backend/app/rooms.py:386-505 | a refused join changes nothing; otherwise one row is touched: the member's, reseated if need be, or a new player's on the least free or the bound seat; with its token, address and grant |
| RoomOutcomes.ResumeAnswers | backend/app/rooms.py:508-548 | exactly who may resume, and the condition of each refusal |
| RoomOutcomes.ResumeLeavesIt | backend/app/rooms.py:508-552 | a refused resume changes nothing; otherwise only the member's row, its seat and generation, and the room's target change |
| RoomOutcomes.SpectateAnswers | backend/app/rooms.py:555-606 | exactly who may spectate, and the condition of each refusal |
| RoomOutcomes.SpectateLeavesIt | backend/app/rooms.py:555-627 | members get their role and seat, the forfeited and newcomers a spectator's token; only a newcomer gets a row |
| RoomOutcomes.CreateLeavesIt | backend/app/rooms.py:330-374 | create is refused exactly for an unreadable configuration or a taken code; otherwise the room is as asked for, waiting on the healthy server heard last, its owner seated as host with the first token |
| RoomOutcomes.HeartbeatLeavesIt | backend/app/internal.py:63-132 | the server is heard: its time is now and it is healthy, its address the reported or the one it had; each reported room is claimed field by field, each dropped one is Ended and emptied, all else is untouched |
| RoomOutcomes.SyncHearsServer | backend/app/internal.py:187-209 | a sync that commits has heard its server in the same way, one that is refused changes nothing; an unreadable configuration refuses it, a payload without repeats commits |
| RoomOutcomes.SyncedRoomIsTold | backend/app/internal.py:233-261 | an accepted room has the item's fields; a missing password hash is kept for a password room, a missing address falls back to the server's and then to the old one |
| RoomOutcomes.EndingEnds | backend/app/admin.py:996-1026 | ended rooms are Ended now and their open rows closed as ended; nothing else changes |
| RoomOutcomes.DeletingDeletes | backend/app/admin.py:384-407 | deleted rooms are gone with all their rows, each leaving a tombstone; nothing else changes |
| Prelude.Missing | backend/app/admin.py:809-809 | the requested items that do not exist, each once and in order, and their number |
| RoomStore.NonEmptyItems | backend/app/admin.py:325-334 | the result holds each nonblank item exactly once |
| RoomStore.NonEmptyKeepsOrder | backend/app/admin.py:325-334 | the items stay in the order in which they first occur |
| RoomStore.ResumeBindings | backend/app/rooms.py:135-156 | the loop collects exactly the readable bindings, in order |
| RoomStore.FindResumeBinding | backend/app/rooms.py:159-166 | the loop finds the seat of the user's first binding |
| RoomStore.ResolveResumeSeat | backend/app/rooms.py:169-187 | the resolved seat is the one the specification gives, or none |
| RoomStore.FirstFreeSeat | backend/app/rooms.py:456-462 | the while loop ends, at the least free seat |
| RoomStore.RoomStore.MarkRoomMembersLeft | backend/app/internal.py:29-45 | row by row, exactly the open rows of the given rooms are closed with that time and status |
| RoomStore.RoomStore.ResolveRoomConnectionTarget | backend/app/rooms.py:46-82 | the branches and in-place writes come to the resolved room and address, and touch no other room |
| RoomStore.RoomStore.IssueMemberConnectToken | backend/app/rooms.py:190-213 | the row's generation moves past the one handed out, which is recorded |
| RoomStore.RoomStore.CreateRoom | backend/app/rooms.py:330-374 | reply and committed state are those of the atomic step, on every path |
| RoomStore.RoomStore.JoinRoom | backend/app/rooms.py:386-505 | reply and committed state are those of the atomic step, rollback included |
| RoomStore.RoomStore.ResumeRoom | backend/app/rooms.py:508-552 | reply and committed state are those of the atomic step, rollback included |
| RoomStore.RoomStore.SpectateRoom | backend/app/rooms.py:555-627 | reply and committed state are those of the atomic step, rollback included |
| RoomStore.RoomStore.Heartbeat | backend/app/internal.py:63-132 | the loops come to the atomic step; the returned codes are, without repeats, exactly the reported codes that are tombstoned or Ended |
| RoomStore.RoomStore.EnterMembers | backend/app/internal.py:270-294 | the pass over the entries updates rows that were open before and adds the others, as the specification of the whole list says |
| RoomStore.RoomStore.SyncRoomDirectory | backend/app/internal.py:187-321 | the nested loops come to the atomic step, state and accepted and skipped codes |
| RoomStore.RoomStore.EndRoom | backend/app/admin.py:1052-1065 | an existing room is Ended and emptied, an unknown one is reported and nothing changes |
| RoomStore.RoomStore.BatchEndRooms | backend/app/admin.py:996-1026 | the wanted rooms that exist are Ended and emptied; affected plus missing equals the distinct codes requested |
| RoomStore.RoomStore.DeleteRoomsByCodes | backend/app/admin.py:384-407 | rooms and their rows go, each leaving a tombstone, and the codes returned are those that had a room |
| RoomStore.RoomStore.DeleteOwnedRooms | backend/app/admin.py:774-780 | exactly the rooms the users own are deleted |
| MatchArchive.UploadSound | backend/app/internal.py:469-546 | an upload keeps the archive invariant and every owner |
| MatchArchive.FinalizeSound | backend/app/internal.py:549-595 | finalising a match keeps the invariant: the room's orphans get the new match, owners stay |
| MatchArchive.DeleteMatchesSound | backend/app/admin.py:337-381 | deleting matches leaves no participant, replay or owned artifact without its match |
| MatchArchive.RunsAreSound | backend/app/internal.py:402-466 | over any run: one autosave per room, one snapshot per room, kind and round; a room with a match has no orphan artifact; owners are matches of the artifact's room |
| MatchArchive.OwnersNeverChange | backend/app/internal.py:584-592 | over any run, an artifact that has an owner keeps it as long as it exists |
| MatchArchive.SnapshotCountsAgreeIff | backend/app/matches.py:630-655 | in any state, list and detail counts agree for all listed matches exactly when no orphan snapshot is contested by two listed matches |
| MatchArchive.ContestedSnapshotIsMissed | backend/app/matches.py:630-655 | two matches of one room code and an orphan snapshot of it: whichever the index names, the list misses it for the other |
| MatchArchive.ReachableViewsAgree | backend/app/matches.py:630-713 | in every reachable state both views show the same artifacts of every listed match, even when room codes repeat |
| MatchArchive.DistinctCodesAgree | backend/app/matches.py:630-713 | in any state, both views agree if the listed matches have distinct room codes |
| MatchArchive.OneAutosavePerMatch | backend/app/matches.py:646-655 | in reachable states a match shows at most one autosave, so the latest-save round is one value |
| ArchiveOutcomes.UploadStores | backend/app/internal.py:413-546 | an upload is taken exactly when complete and sound, and counts its good files; each is then the content, kind and round of the one artifact it addresses, a kept one keeping owner and creation time; nothing else changes |
| ArchiveOutcomes.FinalizeRecords | backend/app/internal.py:549-595 | the match is there with one row per given participant in order, its replay if there is one, and the room's orphans; nothing else changes |
| ArchiveOutcomes.DeletingMatchesIs | backend/app/admin.py:337-381 | the matches go with exactly the participants, replays and artifacts that point at them |
| ArchiveOutcomes.ShownRowsAre | backend/app/matches.py:321-332 | the filter shows exactly the match's own artifacts and orphans of its room |
| ArchiveStore.ViewsGiveTheSameNumbers | backend/app/matches.py:630-713 | in every reachable state the snapshot count and latest-save round of the list are those of the detail view |
| ArchiveStore.ArchiveStore.UpsertMatchArtifact | backend/app/internal.py:413-466 | the slot's row is updated in place, or a row is added; an existing owner and creation time stay |
| ArchiveStore.ArchiveStore.UploadRoundArtifacts | backend/app/internal.py:469-546 | reply and state are those of the atomic upload |
| ArchiveStore.ArchiveStore.FinalizeMatch | backend/app/internal.py:549-595 | the loops over participants and orphan artifacts come to the atomic step, for a new match id |
| ArchiveStore.ArchiveStore.DeleteMatchesByIds | backend/app/admin.py:337-381 | the matches that exist go with everything that points at them, and are returned |
| ArchiveStore.ArchiveStore.IndexByRoom | backend/app/matches.py:630-634 | every nonblank room code of a listed match is indexed to one such match, and no other code is |
| ArchiveStore.ArchiveStore.CountArtifacts | backend/app/matches.py:646-655 | per match, the count is the number of snapshots the index assigns to it, the round that of an autosave assigned to it |
| ArchiveStore.ArchiveStore.ListMatches | backend/app/matches.py:604-675 | the user's matches are listed, each with its number of snapshots and the round of one of its autosaves, if it has any |
| ArchiveStore.ArchiveStore.GetMatch | backend/app/matches.py:678-714 | the snapshots are exactly those the filter shows, each once, ordered by round and creation time; the latest save is the autosave shown that comes last in that order |
| AccountModel.BindSound | backend/app/auth.py:533-572 | binding keeps all addresses and users unique, drops the guest identity, and ends with the user holding that address |
| AccountModel.UpdateEmailSound | backend/app/auth.py:619-644 | changing the address keeps addresses unique and one identity per user |
| AccountModel.SignInsSound | backend/app/auth.py:432-530 | guest login, registration and login, the configured administrator's included, keep addresses unique and one identity per user |
| AccountModel.GuestLoginAnswers | backend/app/auth.py:432-462 | exactly which guests sign in, as whom, and what is added |
| AccountModel.LoginAnswers | backend/app/auth.py:501-530 | exactly who signs in with an address, by their password or as the configured administrator, as whom, and what is added |
| AccountModel.BindAnswers | backend/app/auth.py:533-572 | bind succeeds exactly for an active user, a password, and an address that is not blank, not reserved and nobody else's |
| AccountModel.UpdateEmailAnswers | backend/app/auth.py:619-644 | the change succeeds exactly for an active user with an own address, the right password, and an address that is not blank, nobody else's, and not reserved unless it is kept; only the own row changes |
| AccountModel.RunsAreSound | backend/app/auth.py:432-644 | over any run each user has at most one identity, so never both e-mail and guest; addresses stay unique; identities and sessions have their users |
| AccountModel.CleanupSeparates | backend/app/guest_identity_cleanup.py:26-63 | from any state, cleanup removes exactly the guest identities of users with an address, and changes nothing exactly when nobody held both |
| AccountStore.AccountStore.GuestLogin | backend/app/auth.py:432-462 | signs in exactly unless the device is blank or its holder is switched off; signed in means an active user who holds the device's guest identity and has one more session, a new user exactly when nobody held it; other users' identities are untouched, and a refusal changes nothing |
| AccountStore.AccountStore.Register | backend/app/auth.py:465-498 | succeeds exactly for a password, a free display name and an address that is neither reserved nor anybody's, and then adds just that user, identity and session; a refusal changes nothing |
| AccountStore.AccountStore.Login | backend/app/auth.py:501-530 | signs in exactly on the right password of an active holder, or as the configured administrator unless switched off; signed in means an active user who holds the address and has one more session; other users' identities are untouched, and a refusal changes nothing |
| AccountStore.AccountStore.Bind | backend/app/auth.py:533-572 | succeeds exactly for an active user, a password and an address that is not blank, reserved or somebody else's; then the user holds the address and no guest identity, users, sessions and other users' identities are untouched; a refusal changes nothing |
| AccountStore.AccountStore.UpdateEmail | backend/app/auth.py:619-644 | succeeds exactly under the conditions of UpdateEmailAnswers; then the same rows hold the new address for the user, and other users' identities are untouched; a refusal changes nothing |
| AccountStore.AccountStore.CleanupUpgradedGuestIdentities | backend/app/guest_identity_cleanup.py:48-63 | reports each candidate once and the number of users affected; a dry run changes nothing, a real one removes exactly the candidates |
| UserDeletion.DeletionIsClosed | backend/app/admin.py:755-818 | afterwards no room, member, participant, session or identity names a deleted user, and each room they owned left a tombstone |
| UserDeletion.MatchGoesIff | backend/app/admin.py:782-801 | a match goes exactly when it had participants and all of them were deleted |
| UserDeletion.DeletionIsMinimal | backend/app/admin.py:755-818 | everything else stays as it was: other people's rooms, accounts, identities, sessions, participations and memberships outside the deleted rooms, matches that stay with their replays and artifacts, orphan artifacts; tombstones grow by exactly the owned codes |
| UserDeletion.SurvivorsKeepTheirMatch | backend/app/admin.py:782-801 | every surviving participant, replay and owned artifact still has its match, and all three stores keep their invariants |
| UserDeletion.AdminStore.BatchDeleteUsers | backend/app/admin.py:755-818 | exactly the requested users that exist are deleted; affected plus missing equals the distinct ids requested, and missing lists the unknown ones once; the reported numbers of rooms and orphaned matches are right |
| DeviceCodes.RunsAreSound | backend/app/device_auth.py:49-121 | over any run with advancing time a device code yields at most one session, always after an approval by that same user, and in a run that starts without approvals that approval was made at a step whose state held the code pending and unexpired |
| DeviceCodes.ApprovalsWerePending | backend/app/device_auth.py:72-88 | every approval a run adds was made at a step whose state held its code pending and unexpired |
| DeviceCodes.SpentStaysSpent | backend/app/device_auth.py:72-121 | over any run, consumed and expired codes never become pending or authorized again, and the deadline never moves |
| DeviceCodes.PollGrantsIff | backend/app/device_auth.py:91-121 | a poll is granted a session exactly for an authorized, unexpired code of that device whose user exists, and for the user who approved it |
| DeviceCodes.RequestAnswers | backend/app/device_auth.py:49-69 | a request with a device id and unused codes is issued: pending, nobody's, expiring after its lifetime; nothing else changes |
| DeviceCodes.AuthorizeAnswers | backend/app/device_auth.py:72-88 | approved exactly when a pending unexpired code has this user code, which is then the user's; nothing else changes |
| DeviceCodes.PollAnswers | backend/app/device_auth.py:91-121 | the answer and the change for each standing of the code |
| DeviceCodes.DeviceStore.RequestDeviceCode | backend/app/device_auth.py:49-69 | a new pending code with its deadline is added and nothing else changes, unless a code is taken, when nothing does |
| DeviceCodes.DeviceStore.AuthorizeDevice | backend/app/device_auth.py:72-88 | a pending unexpired code of that user code is approved for the user; refused, with nothing changed, exactly when there is none |
| DeviceCodes.DeviceStore.PollDeviceToken | backend/app/device_auth.py:91-121 | a session means that the code was authorized for that user and is now consumed, with one more session and no other code changed; otherwise there is no new session |
| AudioChannels.FlatIndexIsBijection | web/portal/public/game/index.audio.worklet.js:194-210 | sample * channels + ch maps samples and channels one to one onto the flat buffer |
| AudioChannels.InterleavingIsUnique | web/portal/public/game/index.audio.worklet.js:194-210 | flat buffers and sets of channels determine each other |
| AudioChannels.WriteInput | web/portal/public/game/index.audio.worklet.js:203-210 | the nested loop leaves the flat buffer interleaved, every cell written and in bounds |
| AudioChannels.WriteOutput | web/portal/public/game/index.audio.worklet.js:194-201 | the nested loop leaves the channels that the flat buffer interleaves |
| AudioChannels.InThenOutRestores | web/portal/public/game/index.audio.worklet.js:194-210 | writing channels in and dealing them out again restores every sample |
| AudioChannels.OutThenInRestores | web/portal/public/game/index.audio.worklet.js:194-210 | dealing a flat buffer out and writing it in again restores it |
| AudioRing.WrappedIsModulo | web/portal/public/game/index.audio.worklet.js:71-93 | the write position is (read position + available) modulo the size, at every wrap |
| AudioRing.ReadTakes | web/portal/public/game/index.audio.worklet.js:48-69 | moving the read position on takes exactly the oldest samples off the queue, and keeps the write position where it belongs |
| AudioRing.WriteAppends | web/portal/public/game/index.audio.worklet.js:71-93 | writing from the write position on, around the end, appends to the queue and disturbs nothing queued |
| AudioRing.RingBuffer.Read | web/portal/public/game/index.audio.worklet.js:48-69 | returns the oldest samples in order and leaves the rest; over its whole life, what was read followed by what is queued is what was written |
| AudioRing.RingBuffer.Write | web/portal/public/game/index.audio.worklet.js:71-93 | appends the samples to the queue; positions and count stay in range and agree |
| AudioRing.GodotProcessor.ProcessInput | web/portal/public/game/index.audio.worklet.js:156-173 | a frame is queued interleaved if it fits and skipped if not, or posted when there are no threads |
| AudioRing.GodotProcessor.ProcessOutput | web/portal/public/game/index.audio.worklet.js:174-190 | the oldest frame is dealt out to the channels if the ring holds one, else channels and ring are untouched |
| AudioRing.GodotProcessor.Process | web/portal/public/game/index.audio.worklet.js:149-192 | does nothing before the start or after the stop; otherwise both halves, each only if the frame has data and the ring has room or samples, and then whoever waits is notified |
| CountMaps.ParseCounts | backend/app/matches.py:169-183 | the loop's map holds, under each nonempty canonical key with something under it, the sum of the counts that canonicalise to it, and nothing else |
| CountMaps.BackendCounts | backend/app/matches.py:129-183 | the backend's parser, with its integer reading and product keys, does so |
| CountMaps.PortalCounts | web/portal/src/utils/match-stats.ts:235-269 | the portal's parser, with its integer reading and product keys, does so |
| CountMaps.IntegersRead | backend/app/matches.py:129-134 | both languages read a number as the greatest natural number it reaches, and agree on numbers, booleans and null |
| CountMaps.BackendKeyIs | backend/app/matches.py:164-166 | the key is the text between blanks in lower case, coke and cola being soda |
| CountMaps.PortalKeyIs | web/portal/src/utils/match-stats.ts:241-244 | the same in the portal, but for the inherited names |
| CountMaps.TotalsAddUp | backend/app/matches.py:169-183 | totals of one entry are its count under its nonempty key, those of two lists add up |
| CountMaps.ParsingConservesTotals | backend/app/matches.py:169-183 | the parsed map's sum is the sum of the positive counts under nonempty canonical keys, even when aliases merge |
| CountMaps.PortalKeepsBackendKeyIff | web/portal/src/utils/match-stats.ts:241-244 | the portal maps a backend key to itself exactly when it is not an inherited name |
| CountMaps.PortalKeepsBackendMapIff | web/portal/src/utils/match-stats.ts:257-269 | a backend-parsed product map is a fixed point of the portal's parser exactly when none of its keys is an inherited name |
| CountMaps.ConstructorMapDrifts | web/portal/src/utils/match-stats.ts:241-269 | the product map with one constructor, which the portal's parser changes |
| MetricKeys.AliasesStandForTheirName | web/portal/src/utils/match-stats.ts:319-355 | every alias of the tables, in any case, stands for the name of its group |
| MetricKeys.OtherKeysAreKept | web/portal/src/utils/match-stats.ts:319-355 | any other key keeps its lower-case text, but for product metrics and inherited names |
| MetricKeys.NumericAliasesAgree | web/portal/src/utils/match-stats.ts:438-452 | each key under which a number of a marketing kind is looked for stands for that kind's metric |
| MetricKeys.TablesAreCanonical | web/portal/src/utils/match-stats.ts:171-181 | the alias tables map every canonical name to itself, and no alias is an inherited name or a bare product prefix |
| MetricKeys.ConstructorHasNoMetricKey | web/portal/src/utils/match-stats.ts:319-355 | the key constructor, for which an inherited object comes back |
| MetricKeys.MetricKeyIsIdempotentIff | web/portal/src/utils/match-stats.ts:319-355 | with the real alias tables, canonicalising a metric key twice is canonicalising it once exactly when the key looks up no inherited name |
| StatMatrix.BuildMatrixRows | web/portal/src/utils/match-stats.ts:588-617 | one row per metric in order of first occurrence, under the caption it first came with, and in each row one cell per player: the value written last or zero |
| StatMatrix.CellsAreOwnValues | web/portal/src/utils/match-stats.ts:588-617 | for distinct users each cell is that player's own value of the metric, or zero where the player has none |
| StatMatrix.CaptionsAreFirst | web/portal/src/utils/match-stats.ts:588-617 | a row's caption is the one its metric came with where it was first met |
| StatMatrix.RowsStandInOrder | web/portal/src/utils/match-stats.ts:588-617 | rows stand in the order in which their metrics were first met |
| StatMatrix.RowsAreDistinct | web/portal/src/utils/match-stats.ts:588-617 | no metric has two rows, and a metric has a row exactly when some player has it |
| LiteralScanner.ExtractBalanced | tools/migration/convert_migration_data.py:94-118 | returns the shortest prefix whose unquoted depth returns to zero, and fails exactly when none does |
| LiteralScanner.ScanningComposes | tools/migration/convert_migration_data.py:94-118 | outside strings, scanning a concatenation is scanning its parts |
| LiteralScanner.LiteralsAreNeutral | tools/migration/convert_migration_data.py:94-118 | every nested literal, quotes and backslashes escaped in its strings, leaves the scanner outside strings at the depth it began, never below |
| LiteralScanner.LiteralIsShortestClosing | tools/migration/convert_migration_data.py:94-118 | of a bracketed literal followed by any text, exactly the literal is the shortest closing prefix |
| LiteralScanner.ExtractExpr | tools/migration/convert_migration_data.py:76-91 | behind blanks and an optional typed-array head, a list or dictionary is scanned with its own brackets; otherwise nothing or an error |
| LiteralScanner.AssignedLiteralIsExtracted | tools/migration/convert_migration_data.py:76-118 | whatever precedes and follows, an assigned list or dictionary literal is extracted exactly |
| FenceMask.MaskFencedCode | tools/docs_governance.py:281-303 | the loop over lines, with its fence state, computes the mask |
| FenceMask.JoinedLinesAreTheText | tools/docs_governance.py:281-303 | the lines split off, breaks kept, join to the text |
| FenceMask.LinesEndAtBreaks | tools/docs_governance.py:281-303 | every line ends at a line break, a return and newline counting as one, or at the end of the text, and holds no other |
| FenceMask.MarkerIsTheStart | tools/docs_governance.py:289-290 | a line's marker is three backticks or three tildes behind blanks |
| FenceExtent.ScanFindsFences | tools/docs_governance.py:286-300 | the scan hides a line exactly when it lies in a fence: from a marker line through lines without that marker to the next that has it, or to the end |
| FenceMask.MaskKeepsPositions | tools/docs_governance.py:306-315 | length and every newline and return are kept, so a line number counted in the masked text is that of the original |
| FenceMask.MaskHidesExactlyFences | tools/docs_governance.py:281-303 | every text has fences, and exactly the lines inside them are blanked but for newlines and returns, whatever other markers lie between; all other lines are kept |
| FenceMask.MaskIsIdempotent | tools/docs_governance.py:281-303 | masking a masked text changes nothing |
| DocsGovernance.CheckFeature | tools/docs_governance.py:570-632 | a feature gets no finding exactly when all its references are in order and, if it is done, one is a completed passing validation that covers it |
| DocsGovernance.CheckEntry | tools/docs_governance.py:778-794 | a supersession entry gets no finding exactly when it is blank or names just one other decision, which names this one back |
| DocsGovernance.CheckRequirements | tools/docs_governance.py:732-745 | a document's requirement list gets no finding exactly when its entries are distinct, defined, and mentioned again where evidence is due |
| DocsGovernance.CheckFeatureId | tools/docs_governance.py:747-757 | a feature id gets no finding exactly when a feature document carries it |
| DocsGovernance.CheckDocuments | tools/docs_governance.py:696-794 | the report is empty exactly when document and requirement ids are unique and every document is in order: fields, feature references, requirements, feature ids, sources, supersession |
| DocsGovernance.CleanMeansUniqueIds | tools/docs_governance.py:696-710 | after a clean report no two documents share an id |
| DocsGovernance.CleanMeansConverse | tools/docs_governance.py:768-794 | after a clean report supersedes is the exact converse of superseded_by over all pairs of decisions, without self edges |
| DocsGovernance.SupersededMeansReplacedIff | tools/docs_governance.py:768-776 | after a clean report a decision is superseded exactly when it has a replacement, if and only if its superseded_by is empty or holds an entry that is not blank |
| DocsGovernance.BlankEntryPassesForReplacement | tools/docs_governance.py:768-781 | one decision, superseded by a blank entry only, for which the report is clean |
| DocsGovernance.CountedTwice | tools/docs_governance.py:744-745 | a word is counted twice exactly when it occurs at two places that do not overlap |
| DocsGovernance.CleanMeansRefsLinkBack | tools/docs_governance.py:570-611 | after a clean report every decision or validation a feature references is a document of that kind that links back, and no source reference dangles |
| DocsGovernance.CleanMeansTraceable | tools/docs_governance.py:732-745 | after a clean report each requirement of a done feature is defined once, and listed and mentioned again both there and in a passing validation it references |
| DocsGovernance.CleanMeansFeaturesResolve | tools/docs_governance.py:747-757 | after a clean report every listed feature id names exactly one document, and that is a feature |
| DocsGovernance.CleanMeansValidated | tools/docs_governance.py:570-632 | after a clean report every done feature references a completed passing validation that links back to it and covers all its requirements |

## Left out

- Interference inside a handler: the re-read and retry of `join_room` after a conflict, and transient index conflicts while several rows of one transaction change (a seat swap in a sync, for instance). Handlers are atomic.
- Payloads that repeat a room code, or a user or seat within a room: the convergence results require their absence; the invariants do not.
- RoomStore.RoomStore.Heartbeat: an absent `ws_url` arrives as blank text; how the handler turns a null into text at backend/app/internal.py:81 is not modelled.
- RoomRuns.RunsAreSound: room rows are keyed by their unique code rather than a row id, timestamps are integers, and row ids are a counter that is never reused.
- Null and blank text are one value, and configuration text is known by what parsing it yields; JSON parsing itself is not modelled.
- Listing and detail endpoints of rooms, servers, users and matches, with their paging: easy members.
- Passwords, hashes, token signing and encoding: a check comes in as its result, a token as its fields.
- Profile and password changes and logout: they touch no identity. Display names: a registration learns whether its name fits as a given result.
- UserDeletion.DeletionIsClosed: device-code rows are not part of it, since the handler does not touch them.
- MatchArchive.RunsAreSound: artifacts written by the backfill program are not steps of a run, and files on disk are not modelled.
- AudioRing.RingBuffer.Read: single-threaded; the shared counter of the threaded form is a plain number, samples are real numbers, and a ring starts empty or full.
- AudioRing.GodotProcessor.Process: the message parser is not modelled, and the notification is a counter.
- CountMaps.PortalCounts: ASCII text and finite numbers; a text, array or object is known by the numbers that Python and JavaScript read from it.
- MetricKeys.MetricKeyIsIdempotentIff: ASCII text; the keys of the second alias table (web/portal/src/utils/match-stats.ts:331-351) are grouped by the name they stand for.
- StatMatrix.BuildMatrixRows: the building of the per-player rows and their sort by metric order are left out, and user ids are taken not to be names that every object inherits.
- LiteralScanner.ExtractExpr: the regular expression that finds the assignment is not modelled; the position behind its match is given.
- FenceMask.MaskKeepsPositions: the regular expression that finds links is not modelled; it runs on the masked text.
- DocsGovernance.CheckDocuments: findings about dates, owners, links, templates, file names and the generated index are left out; ids are ASCII, a reference is known by the file it resolves to, and the requirement ids headed in the requirements document are given.
- The migration tool's conversion of tiles and employees, the portal's API clients and label tables, and the bundled engine runtime.
- AccountStore.AccountStore.CleanupUpgradedGuestIdentities: the candidates come in any order, where the query sorts them by the database's collation.
