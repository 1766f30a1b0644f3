/**
  What one directory sync or heartbeat achieves (backend/app/internal.py): a sync
  makes each accepted room's open roster exactly the payload's, and repeating it
  changes nothing; a heartbeat leaves a server exactly the rooms it reported.
 */
module DirectorySync {
  import opened Prelude
  import opened RoomModel
  import opened RoomHandlers
  import opened RoomRuns
  import opened RoomSafety

  // ------------------------------------------------------------- heartbeats

  /** The active rooms a server holds. */
  function ActiveRooms(d: Directory, server: ServerId): set<Code> {
    set c | c in d.rooms && d.rooms[c].server == Some(server) && ActiveStatus(d.rooms[c].status)
  }

  /** Main result: afterwards the server's active rooms are exactly the reported rooms
      that exist and have not ended; Pending rooms among them became Lobby, rooms the
      server dropped have ended, and rooms of others it did not report are untouched. */
  lemma HeartbeatIsExact(d: Directory, server: ServerId, url: Url, codes: seq<Code>, now: Time)
    requires Sound(d)
    ensures var after := Heartbeat(d, server, url, codes, now).rooms;
      && ActiveRooms(Heartbeat(d, server, url, codes, now), server)
         == (set c | c in Reported(codes) && c in d.rooms && d.rooms[c].status != Ended)
      && after.Keys == d.rooms.Keys
      && (forall c | c in d.rooms && c in Reported(codes) ::
            after[c].status == if d.rooms[c].status == Pending then Lobby else d.rooms[c].status)
      && (forall c | c in d.rooms && c !in Reported(codes) ::
            after[c] == if c in ActiveRooms(d, server)
                        then d.rooms[c].(status := Ended, updatedAt := now)
                        else d.rooms[c])
  {
    var claimed := ClaimRooms(d, server, url, Reported(codes), now);
    assert Stale(claimed, server, Reported(codes)) == ActiveRooms(d, server) - Reported(codes);
  }

  /** The rosters a heartbeat touches are those of the rooms the server dropped, and it empties them. */
  lemma HeartbeatEmptiesDropped(d: Directory, server: ServerId, url: Url, codes: seq<Code>, now: Time)
    requires Consistent(d)
    ensures Heartbeat(d, server, url, codes, now).members
            == CloseRows(d.members, ActiveRooms(d, server) - Reported(codes), now, RoomEnded)
  {
  }

  // --------------------------------------------------- payloads worth the name

  ghost predicate DistinctMembers(entries: seq<MemberIn>) {
    forall i, j | 0 <= i < j < |entries| ::
      && (entries[i].user != "" ==> entries[i].user != entries[j].user)
      && (entries[i].user != "" && entries[j].user != "" && entries[i].seat.Some? ==>
          entries[i].seat != entries[j].seat)
  }

  ghost predicate WellFormed(items: seq<RoomIn>) {
    && (forall i | 0 <= i < |items| :: items[i].config.Parsed? && DistinctMembers(items[i].members))
    && (forall i, j | 0 <= i < j < |items| && items[i].code != "" :: items[i].code != items[j].code)
  }

  ghost predicate LiveItems(items: seq<RoomIn>) {
    forall i | 0 <= i < |items| :: LiveItem(items[i])
  }

  // ------------------------------------------------------ one accepted item

  lemma {:induction false} EntryIsLast(entries: seq<MemberIn>, k: nat)
    requires DistinctMembers(entries) && k < |entries| && entries[k].user != ""
    ensures LastEntry(entries, entries[k].user) == k
  {
  }

  lemma {:induction false} RaisedToTheMaximum(entries: seq<MemberIn>, user: UserId, generation: int)
    requires DistinctMembers(entries) && user != ""
    ensures RaisedGeneration(entries, user, generation) ==
            if LastEntry(entries, user) < 0 then generation
            else Max(Max(1, generation), Max(1, entries[LastEntry(entries, user)].generation))
  {
    if entries != [] {
      var prefix := entries[..|entries| - 1];
      RaisedToTheMaximum(prefix, user, generation);
      assert LastEntry(prefix, user) >= 0 ==> entries[LastEntry(prefix, user)].user == user;
    }
  }

  /** The open roster of a room is exactly what the entries say. */
  ghost predicate RosterSettled(members: map<RowId, Member>, code: Code, entries: seq<MemberIn>) {
    && (forall id | id in members && OpenIn(members[id], code) :: RowSettled(members[id], entries))
    && (forall k | 0 <= k < |entries| && entries[k].user != "" :: HasOpenRow(members, code, entries[k].user))
  }

  ghost predicate RowSettled(row: Member, entries: seq<MemberIn>) {
    && Names(entries, row.user)
    && var entry := entries[LastEntry(entries, row.user)];
       row.role == entry.role && row.seat == entry.seat && row.status == entry.status
       && row.generation >= Max(1, entry.generation)
  }

  /** What became of each row the room had. */
  ghost predicate RowFates(before: map<RowId, Member>, after: map<RowId, Member>, code: Code, entries: seq<MemberIn>,
                           now: Time) {
    && (forall id | id in before && before[id].room == code ::
          && id in after
          && if !Open(before[id]) then after[id] == before[id]
             else if !Names(entries, before[id].user) then after[id] == CloseRow(before[id], now, Departed)
             else OpenIn(after[id], code) && after[id].user == before[id].user
                  && after[id].generation == Max(Max(1, before[id].generation),
                      Max(1, entries[LastEntry(entries, before[id].user)].generation)))
    && (forall id | id in after && after[id].room == code && id !in before ::
          Open(after[id]) && Names(entries, after[id].user)
          && after[id].generation == Max(1, entries[LastEntry(entries, after[id].user)].generation))
  }

  /** The roster a sync item leaves, row by row. */
  ghost predicate IsSynced(members: map<RowId, Member>, after: map<RowId, Member>, code: Code,
                           entries: seq<MemberIn>, base: RowId, now: Time) {
    && (forall id | id in members :: id in after && after[id] ==
          if !OpenIn(members[id], code) then members[id]
          else if Names(entries, members[id].user) then UpdatedRow(members[id], entries)
          else CloseRow(members[id], now, Departed))
    && (forall id | id in after && id !in members ::
          base <= id < base + |entries| && Enters(members, code, entries, id - base)
          && after[id] == EnteredRow(code, entries[id - base]))
    && (forall k | 0 <= k < |entries| && Enters(members, code, entries, k) :: base + k in after && base + k !in members)
  }

  lemma SyncedRowsAre(members: map<RowId, Member>, code: Code, entries: seq<MemberIn>, base: RowId, now: Time)
    requires forall i | i in members :: i < base
    ensures IsSynced(members, SyncedRows(members, code, entries, base, now), code, entries, base, now)
  {
  }

  /** An updated row says what the entry of its user says. */
  lemma UpdatedRowSettled(row: Member, entries: seq<MemberIn>)
    requires DistinctMembers(entries) && Names(entries, row.user)
    ensures var updated := UpdatedRow(row, entries);
            updated.user == row.user && updated.room == row.room && updated.leftAt == row.leftAt
                && RowSettled(updated, entries)
            && updated.generation == Max(Max(1, row.generation),
                Max(1, entries[LastEntry(entries, row.user)].generation))
  {
    RaisedToTheMaximum(entries, row.user, row.generation);
  }

  lemma SyncedRowSettled(members: map<RowId, Member>, after: map<RowId, Member>, code: Code, entries: seq<MemberIn>,
                         base: RowId, now: Time, id: RowId)
    requires DistinctMembers(entries) && IsSynced(members, after, code, entries, base, now)
    requires id in after && OpenIn(after[id], code)
    ensures RowSettled(after[id], entries)
    ensures id !in members ==> after[id].generation == Max(1, entries[LastEntry(entries, after[id].user)].generation)
  {
    if id in members {
      UpdatedRowSettled(members[id], entries);
    } else {
      EntryIsLast(entries, id - base);
    }
  }

  lemma NamedUserHasRow(members: map<RowId, Member>, after: map<RowId, Member>, code: Code, entries: seq<MemberIn>,
                        base: RowId, now: Time, k: nat)
    requires DistinctMembers(entries) && IsSynced(members, after, code, entries, base, now)
    requires k < |entries| && entries[k].user != ""
    ensures HasOpenRow(after, code, entries[k].user)
  {
    if HasOpenRow(members, code, entries[k].user) {
      var id :| id in members && OpenIn(members[id], code) && members[id].user == entries[k].user;
      EntryIsLast(entries, k);
      assert id in after && after[id].user == entries[k].user && OpenIn(after[id], code);
    } else {
      assert Enters(members, code, entries, k);
      assert base + k in after;
      assert after[base + k] == EnteredRow(code, entries[k]);
    }
  }

  lemma RowsSettle(members: map<RowId, Member>, after: map<RowId, Member>, code: Code, entries: seq<MemberIn>,
                   base: RowId, now: Time)
    requires DistinctMembers(entries) && IsSynced(members, after, code, entries, base, now)
    ensures RosterSettled(after, code, entries)
  {
    forall id | id in after && OpenIn(after[id], code) ensures RowSettled(after[id], entries) {
      SyncedRowSettled(members, after, code, entries, base, now, id);
    }
    forall k | 0 <= k < |entries| && entries[k].user != "" ensures HasOpenRow(after, code, entries[k].user) {
      NamedUserHasRow(members, after, code, entries, base, now, k);
    }
  }

  lemma RowsFare(members: map<RowId, Member>, after: map<RowId, Member>, code: Code, entries: seq<MemberIn>,
                 base: RowId, now: Time)
    requires DistinctMembers(entries) && IsSynced(members, after, code, entries, base, now)
    ensures RowFates(members, after, code, entries, now)
  {
    forall id | id in members && OpenIn(members[id], code) && Names(entries, members[id].user)
      ensures OpenIn(after[id], code) && after[id].user == members[id].user
      ensures after[id].generation == Max(Max(1, members[id].generation),
          Max(1, entries[LastEntry(entries, members[id].user)].generation))
    {
      UpdatedRowSettled(members[id], entries);
    }
    forall id | id in after && id !in members && after[id].room == code
      ensures Open(after[id]) && Names(entries, after[id].user)
      ensures after[id].generation == Max(1, entries[LastEntry(entries, after[id].user)].generation)
    {
      SyncedRowSettled(members, after, code, entries, base, now, id);
    }
  }

  /** Open rows of a synced room are of different users: rows that stay open, and rows entered for users without one. */
  lemma SyncedUsersDiffer(members: map<RowId, Member>, after: map<RowId, Member>, code: Code, entries: seq<MemberIn>,
                          base: RowId, now: Time, i: RowId, j: RowId)
    requires UniqueOpenRows(members) && DistinctMembers(entries) && IsSynced(members, after, code, entries, base, now)
    requires i in after && j in after && i != j && OpenIn(after[i], code) && OpenIn(after[j], code)
    ensures after[i].user != after[j].user
  {
    if i in members && j in members {
      assert Apart(members, i, j);
    }
    if i in members {
      assert OpenIn(members[i], code) && members[i].user == after[i].user;
      assert HasOpenRow(members, code, after[i].user);
    }
    if j in members {
      assert OpenIn(members[j], code) && members[j].user == after[j].user;
      assert HasOpenRow(members, code, after[j].user);
    }
  }

  lemma RowsFit(members: map<RowId, Member>, after: map<RowId, Member>, code: Code, entries: seq<MemberIn>,
                base: RowId, now: Time)
    requires UniqueOpenRows(members) && DistinctMembers(entries) && IsSynced(members, after, code, entries, base, now)
    ensures UniqueOpenRows(after)
  {
    RowsSettle(members, after, code, entries, base, now);
    forall i, j | i in after && j in after && i != j ensures Apart(after, i, j) {
      if !OpenIn(after[i], after[j].room) || !Open(after[j]) {
      } else if after[i].room == code {
        SyncedUsersDiffer(members, after, code, entries, base, now, i, j);
        assert RowSettled(after[i], entries) && RowSettled(after[j], entries);
        assert LastEntry(entries, after[i].user) != LastEntry(entries, after[j].user);
      } else {
        assert i in members && j in members && members[i] == after[i] && members[j] == after[j];
        assert Apart(members, i, j);
      }
    }
  }

  // ----------------------------------------------------------- whole payloads

  /** The rows of one room. */
  function Roster(members: map<RowId, Member>, code: Code): map<RowId, Member> {
    map id | id in members && members[id].room == code :: members[id]
  }

  lemma OtherRostersKept(members: map<RowId, Member>, code: Code, entries: seq<MemberIn>, base: RowId, now: Time,
                         other: Code)
    requires forall i | i in members :: i < base
    requires other != code
    ensures Roster(SyncedRows(members, code, entries, base, now), other) == Roster(members, other)
  {
    var after := SyncedRows(members, code, entries, base, now);
    forall id | id in Roster(after, other) ensures id in Roster(members, other) && after[id] == members[id] {
      SyncedRowIs(members, code, entries, base, now, id);
    }
    forall id | id in Roster(members, other) ensures id in Roster(after, other) {
      assert id in after;
      SyncedRowIs(members, code, entries, base, now, id);
    }
  }

  lemma SyncedRowPlaced(members: map<RowId, Member>, code: Code, entries: seq<MemberIn>, base: RowId, now: Time,
                        id: RowId)
    requires forall i | i in members :: i < base
    requires id in SyncedRows(members, code, entries, base, now)
    ensures id < base + |entries|
    ensures var row := SyncedRows(members, code, entries, base, now)[id];
            row.room == if id in members then members[id].room else code
  {
  }

  lemma AcceptItemConsistent(d: Directory, server: ServerId, url: Url, item: RoomIn, now: Time)
    requires Consistent(d) && DistinctMembers(item.members)
    ensures Consistent(AcceptItem(d, server, url, item, now))
    ensures forall id | id in d.members ::
      id in AcceptItem(d, server, url, item, now).members
          && AcceptItem(d, server, url, item, now).members[id].room == d.members[id].room
  {
    var rows := SyncedRows(d.members, item.code, item.members, d.nextRow, now);
    SyncedRowsAre(d.members, item.code, item.members, d.nextRow, now);
    RowsFit(d.members, rows, item.code, item.members, d.nextRow, now);
    forall id | id in rows
      ensures id < d.nextRow + |item.members|
      ensures if id in d.members then rows[id].room == d.members[id].room else rows[id].room == item.code
    {
      SyncedRowPlaced(d.members, item.code, item.members, d.nextRow, now, id);
    }
  }

  /** A well-formed payload is never rejected by the indexes, and rooms it does not name keep their rosters. */
  lemma {:induction false} SyncItemsCommit(d: Directory, server: ServerId, url: Url, items: seq<RoomIn>, now: Time)
    requires Consistent(d) && WellFormed(items)
    ensures var done := SyncItems(d, server, url, items, now);
      && done.Some?
      && Consistent(done.value.dir)
      && done.value.dir.tombstones == d.tombstones && done.value.dir.servers == d.servers
      && (forall id | id in d.members ::
          id in done.value.dir.members && done.value.dir.members[id].room == d.members[id].room)
      && forall code | code !in PayloadCodes(items) :: Roster(done.value.dir.members, code) == Roster(d.members, code)
  {
    if items != [] {
      var prefix := items[..|items| - 1];
      var item := items[|items| - 1];
      SyncItemsCommit(d, server, url, prefix, now);
      var before := SyncItems(d, server, url, prefix, now).value.dir;
      PayloadCodesGrow(items);
      if item.code != "" && !Gone(before, item.code) {
        AcceptItemConsistent(before, server, url, item, now);
        forall code | code !in PayloadCodes(items)
          ensures Roster(AcceptItem(before, server, url, item, now).members, code) == Roster(d.members, code)
        {
          OtherRostersKept(before.members, item.code, item.members, before.nextRow, now, code);
        }
      }
    }
  }

  lemma PayloadCodeAt(items: seq<RoomIn>, n: nat, p: nat)
    requires WellFormed(items) && n <= p < |items| && items[p].code != ""
    ensures items[p].code !in PayloadCodes(items[..n])
  {
  }

  /** Whatever a roster predicate needs of a room's rows, it needs of its roster only. */
  lemma SettledByRoster(a: map<RowId, Member>, b: map<RowId, Member>, code: Code, entries: seq<MemberIn>)
    requires Roster(a, code) == Roster(b, code) && RosterSettled(a, code, entries)
    ensures RosterSettled(b, code, entries)
  {
    forall id | id in b && OpenIn(b[id], code) ensures RowSettled(b[id], entries) {
      assert id in Roster(b, code);
      assert id in a && a[id] == b[id];
    }
    forall k | 0 <= k < |entries| && entries[k].user != "" ensures HasOpenRow(b, code, entries[k].user) {
      var id :| id in a && OpenIn(a[id], code) && a[id].user == entries[k].user;
      assert id in Roster(a, code);
    }
  }

  lemma FatesByRoster(a0: map<RowId, Member>, b0: map<RowId, Member>, a: map<RowId, Member>, b: map<RowId, Member>,
                      code: Code, entries: seq<MemberIn>, now: Time)
    requires Roster(a0, code) == Roster(b0, code) && Roster(a, code) == Roster(b, code)
    requires RowFates(a0, a, code, entries, now)
    requires forall id | id in b && b[id].room == code && id !in b0 :: id !in a0
    ensures RowFates(b0, b, code, entries, now)
  {
    forall id | id in b0 && b0[id].room == code
      ensures id in a0 && a0[id] == b0[id] && id in a && id in b && a[id] == b[id]
    {
      assert id in Roster(b0, code);
      assert id in a0 && a0[id] == b0[id];
      assert id in Roster(a, code);
    }
    forall id | id in b && b[id].room == code && id !in b0
      ensures id in a && a[id] == b[id] && id !in a0
    {
      assert id in Roster(b, code);
    }
  }

  lemma PrefixWellFormed(items: seq<RoomIn>)
    requires WellFormed(items) && items != []
    ensures WellFormed(items[..|items| - 1])
  {
  }

  lemma AcceptedItemSettles(d: Directory, server: ServerId, url: Url, item: RoomIn, now: Time)
    requires Consistent(d) && DistinctMembers(item.members)
    ensures var after := AcceptItem(d, server, url, item, now);
      && after.rooms[item.code] == SyncedRoom(d, server, url, item, now)
      && RosterSettled(after.members, item.code, item.members)
      && RowFates(d.members, after.members, item.code, item.members, now)
      && (forall id | id in after.members && id in d.members :: after.members[id].room == d.members[id].room)
  {
    var after := SyncedRows(d.members, item.code, item.members, d.nextRow, now);
    SyncedRowsAre(d.members, item.code, item.members, d.nextRow, now);
    RowsSettle(d.members, after, item.code, item.members, d.nextRow, now);
    RowsFare(d.members, after, item.code, item.members, d.nextRow, now);
  }

  /** What the sync of an accepted item comes to, seen from the state the sync began in. */
  ghost predicate ItemSettled(d: Directory, after: Directory, server: ServerId, url: Url, item: RoomIn, now: Time) {
    && item.code in after.rooms
    && after.rooms[item.code] == SyncedRoom(d, server, url, item, now)
    && RosterSettled(after.members, item.code, item.members)
    && RowFates(d.members, after.members, item.code, item.members, now)
  }

  lemma ItemSettledFirst(d: Directory, before: Directory, server: ServerId, url: Url, item: RoomIn, now: Time)
    requires Consistent(before) && DistinctMembers(item.members)
    requires Roster(before.members, item.code) == Roster(d.members, item.code)
    requires item.code in d.rooms <==> item.code in before.rooms
    requires item.code in d.rooms ==> before.rooms[item.code] == d.rooms[item.code]
    ensures ItemSettled(d, AcceptItem(before, server, url, item, now), server, url, item, now)
  {
    var after := AcceptItem(before, server, url, item, now);
    AcceptedItemSettles(before, server, url, item, now);
    forall id | id in after.members && after.members[id].room == item.code && id !in d.members
      ensures id !in before.members
    {
      assert id in before.members ==> id in Roster(before.members, item.code);
      assert id in Roster(d.members, item.code) ==> id in d.members;
    }
    FatesByRoster(before.members, d.members, after.members, after.members, item.code, item.members, now);
  }

  lemma ItemStaysSettled(d: Directory, before: Directory, after: Directory, server: ServerId, url: Url, item: RoomIn,
                         now: Time)
    requires ItemSettled(d, before, server, url, item, now)
    requires item.code in after.rooms && after.rooms[item.code] == before.rooms[item.code]
    requires Roster(after.members, item.code) == Roster(before.members, item.code)
    ensures ItemSettled(d, after, server, url, item, now)
  {
    SettledByRoster(before.members, after.members, item.code, item.members);
    FatesByRoster(d.members, d.members, before.members, after.members, item.code, item.members, now);
  }

  lemma {:induction false} SyncItemsSettle(d: Directory, server: ServerId, url: Url, items: seq<RoomIn>, now: Time,
                                           p: nat)
    requires Consistent(d) && WellFormed(items)
    requires p < |items| && items[p].code != "" && !Gone(d, items[p].code)
    ensures var done := SyncItems(d, server, url, items, now);
            done.Some? && ItemSettled(d, done.value.dir, server, url, items[p], now)
  {
    var prefix := items[..|items| - 1];
    var last := items[|items| - 1];
    SyncItemsCommit(d, server, url, items, now);
    SyncItemsCommit(d, server, url, prefix, now);
    var before := SyncItems(d, server, url, prefix, now).value.dir;
    if p == |items| - 1 {
      PayloadCodeAt(items, p, p);
      SyncItemsTouchNamed(d, server, url, prefix, now, last.code);
      ItemSettledFirst(d, before, server, url, last, now);
    } else {
      assert prefix[p] == items[p];
      SyncItemsSettle(d, server, url, prefix, now, p);
      if last.code != "" && !Gone(before, last.code) {
        OtherRostersKept(before.members, last.code, last.members, before.nextRow, now, items[p].code);
        ItemStaysSettled(d, before, AcceptItem(before, server, url, last, now), server, url, items[p], now);
      }
    }
  }

  function AcceptedCodes(d: Directory, items: seq<RoomIn>): seq<Code> {
    if items == [] then []
    else AcceptedCodes(d, items[..|items| - 1])
         + (var code := items[|items| - 1].code; if code != "" && !Gone(d, code) then [code] else [])
  }

  function SkippedCodes(d: Directory, items: seq<RoomIn>): seq<Code> {
    if items == [] then []
    else SkippedCodes(d, items[..|items| - 1])
         + (var code := items[|items| - 1].code; if code != "" && Gone(d, code) then [code] else [])
  }

  /** Which items are accepted is decided by the state the sync began in. */
  lemma {:induction false} SyncItemsAnswer(d: Directory, server: ServerId, url: Url, items: seq<RoomIn>, now: Time)
    requires Consistent(d) && WellFormed(items)
    ensures var done := SyncItems(d, server, url, items, now);
            done.Some? && done.value.accepted == AcceptedCodes(d, items) && done.value.skipped == SkippedCodes(d, items)
  {
    SyncItemsCommit(d, server, url, items, now);
    if items != [] {
      var prefix := items[..|items| - 1];
      SyncItemsAnswer(d, server, url, prefix, now);
      SyncItemsCommit(d, server, url, prefix, now);
      if items[|items| - 1].code != "" {
        PayloadCodeAt(items, |prefix|, |prefix|);
        SyncItemsTouchNamed(d, server, url, prefix, now, items[|items| - 1].code);
      }
    }
  }

  /** Ending stale rooms leaves every other room and roster alone. */
  lemma CollectSparesOthers(d: Directory, server: ServerId, named: set<Code>, now: Time, code: Code)
    requires code !in Stale(d.rooms, server, named)
    ensures var after := Collect(d, server, named, now);
      && Roster(after.members, code) == Roster(d.members, code)
      && (code in after.rooms <==> code in d.rooms)
      && (code in d.rooms ==> after.rooms[code] == d.rooms[code])
  {
  }

  /** And ends a stale room, closing its open rows. */
  lemma CollectEndsStale(d: Directory, server: ServerId, named: set<Code>, now: Time, code: Code)
    requires code in Stale(d.rooms, server, named)
    ensures var after := Collect(d, server, named, now);
      && code in after.rooms && after.rooms[code] == d.rooms[code].(status := Ended, updatedAt := now)
      && Roster(after.members, code) == CloseRows(Roster(d.members, code), {code}, now, RoomEnded)
  {
  }

  /** Main result: a well-formed sync converges. Its accepted rooms are those not retired;
      each of them ends up as the payload says, with exactly the payload's users in its
      open roster; and the server holds no active room the payload does not name. */
  lemma SyncConverges(d: Directory, server: ServerId, url: Url, items: seq<RoomIn>, now: Time)
    requires Consistent(d) && WellFormed(items)
    ensures var o := SyncDirectory(d, server, url, items, now);
      && o.reply == Synced(AcceptedCodes(d, items), SkippedCodes(d, items))
      && ActiveRooms(o.after, server) <= PayloadCodes(items)
      && forall p | 0 <= p < |items| && items[p].code != "" && !Gone(d, items[p].code) ::
           ItemSettled(d, o.after, server, url, items[p], now)
  {
    var beaten := d.(servers := Beat(d, server, url, now));
    SyncItemsCommit(beaten, server, url, items, now);
    SyncItemsAnswer(beaten, server, url, items, now);
    SameAnswers(d, beaten, items);
    var done := SyncItems(beaten, server, url, items, now).value.dir;
    var after := Collect(done, server, PayloadCodes(items), now);
    forall p | 0 <= p < |items| && items[p].code != "" && !Gone(d, items[p].code)
      ensures ItemSettled(d, after, server, url, items[p], now)
    {
      SyncItemsSettle(beaten, server, url, items, now, p);
      assert items[p].code in PayloadCodes(items);
      CollectSparesOthers(done, server, PayloadCodes(items), now, items[p].code);
      ItemStaysSettled(beaten, done, after, server, url, items[p], now);
    }
  }

  lemma {:induction false} SameAnswers(d: Directory, e: Directory, items: seq<RoomIn>)
    requires d.rooms == e.rooms && d.tombstones == e.tombstones
    ensures AcceptedCodes(d, items) == AcceptedCodes(e, items) && SkippedCodes(d, items) == SkippedCodes(e, items)
  {
    if items != [] {
      SameAnswers(d, e, items[..|items| - 1]);
    }
  }

  /** Rooms the payload does not name: untouched, unless the syncing server held them active,
      in which case they have ended now and their open rows, and no others, are closed as ended. */
  lemma SyncSparesOthers(d: Directory, server: ServerId, url: Url, items: seq<RoomIn>, now: Time, code: Code)
    requires Consistent(d) && WellFormed(items) && code in d.rooms && code !in PayloadCodes(items)
    ensures var after := SyncDirectory(d, server, url, items, now).after;
      && code in after.rooms
      && if code in ActiveRooms(d, server)
         then after.rooms[code] == d.rooms[code].(status := Ended, updatedAt := now)
              && Roster(after.members, code) == CloseRows(Roster(d.members, code), {code}, now, RoomEnded)
         else after.rooms[code] == d.rooms[code] && Roster(after.members, code) == Roster(d.members, code)
  {
    var beaten := d.(servers := Beat(d, server, url, now));
    SyncItemsCommit(beaten, server, url, items, now);
    SyncItemsTouchNamed(beaten, server, url, items, now, code);
    var done := SyncItems(beaten, server, url, items, now).value.dir;
    if code !in ActiveRooms(d, server) {
      CollectSparesOthers(done, server, PayloadCodes(items), now, code);
    } else {
      CollectEndsStale(done, server, PayloadCodes(items), now, code);
    }
  }

  lemma {:induction false} SyncItemsSkipGone(d: Directory, server: ServerId, url: Url, items: seq<RoomIn>, now: Time,
                                             code: Code)
    requires Consistent(d) && WellFormed(items) && Gone(d, code)
    ensures var done := SyncItems(d, server, url, items, now);
      && done.Some?
      && Roster(done.value.dir.members, code) == Roster(d.members, code)
      && (code in done.value.dir.rooms <==> code in d.rooms)
      && (code in d.rooms ==> done.value.dir.rooms[code] == d.rooms[code])
  {
    SyncItemsCommit(d, server, url, items, now);
    if items != [] {
      var prefix := items[..|items| - 1];
      var item := items[|items| - 1];
      SyncItemsSkipGone(d, server, url, prefix, now, code);
      SyncItemsCommit(d, server, url, prefix, now);
      var before := SyncItems(d, server, url, prefix, now).value.dir;
      SyncItemsKeepGone(d, server, url, prefix, now, code);
      if item.code != "" && !Gone(before, item.code) {
        OtherRostersKept(before.members, item.code, item.members, before.nextRow, now, code);
      }
    }
  }

  /** A row outside the accepted rooms is as it was, or was closed because its room went stale. */
  lemma RowOutsideAccepted(d: Directory, server: ServerId, url: Url, items: seq<RoomIn>, now: Time, id: RowId)
    requires Consistent(d) && WellFormed(items)
    requires var after := SyncDirectory(d, server, url, items, now).after;
             id in after.members && (after.members[id].room in PayloadCodes(items) ==> Gone(d, after.members[id].room))
    ensures var after := SyncDirectory(d, server, url, items, now).after; var row := after.members[id];
      if Open(row)
      then id in d.members && d.members[id] == row && row.room in d.rooms && row.room in after.rooms
           && after.rooms[row.room].status == d.rooms[row.room].status
      else row.status == RoomEnded || (id in d.members && d.members[id] == row)
  {
    var beaten := d.(servers := Beat(d, server, url, now));
    SyncItemsCommit(beaten, server, url, items, now);
    var done := SyncItems(beaten, server, url, items, now).value.dir;
    var code := done.members[id].room;
    if code in PayloadCodes(items) {
      SyncItemsSkipGone(beaten, server, url, items, now, code);
    } else {
      SyncItemsTouchNamed(beaten, server, url, items, now, code);
    }
    assert id in Roster(done.members, code);
    assert id in Roster(beaten.members, code);
    assert d.members[id] == done.members[id];
  }

  /** What an accepted item must say for the roster invariant to survive it: nobody listed
      has already left, and an ended room lists nobody. */
  predicate KeepsRoster(item: RoomIn) {
    forall k | 0 <= k < |item.members| && item.members[k].user != "" ::
        Live(item.members[k].status) && item.status != Ended
  }

  ghost predicate RostersHold(d: Directory) {
    OpenExactlyWhenLive(d.members) && EndedRoomsEmpty(d)
  }

  lemma BrokenItemBreaksRoster(after: Directory, item: RoomIn)
    requires DistinctMembers(item.members) && !KeepsRoster(item)
    requires item.code in after.rooms && after.rooms[item.code].status == item.status
    requires RosterSettled(after.members, item.code, item.members)
    ensures !RostersHold(after)
  {
  }

  lemma AcceptedRowHolds(d: Directory, after: Directory, server: ServerId, url: Url, item: RoomIn, now: Time, id: RowId)
    requires Sound(d) && KeepsRoster(item) && ItemSettled(d, after, server, url, item, now)
    requires id in after.members && after.members[id].room == item.code
    requires id in d.members ==> d.members[id].room == item.code
    ensures Open(after.members[id]) <==> Live(after.members[id].status)
    ensures Open(after.members[id]) ==> after.rooms[item.code].status != Ended
  {
  }

  /** Some accepted item breaks its roster. */
  predicate Breaks(d: Directory, items: seq<RoomIn>, p: int)
    requires 0 <= p < |items|
  {
    items[p].code != "" && !Gone(d, items[p].code) && !KeepsRoster(items[p])
  }

  /** The row is open exactly when it is live, and not in an ended room. */
  predicate RowKept(d: Directory, id: RowId)
    requires id in d.members
  {
    var row := d.members[id];
    && (Open(row) <==> Live(row.status))
    && (Open(row) && row.room in d.rooms ==> d.rooms[row.room].status != Ended)
  }

  lemma AcceptedItemRowKept(d: Directory, server: ServerId, url: Url, items: seq<RoomIn>, now: Time, p: nat, id: RowId)
    requires Sound(d) && WellFormed(items) && p < |items| && items[p].code != "" && !Gone(d, items[p].code)
    requires KeepsRoster(items[p])
    requires var after := SyncDirectory(d, server, url, items, now).after;
             id in after.members && after.members[id].room == items[p].code
    ensures RowKept(SyncDirectory(d, server, url, items, now).after, id)
  {
    SyncItemsCommit(d.(servers := Beat(d, server, url, now)), server, url, items, now);
    SyncConverges(d, server, url, items, now);
    AcceptedRowHolds(d, SyncDirectory(d, server, url, items, now).after, server, url, items[p], now, id);
  }

  lemma RowHolds(d: Directory, server: ServerId, url: Url, items: seq<RoomIn>, now: Time, id: RowId)
    requires Sound(d) && WellFormed(items)
    requires forall p | 0 <= p < |items| :: !Breaks(d, items, p)
    requires id in SyncDirectory(d, server, url, items, now).after.members
    ensures RowKept(SyncDirectory(d, server, url, items, now).after, id)
  {
    var code := SyncDirectory(d, server, url, items, now).after.members[id].room;
    if code in PayloadCodes(items) && !Gone(d, code) {
      var p :| 0 <= p < |items| && items[p].code != "" && items[p].code == code;
      assert !Breaks(d, items, p);
      AcceptedItemRowKept(d, server, url, items, now, p, id);
    } else {
      RowOutsideAccepted(d, server, url, items, now, id);
    }
  }

  /** The exact condition under which a sync keeps rows open exactly when live and ended
      rooms empty: every item it accepts keeps its roster. */
  lemma SyncKeepsRostersIff(d: Directory, server: ServerId, url: Url, items: seq<RoomIn>, now: Time)
    requires Sound(d) && WellFormed(items)
    ensures RostersHold(SyncDirectory(d, server, url, items, now).after) <==>
            forall p | 0 <= p < |items| :: !Breaks(d, items, p)
  {
    var after := SyncDirectory(d, server, url, items, now).after;
    if p :| 0 <= p < |items| && Breaks(d, items, p) {
      SyncConverges(d, server, url, items, now);
      assert ItemSettled(d, after, server, url, items[p], now);
      BrokenItemBreaksRoster(after, items[p]);
    } else {
      forall id | id in after.members
        ensures Open(after.members[id]) <==> Live(after.members[id].status)
        ensures Open(after.members[id]) && after.members[id].room in after.rooms ==>
            after.rooms[after.members[id].room].status != Ended
      {
        RowHolds(d, server, url, items, now, id);
        assert RowKept(after, id);
      }
    }
  }

  /** A payload that lists a member who already left does break it: one room, one entry, from the empty directory. */
  lemma DepartedEntryBreaksRoster()
    ensures var config := Parsed(Config(false, Absent, [], true));
            var item := RoomIn("ABCDEF", "owner", Lobby, Public, None, config, "",
                [MemberIn("guest", Player, Some(0), Departed, 1)]);
            !RostersHold(SyncDirectory(EMPTY, "gs", "", [item], 0).after)
  {
    var config := Parsed(Config(false, Absent, [], true));
    var item := RoomIn("ABCDEF", "owner", Lobby, Public, None, config, "",
        [MemberIn("guest", Player, Some(0), Departed, 1)]);
    assert !KeepsRoster(item) by {
      assert !Live(item.members[0].status);
    }
    assert WellFormed([item]);
    SyncKeepsRostersIff(EMPTY, "gs", "", [item], 0);
    assert Breaks(EMPTY, [item], 0);
  }

  // ------------------------------------------------------------- idempotence

  ghost predicate SameRoomsButTimes(a: map<Code, Room>, b: map<Code, Room>) {
    a.Keys == b.Keys && forall c | c in a :: a[c] == b[c].(updatedAt := a[c].updatedAt)
  }

  /** The room already says what the item would make it say. */
  ghost predicate RoomSettled(room: Room, server: ServerId, url: Url, item: RoomIn) {
    && room.owner == item.owner && room.server == Some(server) && room.status == item.status
    && room.policy == item.policy && room.config == item.config
    && (item.passwordHash.Some? ==> room.passwordHash == item.passwordHash)
    && (item.passwordHash.None? && item.policy != Password ==> room.passwordHash == None)
    && room.wsUrl == OrElse(item.wsUrl, OrElse(url, room.wsUrl))
  }

  lemma SettledRosterAbsorbs(members: map<RowId, Member>, code: Code, entries: seq<MemberIn>, base: RowId, now: Time)
    requires forall i | i in members :: i < base
    requires DistinctMembers(entries) && RosterSettled(members, code, entries)
    ensures SyncedRows(members, code, entries, base, now) == members
  {
    var after := SyncedRows(members, code, entries, base, now);
    SyncedRowsAre(members, code, entries, base, now);
    forall id | id in members && OpenIn(members[id], code) ensures UpdatedRow(members[id], entries) == members[id] {
      assert RowSettled(members[id], entries);
      RaisedToTheMaximum(entries, members[id].user, members[id].generation);
    }
    forall id | id in after ensures id in members && after[id] == members[id] {
    }
  }

  /** Everything the payload names is already as the payload says. */
  ghost predicate Settled(d: Directory, server: ServerId, url: Url, items: seq<RoomIn>) {
    forall p | 0 <= p < |items| && items[p].code != "" && !Gone(d, items[p].code) ::
      && items[p].code in d.rooms
      && RoomSettled(d.rooms[items[p].code], server, url, items[p])
      && RosterSettled(d.members, items[p].code, items[p].members)
  }

  lemma {:induction false} SettledItemsAbsorb(d: Directory, server: ServerId, url: Url, items: seq<RoomIn>, now: Time)
    requires Consistent(d) && WellFormed(items) && Settled(d, server, url, items)
    ensures var done := SyncItems(d, server, url, items, now);
      && done.Some?
      && done.value.dir.members == d.members
      && SameRoomsButTimes(done.value.dir.rooms, d.rooms)
      && done.value.dir.tombstones == d.tombstones && done.value.dir.issued == d.issued
          && done.value.dir.servers == d.servers
      && done.value.dir.nextRow >= d.nextRow
  {
    if items != [] {
      var prefix := items[..|items| - 1];
      var item := items[|items| - 1];
      PrefixWellFormed(items);
      assert forall p | 0 <= p < |prefix| :: prefix[p] == items[p];
      SettledItemsAbsorb(d, server, url, prefix, now);
      var before := SyncItems(d, server, url, prefix, now).value.dir;
      if item.code != "" && !Gone(d, item.code) {
        SettledRosterAbsorbs(before.members, item.code, item.members, before.nextRow, now);
      }
    }
  }

  lemma SyncLeavesSettled(d: Directory, server: ServerId, url: Url, items: seq<RoomIn>, now: Time)
    requires Sound(d) && WellFormed(items) && LiveItems(items)
    ensures Settled(SyncDirectory(d, server, url, items, now).after, server, url, items)
    ensures forall p | 0 <= p < |items| && items[p].code != "" ::
      Gone(SyncDirectory(d, server, url, items, now).after, items[p].code) == Gone(d, items[p].code)
  {
    SyncConverges(d, server, url, items, now);
    var after := SyncDirectory(d, server, url, items, now).after;
    SyncItemsCommit(d.(servers := Beat(d, server, url, now)), server, url, items, now);
    forall p | 0 <= p < |items| && items[p].code != ""
      ensures Gone(after, items[p].code) == Gone(d, items[p].code)
    {
      if Gone(d, items[p].code) {
        SyncKeepsGone(d, server, url, items, now, items[p].code);
      } else {
        assert ItemSettled(d, after, server, url, items[p], now);
        assert LiveItem(items[p]);
      }
    }
    forall p | 0 <= p < |items| && items[p].code != "" && !Gone(after, items[p].code)
      ensures items[p].code in after.rooms && RoomSettled(after.rooms[items[p].code], server, url, items[p])
      ensures RosterSettled(after.members, items[p].code, items[p].members)
    {
      assert ItemSettled(d, after, server, url, items[p], now);
    }
  }

  /** Equal but for the rooms' and the servers' timestamps. */
  ghost predicate SameButTimes(a: Directory, b: Directory) {
    && a.members == b.members && a.tombstones == b.tombstones && a.issued == b.issued
    && SameRoomsButTimes(a.rooms, b.rooms)
    && a.servers.Keys == b.servers.Keys
    && forall s | s in a.servers :: a.servers[s].wsUrl == b.servers[s].wsUrl
  }

  lemma SettledSyncAbsorbs(d: Directory, server: ServerId, url: Url, items: seq<RoomIn>, now: Time)
    requires Consistent(d) && WellFormed(items) && Settled(d, server, url, items)
    requires ActiveRooms(d, server) <= PayloadCodes(items)
    requires server in d.servers && d.servers[server].wsUrl == OrElse(url, d.servers[server].wsUrl)
    ensures var o := SyncDirectory(d, server, url, items, now);
      && o.reply == Synced(AcceptedCodes(d, items), SkippedCodes(d, items))
      && SameButTimes(o.after, d)
  {
    var beaten := d.(servers := Beat(d, server, url, now));
    SettledItemsAbsorb(beaten, server, url, items, now);
    SyncItemsAnswer(beaten, server, url, items, now);
    SameAnswers(d, beaten, items);
    var done := SyncItems(beaten, server, url, items, now).value.dir;
    assert Stale(done.rooms, server, PayloadCodes(items)) == {} by {
      forall c | c in done.rooms && done.rooms[c].server == Some(server) && ActiveStatus(done.rooms[c].status)
        ensures c in PayloadCodes(items)
      {
        assert c in ActiveRooms(d, server);
      }
    }
    assert CloseRows(done.members, {}, now, RoomEnded) == done.members;
  }

  /** Main result: repeating a sync changes nothing but timestamps, and answers the same. */
  lemma SyncIsIdempotent(d: Directory, server: ServerId, url: Url, items: seq<RoomIn>, now: Time, later: Time)
    requires Sound(d) && WellFormed(items) && LiveItems(items)
    ensures var once := SyncDirectory(d, server, url, items, now);
            var twice := SyncDirectory(once.after, server, url, items, later);
            twice.reply == once.reply && SameButTimes(twice.after, once.after)
  {
    var once := SyncDirectory(d, server, url, items, now);
    SyncConverges(d, server, url, items, now);
    SyncLeavesSettled(d, server, url, items, now);
    SyncKeepsServers(d, server, url, items, now);
    SyncSound(d, server, url, items, now);
    SettledSyncAbsorbs(once.after, server, url, items, later);
    AnswersByGone(once.after, d, items);
  }

  lemma SyncKeepsServers(d: Directory, server: ServerId, url: Url, items: seq<RoomIn>, now: Time)
    requires Consistent(d) && WellFormed(items)
    ensures SyncDirectory(d, server, url, items, now).after.servers == Beat(d, server, url, now)
  {
    SyncItemsCommit(d.(servers := Beat(d, server, url, now)), server, url, items, now);
  }

  lemma {:induction false} AnswersByGone(d: Directory, e: Directory, items: seq<RoomIn>)
    requires forall p | 0 <= p < |items| && items[p].code != "" :: Gone(d, items[p].code) == Gone(e, items[p].code)
    ensures AcceptedCodes(d, items) == AcceptedCodes(e, items) && SkippedCodes(d, items) == SkippedCodes(e, items)
  {
    if items != [] {
      var prefix := items[..|items| - 1];
      assert forall p | 0 <= p < |prefix| :: prefix[p] == items[p];
      AnswersByGone(d, e, prefix);
    }
  }
}
