/**
  Safety of the directory over every interleaving of its writers
  (backend/app/rooms.py, backend/app/internal.py, backend/app/admin.py).
 */
module RoomRuns {
  import opened Prelude
  import opened RoomModel
  import opened RoomHandlers

  // ------------------------------------------------------------ invariant

  ghost predicate OpenExactlyWhenLive(members: map<RowId, Member>) {
    forall id | id in members :: Open(members[id]) <==> Live(members[id].status)
  }

  ghost predicate EndedRoomsEmpty(d: Directory) {
    forall id | id in d.members && Open(d.members[id]) && d.members[id].room in d.rooms ::
      d.rooms[d.members[id].room].status != Ended
  }

  ghost predicate TombstonesHold(d: Directory) {
    d.tombstones !! d.rooms.Keys
  }

  ghost predicate ConfigsParse(rooms: map<Code, Room>) {
    forall c | c in rooms :: rooms[c].config.Parsed?
  }

  /** Every row is past each generation already handed out for it. */
  ghost predicate Fenced(members: map<RowId, Member>, issued: seq<Grant>) {
    forall k | 0 <= k < |issued| && issued[k].row in members ::
      members[issued[k].row].generation > issued[k].generation
  }

  /** Later tokens of a row carry larger generations. */
  ghost predicate TokensIncrease(issued: seq<Grant>) {
    forall i, j | 0 <= i < j < |issued| && issued[i].row == issued[j].row ::
      issued[i].generation < issued[j].generation
  }

  ghost predicate Sound(d: Directory) {
    && Consistent(d)
    && "" !in d.rooms
    && OpenExactlyWhenLive(d.members)
    && EndedRoomsEmpty(d)
    && TombstonesHold(d)
    && ConfigsParse(d.rooms)
    && Fenced(d.members, d.issued)
    && TokensIncrease(d.issued)
  }

  // ----------------------------------------------------------------- runs

  datatype Action =
    | Create(code: Code, user: UserId, config: ConfigText, passwordHash: Option<string>, env: Env)
    | Join(code: Code, user: UserId, passwordOk: bool, env: Env)
    | Resume(code: Code, user: UserId, env: Env)
    | Spectate(code: Code, user: UserId, env: Env)
    | Beats(server: ServerId, url: Url, reported: seq<Code>, now: Time)
    | Sync(server: ServerId, url: Url, items: seq<RoomIn>, now: Time)
    | End(codes: set<Code>, now: Time)
    | Delete(codes: set<Code>)
    | DeleteUsers(users: set<UserId>)

  /** A synced item neither ends its room nor lists members that already left. */
  predicate LiveItem(item: RoomIn) {
    item.status != Ended && forall k | 0 <= k < |item.members| :: Live(item.members[k].status)
  }

  /** What the surroundings owe the backend: a truthful server query, a drawn
      nonblank room code nobody deleted, and game servers that sync live rooms only. */
  ghost predicate Admissible(d: Directory, a: Action) {
    match a
    case Create(code, _, _, _, env) => ValidEnv(d, env) && code != "" && code !in d.tombstones
    case Join(_, _, _, env) => ValidEnv(d, env)
    case Resume(_, _, env) => ValidEnv(d, env)
    case Spectate(_, _, env) => ValidEnv(d, env)
    case Sync(_, _, items, _) => forall i | 0 <= i < |items| :: LiveItem(items[i])
    case _ => true
  }

  ghost function Step(d: Directory, a: Action): Directory
    requires Consistent(d) && Admissible(d, a)
  {
    match a
    case Create(code, user, config, hash, env) => CreateRoom(d, code, user, config, hash, env).after
    case Join(code, user, ok, env) => JoinRoom(d, code, user, ok, env).after
    case Resume(code, user, env) => ResumeRoom(d, code, user, env).after
    case Spectate(code, user, env) => SpectateRoom(d, code, user, env).after
    case Beats(server, url, codes, now) => Heartbeat(d, server, url, codes, now)
    case Sync(server, url, items, now) => SyncDirectory(d, server, url, items, now).after
    case End(codes, now) => EndByCodes(d, codes, now)
    case Delete(codes) => DeleteByCodes(d, codes)
    case DeleteUsers(users) => DropUsers(d, users)
  }

  /** trace lists the states of a run, each the step of the one before. */
  ghost predicate IsRun(trace: seq<Directory>, actions: seq<Action>) {
    && |trace| == |actions| + 1
    && Sound(trace[0])
    && forall k | 0 <= k < |actions| ::
         Consistent(trace[k]) ==> Admissible(trace[k], actions[k]) && trace[k + 1] == Step(trace[k], actions[k])
  }

  const EMPTY: Directory := Directory(map[], map[], {}, map[], 0, [])

  /** Runs can start from the empty directory. */
  lemma EmptyIsSound()
    ensures Sound(EMPTY)
  {
  }

  // ----------------------------------------------- writes keep the invariant

  lemma RetargetSound(d: Directory, code: Code, env: Env)
    requires Sound(d) && code in d.rooms && ValidEnv(d, env)
    ensures Sound(d.(rooms := d.rooms[code := ResolveTarget(d.servers, d.rooms[code], env).room]))
  {
  }

  lemma IssueSound(d: Directory, id: RowId)
    requires Sound(d) && id in d.members
    ensures Sound(Issue(d, id))
  {
    var after := Issue(d, id);
    forall i, j | 0 <= i < j < |after.issued| && after.issued[i].row == after.issued[j].row
      ensures after.issued[i].generation < after.issued[j].generation
    {
      if j == |d.issued| {
        assert after.issued[i] == d.issued[i];
      }
    }
    forall k | 0 <= k < |after.issued| && after.issued[k].row in after.members
      ensures after.members[after.issued[k].row].generation > after.issued[k].generation
    {
      if k < |d.issued| {
        assert after.issued[k] == d.issued[k];
      }
    }
    ShrinkingStaysUnique(d.members, after.members);
  }

  /** A fresh live row of a room that has not ended. */
  lemma InsertSound(d: Directory, member: Member)
    requires Sound(d)
    requires member.room in d.rooms && d.rooms[member.room].status != Ended
    requires Open(member) && Live(member.status)
    requires UniqueOpenRows(Insert(d, member).members)
    ensures Sound(Insert(d, member))
  {
  }

  /** Seating an unseated row on a seat no other open row of the room has. */
  lemma ReseatSound(d: Directory, id: RowId, config: Config)
    requires Sound(d) && id in d.members && Open(d.members[id])
    ensures Sound(Reseat(d, id, config))
  {
    var after := Reseat(d, id, config);
    var m := d.members[id];
    if after != d {
      var taken := OccupiedSeats(d.members, m.room, Some(m.user));
      assert after.members[id].seat.value !in taken;
      forall i | i in d.members && i != id && Open(d.members[i]) && d.members[i].room == m.room
        ensures d.members[i].user != m.user
        ensures d.members[i].seat != after.members[id].seat
      {
        assert Apart(d.members, i, id);
        if d.members[i].seat.Some? {
          assert d.members[i].seat.value in taken;
        }
      }
      PuttingStaysUnique(d.members, id, after.members[id]);
    }
  }

  lemma CollectSound(d: Directory, codes: set<Code>, now: Time)
    requires Sound(d)
    ensures Sound(d.(rooms := EndRooms(d.rooms, codes, now), members := CloseRows(d.members, codes, now, RoomEnded)))
  {
    ShrinkingStaysUnique(d.members, CloseRows(d.members, codes, now, RoomEnded));
  }

  // ------------------------------------------------------- handlers keep it

  /** The row a join inserts never breaks a unique index: the except branch is dead. */
  lemma JoinRowFits(d: Directory, code: Code, user: UserId, config: Config, desired: int)
    requires Sound(d)
    requires ActiveRow(d.members, code, user).None?
    requires ChooseSeat(d.members, code, config, desired, user).Chosen?
    ensures UniqueOpenRows(Insert(d, NewRow(code, user, Player,
        ChooseSeat(d.members, code, config, desired, user).seat)).members)
  {
    var taken := OccupiedSeats(d.members, code, None);
    var seat := ChooseSeat(d.members, code, config, desired, user).seat;
    assert seat.Some? ==> seat.value !in taken;
    forall i | i in d.members && Open(d.members[i]) && d.members[i].room == code
      ensures d.members[i].user != user
      ensures d.members[i].seat.None? || d.members[i].seat != seat
    {
      assert !IsActiveRow(d.members, i, code, user);
      if d.members[i].seat.Some? {
        assert d.members[i].seat.value in taken;
      }
    }
    PuttingStaysUnique(d.members, d.nextRow, NewRow(code, user, Player, seat));
  }

  /** Issue changes no room, user or seat, so the indexes see the same rows. */
  lemma IssueUnique(d: Directory, id: RowId)
    requires id in d.members && UniqueOpenRows(d.members)
    ensures UniqueOpenRows(Issue(d, id).members)
  {
    ShrinkingStaysUnique(d.members, Issue(d, id).members);
  }

  lemma JoinAsNewSound(d: Directory, target: Directory, url: Url, code: Code, user: UserId, config: Config)
    requires Sound(d) && Sound(target) && target.members == d.members && target.nextRow == d.nextRow
    requires code in target.rooms && ActiveRow(d.members, code, user).None?
    ensures Sound(JoinAsNew(d, target, url, code, user, config).after)
    ensures JoinAsNew(d, target, url, code, user, config).reply != Refused(Conflict)
  {
    var desired := AsInt(config.desired);
    if target.rooms[code].status == Lobby && desired.Some? {
      var choice := ChooseSeat(d.members, code, config, desired.value, user);
      if choice.Chosen? {
        JoinRowFits(target, code, user, config, desired.value);
        var added := Insert(target, NewRow(code, user, Player, choice.seat));
        InsertSound(target, NewRow(code, user, Player, choice.seat));
        IssueUnique(added, target.nextRow);
        IssueSound(added, target.nextRow);
      }
    }
  }

  lemma JoinAtSound(d: Directory, target: Directory, url: Url, code: Code, user: UserId, config: Config)
    requires Sound(d) && Sound(target) && target.members == d.members && target.nextRow == d.nextRow
    requires code in target.rooms
    ensures Sound(JoinAt(d, target, url, code, user, config).after)
    ensures JoinAt(d, target, url, code, user, config).reply != Refused(Conflict)
    ensures JoinAt(d, target, url, code, user, config).reply != Refused(BadConfig)
  {
    match ActiveRow(d.members, code, user)
    case None =>
      JoinAsNewSound(d, target, url, code, user, config);
    case Some(id) =>
      ReseatSound(target, id, config);
      var seated := Reseat(target, id, config);
      IssueUnique(seated, id);
      IssueSound(seated, id);
  }

  /** Join keeps the invariant and never ends in an integrity error. */
  lemma JoinSound(d: Directory, code: Code, user: UserId, passwordOk: bool, env: Env)
    requires Sound(d) && ValidEnv(d, env)
    ensures Sound(JoinRoom(d, code, user, passwordOk, env).after)
    ensures JoinRoom(d, code, user, passwordOk, env).reply != Refused(Conflict)
    ensures JoinRoom(d, code, user, passwordOk, env).reply != Refused(BadConfig)
  {
    if code in d.rooms && d.rooms[code].status != Pending && d.rooms[code].status != Ended {
      var Target(moved, url) := ResolveTarget(d.servers, d.rooms[code], env);
      RetargetSound(d, code, env);
      JoinAtSound(d, d.(rooms := d.rooms[code := moved]), url, code, user, d.rooms[code].config.config);
    }
  }

  lemma ResumeAtSound(d: Directory, target: Directory, url: Url, code: Code, user: UserId, config: Config)
    requires Sound(d) && Sound(target) && target.members == d.members && code in target.rooms
    ensures Sound(ResumeAt(d, target, url, code, user, config).after)
    ensures ResumeAt(d, target, url, code, user, config).reply != Refused(Conflict)
    ensures ResumeAt(d, target, url, code, user, config).reply != Refused(BadConfig)
  {
    var known := ActiveRow(d.members, code, user);
    if known.Some? {
      ReseatSound(target, known.value, config);
      IssueUnique(Reseat(target, known.value, config), known.value);
      IssueSound(Reseat(target, known.value, config), known.value);
    }
  }

  lemma ResumeSound(d: Directory, code: Code, user: UserId, env: Env)
    requires Sound(d) && ValidEnv(d, env)
    ensures Sound(ResumeRoom(d, code, user, env).after)
    ensures ResumeRoom(d, code, user, env).reply != Refused(Conflict)
    ensures ResumeRoom(d, code, user, env).reply != Refused(BadConfig)
  {
    if code in d.rooms && d.rooms[code].status != Ended {
      var Target(moved, url) := ResolveTarget(d.servers, d.rooms[code], env);
      RetargetSound(d, code, env);
      ResumeAtSound(d, d.(rooms := d.rooms[code := moved]), url, code, user, d.rooms[code].config.config);
    }
  }

  lemma SpectateSound(d: Directory, code: Code, user: UserId, env: Env)
    requires Sound(d) && ValidEnv(d, env)
    ensures Sound(SpectateRoom(d, code, user, env).after)
    ensures SpectateRoom(d, code, user, env).reply != Refused(Conflict)
    ensures SpectateRoom(d, code, user, env).reply != Refused(BadConfig)
  {
    if code in d.rooms && d.rooms[code].status != Pending && d.rooms[code].status != Ended {
      var target := d.(rooms := d.rooms[code := ResolveTarget(d.servers, d.rooms[code], env).room]);
      RetargetSound(d, code, env);
      if ActiveRow(d.members, code, user).None? {
        forall i | i in d.members && Open(d.members[i]) && d.members[i].room == code
          ensures d.members[i].user != user
        {
          assert !IsActiveRow(d.members, i, code, user);
        }
        PuttingStaysUnique(d.members, d.nextRow, NewRow(code, user, Spectator, None));
        InsertSound(target, NewRow(code, user, Spectator, None));
      }
    }
  }

  lemma CreateSound(d: Directory, code: Code, user: UserId, config: ConfigText, hash: Option<string>, env: Env)
    requires Sound(d) && ValidEnv(d, env)
    requires code != "" && code !in d.tombstones
    ensures Sound(CreateRoom(d, code, user, config, hash, env).after)
    ensures CreateRoom(d, code, user, config, hash, env).reply == Refused(Conflict) <==>
        config.Parsed? && code in d.rooms
  {
    if config.Parsed? && code !in d.rooms {
      var url := OrElse(if env.latest.Some? then d.servers[env.latest.value].wsUrl else "", env.fallback);
      var room := Room(user, env.latest, Pending, if hash.Some? then Password else Public, hash, config, url, env.now);
      var roomed := d.(rooms := d.rooms[code := room]);
      assert Sound(roomed);
      var seat := if config.config.resume then ResumeSeat(config.config, user, {}) else Some(0);
      PuttingStaysUnique(d.members, d.nextRow, NewRow(code, user, Host, seat));
      InsertSound(roomed, NewRow(code, user, Host, seat));
      IssueUnique(Insert(roomed, NewRow(code, user, Host, seat)), d.nextRow);
      IssueSound(Insert(roomed, NewRow(code, user, Host, seat)), d.nextRow);
    }
  }

  lemma HeartbeatSound(d: Directory, server: ServerId, url: Url, codes: seq<Code>, now: Time)
    requires Sound(d)
    ensures Sound(Heartbeat(d, server, url, codes, now))
  {
    var claimed := d.(servers := Beat(d, server, url, now), rooms := ClaimRooms(d, server, url, Reported(codes), now));
    assert Sound(claimed);
    CollectSound(claimed, Stale(claimed.rooms, server, Reported(codes)), now);
  }

  /** What one row of the room's roster is after a sync item: kept, updated, closed or entered. */
  lemma SyncedRowIs(members: map<RowId, Member>, code: Code, entries: seq<MemberIn>, base: RowId, now: Time, id: RowId)
    requires forall i | i in members :: i < base
    requires id in SyncedRows(members, code, entries, base, now)
    ensures var row := SyncedRows(members, code, entries, base, now)[id];
            if id in members then
              row == if !OpenIn(members[id], code) then members[id]
                     else if Names(entries, members[id].user) then UpdatedRow(members[id], entries)
                     else CloseRow(members[id], now, Departed)
            else
              base <= id < base + |entries| && entries[id - base].user != ""
                  && row == EnteredRow(code, entries[id - base])
  {
  }

  lemma AcceptItemSound(d: Directory, server: ServerId, url: Url, item: RoomIn, now: Time)
    requires Sound(d) && item.code != "" && !Gone(d, item.code) && LiveItem(item) && item.config.Parsed?
    requires UniqueOpenRows(AcceptItem(d, server, url, item, now).members)
    ensures Sound(AcceptItem(d, server, url, item, now))
  {
    var after := AcceptItem(d, server, url, item, now);
    forall id | id in after.members
      ensures id < after.nextRow && after.members[id].room in after.rooms
      ensures Open(after.members[id]) <==> Live(after.members[id].status)
      ensures Open(after.members[id]) ==> after.rooms[after.members[id].room].status != Ended
    {
    }
    forall k | 0 <= k < |after.issued| && after.issued[k].row in after.members
      ensures after.members[after.issued[k].row].generation > after.issued[k].generation
    {
      var id := after.issued[k].row;
      if id in d.members {
      } else {
        SyncedRowIs(d.members, item.code, item.members, d.nextRow, now, id);
      }
    }
    assert Consistent(after);
  }

  lemma {:induction false} SyncItemsSound(d: Directory, server: ServerId, url: Url, items: seq<RoomIn>, now: Time)
    requires Sound(d)
    requires forall i | 0 <= i < |items| :: LiveItem(items[i]) && items[i].config.Parsed?
    ensures var done := SyncItems(d, server, url, items, now); done.Some? ==> Sound(done.value.dir)
  {
    if items != [] {
      var prefix := items[..|items| - 1];
      var item := items[|items| - 1];
      SyncItemsSound(d, server, url, prefix, now);
      var before := SyncItems(d, server, url, prefix, now);
      if before.Some? && SyncItems(d, server, url, items, now).Some? && item.code != ""
          && !Gone(before.value.dir, item.code) {
        AcceptItemSound(before.value.dir, server, url, item, now);
      }
    }
  }

  lemma SyncSound(d: Directory, server: ServerId, url: Url, items: seq<RoomIn>, now: Time)
    requires Sound(d)
    requires forall i | 0 <= i < |items| :: LiveItem(items[i])
    ensures Sound(SyncDirectory(d, server, url, items, now).after)
  {
    if ConfigsReadable(items) {
      var beaten := d.(servers := Beat(d, server, url, now));
      SyncItemsSound(beaten, server, url, items, now);
      var done := SyncItems(beaten, server, url, items, now);
      if done.Some? {
        CollectSound(done.value.dir, Stale(done.value.dir.rooms, server, PayloadCodes(items)), now);
      }
    }
  }

  lemma EndSound(d: Directory, codes: set<Code>, now: Time)
    requires Sound(d)
    ensures Sound(EndByCodes(d, codes, now))
  {
    ShrinkingStaysUnique(d.members, EndByCodes(d, codes, now).members);
  }

  lemma DeleteSound(d: Directory, codes: set<Code>)
    requires Sound(d)
    ensures Sound(DeleteByCodes(d, codes))
  {
    ShrinkingStaysUnique(d.members, DeleteByCodes(d, codes).members);
  }

  lemma DropUsersSound(d: Directory, users: set<UserId>)
    requires Sound(d)
    ensures Sound(DropUsers(d, users))
  {
    DeleteSound(d, OwnedCodes(d, users));
    ShrinkingStaysUnique(DeleteByCodes(d, OwnedCodes(d, users)).members, DropUsers(d, users).members);
  }

  lemma StepSound(d: Directory, a: Action)
    requires Sound(d) && Admissible(d, a)
    ensures Sound(Step(d, a))
  {
    match a
    case Create(code, user, config, hash, env) => CreateSound(d, code, user, config, hash, env);
    case Join(code, user, ok, env) => JoinSound(d, code, user, ok, env);
    case Resume(code, user, env) => ResumeSound(d, code, user, env);
    case Spectate(code, user, env) => SpectateSound(d, code, user, env);
    case Beats(server, url, codes, now) => HeartbeatSound(d, server, url, codes, now);
    case Sync(server, url, items, now) => SyncSound(d, server, url, items, now);
    case End(codes, now) => EndSound(d, codes, now);
    case Delete(codes) => DeleteSound(d, codes);
    case DeleteUsers(users) => DropUsersSound(d, users);
  }

  lemma {:induction false} RunStaysSound(trace: seq<Directory>, actions: seq<Action>, k: nat)
    requires IsRun(trace, actions) && k < |trace|
    ensures Sound(trace[k])
  {
    if k > 0 {
      RunStaysSound(trace, actions, k - 1);
      StepSound(trace[k - 1], actions[k - 1]);
    }
  }

  /** What one step of a run is. */
  lemma RunSteps(trace: seq<Directory>, actions: seq<Action>, k: nat)
    requires IsRun(trace, actions) && k < |actions|
    ensures Sound(trace[k]) && Admissible(trace[k], actions[k]) && trace[k + 1] == Step(trace[k], actions[k])
  {
    RunStaysSound(trace, actions, k);
  }

  /** Main result, in every state of every run: a room has one open row per user and per seat,
      a row is open exactly when it is live, ended rooms are empty, deleted codes have no room;
      tokens of a row increase, and the row is past all of them. */
  lemma RunsAreSound(trace: seq<Directory>, actions: seq<Action>, k: nat)
    requires IsRun(trace, actions) && k < |trace|
    ensures Sound(trace[k])
    ensures forall i, j | i in trace[k].members && j in trace[k].members && i != j :: Apart(trace[k].members, i, j)
    ensures forall id | id in trace[k].members ::
      var row := trace[k].members[id];
      && row.room in trace[k].rooms && row.room !in trace[k].tombstones
      && (Open(row) <==> Live(row.status))
      && (Open(row) ==> trace[k].rooms[row.room].status != Ended)
    ensures forall n | 0 <= n < |trace[k].issued| && trace[k].issued[n].row in trace[k].members ::
      trace[k].issued[n].generation < trace[k].members[trace[k].issued[n].row].generation
  {
    RunStaysSound(trace, actions, k);
  }
}
