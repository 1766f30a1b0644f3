/**
  What each directory handler answers, and what it leaves behind, in terms of the state before
  and the request alone (backend/app/rooms.py, backend/app/internal.py, backend/app/admin.py).
 */
module RoomOutcomes {
  import opened Prelude
  import opened RoomModel
  import opened RoomHandlers
  import opened RoomRuns
  import opened SeatAllocation
  import opened DirectorySync
  import RoomSafety

  // ------------------------------------------------------------ who is there

  /** A row by which the user is in the room: not left, and neither left nor ended in status. */
  predicate InRoom(d: Directory, id: RowId, code: Code, user: UserId) {
    && id in d.members && d.members[id].room == code && d.members[id].user == user && d.members[id].leftAt == None
    && d.members[id].status != Departed && d.members[id].status != RoomEnded
  }

  ghost predicate IsNewcomer(d: Directory, code: Code, user: UserId) {
    forall id :: !InRoom(d, id, code, user)
  }

  /** Some row of the room that has not left holds the seat, rows of one user aside. */
  ghost predicate SeatHeld(members: map<RowId, Member>, code: Code, except: Option<UserId>, seat: int) {
    exists id :: id in members && members[id].room == code && members[id].leftAt == None
      && members[id].seat == Some(seat) && Some(members[id].user) != except
  }

  lemma OccupiedSeatsAre(members: map<RowId, Member>, code: Code, except: Option<UserId>)
    ensures forall seat :: seat in OccupiedSeats(members, code, except) <==> SeatHeld(members, code, except, seat)
  {
    forall seat | SeatHeld(members, code, except, seat) ensures seat in OccupiedSeats(members, code, except) {
      var id :| id in members && members[id].room == code && members[id].leftAt == None
        && members[id].seat == Some(seat) && Some(members[id].user) != except;
      assert members[id].seat.value == seat;
    }
  }

  lemma ParticipantsAre(members: map<RowId, Member>, code: Code)
    ensures forall id :: id in Participants(members, code) <==>
      && id in members && members[id].room == code && members[id].leftAt == None
      && (members[id].role == Host || members[id].role == Player)
      && members[id].status != Departed && members[id].status != RoomEnded
  {
  }

  lemma ActiveRowIsInRoom(d: Directory, code: Code, user: UserId)
    requires UniqueOpenRows(d.members)
    ensures ActiveRow(d.members, code, user).Some? ==> InRoom(d, ActiveRow(d.members, code, user).value, code, user)
    ensures forall id: RowId | InRoom(d, id, code, user) :: ActiveRow(d.members, code, user) == Some(id)
  {
    var found := ActiveRow(d.members, code, user);
    forall id: RowId | InRoom(d, id, code, user) ensures found == Some(id) {
      assert IsActiveRow(d.members, id, code, user);
      assert found.value == id || Apart(d.members, found.value, id);
    }
  }

  // ------------------------------------------------------------ where to play

  /** The room's own server can serve it. */
  predicate ServerIsUp(d: Directory, room: Room, now: Time) {
    && room.server.Some? && room.server.value != "" && room.server.value in d.servers
    && d.servers[room.server.value].lastHeartbeat >= now - 75
  }

  /** The room that stays where it is: active rooms with a server, and any room while no server is healthy. */
  predicate StaysPut(d: Directory, room: Room, env: Env) {
    (room.server.Some? && room.server.value != "" && room.status != Pending) || env.latest.None?
  }

  /** Where the room is after a client asked for its address, and the address it got. Of a room only
      its server, its address and its time may change, and the time only with them. */
  ghost predicate Directed(d: Directory, room: Room, after: Room, url: Url, env: Env) {
    && after == room.(server := after.server, wsUrl := after.wsUrl, updatedAt := after.updatedAt)
    && after.updatedAt == (if after.server == room.server && after.wsUrl == room.wsUrl then room.updatedAt else env.now)
    && (if ServerIsUp(d, room, env.now) then
          var advertised := d.servers[room.server.value].wsUrl;
          after.server == room.server && after.wsUrl == if advertised != "" then advertised else room.wsUrl
        else if StaysPut(d, room, env) then after == room
        else
          var chosen := env.latest.value;
          && chosen in d.servers && after.server == env.latest
          && after.wsUrl == if d.servers[chosen].wsUrl != "" then d.servers[chosen].wsUrl
                            else if room.wsUrl != "" then room.wsUrl else env.fallback)
    && url == if after.wsUrl != "" then after.wsUrl else env.fallback
  }

  lemma TargetIsDirected(d: Directory, room: Room, env: Env)
    requires env.latest.Some? ==> env.latest.value in d.servers
    ensures var target := ResolveTarget(d.servers, room, env); Directed(d, room, target.room, target.url, env)
  {
  }

  // ------------------------------------------------------------------- tokens

  /** The row's next token: its generation, at least 1; the configuration of a resumed game; and the
      room's policy and hash for the host. */
  ghost predicate TokenOf(token: Token, row: Member, room: Room, before: int) {
    && token.user == row.user && token.room == row.room && token.role == row.role && token.seat == row.seat
    && token.generation == Some(if before < 1 then 1 else before)
    && row.generation == token.generation.value + 1
    && token.access == (if row.role == Host then Some(HostAccess(room.policy, room.passwordHash)) else None)
  }

  ghost predicate CarriesResumedConfig(token: Token, room: Room) {
    token.config == if room.config.Parsed? && room.config.config.resume then Some(room.config) else None
  }

  /** All that a client's step touched: one row, one room, and the record of grants. */
  ghost predicate OnlyTouched(d: Directory, after: Directory, code: Code, id: RowId) {
    && after.rooms.Keys == d.rooms.Keys + {code}
    && (forall c | c in d.rooms && c != code :: after.rooms[c] == d.rooms[c])
    && after.members.Keys == d.members.Keys + {id}
    && (forall i | i in d.members && i != id :: after.members[i] == d.members[i])
    && after.tombstones == d.tombstones && after.servers == d.servers
  }

  /** A row the user had: seated in a resumed game if it had no seat, otherwise only its generation moved. */
  ghost predicate RowReturns(d: Directory, after: Directory, id: RowId, config: Config)
    requires id in d.members && id in after.members
  {
    var was, row := d.members[id], after.members[id];
    && row == was.(seat := row.seat, generation := row.generation)
    && (if !config.resume || was.seat.Some? then row.seat == was.seat
        else exists taken :: (forall s :: s in taken <==> SeatHeld(d.members, was.room, Some(was.user), s))
               && SeatGiven(config, was.user, taken, row.seat))
  }

  lemma ReseatReturns(d: Directory, target: Directory, id: RowId, config: Config)
    requires target.members == d.members && id in d.members
    ensures var seated := Reseat(target, id, config);
      && seated == target.(members := d.members[id := seated.members[id]])
      && RowReturns(d, Issue(seated, id), id, config)
  {
    var m := d.members[id];
    var taken := OccupiedSeats(d.members, m.room, Some(m.user));
    OccupiedSeatsAre(d.members, m.room, Some(m.user));
    ResumeSeatIsGiven(config, m.user, taken);
  }

  // --------------------------------------------------------------------- join

  /** The room exists, is neither waiting nor over, and its password, if it has one, was given. */
  predicate MayEnter(d: Directory, code: Code, passwordOk: bool) {
    && code in d.rooms && d.rooms[code].status != Pending && d.rooms[code].status != Ended
    && (d.rooms[code].policy == Password ==> d.rooms[code].passwordHash.Some? && passwordOk)
  }

  /** A newcomer finds every place taken: every player's in a resumed game, else every seat. */
  ghost predicate IsFull(d: Directory, code: Code, config: Config, desired: int) {
    desired > 0 && if config.resume then |Participants(d.members, code)| >= desired
                   else |OccupiedSeats(d.members, code, None)| >= desired
  }

  /** Join's answer, by the state and the request. */
  ghost predicate JoinAnswer(d: Directory, code: Code, user: UserId, passwordOk: bool, reply: Reply) {
    if code !in d.rooms then reply == Refused(RoomNotFound)
    else if d.rooms[code].status == Pending then reply == Refused(RoomNotReady)
    else if d.rooms[code].status == Ended then reply == Refused(RoomAlreadyEnded)
    else if !MayEnter(d, code, passwordOk) then reply == Refused(WrongPassword)
    else
      && d.rooms[code].config.Parsed?
      && (forall id | InRoom(d, id, code, user) ::
            if d.members[id].status == Forfeited then reply == Refused(MembershipForfeited) else reply.Connected?)
      && (IsNewcomer(d, code, user) ==>
            var config := d.rooms[code].config.config;
            if d.rooms[code].status != Lobby then reply == Refused(RoomInGame)
            else if AsInt(config.desired).None? then reply == Refused(ServerError)
            else if IsFull(d, code, config, AsInt(config.desired).value) then reply == Refused(RoomFull)
            else reply.Connected?)
  }

  lemma JoinAtAnswers(d: Directory, target: Directory, url: Url, code: Code, user: UserId, passwordOk: bool)
    requires Sound(d) && Sound(target) && target.members == d.members && target.nextRow == d.nextRow
    requires code in target.rooms && MayEnter(d, code, passwordOk) && target.rooms[code].status == d.rooms[code].status
    ensures JoinAnswer(d, code, user, passwordOk, JoinAt(d, target, url, code, user, d.rooms[code].config.config).reply)
  {
    var config := d.rooms[code].config.config;
    ActiveRowIsInRoom(d, code, user);
    JoinAtSound(d, target, url, code, user, config);
    var desired := AsInt(config.desired);
    if desired.Some? && !IsFull(d, code, config, desired.value) && !config.resume {
      SecondSizeCheckIsDead(OccupiedSeats(d.members, code, None), desired.value);
    }
  }

  /** Main result: exactly who join lets in, and why it refuses anybody else. */
  lemma JoinAnswers(d: Directory, code: Code, user: UserId, passwordOk: bool, env: Env)
    requires Sound(d) && ValidEnv(d, env)
    ensures JoinAnswer(d, code, user, passwordOk, JoinRoom(d, code, user, passwordOk, env).reply)
  {
    if MayEnter(d, code, passwordOk) {
      var Target(moved, url) := ResolveTarget(d.servers, d.rooms[code], env);
      RetargetSound(d, code, env);
      TargetIsDirected(d, d.rooms[code], env);
      JoinAtAnswers(d, d.(rooms := d.rooms[code := moved]), url, code, user, passwordOk);
    }
  }

  /** What any member's answer comes with: the room directed, the token of a row, the grant recorded,
      and nothing else touched. */
  ghost predicate HandsToken(d: Directory, o: Outcome, code: Code, id: RowId, env: Env) {
    && o.reply.Connected? && code in d.rooms && OnlyTouched(d, o.after, code, id)
    && Directed(d, d.rooms[code], o.after.rooms[code], o.reply.url, env)
    && TokenOf(o.reply.token, o.after.members[id], o.after.rooms[code],
               if id in d.members then d.members[id].generation else 1)
    && CarriesResumedConfig(o.reply.token, o.after.rooms[code])
    && o.after.issued == d.issued + [Grant(id, o.reply.token.generation.value)]
  }

  /** A new player's seat: the bound one in a resumed game, else the least that nobody holds. */
  ghost predicate SeatForNew(d: Directory, code: Code, user: UserId, config: Config, seat: Option<int>) {
    if config.resume then
      exists taken ::
        (forall s :: s in taken <==> SeatHeld(d.members, code, None, s)) && SeatGiven(config, user, taken, seat)
    else
      && seat.Some? && seat.value >= 0 && !SeatHeld(d.members, code, None, seat.value)
      && forall s | 0 <= s < seat.value :: SeatHeld(d.members, code, None, s)
  }

  /** What join leaves behind: a member's row returned, or a new player's row. */
  ghost predicate JoinLeaves(d: Directory, o: Outcome, code: Code, user: UserId, env: Env) {
    if o.reply.Refused? then o.after == d
    else
      && code in d.rooms && d.rooms[code].config.Parsed?
      && exists id: RowId :: HandsToken(d, o, code, id, env)
           && if id in d.members
              then InRoom(d, id, code, user) && RowReturns(d, o.after, id, d.rooms[code].config.config)
              else
                && IsNewcomer(d, code, user)
                && o.after.members[id] == Member(code, user, Player, o.after.members[id].seat, Active, 2, None)
                && SeatForNew(d, code, user, d.rooms[code].config.config, o.after.members[id].seat)
  }

  lemma ChosenSeatIsForNew(d: Directory, code: Code, user: UserId, config: Config, desired: int)
    requires ChooseSeat(d.members, code, config, desired, user).Chosen?
    ensures SeatForNew(d, code, user, config, ChooseSeat(d.members, code, config, desired, user).seat)
  {
    OccupiedSeatsAre(d.members, code, None);
    ResumeSeatIsGiven(config, user, OccupiedSeats(d.members, code, None));
  }

  lemma NewRowHandsToken(d: Directory, env: Env, code: Code, user: UserId, seat: Option<int>)
    requires Sound(d) && ValidEnv(d, env) && code in d.rooms
    ensures var Target(moved, url) := ResolveTarget(d.servers, d.rooms[code], env);
      var added := Insert(d.(rooms := d.rooms[code := moved]), NewRow(code, user, Player, seat));
      var token := MemberToken(added, d.nextRow, false, None);
      HandsToken(d, Outcome(Issue(added, d.nextRow), Connected(url, token)), code, d.nextRow, env)
  {
    TargetIsDirected(d, d.rooms[code], env);
  }

  lemma NewPlayerLeaves(d: Directory, env: Env, code: Code, user: UserId)
    requires Sound(d) && ValidEnv(d, env) && code in d.rooms && IsNewcomer(d, code, user)
    ensures var Target(moved, url) := ResolveTarget(d.servers, d.rooms[code], env);
      var o := JoinAsNew(d, d.(rooms := d.rooms[code := moved]), url, code, user, d.rooms[code].config.config);
      JoinLeaves(d, o, code, user, env)
  {
    var Target(moved, url) := ResolveTarget(d.servers, d.rooms[code], env);
    var config := d.rooms[code].config.config;
    var o := JoinAsNew(d, d.(rooms := d.rooms[code := moved]), url, code, user, config);
    if o.reply.Connected? {
      var desired := AsInt(config.desired).value;
      ChosenSeatIsForNew(d, code, user, config, desired);
      NewRowHandsToken(d, env, code, user, ChooseSeat(d.members, code, config, desired, user).seat);
      assert HandsToken(d, o, code, d.nextRow, env);
    }
  }

  /** A member's row, reseated if need be, and its token. */
  lemma MemberLeaves(d: Directory, env: Env, code: Code, user: UserId, id: RowId)
    requires Sound(d) && ValidEnv(d, env) && code in d.rooms && InRoom(d, id, code, user)
    ensures var Target(moved, url) := ResolveTarget(d.servers, d.rooms[code], env);
      var seated := Reseat(d.(rooms := d.rooms[code := moved]), id, d.rooms[code].config.config);
      var token := MemberToken(seated, id, d.members[id].role == Host, None);
      JoinLeaves(d, Outcome(Issue(seated, id), Connected(url, token)), code, user, env)
  {
    var Target(moved, url) := ResolveTarget(d.servers, d.rooms[code], env);
    var target := d.(rooms := d.rooms[code := moved]);
    var config := d.rooms[code].config.config;
    var seated := Reseat(target, id, config);
    var o := Outcome(Issue(seated, id), Connected(url, MemberToken(seated, id, d.members[id].role == Host, None)));
    TargetIsDirected(d, d.rooms[code], env);
    ReseatReturns(d, target, id, config);
    assert HandsToken(d, o, code, id, env);
  }

  /** Main result: what join leaves behind. */
  lemma JoinLeavesIt(d: Directory, code: Code, user: UserId, passwordOk: bool, env: Env)
    requires Sound(d) && ValidEnv(d, env)
    ensures JoinLeaves(d, JoinRoom(d, code, user, passwordOk, env), code, user, env)
  {
    if MayEnter(d, code, passwordOk) {
      ActiveRowIsInRoom(d, code, user);
      JoinSound(d, code, user, passwordOk, env);
      var known := ActiveRow(d.members, code, user);
      if known.Some? {
        MemberLeaves(d, env, code, user, known.value);
      } else {
        NewPlayerLeaves(d, env, code, user);
      }
    }
  }

  // ------------------------------------------------------------------- resume

  /** Resume's answer, by the state and the request. */
  ghost predicate ResumeAnswer(d: Directory, code: Code, user: UserId, reply: Reply) {
    if code !in d.rooms then reply == Refused(RoomNotFound)
    else if d.rooms[code].status == Ended then reply == Refused(RoomAlreadyEnded)
    else
      && d.rooms[code].config.Parsed?
      && (IsNewcomer(d, code, user) ==> reply == Refused(MembershipNotFound))
      && (forall id | InRoom(d, id, code, user) ::
            var row := d.members[id];
            if row.status != Active && row.status != Reconnecting then reply == Refused(NotResumable)
            else if (row.role == Host || row.role == Player) && row.seat.None? && !d.rooms[code].config.config.resume
            then reply == Refused(SeatMissing)
            else reply.Connected?)
  }

  /** Main result: exactly who may resume, and why anybody else is refused. */
  lemma ResumeAnswers(d: Directory, code: Code, user: UserId, env: Env)
    requires Sound(d) && ValidEnv(d, env)
    ensures ResumeAnswer(d, code, user, ResumeRoom(d, code, user, env).reply)
  {
    if code in d.rooms && d.rooms[code].status != Ended {
      ActiveRowIsInRoom(d, code, user);
      ResumeSound(d, code, user, env);
    }
  }

  /** A resume that is let in gives the member's row its token. */
  lemma ResumeAtReturns(d: Directory, target: Directory, url: Url, code: Code, user: UserId, config: Config)
    requires Consistent(target) && target.members == d.members && code in target.rooms
    requires ActiveRow(d.members, code, user).Some?
    ensures var id, o := ActiveRow(d.members, code, user).value, ResumeAt(d, target, url, code, user, config);
      var seated := Reseat(target, id, config);
      (o.after == d && o.reply.Refused?)
      || o == Outcome(Issue(seated, id), Connected(url, MemberToken(seated, id, d.members[id].role == Host, None)))
  {
  }

  lemma ResumeAtLeaves(d: Directory, env: Env, code: Code, user: UserId)
    requires Sound(d) && ValidEnv(d, env) && code in d.rooms
    ensures var Target(moved, url) := ResolveTarget(d.servers, d.rooms[code], env);
      var o := ResumeAt(d, d.(rooms := d.rooms[code := moved]), url, code, user, d.rooms[code].config.config);
      JoinLeaves(d, o, code, user, env) && o.after.members.Keys == d.members.Keys
  {
    ActiveRowIsInRoom(d, code, user);
    RetargetSound(d, code, env);
    var Target(moved, url) := ResolveTarget(d.servers, d.rooms[code], env);
    var known := ActiveRow(d.members, code, user);
    if known.Some? {
      ResumeAtReturns(d, d.(rooms := d.rooms[code := moved]), url, code, user, d.rooms[code].config.config);
      MemberLeaves(d, env, code, user, known.value);
      ReseatReturns(d, d.(rooms := d.rooms[code := moved]), known.value, d.rooms[code].config.config);
    }
  }

  /** Main result: what resume leaves behind: the member's own row returned. */
  lemma ResumeLeavesIt(d: Directory, code: Code, user: UserId, env: Env)
    requires Sound(d) && ValidEnv(d, env)
    ensures JoinLeaves(d, ResumeRoom(d, code, user, env), code, user, env)
    ensures ResumeRoom(d, code, user, env).after.members.Keys == d.members.Keys
  {
    if code in d.rooms && d.rooms[code].status != Ended {
      ResumeAtLeaves(d, env, code, user);
    }
  }

  // ----------------------------------------------------------------- spectate

  ghost predicate SpectateAnswer(d: Directory, code: Code, user: UserId, reply: Reply) {
    if code !in d.rooms then reply == Refused(RoomNotFound)
    else if d.rooms[code].status == Pending then reply == Refused(RoomNotReady)
    else if d.rooms[code].status == Ended then reply == Refused(RoomAlreadyEnded)
    else
      && d.rooms[code].config.Parsed?
      && (!IsNewcomer(d, code, user) ==> reply.Connected?)
      && (IsNewcomer(d, code, user) ==>
            if d.rooms[code].status != InGame then reply == Refused(NotInGame)
            else if !d.rooms[code].config.config.allowSpectators then reply == Refused(SpectatorsNotAllowed)
            else reply.Connected?)
  }

  /** Main result: exactly who may spectate, and why anybody else is refused. */
  lemma SpectateAnswers(d: Directory, code: Code, user: UserId, env: Env)
    requires Sound(d) && ValidEnv(d, env)
    ensures SpectateAnswer(d, code, user, SpectateRoom(d, code, user, env).reply)
  {
    ActiveRowIsInRoom(d, code, user);
    SpectateSound(d, code, user, env);
  }

  /** A spectator's token carries no generation, configuration or host's access. Members get their role and
      seat, the forfeited and newcomers none; a newcomer gets a row, a member's row stays as it is. */
  ghost predicate SpectateLeaves(d: Directory, o: Outcome, code: Code, user: UserId, env: Env) {
    if o.reply.Refused? then o.after == d
    else
      && code in d.rooms && code in o.after.rooms
      && Directed(d, d.rooms[code], o.after.rooms[code], o.reply.url, env)
      && o.after.issued == d.issued
      && (forall id | InRoom(d, id, code, user) ::
            var row := d.members[id];
            && OnlyTouched(d, o.after, code, id) && o.after.members == d.members
            && o.reply.token == (if row.status == Forfeited then Token(user, code, Spectator, None, None, None, None)
                                 else Token(user, code, row.role, row.seat, None, None, None)))
      && (IsNewcomer(d, code, user) ==>
            && o.reply.token == Token(user, code, Spectator, None, None, None, None)
            && exists id: RowId :: id !in d.members && OnlyTouched(d, o.after, code, id)
                 && o.after.members[id] == Member(code, user, Spectator, None, Active, 1, None))
  }

  /** Main result: what spectate leaves behind. */
  lemma SpectateLeavesIt(d: Directory, code: Code, user: UserId, env: Env)
    requires Sound(d) && ValidEnv(d, env)
    ensures SpectateLeaves(d, SpectateRoom(d, code, user, env), code, user, env)
  {
    if code in d.rooms {
      ActiveRowIsInRoom(d, code, user);
      TargetIsDirected(d, d.rooms[code], env);
      var o := SpectateRoom(d, code, user, env);
      if o.reply.Connected? && IsNewcomer(d, code, user) {
        assert OnlyTouched(d, o.after, code, d.nextRow);
      }
    }
  }

  // ------------------------------------------------------------------- create

  ghost predicate CreateAnswer(d: Directory, code: Code, config: ConfigText, reply: Reply) {
    if config.Malformed? then reply == Refused(BadConfig)
    else if code in d.rooms then reply == Refused(Conflict)
    else reply.Connected?
  }

  /** The room as it was asked for, waiting on the healthy server heard last. */
  ghost predicate RoomAskedFor(d: Directory, room: Room, url: Url, user: UserId, config: ConfigText,
                               hash: Option<string>, env: Env) {
    && room.owner == user && room.server == env.latest && room.status == Pending && room.updatedAt == env.now
    && room.policy == (if hash.Some? then Password else Public) && room.passwordHash == hash && room.config == config
    && room.wsUrl == url
    && url == if env.latest.Some? && env.latest.value in d.servers && d.servers[env.latest.value].wsUrl != ""
              then d.servers[env.latest.value].wsUrl else env.fallback
  }

  /** The owner is in it as host, on seat 0 or, in a resumed game, on the seat bound to them. */
  ghost predicate HostSeated(row: Member, code: Code, user: UserId, config: Config) {
    && row == Member(code, user, Host, row.seat, Active, 2, None)
    && if config.resume then SeatGiven(config, user, {}, row.seat) else row.seat == Some(0)
  }

  ghost predicate Creates(d: Directory, o: Outcome, code: Code, user: UserId, config: Config, hash: Option<string>,
                          env: Env, id: RowId) {
    && o.reply.Connected? && id !in d.members && OnlyTouched(d, o.after, code, id)
    && RoomAskedFor(d, o.after.rooms[code], o.reply.url, user, Parsed(config), hash, env)
    && HostSeated(o.after.members[id], code, user, config)
    && TokenOf(o.reply.token, o.after.members[id], o.after.rooms[code], 1)
    && o.reply.token.config == Some(Parsed(config))
    && o.after.issued == d.issued + [Grant(id, 1)]
  }

  ghost predicate CreateLeaves(d: Directory, o: Outcome, code: Code, user: UserId, config: ConfigText,
                               hash: Option<string>, env: Env) {
    if o.reply.Refused? then o.after == d
    else code !in d.rooms && config.Parsed? && exists id :: Creates(d, o, code, user, config.config, hash, env, id)
  }

  lemma CreateSeatsHost(d: Directory, code: Code, user: UserId, config: Config, hash: Option<string>, env: Env)
    requires Sound(d) && ValidEnv(d, env) && CreateRoom(d, code, user, Parsed(config), hash, env).reply.Connected?
    ensures Creates(d, CreateRoom(d, code, user, Parsed(config), hash, env), code, user, config, hash, env, d.nextRow)
  {
    ResumeSeatIsGiven(config, user, {});
    var o := CreateRoom(d, code, user, Parsed(config), hash, env);
    assert OnlyTouched(d, o.after, code, d.nextRow);
    assert HostSeated(o.after.members[d.nextRow], code, user, config);
    assert RoomAskedFor(d, o.after.rooms[code], o.reply.url, user, Parsed(config), hash, env);
  }

  /** Main result: what create answers and leaves behind. */
  lemma CreateLeavesIt(d: Directory, code: Code, user: UserId, config: ConfigText, hash: Option<string>, env: Env)
    requires Sound(d) && ValidEnv(d, env) && code != "" && code !in d.tombstones
    ensures CreateAnswer(d, code, config, CreateRoom(d, code, user, config, hash, env).reply)
    ensures CreateLeaves(d, CreateRoom(d, code, user, config, hash, env), code, user, config, hash, env)
  {
    CreateSound(d, code, user, config, hash, env);
    var o := CreateRoom(d, code, user, config, hash, env);
    if o.reply.Connected? {
      CreateSeatsHost(d, code, user, config.config, hash, env);
    }
  }

  // ------------------------------------------------------------- game servers

  /** The server has just been heard: its time is now, so it is healthy; its address is the reported one
      if there is one, else the one it had. No other server is touched. */
  ghost predicate ServerHeard(d: Directory, after: Directory, server: ServerId, url: Url, now: Time) {
    && after.servers.Keys == d.servers.Keys + {server}
    && after.servers[server].lastHeartbeat == now && Healthy(after.servers[server], now)
    && (url != "" ==> after.servers[server].wsUrl == url)
    && (url == "" && server in d.servers ==> after.servers[server].wsUrl == d.servers[server].wsUrl)
    && (url == "" && server !in d.servers ==> after.servers[server].wsUrl == "")
    && forall s | s in d.servers && s != server :: after.servers[s] == d.servers[s]
  }

  /** The rooms' open rows have left now with this status, and no other row changed. */
  ghost predicate Emptied(before: map<RowId, Member>, after: map<RowId, Member>, codes: set<Code>, now: Time,
                          status: MemberStatus) {
    && after.Keys == before.Keys
    && forall id | id in before ::
         if before[id].room in codes && before[id].leftAt == None
         then after[id].leftAt == Some(now) && after[id].status == status
              && after[id].(leftAt := None, status := before[id].status) == before[id]
         else after[id] == before[id]
  }

  /** The reported rooms are the server's, at its address if it gave one, and no longer waiting. */
  ghost predicate Claimed(room: Room, after: Room, server: ServerId, url: Url, now: Time) {
    && after.server == Some(server) && after.updatedAt == now
    && after.wsUrl == (if url != "" then url else room.wsUrl)
    && after.status == (if room.status == Pending then Lobby else room.status)
    && after.owner == room.owner && after.policy == room.policy && after.passwordHash == room.passwordHash
    && after.config == room.config
  }

  /** An active room of the server that it did not report. */
  predicate Dropped(d: Directory, server: ServerId, codes: seq<Code>, code: Code) {
    && code in d.rooms && d.rooms[code].server == Some(server) && !(code in codes && code != "")
    && (d.rooms[code].status == Lobby || d.rooms[code].status == Starting || d.rooms[code].status == InGame)
  }

  /** Each room after a heartbeat. */
  ghost predicate RoomsHeard(d: Directory, after: map<Code, Room>, server: ServerId, url: Url, codes: seq<Code>,
                             now: Time) {
    && after.Keys == d.rooms.Keys
    && forall c | c in d.rooms ::
         if c in codes && c != "" then Claimed(d.rooms[c], after[c], server, url, now)
         else if Dropped(d, server, codes, c) then after[c] == d.rooms[c].(status := Ended, updatedAt := now)
         else after[c] == d.rooms[c]
  }

  lemma HeartbeatMovesRooms(d: Directory, server: ServerId, url: Url, codes: seq<Code>, now: Time)
    requires Sound(d)
    ensures RoomsHeard(d, Heartbeat(d, server, url, codes, now).rooms, server, url, codes, now)
  {
  }

  /** Main result: what a heartbeat leaves behind. */
  lemma HeartbeatLeavesIt(d: Directory, server: ServerId, url: Url, codes: seq<Code>, now: Time)
    requires Sound(d)
    ensures var after := Heartbeat(d, server, url, codes, now);
      && ServerHeard(d, after, server, url, now)
      && RoomsHeard(d, after.rooms, server, url, codes, now)
      && Emptied(d.members, after.members, (set c | c in d.rooms && Dropped(d, server, codes, c) :: c), now, RoomEnded)
      && after.tombstones == d.tombstones && after.issued == d.issued
  {
    HeartbeatMovesRooms(d, server, url, codes, now);
  }

  /** The room as the item tells it: a password hash the item leaves out is kept for a password room. */
  ghost predicate Told(d: Directory, after: Room, server: ServerId, url: Url, item: RoomIn, now: Time) {
    && after.owner == item.owner && after.server == Some(server) && after.status == item.status
    && after.policy == item.policy && after.config == item.config && after.updatedAt == now
    && after.passwordHash == (if item.passwordHash.Some? then item.passwordHash
                              else if item.policy == Password && item.code in d.rooms
                              then d.rooms[item.code].passwordHash else None)
    && after.wsUrl == (if item.wsUrl != "" then item.wsUrl else if url != "" then url
                       else if item.code in d.rooms then d.rooms[item.code].wsUrl else "")
  }

  lemma SyncedRoomIsTold(d: Directory, server: ServerId, url: Url, item: RoomIn, now: Time)
    ensures Told(d, SyncedRoom(d, server, url, item, now), server, url, item, now)
  {
  }

  lemma {:induction false} SyncItemsKeepServers(d: Directory, server: ServerId, url: Url, items: seq<RoomIn>, now: Time)
    ensures var done := SyncItems(d, server, url, items, now);
      done.Some? ==> done.value.dir.servers == d.servers && done.value.dir.tombstones == d.tombstones
  {
    if items != [] {
      SyncItemsKeepServers(d, server, url, items[..|items| - 1], now);
    }
  }

  /** Main result: a sync that commits has heard its server and remembers the same deletions and tokens; one
      that is refused changes nothing. */
  lemma SyncHearsServer(d: Directory, server: ServerId, url: Url, items: seq<RoomIn>, now: Time)
    ensures var o := SyncDirectory(d, server, url, items, now);
      if o.reply.Synced? then
        ServerHeard(d, o.after, server, url, now) && o.after.tombstones == d.tombstones && o.after.issued == d.issued
      else o.after == d
    ensures WellFormed(items) && Consistent(d) ==> SyncDirectory(d, server, url, items, now).reply.Synced?
    ensures (exists i :: 0 <= i < |items| && items[i].config.Malformed?) ==>
      SyncDirectory(d, server, url, items, now).reply == SyncRefused(BadConfig)
  {
    var beaten := d.(servers := Beat(d, server, url, now));
    SyncItemsKeepServers(beaten, server, url, items, now);
    RoomSafety.SyncItemsIssueNothing(beaten, server, url, items, now);
    if WellFormed(items) && Consistent(d) {
      SyncConverges(d, server, url, items, now);
    }
  }

  // ----------------------------------------------------------- administrators

  /** Ended rooms have just ended and are empty; nothing else changed. */
  lemma EndingEnds(d: Directory, codes: set<Code>, now: Time)
    ensures var after := EndByCodes(d, codes, now);
      && after.rooms.Keys == d.rooms.Keys
      && (forall c | c in d.rooms && c in codes ::
            && after.rooms[c].status == Ended && after.rooms[c].updatedAt == now
            && after.rooms[c].(status := d.rooms[c].status, updatedAt := d.rooms[c].updatedAt) == d.rooms[c])
      && (forall c | c in d.rooms && c !in codes :: after.rooms[c] == d.rooms[c])
      && Emptied(d.members, after.members, (set c | c in codes && c in d.rooms), now, RoomEnded)
      && after.tombstones == d.tombstones && after.servers == d.servers && after.issued == d.issued
  {
  }

  /** Deleted rooms are gone with all their rows, each leaving a tombstone; nothing else changed. */
  lemma DeletingDeletes(d: Directory, codes: set<Code>)
    ensures var after := DeleteByCodes(d, codes);
      && (forall c :: c in after.rooms <==> c in d.rooms && c !in codes)
      && (forall c | c in after.rooms :: after.rooms[c] == d.rooms[c])
      && (forall c :: c in after.tombstones <==> c in d.tombstones || (c in codes && c in d.rooms))
      && (forall id :: id in after.members <==>
            id in d.members && !(d.members[id].room in codes && d.members[id].room in d.rooms))
      && (forall id | id in after.members :: after.members[id] == d.members[id])
      && after.servers == d.servers && after.issued == d.issued
  {
  }
}
