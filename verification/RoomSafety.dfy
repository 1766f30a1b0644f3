/**
  What runs of the directory promise beyond its invariant: retired codes stay
  retired, tokens are fenced per row, and active rooms stay on their server
  (backend/app/rooms.py, backend/app/internal.py).
 */
module RoomSafety {
  import opened Prelude
  import opened RoomModel
  import opened RoomHandlers
  import opened RoomRuns

  // ------------------------------------------------------ retired room codes

  lemma {:induction false} SyncItemsKeepGone(d: Directory, server: ServerId, url: Url, items: seq<RoomIn>, now: Time,
                                             code: Code)
    requires Gone(d, code)
    ensures var done := SyncItems(d, server, url, items, now);
            done.Some? ==> Gone(done.value.dir, code) && done.value.dir.tombstones == d.tombstones
                           && (code !in d.rooms ==> code !in done.value.dir.rooms)
  {
    if items != [] {
      SyncItemsKeepGone(d, server, url, items[..|items| - 1], now, code);
    }
  }

  /** A retired code stays retired, and a deleted one without a room gets none. */
  ghost predicate KeepsGone(d: Directory, after: Directory, code: Code) {
    && d.tombstones <= after.tombstones
    && (Gone(d, code) ==> Gone(after, code))
    && (code in d.tombstones && code !in d.rooms ==> code !in after.rooms)
  }

  lemma SyncKeepsGone(d: Directory, server: ServerId, url: Url, items: seq<RoomIn>, now: Time, code: Code)
    requires Gone(d, code)
    ensures KeepsGone(d, SyncDirectory(d, server, url, items, now).after, code)
  {
    SyncItemsKeepGone(d.(servers := Beat(d, server, url, now)), server, url, items, now, code);
  }

  lemma JoinKeepsGone(d: Directory, at: Code, user: UserId, passwordOk: bool, env: Env, code: Code)
    requires Consistent(d) && ValidEnv(d, env)
    ensures KeepsGone(d, JoinRoom(d, at, user, passwordOk, env).after, code)
  {
  }

  lemma AdminsKeepGone(d: Directory, codes: set<Code>, users: set<UserId>, now: Time, code: Code)
    requires Consistent(d)
    ensures KeepsGone(d, EndByCodes(d, codes, now), code)
    ensures KeepsGone(d, DeleteByCodes(d, codes), code)
    ensures KeepsGone(d, DropUsers(d, users), code)
  {
  }

  lemma ClientsKeepGone(d: Directory, a: Action, code: Code)
    requires Consistent(d) && Admissible(d, a) && (a.Create? || a.Resume? || a.Spectate?)
    ensures KeepsGone(d, Step(d, a), code)
  {
  }

  lemma StepKeepsGone(d: Directory, a: Action, code: Code)
    requires Consistent(d) && Admissible(d, a) && Gone(d, code)
    ensures KeepsGone(d, Step(d, a), code)
  {
    match a
    case Join(at, user, ok, env) => JoinKeepsGone(d, at, user, ok, env, code);
    case Beats(_, _, _, _) =>
    case Sync(server, url, items, now) => SyncKeepsGone(d, server, url, items, now, code);
    case End(codes, now) => AdminsKeepGone(d, codes, {}, now, code);
    case Delete(codes) => AdminsKeepGone(d, codes, {}, 0, code);
    case DeleteUsers(users) => AdminsKeepGone(d, {}, users, 0, code);
    case _ => ClientsKeepGone(d, a, code);
  }

  lemma {:induction false} ChainKeepsGone(trace: seq<Directory>, i: nat, j: nat, code: Code)
    requires i <= j < |trace| && Gone(trace[i], code)
    requires forall k | i <= k < j && Gone(trace[k], code) :: KeepsGone(trace[k], trace[k + 1], code)
    ensures KeepsGone(trace[i], trace[j], code)
  {
    if i < j {
      ChainKeepsGone(trace, i, j - 1, code);
      assert KeepsGone(trace[j - 1], trace[j - 1 + 1], code);
    }
  }

  /** Main result: once a code is deleted or its room ended, no later state has it live again. */
  lemma RetiredCodesStayRetired(trace: seq<Directory>, actions: seq<Action>, i: nat, j: nat, code: Code)
    requires IsRun(trace, actions) && i <= j < |trace|
    requires Gone(trace[i], code)
    ensures Gone(trace[j], code)
    ensures code in trace[i].tombstones ==> code in trace[j].tombstones && code !in trace[j].rooms
  {
    forall k | i <= k < j && Gone(trace[k], code) ensures KeepsGone(trace[k], trace[k + 1], code) {
      RunStaysSound(trace, actions, k);
      StepKeepsGone(trace[k], actions[k], code);
    }
    ChainKeepsGone(trace, i, j, code);
    RunStaysSound(trace, actions, i);
    RunStaysSound(trace, actions, j);
  }

  /** The drawn code matters: create respects tombstones exactly when its code has none. */
  lemma CreateRespectsTombstonesIff(d: Directory, code: Code, user: UserId, config: ConfigText, hash: Option<string>,
                                    env: Env)
    requires Sound(d) && ValidEnv(d, env) && config.Parsed? && code != ""
    ensures TombstonesHold(CreateRoom(d, code, user, config, hash, env).after) <==> code !in d.tombstones
  {
    if code in d.tombstones {
      var url := OrElse(if env.latest.Some? then d.servers[env.latest.value].wsUrl else "", env.fallback);
      var room := Room(user, env.latest, Pending, if hash.Some? then Password else Public, hash, config, url, env.now);
      var roomed := d.(rooms := d.rooms[code := room]);
      var seat := if config.config.resume then ResumeSeat(config.config, user, {}) else Some(0);
      PuttingStaysUnique(d.members, d.nextRow, NewRow(code, user, Host, seat));
      IssueUnique(Insert(roomed, NewRow(code, user, Host, seat)), d.nextRow);
      assert code in CreateRoom(d, code, user, config, hash, env).after.rooms;
    } else {
      CreateSound(d, code, user, config, hash, env);
    }
  }

  /** An input that fails: a directory that only remembers one deleted code, drawn again. */
  lemma DrawnAgainRevives(user: UserId, config: Config, env: Env)
    requires env.latest.None?
    ensures var d := EMPTY.(tombstones := {"ABCDEF"});
            var o := CreateRoom(d, "ABCDEF", user, Parsed(config), None, env);
            && Sound(d) && ValidEnv(d, env)
            && o.reply.Connected? && "ABCDEF" in o.after.rooms && "ABCDEF" in o.after.tombstones
  {
    var d := EMPTY.(tombstones := {"ABCDEF"});
    assert "ABCDEF" != "" by {
      assert |"ABCDEF"| == 6;
    }
    CreateRespectsTombstonesIff(d, "ABCDEF", user, Parsed(config), None, env);
  }

  // ----------------------------------------------------------- token fencing

  ghost function ReplyOf(d: Directory, a: Action): Option<Reply>
    requires Consistent(d) && Admissible(d, a)
  {
    match a
    case Create(code, user, config, hash, env) => Some(CreateRoom(d, code, user, config, hash, env).reply)
    case Join(code, user, ok, env) => Some(JoinRoom(d, code, user, ok, env).reply)
    case Resume(code, user, env) => Some(ResumeRoom(d, code, user, env).reply)
    case Spectate(code, user, env) => Some(SpectateRoom(d, code, user, env).reply)
    case _ => None
  }

  /** The reply's token, if it carries a generation, is the newest grant: of an open
      row of that user and room, above every earlier grant of the row, and already
      overtaken by the row's stored generation. */
  ghost predicate FreshToken(before: Directory, after: Directory, token: Token) {
    if token.generation.None? then after.issued == before.issued
    else
      && |after.issued| == |before.issued| + 1
      && after.issued[..|before.issued|] == before.issued
      && var grant := after.issued[|before.issued|];
         && grant.generation == token.generation.value
         && grant.row in after.members
         && after.members[grant.row].user == token.user
         && after.members[grant.row].room == token.room
         && after.members[grant.row].seat == token.seat
         && after.members[grant.row].role == token.role
         && Open(after.members[grant.row])
         && after.members[grant.row].generation == grant.generation + 1
         && forall k | 0 <= k < |before.issued| && before.issued[k].row == grant.row ::
              before.issued[k].generation < grant.generation
  }

  /** A refusal leaves the directory alone; a connection hands the user a fresh token for the room. */
  ghost predicate AnswersFresh(d: Directory, o: Outcome, user: UserId, code: Code) {
    if o.reply.Refused? then o.after == d
    else FreshToken(d, o.after, o.reply.token) && o.reply.token.generation.Some?
         && o.reply.token.user == user && o.reply.token.room == code
  }

  lemma NewPlayerTokenIsFresh(d: Directory, target: Directory, url: Url, code: Code, user: UserId, config: Config)
    requires Sound(target) && target.members == d.members && target.issued == d.issued && target.nextRow == d.nextRow
    requires code in target.rooms && ActiveRow(target.members, code, user).None?
    ensures AnswersFresh(d, JoinAsNew(d, target, url, code, user, config), user, code)
  {
  }

  lemma KnownPlayerTokenIsFresh(d: Directory, target: Directory, id: RowId, config: Config)
    requires Sound(target) && target.issued == d.issued && id in target.members && Open(target.members[id])
    ensures var seated := Reseat(target, id, config); var token := MemberToken(seated, id, target.members[id].role
        == Host, None);
      && FreshToken(d, Issue(seated, id), token) && token.generation.Some?
      && token.user == target.members[id].user && token.room == target.members[id].room
  {
  }

  lemma TargetTokenIsFresh(d: Directory, target: Directory, url: Url, code: Code, user: UserId, config: Config)
    requires Sound(target) && target.members == d.members && target.issued == d.issued && target.nextRow == d.nextRow
    requires code in target.rooms
    ensures AnswersFresh(d, JoinAt(d, target, url, code, user, config), user, code)
  {
    match ActiveRow(d.members, code, user)
    case None => NewPlayerTokenIsFresh(d, target, url, code, user, config);
    case Some(id) => KnownPlayerTokenIsFresh(d, target, id, config);
  }

  lemma JoinTokenIsFresh(d: Directory, code: Code, user: UserId, passwordOk: bool, env: Env)
    requires Sound(d) && ValidEnv(d, env)
    ensures AnswersFresh(d, JoinRoom(d, code, user, passwordOk, env), user, code)
  {
    if code in d.rooms {
      var Target(moved, url) := ResolveTarget(d.servers, d.rooms[code], env);
      RetargetSound(d, code, env);
      TargetTokenIsFresh(d, d.(rooms := d.rooms[code := moved]), url, code, user, d.rooms[code].config.config);
    }
  }

  lemma ResumeTokenIsFresh(d: Directory, code: Code, user: UserId, env: Env)
    requires Sound(d) && ValidEnv(d, env)
    ensures AnswersFresh(d, ResumeRoom(d, code, user, env), user, code)
  {
    var o := ResumeRoom(d, code, user, env);
    if o.reply.Connected? {
      var target := d.(rooms := d.rooms[code := ResolveTarget(d.servers, d.rooms[code], env).room]);
      var config := d.rooms[code].config.config;
      RetargetSound(d, code, env);
      KnownPlayerTokenIsFresh(d, target, ActiveRow(d.members, code, user).value, config);
    }
  }

  lemma CreateTokenIsFresh(d: Directory, code: Code, user: UserId, config: ConfigText, hash: Option<string>, env: Env)
    requires Sound(d) && ValidEnv(d, env) && code != "" && code !in d.tombstones
    ensures AnswersFresh(d, CreateRoom(d, code, user, config, hash, env), user, code)
  {
  }

  /** Every reply that carries a generation hands out a fresh one. */
  lemma ReplyIsFresh(d: Directory, a: Action)
    requires Sound(d) && Admissible(d, a)
    ensures ReplyOf(d, a).Some? && ReplyOf(d, a).value.Connected? ==>
        FreshToken(d, Step(d, a), ReplyOf(d, a).value.token)
    ensures !(ReplyOf(d, a).Some? && ReplyOf(d, a).value.Connected?) ==> Step(d, a).issued == d.issued
  {
    match a
    case Create(code, user, config, hash, env) => CreateTokenIsFresh(d, code, user, config, hash, env);
    case Join(code, user, ok, env) => JoinTokenIsFresh(d, code, user, ok, env);
    case Resume(code, user, env) => ResumeTokenIsFresh(d, code, user, env);
    case Sync(server, url, items, now) => SyncItemsIssueNothing(d.(servers := Beat(d, server, url, now)), server,
        url, items, now);
    case _ =>
  }

  lemma {:induction false} SyncItemsIssueNothing(d: Directory, server: ServerId, url: Url, items: seq<RoomIn>,
                                                 now: Time)
    ensures var done := SyncItems(d, server, url, items, now); done.Some? ==> done.value.dir.issued == d.issued
  {
    if items != [] {
      SyncItemsIssueNothing(d, server, url, items[..|items| - 1], now);
    }
  }

  lemma StepKeepsIssued(d: Directory, a: Action)
    requires Sound(d) && Admissible(d, a)
    ensures d.issued <= Step(d, a).issued
  {
    ReplyIsFresh(d, a);
  }

  lemma StepOfRunKeepsIssued(trace: seq<Directory>, actions: seq<Action>, k: nat)
    requires IsRun(trace, actions) && k < |actions|
    ensures trace[k].issued <= trace[k + 1].issued
  {
    RunSteps(trace, actions, k);
    StepKeepsIssued(trace[k], actions[k]);
  }

  lemma {:induction false} IssuedOnlyGrows(trace: seq<Directory>, actions: seq<Action>, i: nat, j: nat)
    requires IsRun(trace, actions) && i <= j < |trace|
    ensures trace[i].issued <= trace[j].issued
  {
    if i < j {
      IssuedOnlyGrows(trace, actions, i, j - 1);
      StepOfRunKeepsIssued(trace, actions, j - 1);
    }
  }

  /** The step's reply carries generation g, granted to the given row. */
  ghost predicate Hands(d: Directory, a: Action, row: RowId, g: int)
  {
    && Consistent(d) && Admissible(d, a)
    && ReplyOf(d, a).Some? && ReplyOf(d, a).value.Connected?
    && ReplyOf(d, a).value.token.generation == Some(g)
    && Step(d, a).issued == d.issued + [Grant(row, g)]
  }

  /** The row is open in the room and belongs to the user. */
  predicate IsOpenRowOf(d: Directory, row: RowId, user: UserId, code: Code) {
    row in d.members && OpenIn(d.members[row], code) && d.members[row].user == user
  }

  /** The step answers with a connect token that carries this generation. */
  ghost predicate Answers(d: Directory, a: Action, token: Token, g: int) {
    && Consistent(d) && Admissible(d, a)
    && ReplyOf(d, a).Some? && ReplyOf(d, a).value.Connected?
    && ReplyOf(d, a).value.token == token && token.generation == Some(g)
  }

  /** Every answer that carries a generation hands it to an open row of the token's user and room. */
  lemma AnswerHasRow(d: Directory, a: Action, token: Token, g: int)
    requires Sound(d) && Answers(d, a, token, g)
    ensures exists row :: Hands(d, a, row, g) && IsOpenRowOf(Step(d, a), row, token.user, token.room)
  {
    ReplyIsFresh(d, a);
    var after := Step(d, a);
    var grant := after.issued[|d.issued|];
    assert after.issued == after.issued[..|d.issued|] + [grant];
    assert Hands(d, a, grant.row, g);
  }

  /** Of two generations handed out for one row during a run, the later is larger. */
  lemma LaterGrantsOutrank(trace: seq<Directory>, actions: seq<Action>, i: nat, j: nat, row: RowId, g: int, h: int)
    requires IsRun(trace, actions) && i < j < |actions|
    requires Hands(trace[i], actions[i], row, g) && Hands(trace[j], actions[j], row, h)
    ensures g < h
  {
    IssuedOnlyGrows(trace, actions, i + 1, j);
    RunStaysSound(trace, actions, j + 1);
    var k := |trace[i].issued|;
    var last := trace[j + 1].issued;
    assert last[k] == trace[j].issued[k] == Grant(row, g);
    assert last[|trace[j].issued|] == Grant(row, h);
  }

  lemma OneOpenRowEach(d: Directory, r: RowId, s: RowId, user: UserId, code: Code)
    requires Consistent(d) && IsOpenRowOf(d, r, user, code) && IsOpenRowOf(d, s, user, code)
    ensures r == s
  {
    assert r == s || Apart(d.members, r, s);
  }

  /** The rows two answers were handed to, in a run: open rows of the tokens' users and rooms. If
      they are one row, the later generation is larger; and they are, if the earlier row is still
      an open row of the later token's user and room. */
  ghost predicate AnsweredInOrder(trace: seq<Directory>, actions: seq<Action>, i: nat, j: nat,
                                  early: Token, late: Token, g: int, h: int, r: RowId, s: RowId)
    requires i < j < |actions| < |trace|
  {
    && Hands(trace[i], actions[i], r, g) && IsOpenRowOf(trace[i + 1], r, early.user, early.room)
    && Hands(trace[j], actions[j], s, h) && IsOpenRowOf(trace[j + 1], s, late.user, late.room)
    && (r == s ==> g < h)
    && (IsOpenRowOf(trace[j + 1], r, late.user, late.room) ==> r == s)
  }

  lemma RowsInOrder(trace: seq<Directory>, actions: seq<Action>, i: nat, j: nat,
                    late: Token, g: int, h: int, r: RowId, s: RowId)
    requires IsRun(trace, actions) && i < j < |actions|
    requires Hands(trace[i], actions[i], r, g) && Hands(trace[j], actions[j], s, h)
    requires IsOpenRowOf(trace[j + 1], s, late.user, late.room)
    ensures r == s ==> g < h
    ensures IsOpenRowOf(trace[j + 1], r, late.user, late.room) ==> r == s
  {
    RunStaysSound(trace, actions, j + 1);
    if r == s {
      LaterGrantsOutrank(trace, actions, i, j, r, g, h);
    }
    if IsOpenRowOf(trace[j + 1], r, late.user, late.room) {
      OneOpenRowEach(trace[j + 1], r, s, late.user, late.room);
    }
  }

  /** Main result: any two answers of a run that carry generations were handed to rows of their
      tokens' users and rooms, and among answers for one row the later generation is larger. */
  lemma LaterTokensOutrank(trace: seq<Directory>, actions: seq<Action>, i: nat, j: nat,
                           early: Token, late: Token, g: int, h: int)
    requires IsRun(trace, actions) && i < j < |actions|
    requires Answers(trace[i], actions[i], early, g) && Answers(trace[j], actions[j], late, h)
    ensures exists r, s :: AnsweredInOrder(trace, actions, i, j, early, late, g, h, r, s)
  {
    RunStaysSound(trace, actions, i);
    RunStaysSound(trace, actions, j);
    AnswerHasRow(trace[i], actions[i], early, g);
    AnswerHasRow(trace[j], actions[j], late, h);
    var r :| Hands(trace[i], actions[i], r, g) && IsOpenRowOf(trace[i + 1], r, early.user, early.room);
    var s :| Hands(trace[j], actions[j], s, h) && IsOpenRowOf(trace[j + 1], s, late.user, late.room);
    RowsInOrder(trace, actions, i, j, late, g, h, r, s);
    assert AnsweredInOrder(trace, actions, i, j, early, late, g, h, r, s);
  }

  // ------------------------------------------------------------ server pinning

  predicate NamedBy(a: Action, code: Code) {
    match a
    case Beats(_, _, reported, _) => code in Reported(reported)
    case Sync(_, _, items, _) => code in PayloadCodes(items)
    case _ => false
  }

  ghost predicate PinnedTo(d: Directory, code: Code, server: ServerId) {
    && code in d.rooms
    && d.rooms[code].status != Pending
    && d.rooms[code].server == Some(server)
  }

  lemma PayloadCodesGrow(items: seq<RoomIn>)
    requires items != []
    ensures var last := items[|items| - 1];
            PayloadCodes(items) == PayloadCodes(items[..|items| - 1]) + (if last.code == "" then {} else {last.code})
  {
  }

  lemma {:induction false} SyncItemsTouchNamed(d: Directory, server: ServerId, url: Url, items: seq<RoomIn>,
                                               now: Time, code: Code)
    requires code !in PayloadCodes(items)
    ensures var done := SyncItems(d, server, url, items, now);
            done.Some? ==> (code in done.value.dir.rooms <==> code in d.rooms)
                           && (code in d.rooms ==> done.value.dir.rooms[code] == d.rooms[code])
  {
    if items != [] {
      var prefix := items[..|items| - 1];
      PayloadCodesGrow(items);
      SyncItemsTouchNamed(d, server, url, prefix, now, code);
    }
  }

  lemma JoinKeepsPin(d: Directory, at: Code, user: UserId, passwordOk: bool, env: Env, code: Code, server: ServerId)
    requires Consistent(d) && ValidEnv(d, env) && PinnedTo(d, code, server) && server != ""
    ensures PinnedTo(JoinRoom(d, at, user, passwordOk, env).after, code, server)
  {
    if at in d.rooms {
    }
  }

  lemma ResumeKeepsPin(d: Directory, at: Code, user: UserId, env: Env, code: Code, server: ServerId)
    requires Consistent(d) && ValidEnv(d, env) && PinnedTo(d, code, server) && server != ""
    ensures PinnedTo(ResumeRoom(d, at, user, env).after, code, server)
  {
    if at in d.rooms {
    }
  }

  lemma SpectateKeepsPin(d: Directory, at: Code, user: UserId, env: Env, code: Code, server: ServerId)
    requires Consistent(d) && ValidEnv(d, env) && PinnedTo(d, code, server) && server != ""
    ensures PinnedTo(SpectateRoom(d, at, user, env).after, code, server)
  {
  }

  lemma SyncKeepsPin(d: Directory, who: ServerId, url: Url, items: seq<RoomIn>, now: Time, code: Code, server: ServerId)
    requires PinnedTo(d, code, server) && code !in PayloadCodes(items)
    ensures PinnedTo(SyncDirectory(d, who, url, items, now).after, code, server)
  {
    SyncItemsTouchNamed(d.(servers := Beat(d, who, url, now)), who, url, items, now, code);
  }

  /** Only a heartbeat or a sync that names the room can move a room that has left Pending. */
  lemma StepKeepsPin(d: Directory, a: Action, code: Code, server: ServerId)
    requires Consistent(d) && Admissible(d, a)
    requires PinnedTo(d, code, server) && server != "" && !NamedBy(a, code)
    ensures code in Step(d, a).rooms ==> PinnedTo(Step(d, a), code, server)
  {
    match a
    case Create(_, _, _, _, _) =>
    case Join(at, user, ok, env) => JoinKeepsPin(d, at, user, ok, env, code, server);
    case Resume(at, user, env) => ResumeKeepsPin(d, at, user, env, code, server);
    case Spectate(at, user, env) => SpectateKeepsPin(d, at, user, env, code, server);
    case Sync(who, url, items, now) => SyncKeepsPin(d, who, url, items, now, code, server);
    case _ =>
  }

  lemma StepOfRunKeepsPin(trace: seq<Directory>, actions: seq<Action>, k: nat, code: Code, server: ServerId)
    requires IsRun(trace, actions) && k < |actions|
    requires PinnedTo(trace[k], code, server) && server != "" && !NamedBy(actions[k], code)
    ensures code in trace[k + 1].rooms ==> PinnedTo(trace[k + 1], code, server)
  {
    RunSteps(trace, actions, k);
    StepKeepsPin(trace[k], actions[k], code, server);
  }

  /** Main result: through any part of a run in which no server names the room, it stays
      where it is, however healthy other servers are. */
  lemma {:induction false} RoomsStayPinned(trace: seq<Directory>, actions: seq<Action>, i: nat, j: nat, code: Code,
                                           server: ServerId)
    requires IsRun(trace, actions) && i <= j < |trace|
    requires PinnedTo(trace[i], code, server) && server != ""
    requires forall k | i <= k < j :: !NamedBy(actions[k], code)
    requires forall k | i <= k <= j :: code in trace[k].rooms
    ensures PinnedTo(trace[j], code, server)
  {
    if i < j {
      RoomsStayPinned(trace, actions, i, j - 1, code, server);
      StepOfRunKeepsPin(trace, actions, j - 1, code, server);
    }
  }

  /** A client let into a pinned room is sent to its server: to the advertised address
      when that server is healthy and has one, else to the room's own. */
  lemma ClientsReachPinnedServer(d: Directory, a: Action, server: ServerId)
    requires Sound(d) && Admissible(d, a) && (a.Join? || a.Resume? || a.Spectate?)
    requires PinnedTo(d, a.code, server) && server != ""
    requires ReplyOf(d, a).Some? && ReplyOf(d, a).value.Connected?
    ensures var room := d.rooms[a.code];
            ReplyOf(d, a).value.url ==
              if server in d.servers && Healthy(d.servers[server], a.env.now) && d.servers[server].wsUrl != ""
              then d.servers[server].wsUrl
              else OrElse(room.wsUrl, a.env.fallback)
  {
  }
}
