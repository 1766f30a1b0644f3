/**
  Each directory handler as one atomic step on the directory: what it answers and
  the state it commits (backend/app/rooms.py, backend/app/internal.py,
  backend/app/admin.py). A refusal leaves the directory as it was, because the
  handlers raise before they commit.
 */
module RoomHandlers {
  import opened Prelude
  import opened RoomModel

  function Refuse(d: Directory, why: Refusal): Outcome {
    Outcome(d, Refused(why))
  }

  // ------------------------------------------------------------- clients

  function CreateRoom(d: Directory, code: Code, user: UserId, config: ConfigText,
                      passwordHash: Option<string>, env: Env): Outcome
    requires env.latest.Some? ==> env.latest.value in d.servers
  {
    if config.Malformed? then Refuse(d, BadConfig)
    else if code in d.rooms then Refuse(d, Conflict)
    else
      var url := OrElse(if env.latest.Some? then d.servers[env.latest.value].wsUrl else "", env.fallback);
      var policy := if passwordHash.Some? then Password else Public;
      var room := Room(user, env.latest, Pending, policy, passwordHash, config, url, env.now);
      var seat := if config.config.resume then ResumeSeat(config.config, user, {}) else Some(0);
      var added := Insert(d.(rooms := d.rooms[code := room]), NewRow(code, user, Host, seat));
      Commit(d, Issue(added, d.nextRow), Connected(url, MemberToken(added, d.nextRow, true, Some(config))))
  }

  /** In a resumed game, an unseated row takes the seat its binding names if that is free. */
  function Reseat(d: Directory, id: RowId, config: Config): Directory
    requires id in d.members
  {
    var m := d.members[id];
    if !config.resume || m.seat.Some? then d
    else
      var seat := ResumeSeat(config, m.user, OccupiedSeats(d.members, m.room, Some(m.user)));
      if seat.None? then d else d.(members := d.members[id := m.(seat := seat)])
  }

  datatype SeatChoice = Chosen(seat: Option<int>) | NoSeat

  function Participants(members: map<RowId, Member>, code: Code): set<RowId> {
    set id | id in members && Open(members[id]) && members[id].room == code
             && (members[id].role == Host || members[id].role == Player) && Live(members[id].status)
  }

  /** The seat a new player gets: the bound one in a resumed game, else the least free one. */
  function ChooseSeat(members: map<RowId, Member>, code: Code, config: Config, desired: int, user: UserId): SeatChoice {
    var taken := OccupiedSeats(members, code, None);
    if config.resume then
      if desired > 0 && |Participants(members, code)| >= desired then NoSeat
      else Chosen(ResumeSeat(config, user, taken))
    else if desired > 0 && |taken| >= desired then NoSeat
    else
      var seat := SeatFrom(taken, 0);
      if desired > 0 && seat >= desired then NoSeat else Chosen(Some(seat))
  }

  function JoinAsNew(d: Directory, target: Directory, url: Url, code: Code, user: UserId, config: Config): Outcome
    requires code in target.rooms
  {
    if target.rooms[code].status != Lobby then Refuse(d, RoomInGame)
    else
      var desired := AsInt(config.desired);
      if desired.None? then Refuse(d, ServerError)
      else
        var choice := ChooseSeat(d.members, code, config, desired.value, user);
        if choice.NoSeat? then Refuse(d, RoomFull)
        else
          var added := Insert(target, NewRow(code, user, Player, choice.seat));
          Commit(d, Issue(added, target.nextRow), Connected(url, MemberToken(added, target.nextRow, false, None)))
  }

  /** What join comes to once the room may be entered and its target is known. */
  ghost function JoinAt(d: Directory, target: Directory, url: Url, code: Code, user: UserId, config: Config): Outcome
    requires target.members == d.members && code in target.rooms && Consistent(target)
  {
    match ActiveRow(d.members, code, user)
    case None => JoinAsNew(d, target, url, code, user, config)
    case Some(id) =>
      if d.members[id].status == Forfeited then Refuse(d, MembershipForfeited)
      else
        var seated := Reseat(target, id, config);
        Commit(d, Issue(seated, id), Connected(url, MemberToken(seated, id, d.members[id].role == Host, None)))
  }

  ghost function JoinRoom(d: Directory, code: Code, user: UserId, passwordOk: bool, env: Env): Outcome
    requires Consistent(d)
    requires env.latest.Some? ==> env.latest.value in d.servers
  {
    if code !in d.rooms then Refuse(d, RoomNotFound)
    else
      var room := d.rooms[code];
      if room.status == Pending then Refuse(d, RoomNotReady)
      else if room.status == Ended then Refuse(d, RoomAlreadyEnded)
      else if room.policy == Password && (room.passwordHash.None? || !passwordOk) then Refuse(d, WrongPassword)
      else if room.config.Malformed? then Refuse(d, BadConfig)
      else
        var Target(moved, url) := ResolveTarget(d.servers, room, env);
        JoinAt(d, d.(rooms := d.rooms[code := moved]), url, code, user, room.config.config)
  }

  /** What resume comes to once the room may be entered and its target is known. */
  ghost function ResumeAt(d: Directory, target: Directory, url: Url, code: Code, user: UserId, config: Config): Outcome
    requires target.members == d.members && code in target.rooms && Consistent(target)
  {
    match ActiveRow(d.members, code, user)
    case None => Refuse(d, MembershipNotFound)
    case Some(id) =>
      var member := d.members[id];
      if member.status != Active && member.status != Reconnecting then Refuse(d, NotResumable)
      else
        var seated := Reseat(target, id, config);
        if (member.role == Host || member.role == Player) && seated.members[id].seat.None? && !config.resume
        then Refuse(d, SeatMissing)
        else
          Commit(d, Issue(seated, id), Connected(url, MemberToken(seated, id, member.role == Host, None)))
  }

  ghost function ResumeRoom(d: Directory, code: Code, user: UserId, env: Env): Outcome
    requires Consistent(d)
    requires env.latest.Some? ==> env.latest.value in d.servers
  {
    if code !in d.rooms then Refuse(d, RoomNotFound)
    else
      var room := d.rooms[code];
      if room.status == Ended then Refuse(d, RoomAlreadyEnded)
      else if room.config.Malformed? then Refuse(d, BadConfig)
      else
        var Target(moved, url) := ResolveTarget(d.servers, room, env);
        ResumeAt(d, d.(rooms := d.rooms[code := moved]), url, code, user, room.config.config)
  }

  ghost function SpectateRoom(d: Directory, code: Code, user: UserId, env: Env): Outcome
    requires Consistent(d)
    requires env.latest.Some? ==> env.latest.value in d.servers
  {
    if code !in d.rooms then Refuse(d, RoomNotFound)
    else
      var room := d.rooms[code];
      if room.status == Pending then Refuse(d, RoomNotReady)
      else if room.status == Ended then Refuse(d, RoomAlreadyEnded)
      else
        var Target(moved, url) := ResolveTarget(d.servers, room, env);
        var target := d.(rooms := d.rooms[code := moved]);
        match ActiveRow(d.members, code, user)
        case Some(id) =>
          var member := d.members[id];
          var token := if member.status == Forfeited then SpectatorToken(user, code, Spectator, None)
                       else SpectatorToken(user, code, member.role, member.seat);
          Outcome(target, Connected(url, token))
        case None =>
          if room.status != InGame then Refuse(d, NotInGame)
          else if room.config.Malformed? then Refuse(d, BadConfig)
          else if !room.config.config.allowSpectators then Refuse(d, SpectatorsNotAllowed)
          else
            Commit(d, Insert(target, NewRow(code, user, Spectator, None)),
                   Connected(url, SpectatorToken(user, code, Spectator, None)))
  }

  // -------------------------------------------------------- game servers

  /** The reported codes that count: blank ones are ignored, repeats are one. */
  function Reported(codes: seq<Code>): set<Code> {
    set c | c in codes && c != ""
  }

  /** Codes whose room may not come back: deleted, or already ended. */
  predicate Gone(d: Directory, code: Code) {
    code in d.tombstones || (code in d.rooms && d.rooms[code].status == Ended)
  }

  function Beat(d: Directory, server: ServerId, url: Url, now: Time): map<ServerId, Server> {
    d.servers[server := Server(if url == "" && server in d.servers then d.servers[server].wsUrl else url, now)]
  }

  function Claim(room: Room, server: ServerId, url: Url, now: Time): Room {
    room.(server := Some(server),
          wsUrl := OrElse(url, room.wsUrl),
          status := if room.status == Pending then Lobby else room.status,
          updatedAt := now)
  }

  /** Active rooms of a server that it no longer names. */
  function Stale(rooms: map<Code, Room>, server: ServerId, named: set<Code>): set<Code> {
    set c | c in rooms && rooms[c].server == Some(server) && ActiveStatus(rooms[c].status) && c !in named
  }

  /** Rooms the server stopped naming end, and their open rows are closed. */
  function Collect(d: Directory, server: ServerId, named: set<Code>, now: Time): Directory {
    var stale := Stale(d.rooms, server, named);
    d.(rooms := EndRooms(d.rooms, stale, now), members := CloseRows(d.members, stale, now, RoomEnded))
  }

  function ClaimRooms(d: Directory, server: ServerId, url: Url, reported: set<Code>, now: Time): map<Code, Room> {
    map c | c in d.rooms ::
      if c in reported && c !in d.tombstones then Claim(d.rooms[c], server, url, now) else d.rooms[c]
  }

  function Heartbeat(d: Directory, server: ServerId, url: Url, codes: seq<Code>, now: Time): Directory {
    var reported := Reported(codes);
    Collect(d.(servers := Beat(d, server, url, now), rooms := ClaimRooms(d, server, url, reported, now)),
            server, reported, now)
  }

  datatype MemberIn = MemberIn(user: UserId, role: Role, seat: Option<int>, status: MemberStatus, generation: int)

  datatype RoomIn = RoomIn(
    code: Code,
    owner: UserId,
    status: RoomStatus,
    policy: Policy,
    passwordHash: Option<string>,
    config: ConfigText,
    wsUrl: Url,
    members: seq<MemberIn>)

  function SyncedRoom(d: Directory, server: ServerId, serverUrl: Url, item: RoomIn, now: Time): Room {
    if item.code !in d.rooms then
      Room(item.owner, Some(server), item.status, item.policy, item.passwordHash, item.config,
           OrElse(item.wsUrl, serverUrl), now)
    else
      var room := d.rooms[item.code];
      Room(item.owner, Some(server), item.status, item.policy,
           if item.passwordHash.Some? then item.passwordHash
           else if item.policy != Password then None
           else room.passwordHash,
           item.config,
           OrElse(item.wsUrl, OrElse(serverUrl, room.wsUrl)), now)
  }

  /** Position of the last entry for a user, or -1. */
  function LastEntry(entries: seq<MemberIn>, user: UserId): (k: int)
    ensures -1 <= k < |entries|
    ensures k >= 0 ==> entries[k].user == user
    ensures forall j | k < j < |entries| :: entries[j].user != user
  {
    if entries == [] then -1
    else if entries[|entries| - 1].user == user then |entries| - 1
    else LastEntry(entries[..|entries| - 1], user)
  }

  /** A generation raised to those of all entries for the user. */
  function RaisedGeneration(entries: seq<MemberIn>, user: UserId, generation: int): (g: int)
    ensures g >= generation
  {
    if entries == [] then generation
    else
      var before := RaisedGeneration(entries[..|entries| - 1], user, generation);
      var last := entries[|entries| - 1];
      if last.user == user then Max(Max(1, before), Max(1, last.generation)) else before
  }

  predicate Names(entries: seq<MemberIn>, user: UserId) {
    user != "" && LastEntry(entries, user) >= 0
  }

  predicate OpenIn(member: Member, code: Code) {
    Open(member) && member.room == code
  }

  /** A row that was open in the room when its item arrived, after the entries were applied. */
  function UpdatedRow(member: Member, entries: seq<MemberIn>): Member {
    if !Names(entries, member.user) then member
    else
      var entry := entries[LastEntry(entries, member.user)];
      member.(role := entry.role, seat := entry.seat, status := entry.status,
              generation := RaisedGeneration(entries, member.user, member.generation))
  }

  function EnteredRow(code: Code, entry: MemberIn): Member {
    Member(code, entry.user, entry.role, entry.seat, entry.status, Max(1, entry.generation), None)
  }

  predicate HasOpenRow(members: map<RowId, Member>, code: Code, user: UserId) {
    exists id | id in members :: OpenIn(members[id], code) && members[id].user == user
  }

  /** The entry at position k creates a row, whose id is `base` + k. */
  predicate Enters(members: map<RowId, Member>, code: Code, entries: seq<MemberIn>, k: int)
    requires 0 <= k < |entries|
  {
    entries[k].user != "" && !HasOpenRow(members, code, entries[k].user)
  }

  /** The rows after the entries were applied, before unnamed rows are closed. */
  function EnterRows(members: map<RowId, Member>, code: Code, entries: seq<MemberIn>, base: RowId): map<RowId, Member> {
    map id | id in members.Keys + set k | 0 <= k < |entries| && Enters(members, code, entries, k) :: base + k ::
      if id in members
      then if OpenIn(members[id], code) then UpdatedRow(members[id], entries) else members[id]
      else EnteredRow(code, entries[id - base])
  }

  /** Rows open before that no entry names are closed. */
  function DropUnnamed(members: map<RowId, Member>, entered: map<RowId, Member>, code: Code,
                       entries: seq<MemberIn>, now: Time): map<RowId, Member> {
    map id | id in entered ::
      if id in members && OpenIn(members[id], code) && !Names(entries, members[id].user)
      then CloseRow(entered[id], now, Departed) else entered[id]
  }

  function SyncedRows(members: map<RowId, Member>, code: Code, entries: seq<MemberIn>, base: RowId,
                      now: Time): map<RowId, Member> {
    DropUnnamed(members, EnterRows(members, code, entries, base), code, entries, now)
  }

  function AcceptItem(d: Directory, server: ServerId, serverUrl: Url, item: RoomIn, now: Time): Directory {
    d.(rooms := d.rooms[item.code := SyncedRoom(d, server, serverUrl, item, now)],
       members := SyncedRows(d.members, item.code, item.members, d.nextRow, now),
       nextRow := d.nextRow + |item.members|)
  }

  datatype Progress = Progress(dir: Directory, accepted: seq<Code>, skipped: seq<Code>)

  function SyncItem(p: Progress, server: ServerId, serverUrl: Url, item: RoomIn, now: Time): Progress {
    if item.code == "" then p
    else if Gone(p.dir, item.code) then p.(skipped := p.skipped + [item.code])
    else Progress(AcceptItem(p.dir, server, serverUrl, item, now), p.accepted + [item.code], p.skipped)
  }

  /** The payload items in turn; None once the unique indexes reject an item's rows. */
  function SyncItems(d: Directory, server: ServerId, serverUrl: Url, items: seq<RoomIn>, now: Time): Option<Progress> {
    if items == [] then Some(Progress(d, [], []))
    else
      var before := SyncItems(d, server, serverUrl, items[..|items| - 1], now);
      if before.None? then None
      else
        var next := SyncItem(before.value, server, serverUrl, items[|items| - 1], now);
        if UniqueOpenRows(next.dir.members) then Some(next) else None
  }

  function PayloadCodes(items: seq<RoomIn>): set<Code> {
    set i | 0 <= i < |items| && items[i].code != "" :: items[i].code
  }

  predicate ConfigsReadable(items: seq<RoomIn>) {
    forall i | 0 <= i < |items| :: items[i].config.Parsed?
  }

  datatype SyncReply = Synced(accepted: seq<Code>, skipped: seq<Code>) | SyncRefused(why: Refusal)

  datatype SyncOutcome = SyncOutcome(after: Directory, reply: SyncReply)

  function SyncDirectory(d: Directory, server: ServerId, serverUrl: Url, items: seq<RoomIn>, now: Time): SyncOutcome {
    if !ConfigsReadable(items) then SyncOutcome(d, SyncRefused(BadConfig))
    else
      var beaten := d.(servers := Beat(d, server, serverUrl, now));
      var done := SyncItems(beaten, server, serverUrl, items, now);
      if done.None? then SyncOutcome(d, SyncRefused(Conflict))
      else SyncOutcome(Collect(done.value.dir, server, PayloadCodes(items), now),
                       Synced(done.value.accepted, done.value.skipped))
  }

  // -------------------------------------------------------- administrators

  function EndByCodes(d: Directory, codes: set<Code>, now: Time): Directory {
    d.(rooms := EndRooms(d.rooms, codes, now),
       members := CloseRows(d.members, codes * d.rooms.Keys, now, RoomEnded))
  }

  function DeleteByCodes(d: Directory, codes: set<Code>): Directory {
    d.(rooms := d.rooms - codes,
       tombstones := d.tombstones + codes * d.rooms.Keys,
       members := map id | id in d.members && !(d.members[id].room in codes && d.members[id].room in d.rooms) ::
           d.members[id])
  }

  function OwnedCodes(d: Directory, users: set<UserId>): set<Code> {
    set c | c in d.rooms && c != "" && d.rooms[c].owner in users
  }

  function WithoutMembers(d: Directory, users: set<UserId>): Directory {
    d.(members := map id | id in d.members && d.members[id].user !in users :: d.members[id])
  }

  /** What deleting users does to the directory: their rooms go, then their rows elsewhere. */
  function DropUsers(d: Directory, users: set<UserId>): Directory {
    WithoutMembers(DeleteByCodes(d, OwnedCodes(d, users)), users)
  }
}
