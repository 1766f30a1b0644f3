/**
  The rows of the room directory and the pure helpers the handlers share
  (backend/app/models.py, backend/app/rooms.py).

  A null text column and blank text are one value, "". Room rows are keyed by
  their room code, which the schema keeps unique and no handler rewrites.
 */
module RoomModel {
  import opened Prelude

  type Code = string
  type UserId = string
  type ServerId = string
  type Url = string
  type Time = int
  type RowId = nat

  datatype RoomStatus = Pending | Lobby | Starting | InGame | Ended

  /** Departed is the text "left", RoomEnded the text "ended". */
  datatype MemberStatus =
    | Active
    | Reconnecting
    | Forfeited
    | Departed
    | RoomEnded
    | Unlisted(text: string)

  datatype Role = Host | Player | Spectator | OtherRole(text: string)

  datatype Policy = Public | Password | OtherPolicy(text: string)

  /** A JSON value as far as the configuration readers tell values apart.
      Empty stands for falsy text and containers, Numeral for text that reads
      as an integer, Opaque for everything int() rejects. */
  datatype Json =
    | Absent
    | Boolean(b: bool)
    | Whole(n: int)
    | Fraction(r: real)
    | Empty
    | Numeral(digits: int)
    | Opaque

  /** int(value or 0), or None where that raises. */
  function AsInt(value: Json): Option<int> {
    match value
    case Absent => Some(0)
    case Boolean(b) => Some(if b then 1 else 0)
    case Whole(n) => Some(n)
    case Fraction(r) => Some(if r >= 0.0 then r.Floor else -((-r).Floor))
    case Empty => Some(0)
    case Numeral(n) => Some(n)
    case Opaque => None
  }

  /** _coerce_optional_int: only integers that are not booleans, and integral floats. */
  function CoerceInt(value: Json): Option<int> {
    match value
    case Whole(n) => Some(n)
    case Fraction(r) => if r == r.Floor as real then Some(r.Floor) else None
    case _ => None
  }

  /** One entry of resume_participant_bindings; user ids are already stripped. */
  datatype RawBinding = NotAnObject | Entry(user: UserId, seatIndex: Json, playerId: Json)

  datatype SeatBinding = SeatBinding(user: UserId, seat: int)

  datatype Config = Config(
    resume: bool,
    desired: Json,
    bindings: seq<RawBinding>,
    allowSpectators: bool)

  /** Configuration text, known only through what parsing it yields. */
  datatype ConfigText = Malformed | Parsed(config: Config)

  datatype Room = Room(
    owner: UserId,
    server: Option<ServerId>,
    status: RoomStatus,
    policy: Policy,
    passwordHash: Option<string>,
    config: ConfigText,
    wsUrl: Url,
    updatedAt: Time)

  datatype Member = Member(
    room: Code,
    user: UserId,
    role: Role,
    seat: Option<int>,
    status: MemberStatus,
    generation: int,
    leftAt: Option<Time>)

  datatype Server = Server(wsUrl: Url, lastHeartbeat: Time)

  /** A generation that left the backend inside a connect token of a member row. */
  datatype Grant = Grant(row: RowId, generation: int)

  datatype Directory = Directory(
    rooms: map<Code, Room>,
    members: map<RowId, Member>,
    tombstones: set<Code>,
    servers: map<ServerId, Server>,
    nextRow: RowId,
    issued: seq<Grant>)

  datatype HostAccess = HostAccess(policy: Policy, passwordHash: Option<string>)

  datatype Token = Token(
    user: UserId,
    room: Code,
    role: Role,
    seat: Option<int>,
    generation: Option<int>,
    config: Option<ConfigText>,
    access: Option<HostAccess>)

  datatype Refusal =
    | RoomNotFound
    | RoomNotReady
    | RoomAlreadyEnded
    | WrongPassword
    | MembershipForfeited
    | RoomInGame
    | RoomFull
    | MembershipNotFound
    | NotResumable
    | SeatMissing
    | NotInGame
    | SpectatorsNotAllowed
    | BadConfig
    | ServerError
    | Conflict

  datatype Reply = Connected(url: Url, token: Token) | Refused(why: Refusal)

  datatype Outcome = Outcome(after: Directory, reply: Reply)

  /** What a request reads from its surroundings: the clock, the configured
      fallback address, and the row that the query for the most recently heard
      healthy server returned (ties are the database's to break). */
  datatype Env = Env(now: Time, fallback: Url, latest: Option<ServerId>)

  const HEALTH_WINDOW := 75

  predicate Healthy(server: Server, now: Time) {
    server.lastHeartbeat >= now - HEALTH_WINDOW
  }

  ghost predicate ValidEnv(d: Directory, env: Env) {
    match env.latest
    case None => forall s | s in d.servers :: !Healthy(d.servers[s], env.now)
    case Some(id) =>
      && id in d.servers
      && Healthy(d.servers[id], env.now)
      && forall s | s in d.servers :: d.servers[s].lastHeartbeat <= d.servers[id].lastHeartbeat
  }

  predicate ActiveStatus(status: RoomStatus) {
    status == Lobby || status == Starting || status == InGame
  }

  predicate Open(member: Member) {
    member.leftAt == None
  }

  predicate Live(status: MemberStatus) {
    status != Departed && status != RoomEnded
  }

  /** Two open rows of one room differ in user, and in seat if they are seated. */
  predicate Apart(members: map<RowId, Member>, i: RowId, j: RowId)
    requires i in members && j in members
  {
    Open(members[i]) && Open(members[j]) && members[i].room == members[j].room ==>
      && members[i].user != members[j].user
      && (members[i].seat.None? || members[i].seat != members[j].seat)
  }

  /** The two partial unique indexes on room_members. */
  predicate UniqueOpenRows(members: map<RowId, Member>) {
    forall i, j {:trigger Apart(members, i, j)} | i in members && j in members && i != j :: Apart(members, i, j)
  }

  /** No row moved, and no closed row opened. */
  ghost predicate Shrinks(before: map<RowId, Member>, after: map<RowId, Member>) {
    forall id | id in after ::
      && id in before
      && after[id].room == before[id].room && after[id].user == before[id].user && after[id].seat == before[id].seat
      && (Open(after[id]) ==> Open(before[id]))
  }

  lemma ShrinkingStaysUnique(before: map<RowId, Member>, after: map<RowId, Member>)
    requires UniqueOpenRows(before) && Shrinks(before, after)
    ensures UniqueOpenRows(after)
  {
    forall i, j | i in after && j in after && i != j ensures Apart(after, i, j) {
      assert Apart(before, i, j);
    }
  }

  /** The row has its user and its seat to itself among the other open rows of its room. */
  ghost predicate Fits(members: map<RowId, Member>, id: RowId, row: Member) {
    forall i | i in members && i != id && Open(members[i]) && members[i].room == row.room ::
      && members[i].user != row.user
      && (members[i].seat.None? || members[i].seat != row.seat)
  }

  lemma PuttingStaysUnique(members: map<RowId, Member>, id: RowId, row: Member)
    requires UniqueOpenRows(members) && Fits(members, id, row)
    ensures UniqueOpenRows(members[id := row])
  {
    var after := members[id := row];
    forall i, j | i in after && j in after && i != j ensures Apart(after, i, j) {
      if i != id && j != id {
        assert Apart(members, i, j);
      }
    }
  }

  /** What the schema itself guarantees of every committed state: the unique
      indexes, the foreign key from members to rooms, and fresh row ids. */
  ghost predicate Consistent(d: Directory) {
    && UniqueOpenRows(d.members)
    && (forall id | id in d.members :: id < d.nextRow && d.members[id].room in d.rooms)
    && (forall k | 0 <= k < |d.issued| :: d.issued[k].row < d.nextRow)
  }

  /** Commit a row change only if the unique indexes accept it. */
  function Commit(before: Directory, after: Directory, reply: Reply): Outcome {
    if UniqueOpenRows(after.members) then Outcome(after, reply) else Outcome(before, Refused(Conflict))
  }

  // ---------------------------------------------------------------- seats

  /** Seats taken by the open rows of a room, leaving out one user's rows. */
  function OccupiedSeats(members: map<RowId, Member>, code: Code, except: Option<UserId>): set<int> {
    set id | id in members && Open(members[id]) && members[id].room == code
             && members[id].seat.Some? && Some(members[id].user) != except
           :: members[id].seat.value
  }

  /** The least seat, from `seat` on, that is not taken. */
  function SeatFrom(taken: set<int>, seat: int): (free: int)
    ensures seat <= free <= seat + |taken|
    ensures free !in taken
    ensures forall k | seat <= k < free :: k in taken
    decreases |taken|
  {
    if seat in taken then
      var rest := taken - {seat};
      var free := SeatFrom(rest, seat + 1);
      assert forall k | seat <= k < free :: k in taken by {
        forall k | seat <= k < free ensures k in taken { assert k == seat || k in rest; }
      }
      free
    else seat
  }

  /** The readable bindings of a configuration, in order. */
  function Bindings(raw: seq<RawBinding>): seq<SeatBinding> {
    if raw == [] then []
    else Bindings(raw[..|raw| - 1]) + ReadBinding(raw[|raw| - 1])
  }

  function ReadBinding(item: RawBinding): seq<SeatBinding> {
    if item.NotAnObject? || item.user == "" then []
    else
      var first := CoerceInt(item.seatIndex);
      var seat := if first.Some? then first else CoerceInt(item.playerId);
      if seat.None? || seat.value < 0 then [] else [SeatBinding(item.user, seat.value)]
  }

  /** The seat of the first binding of a user. */
  function FirstBinding(bindings: seq<SeatBinding>, user: UserId): Option<int> {
    if bindings == [] then None
    else if bindings[0].user == user then Some(bindings[0].seat)
    else FirstBinding(bindings[1..], user)
  }

  function ResumeSeat(config: Config, user: UserId, taken: set<int>): Option<int> {
    var bound := if user == "" then None else FirstBinding(Bindings(config.bindings), user);
    if bound.None? then None
    else
      var desired := CoerceInt(config.desired);
      if desired.Some? && desired.value > 0 && bound.value >= desired.value then None
      else if bound.value in taken then None
      else bound
  }

  // ----------------------------------------------------- connection target

  datatype Target = Target(room: Room, url: Url)

  function OrElse(url: Url, fallback: Url): Url {
    if url != "" then url else fallback
  }

  function Touch(before: Room, after: Room, now: Time): Room {
    if after == before then before else after.(updatedAt := now)
  }

  /** The server that must serve the room, and the address to hand out. */
  function ResolveTarget(servers: map<ServerId, Server>, room: Room, env: Env): Target
    requires env.latest.Some? ==> env.latest.value in servers
  {
    var own := room.server.GetOr("");
    if own != "" && own in servers && Healthy(servers[own], env.now) then
      var url := OrElse(servers[own].wsUrl, room.wsUrl);
      Target(Touch(room, room.(wsUrl := url), env.now), OrElse(url, env.fallback))
    else if own != "" && room.status != Pending then
      Target(room, OrElse(room.wsUrl, env.fallback))
    else if env.latest.None? then
      Target(room, OrElse(room.wsUrl, env.fallback))
    else
      var url := OrElse(servers[env.latest.value].wsUrl, OrElse(room.wsUrl, env.fallback));
      Target(Touch(room, room.(server := env.latest, wsUrl := url), env.now), url)
  }

  // -------------------------------------------------------- member lookups

  ghost predicate IsActiveRow(members: map<RowId, Member>, id: RowId, code: Code, user: UserId) {
    && id in members
    && members[id].room == code
    && members[id].user == user
    && Open(members[id])
    && Live(members[id].status)
  }

  /** The row _get_active_room_member finds. */
  ghost function ActiveRow(members: map<RowId, Member>, code: Code, user: UserId): (found: Option<RowId>)
    ensures found.Some? ==> IsActiveRow(members, found.value, code, user)
    ensures found.None? ==> forall id :: !IsActiveRow(members, id, code, user)
  {
    if exists id :: IsActiveRow(members, id, code, user)
    then var id :| IsActiveRow(members, id, code, user); Some(id)
    else None
  }

  // ------------------------------------------------------------ row writes

  function CloseRow(member: Member, now: Time, status: MemberStatus): Member {
    member.(leftAt := Some(now), status := status)
  }

  /** _mark_room_members_left: every open row of the given rooms is closed. */
  function CloseRows(members: map<RowId, Member>, codes: set<Code>, now: Time, status: MemberStatus): map<RowId,
                     Member> {
    map id | id in members ::
      if members[id].room in codes && Open(members[id])
      then CloseRow(members[id], now, status) else members[id]
  }

  function EndRooms(rooms: map<Code, Room>, codes: set<Code>, now: Time): map<Code, Room> {
    map c | c in rooms :: if c in codes then rooms[c].(status := Ended, updatedAt := now) else rooms[c]
  }

  function NewRow(code: Code, user: UserId, role: Role, seat: Option<int>): Member {
    Member(code, user, role, seat, Active, 1, None)
  }

  function Insert(d: Directory, member: Member): Directory {
    d.(members := d.members[d.nextRow := member], nextRow := d.nextRow + 1)
  }

  /** _issue_member_connect_token: hand out the row's generation and move the row past it. */
  function Issue(d: Directory, id: RowId): Directory
    requires id in d.members
  {
    var current := Max(1, d.members[id].generation);
    d.(members := d.members[id := d.members[id].(generation := current + 1)],
       issued := d.issued + [Grant(id, current)])
  }

  /** The token that Issue(d, id) hands out. */
  function MemberToken(d: Directory, id: RowId, hostAccess: bool, config: Option<ConfigText>): Token
    requires id in d.members && d.members[id].room in d.rooms
  {
    var m := d.members[id];
    var room := d.rooms[m.room];
    Token(m.user, m.room, m.role, m.seat, Some(Max(1, m.generation)),
          if config.Some? then config
          else if room.config.Parsed? && room.config.config.resume then Some(room.config)
          else None,
          if hostAccess then Some(HostAccess(room.policy, room.passwordHash)) else None)
  }

  function SpectatorToken(user: UserId, code: Code, role: Role, seat: Option<int>): Token {
    Token(user, code, role, seat, None, None, None)
  }
}
