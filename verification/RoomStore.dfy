/**
  The directory as the handlers keep it: rows rewritten one at a time, lists grown in
  loops, one commit or rollback at the end (backend/app/rooms.py, backend/app/internal.py,
  backend/app/admin.py). Each method is tied to the atomic step it implements.
 */
module RoomStore {
  import opened Prelude
  import opened RoomModel
  import opened RoomHandlers
  import opened RoomLoops

  /** What _normalize_non_empty_items leaves of a list: each nonblank item, where it first occurs. */
  function NonEmpty(items: seq<string>): seq<string> {
    if items == [] then []
    else
      var before := NonEmpty(items[..|items| - 1]);
      var last := items[|items| - 1];
      if last == "" || last in before then before else before + [last]
  }

  lemma {:induction false} NonEmptyIsReported(items: seq<string>)
    ensures Distinct(NonEmpty(items))
    ensures forall c :: c in NonEmpty(items) <==> c in Reported(items)
    ensures Elements(NonEmpty(items)) == Reported(items)
  {
    if items != [] {
      var front := items[..|items| - 1];
      NonEmptyIsReported(front);
      assert items == front + [items[|items| - 1]];
      forall c ensures c in NonEmpty(items) <==> c in Reported(items) {
        assert c in NonEmpty(front) <==> c in Reported(front);
      }
    }
  }

  /** The items stay in the order in which they first occur. */
  lemma {:induction false} NonEmptyKeepsOrder(items: seq<string>, i: nat, j: nat)
    requires i < j < |NonEmpty(items)|
    ensures exists p | 0 <= p < |items| :: items[p] == NonEmpty(items)[i] && NonEmpty(items)[j] !in items[..p + 1]
  {
    var front := items[..|items| - 1];
    NonEmptyIsReported(front);
    if j < |NonEmpty(front)| {
      NonEmptyKeepsOrder(front, i, j);
      var p :| 0 <= p < |front| && front[p] == NonEmpty(front)[i] && NonEmpty(front)[j] !in front[..p + 1];
      assert items[p] == front[p] && items[..p + 1] == front[..p + 1];
    } else {
      assert NonEmpty(items) == NonEmpty(front) + [items[|items| - 1]] && NonEmpty(front)[i] in Reported(front);
      var p :| 0 <= p < |front| && front[p] == NonEmpty(front)[i];
      assert items[..p + 1] == front[..p + 1];
      assert forall c | c in front[..p + 1] :: c in front;
      assert items[|items| - 1] != "" && items[|items| - 1] !in Reported(front);
      assert items[p] == NonEmpty(items)[i];
    }
  }

  /** _normalize_non_empty_items, and the heartbeat's own copy of it. */
  method NonEmptyItems(items: seq<string>) returns (out: seq<string>)
    ensures out == NonEmpty(items)
    ensures Distinct(out)
    ensures forall c :: c in out <==> c in Reported(items)
    ensures Elements(out) == Reported(items)
  {
    out := [];
    var seen: set<string> := {};
    for n := 0 to |items|
      invariant out == NonEmpty(items[..n])
      invariant forall c :: c in seen <==> c in out
    {
      assert items[..n + 1][..n] == items[..n];
      var item := items[n];
      if item == "" || item in seen {
        continue;
      }
      seen := seen + {item};
      out := out + [item];
    }
    assert items[..|items|] == items;
    NonEmptyIsReported(items);
  }

  /** int(value or 1) */
  function OrOne(generation: int): int {
    if generation == 0 then 1 else generation
  }

  // --------------------------------------------------------------- bindings

  method ResumeBindings(raw: seq<RawBinding>) returns (out: seq<SeatBinding>)
    ensures out == Bindings(raw)
  {
    out := [];
    for i := 0 to |raw|
      invariant out == Bindings(raw[..i])
    {
      assert raw[..i + 1][..i] == raw[..i];
      match raw[i]
      case NotAnObject =>
      case Entry(user, seatIndex, playerId) =>
        if user == "" {
          continue;
        }
        var seat := CoerceInt(seatIndex);
        if seat.None? {
          seat := CoerceInt(playerId);
        }
        if seat.None? || seat.value < 0 {
          continue;
        }
        out := out + [SeatBinding(user, seat.value)];
    }
    assert raw[..|raw|] == raw;
  }

  method FindResumeBinding(config: Config, user: UserId) returns (seat: Option<int>)
    ensures seat == if user == "" then None else FirstBinding(Bindings(config.bindings), user)
  {
    if user == "" {
      return None;
    }
    var bindings := ResumeBindings(config.bindings);
    for i := 0 to |bindings|
      invariant FirstBinding(bindings, user) == FirstBinding(bindings[i..], user)
    {
      if bindings[i].user == user {
        return Some(bindings[i].seat);
      }
    }
    return None;
  }

  method ResolveResumeSeat(config: Config, user: UserId, occupied: set<int>) returns (seat: Option<int>)
    ensures seat == ResumeSeat(config, user, occupied)
  {
    var bound := FindResumeBinding(config, user);
    if bound.None? {
      return None;
    }
    var desired := CoerceInt(config.desired);
    if desired.Some? && desired.value > 0 && bound.value >= desired.value {
      return None;
    }
    if bound.value in occupied {
      return None;
    }
    return bound;
  }

  /** The search of join_room for the first seat nobody holds. */
  method FirstFreeSeat(taken: set<int>) returns (seat: int)
    ensures seat == SeatFrom(taken, 0)
  {
    seat := 0;
    while seat in taken
      invariant 0 <= seat <= SeatFrom(taken, 0)
      decreases SeatFrom(taken, 0) - seat
    {
      seat := seat + 1;
    }
  }

  lemma CreateConsistent(d: Directory, code: Code, user: UserId, config: ConfigText, passwordHash: Option<string>,
                         env: Env)
    requires Consistent(d) && (env.latest.Some? ==> env.latest.value in d.servers)
    ensures Consistent(RoomHandlers.CreateRoom(d, code, user, config, passwordHash, env).after)
  {
  }

  lemma JoinAsNewConsistent(d: Directory, target: Directory, url: Url, code: Code, user: UserId, config: Config)
    requires Consistent(d) && Consistent(target) && code in target.rooms
    ensures Consistent(JoinAsNew(d, target, url, code, user, config).after)
  {
  }

  lemma JoinAtConsistent(d: Directory, target: Directory, url: Url, code: Code, user: UserId, config: Config)
    requires Consistent(d) && Consistent(target) && target.members == d.members && code in target.rooms
    ensures Consistent(JoinAt(d, target, url, code, user, config).after)
  {
    JoinAsNewConsistent(d, target, url, code, user, config);
  }

  lemma JoinConsistent(d: Directory, code: Code, user: UserId, passwordOk: bool, env: Env)
    requires Consistent(d) && (env.latest.Some? ==> env.latest.value in d.servers)
    ensures Consistent(RoomHandlers.JoinRoom(d, code, user, passwordOk, env).after)
  {
    if code in d.rooms && d.rooms[code].config.Parsed? {
      var Target(moved, url) := ResolveTarget(d.servers, d.rooms[code], env);
      JoinAtConsistent(d, d.(rooms := d.rooms[code := moved]), url, code, user, d.rooms[code].config.config);
    }
  }

  /** The users a list of entries names. */
  function NamedUsers(entries: seq<MemberIn>): set<UserId> {
    if entries == [] then {}
    else
      var user := entries[|entries| - 1].user;
      NamedUsers(entries[..|entries| - 1]) + (if user == "" then {} else {user})
  }

  lemma {:induction false} NamedUsersAreNamed(entries: seq<MemberIn>)
    ensures forall u :: u in NamedUsers(entries) <==> Names(entries, u)
  {
    if entries != [] {
      NamedUsersAreNamed(entries[..|entries| - 1]);
    }
  }

  class RoomStore {
    var rooms: map<Code, Room>
    var members: map<RowId, Member>
    var tombstones: set<Code>
    var servers: map<ServerId, Server>
    var nextRow: RowId
    var issued: seq<Grant>

    function Snapshot(): Directory
      reads this
    {
      Directory(rooms, members, tombstones, servers, nextRow, issued)
    }

    /** What the schema guarantees of committed rows. */
    ghost predicate Valid()
      reads this
    {
      Consistent(Snapshot())
    }

    constructor ()
      ensures Valid()
      ensures Snapshot() == Directory(map[], map[], {}, map[], 0, [])
    {
      rooms, members, tombstones, servers, nextRow, issued := map[], map[], {}, map[], 0, [];
    }

    method Rollback(saved: Directory)
      modifies this
      ensures Snapshot() == saved
    {
      rooms, members, tombstones := saved.rooms, saved.members, saved.tombstones;
      servers, nextRow, issued := saved.servers, saved.nextRow, saved.issued;
    }

    // ------------------------------------------------------------- rows

    method MarkRoomMembersLeft(codes: set<Code>, now: Time, status: MemberStatus)
      modifies this`members
      ensures members == CloseRows(old(members), codes, now, status)
    {
      ghost var start := members;
      var open := set id | id in members && members[id].room in codes && Open(members[id]);
      ghost var all := open;
      while open != {}
        invariant open <= all && members.Keys == start.Keys
        invariant forall id | id in start :: members[id] == if id in all && id !in open
                                                            then CloseRow(start[id], now, status) else start[id]
        decreases |open|
      {
        var id :| id in open;
        members := members[id := CloseRow(members[id], now, status)];
        open := open - {id};
      }
      forall id | id in start ensures members[id] == CloseRows(start, codes, now, status)[id] {
        assert id in all <==> start[id].room in codes && Open(start[id]);
      }
    }

    method EndStaleRooms(server: ServerId, named: set<Code>, now: Time) returns (ended: set<Code>)
      modifies this`rooms
      ensures ended == Stale(old(rooms), server, named)
      ensures rooms == EndRooms(old(rooms), ended, now)
    {
      ghost var start := rooms;
      var stale := Rows(set c | c in rooms && rooms[c].server == Some(server) && ActiveStatus(rooms[c].status));
      ended := {};
      for i := 0 to |stale|
        invariant rooms == EndRooms(start, ended, now) && forall c | c in stale :: c in rooms
        invariant ended == set c | c in stale[..i] && c !in named
      {
        assert stale[..i + 1] == stale[..i] + [stale[i]];
        if stale[i] in named {
          continue;
        }
        rooms := rooms[stale[i] := rooms[stale[i]].(status := Ended, updatedAt := now)];
        ended := ended + {stale[i]};
      }
      assert stale[..|stale|] == stale;
    }

    method FindActiveRow(code: Code, user: UserId) returns (found: Option<RowId>)
      requires Valid()
      ensures found == ActiveRow(members, code, user)
    {
      var rows := Rows(set id | id in members && members[id].room == code && members[id].user == user
                                && Open(members[id]) && Live(members[id].status));
      if |rows| == 0 {
        assert forall id :: IsActiveRow(members, id, code, user) ==> id in rows;
        return None;
      }
      assert rows[0] in rows;
      assert IsActiveRow(members, rows[0], code, user);
      assert rows[0] == ActiveRow(members, code, user).value
          || Apart(members, rows[0], ActiveRow(members, code, user).value);
      return Some(rows[0]);
    }

    method ResolveRoomConnectionTarget(code: Code, env: Env) returns (url: Url)
      requires code in rooms
      requires env.latest.Some? ==> env.latest.value in servers
      modifies this`rooms
      ensures code in rooms && rooms == old(rooms)[code := rooms[code]]
      ensures ResolveTarget(servers, old(rooms[code]), env) == Target(rooms[code], url)
    {
      var room := rooms[code];
      url := room.wsUrl;
      var own := room.server.GetOr("");
      if own != "" {
        if own in servers && Healthy(servers[own], env.now) {
          var advertised := servers[own].wsUrl;
          if advertised != "" && advertised != url {
            rooms := rooms[code := room.(wsUrl := advertised, updatedAt := env.now)];
            url := advertised;
          }
          return OrElse(url, env.fallback);
        }
        if room.status != Pending {
          return OrElse(url, env.fallback);
        }
      }
      if env.latest.None? {
        return OrElse(url, env.fallback);
      }
      var advertised := servers[env.latest.value].wsUrl;
      if advertised != "" {
        url := advertised;
      } else if url == "" {
        url := env.fallback;
      }
      var moved := room.(server := env.latest, wsUrl := url);
      if moved != room {
        rooms := rooms[code := moved.(updatedAt := env.now)];
      }
    }

    method AddRow(member: Member) returns (id: RowId)
      modifies this`members, this`nextRow
      ensures id == old(nextRow)
      ensures Snapshot() == Insert(old(Snapshot()), member)
    {
      id := nextRow;
      members := members[id := member];
      nextRow := nextRow + 1;
    }

    method IssueMemberConnectToken(id: RowId, hostAccess: bool, config: Option<ConfigText>) returns (token: Token)
      requires id in members && members[id].room in rooms
      modifies this`members, this`issued
      ensures Snapshot() == Issue(old(Snapshot()), id)
      ensures token == MemberToken(old(Snapshot()), id, hostAccess, config)
    {
      var member := members[id];
      var room := rooms[member.room];
      var current := Max(1, OrOne(member.generation));
      members := members[id := member.(generation := current + 1)];
      issued := issued + [Grant(id, current)];
      var effective := config;
      if effective.None? && room.config.Parsed? && room.config.config.resume {
        effective := Some(room.config);
      }
      token := Token(member.user, member.room, member.role, member.seat, Some(current), effective,
                     if hostAccess then Some(HostAccess(room.policy, room.passwordHash)) else None);
    }

    /** Seats an unseated row of a resumed game on its bound seat, if that is free. */
    method SeatByBinding(id: RowId, config: Config)
      requires id in members
      modifies this`members
      ensures Snapshot() == Reseat(old(Snapshot()), id, config)
    {
      var member := members[id];
      if config.resume && member.seat.None? {
        var occupied := OccupiedSeats(members, member.room, Some(member.user));
        var seat := ResolveResumeSeat(config, member.user, occupied);
        if seat.Some? {
          members := members[id := member.(seat := seat)];
        }
      }
    }

    // ---------------------------------------------------------- clients

    method CreateRoom(code: Code, user: UserId, config: ConfigText, passwordHash: Option<string>, env: Env)
      returns (reply: Reply)
      requires Valid() && (env.latest.Some? ==> env.latest.value in servers)
      modifies this
      ensures Valid()
      ensures Outcome(Snapshot(), reply) == RoomHandlers.CreateRoom(old(Snapshot()), code, user, config,
          passwordHash, env)
    {
      var saved := Snapshot();
      CreateConsistent(saved, code, user, config, passwordHash, env);
      var url := "";
      if env.latest.Some? {
        url := servers[env.latest.value].wsUrl;
      }
      if url == "" {
        url := env.fallback;
      }
      if config.Malformed? {
        return Refused(BadConfig);
      }
      if code in rooms {
        return Refused(Conflict);
      }
      var policy := if passwordHash.Some? then Password else Public;
      var room := Room(user, env.latest, Pending, policy, passwordHash, config, url, env.now);
      rooms := rooms[code := room];
      var seat := Some(0);
      if config.config.resume {
        seat := ResolveResumeSeat(config.config, user, {});
      }
      var id := AddRow(NewRow(code, user, Host, seat));
      var token := IssueMemberConnectToken(id, true, Some(config));
      if !UniqueOpenRows(members) {
        Rollback(saved);
        return Refused(Conflict);
      }
      return Connected(url, token);
    }

    method JoinRoom(code: Code, user: UserId, passwordOk: bool, env: Env) returns (reply: Reply)
      requires Valid() && (env.latest.Some? ==> env.latest.value in servers)
      modifies this
      ensures Valid()
      ensures Outcome(Snapshot(), reply) == RoomHandlers.JoinRoom(old(Snapshot()), code, user, passwordOk, env)
    {
      var saved := Snapshot();
      JoinConsistent(saved, code, user, passwordOk, env);
      if code !in rooms {
        return Refused(RoomNotFound);
      }
      var room := rooms[code];
      if room.status == Pending {
        return Refused(RoomNotReady);
      }
      if room.status == Ended {
        return Refused(RoomAlreadyEnded);
      }
      if room.policy == Password {
        if room.passwordHash.None? || !passwordOk {
          return Refused(WrongPassword);
        }
      }
      if room.config.Malformed? {
        return Refused(BadConfig);
      }
      var existing := FindActiveRow(code, user);
      var url := ResolveRoomConnectionTarget(code, env);
      if existing.Some? {
        var id := existing.value;
        if members[id].status == Forfeited {
          Rollback(saved);
          return Refused(MembershipForfeited);
        }
        SeatByBinding(id, room.config.config);
        var token := IssueMemberConnectToken(id, members[id].role == Host, None);
        reply := Connected(url, token);
      } else {
        reply := JoinAsPlayer(code, user, room.config.config, url, saved);
        if reply.Refused? {
          return;
        }
      }
      if !UniqueOpenRows(members) {
        Rollback(saved);
        return Refused(Conflict);
      }
    }

    /** The part of join_room that adds a player; the caller commits. */
    method JoinAsPlayer(code: Code, user: UserId, config: Config, url: Url, saved: Directory) returns (reply: Reply)
      requires code in rooms && saved.members == members
      modifies this
      ensures reply.Refused? ==>
          Outcome(Snapshot(), reply) == JoinAsNew(saved, old(Snapshot()), url, code, user, config)
      ensures reply.Connected? ==>
          Commit(saved, Snapshot(), reply) == JoinAsNew(saved, old(Snapshot()), url, code, user, config)
    {
      if rooms[code].status != Lobby {
        Rollback(saved);
        return Refused(RoomInGame);
      }
      var desired := AsInt(config.desired);
      if desired.None? {
        Rollback(saved);
        return Refused(ServerError);
      }
      var taken := OccupiedSeats(members, code, None);
      var seat: Option<int>;
      if config.resume {
        if desired.value > 0 && |Participants(members, code)| >= desired.value {
          Rollback(saved);
          return Refused(RoomFull);
        }
        seat := ResolveResumeSeat(config, user, taken);
      } else {
        if desired.value > 0 && |taken| >= desired.value {
          Rollback(saved);
          return Refused(RoomFull);
        }
        var free := FirstFreeSeat(taken);
        // join_room compares the seat with the desired count once more; that check cannot fire.
        assert !(desired.value > 0 && free >= desired.value);
        seat := Some(free);
      }
      var id := AddRow(NewRow(code, user, Player, seat));
      var token := IssueMemberConnectToken(id, false, None);
      return Connected(url, token);
    }

    method ResumeRoom(code: Code, user: UserId, env: Env) returns (reply: Reply)
      requires Valid() && (env.latest.Some? ==> env.latest.value in servers)
      modifies this
      ensures Valid()
      ensures Outcome(Snapshot(), reply) == RoomHandlers.ResumeRoom(old(Snapshot()), code, user, env)
    {
      var saved := Snapshot();
      if code !in rooms {
        return Refused(RoomNotFound);
      }
      var room := rooms[code];
      if room.status == Ended {
        return Refused(RoomAlreadyEnded);
      }
      if room.config.Malformed? {
        return Refused(BadConfig);
      }
      var existing := FindActiveRow(code, user);
      var url := ResolveRoomConnectionTarget(code, env);
      if existing.None? {
        Rollback(saved);
        return Refused(MembershipNotFound);
      }
      reply := ResumeMember(existing.value, room.config.config, url, saved);
    }

    method ResumeMember(id: RowId, config: Config, url: Url, saved: Directory) returns (reply: Reply)
      requires Valid() && Consistent(saved) && id in members && saved.members == members
      requires ActiveRow(members, members[id].room, members[id].user) == Some(id)
      modifies this
      ensures Valid()
      ensures var member := old(members)[id];
        Outcome(Snapshot(), reply) == ResumeAt(saved, old(Snapshot()), url, member.room, member.user, config)
    {
      if members[id].status != Active && members[id].status != Reconnecting {
        Rollback(saved);
        return Refused(NotResumable);
      }
      SeatByBinding(id, config);
      var role := members[id].role;
      if (role == Host || role == Player) && members[id].seat.None? && !config.resume {
        Rollback(saved);
        return Refused(SeatMissing);
      }
      var token := IssueMemberConnectToken(id, role == Host, None);
      if !UniqueOpenRows(members) {
        Rollback(saved);
        return Refused(Conflict);
      }
      return Connected(url, token);
    }

    method SpectateRoom(code: Code, user: UserId, env: Env) returns (reply: Reply)
      requires Valid() && (env.latest.Some? ==> env.latest.value in servers)
      modifies this
      ensures Valid()
      ensures Outcome(Snapshot(), reply) == RoomHandlers.SpectateRoom(old(Snapshot()), code, user, env)
    {
      var saved := Snapshot();
      if code !in rooms {
        return Refused(RoomNotFound);
      }
      var room := rooms[code];
      if room.status == Pending {
        return Refused(RoomNotReady);
      }
      if room.status == Ended {
        return Refused(RoomAlreadyEnded);
      }
      var existing := FindActiveRow(code, user);
      var url := ResolveRoomConnectionTarget(code, env);
      if existing.Some? {
        var member := members[existing.value];
        if member.status == Forfeited {
          return Connected(url, SpectatorToken(user, code, Spectator, None));
        }
        return Connected(url, SpectatorToken(user, code, member.role, member.seat));
      }
      if room.status != InGame {
        Rollback(saved);
        return Refused(NotInGame);
      }
      if room.config.Malformed? {
        Rollback(saved);
        return Refused(BadConfig);
      }
      if !room.config.config.allowSpectators {
        Rollback(saved);
        return Refused(SpectatorsNotAllowed);
      }
      var _ := AddRow(NewRow(code, user, Spectator, None));
      if !UniqueOpenRows(members) {
        Rollback(saved);
        return Refused(Conflict);
      }
      return Connected(url, SpectatorToken(user, code, Spectator, None));
    }

    // ------------------------------------------------------ game servers

    method BeatServer(server: ServerId, url: Url, now: Time)
      modifies this`servers
      ensures servers == Beat(old(Snapshot()), server, url, now)
    {
      if server in servers {
        servers := servers[server := Server(OrElse(url, servers[server].wsUrl), now)];
      } else {
        servers := servers[server := Server(url, now)];
      }
    }

    /** Rooms of a server that it no longer names end, and everybody has left them. */
    method CollectRooms(server: ServerId, named: set<Code>, now: Time)
      requires Valid()
      modifies this`rooms, this`members
      ensures Valid()
      ensures Snapshot() == Collect(old(Snapshot()), server, named, now)
    {
      var stale := EndStaleRooms(server, named, now);
      MarkRoomMembersLeft(stale, now, RoomEnded);
      ShrinkingStaysUnique(old(members), members);
    }

    /** The heartbeat's pass over the rooms it reported: claims those not deleted, and lists those
        that may not come back. */
    method ClaimFoundRooms(server: ServerId, url: Url, found: set<Code>, tombstoned: set<Code>, now: Time)
      returns (ended: seq<Code>)
      requires found <= rooms.Keys
      modifies this`rooms
      ensures rooms == map c | c in old(rooms) ::
                if c in found && c !in tombstoned then Claim(old(rooms)[c], server, url, now) else old(rooms)[c]
      ensures Distinct(ended)
      ensures forall c :: c in ended <==> c in found && (c in tombstoned || old(rooms)[c].status == Ended)
    {
      ghost var start := rooms;
      ended := [];
      var rest := found;
      while rest != {}
        invariant rest <= found && rooms.Keys == start.Keys
        invariant forall c | c in start :: rooms[c] == if c in found - rest && c !in tombstoned
                                                       then Claim(start[c], server, url, now) else start[c]
        invariant Distinct(ended)
        invariant forall c :: c in ended <==> c in found - rest && (c in tombstoned || start[c].status == Ended)
        decreases |rest|
      {
        var code :| code in rest;
        rest := rest - {code};
        assert code !in ended;
        if code in tombstoned {
          ended := ended + [code];
          continue;
        }
        var room := rooms[code].(server := Some(server));
        if url != "" {
          room := room.(wsUrl := url);
        }
        if room.status == Pending {
          room := room.(status := Lobby);
        } else if room.status == Ended {
          ended := ended + [code];
        }
        rooms := rooms[code := room.(updatedAt := now)];
      }
    }

    /** Reported codes of deleted rooms are listed too, once each. */
    method AddTombstoned(fromRooms: seq<Code>, reported: seq<Code>, tombstoned: set<Code>) returns (ended: seq<Code>)
      requires Distinct(fromRooms)
      ensures Distinct(ended)
      ensures forall c :: c in ended <==> c in fromRooms || (c in reported && c in tombstoned)
    {
      ended := fromRooms;
      for i := 0 to |reported|
        invariant Distinct(ended)
        invariant forall c :: c in ended <==> c in fromRooms || (c in reported[..i] && c in tombstoned)
      {
        assert reported[..i + 1] == reported[..i] + [reported[i]];
        if reported[i] in tombstoned && reported[i] !in ended {
          ended := ended + [reported[i]];
        }
      }
      assert reported[..|reported|] == reported;
    }

    method ClaimReportedRooms(server: ServerId, url: Url, reported: seq<Code>, now: Time) returns (ended: seq<Code>)
      modifies this`rooms
      ensures rooms == ClaimRooms(old(Snapshot()), server, url, Elements(reported), now)
      ensures Distinct(ended)
      ensures forall c :: c in ended <==> c in reported && Gone(old(Snapshot()), c)
    {
      var tombstoned := set c | c in tombstones && c in reported;
      var found := set c | c in rooms && c in reported;
      assert forall c :: c in reported <==> c in Elements(reported);
      ended := ClaimFoundRooms(server, url, found, tombstoned, now);
      ended := AddTombstoned(ended, reported, tombstoned);
    }

    method Heartbeat(server: ServerId, url: Url, codes: seq<Code>, now: Time) returns (ended: seq<Code>)
      requires Valid()
      modifies this
      ensures Valid()
      ensures Snapshot() == RoomHandlers.Heartbeat(old(Snapshot()), server, url, codes, now)
      ensures Distinct(ended)
      ensures forall c :: c in ended <==> c in Reported(codes) && Gone(old(Snapshot()), c)
    {
      var reported := NonEmptyItems(codes);
      assert forall c :: c in reported <==> c in Elements(reported);
      BeatServer(server, url, now);
      ended := ClaimReportedRooms(server, url, reported, now);
      CollectRooms(server, Elements(reported), now);
    }

    method ApplyEntry(ghost start: map<RowId, Member>, code: Code, entries: seq<MemberIn>, base: RowId, k: nat,
                      byUser: map<UserId, RowId>)
      requires k < |entries| && entries[k].user != ""
      requires UniqueOpenRows(start) && forall i | i in start :: i < base
      requires forall u | u in byUser ::
          byUser[u] in start && OpenIn(start[byUser[u]], code) && start[byUser[u]].user == u
      requires forall u :: HasOpenRow(start, code, u) ==> u in byUser
      requires members == EnterRows(start, code, entries[..k], base)
      modifies this`members
      ensures members == EnterRows(start, code, entries[..k + 1], base)
    {
      var entry := entries[k];
      if entry.user in byUser {
        var id := byUser[entry.user];
        KnownEntryUpdates(start, code, entries, base, k, id);
        var member := members[id];
        members := members[id := member.(
          role := entry.role, seat := entry.seat, status := entry.status,
          generation := Max(OrOne(member.generation), Max(1, OrOne(entry.generation))))];
      } else {
        NewEntryEnters(start, code, entries, base, k);
        members := members[base + k := EnteredRow(code, entry)];
      }
    }

    /** existing_by_user: the open rows of a room by user, which the unique index makes a function. */
    method ExistingByUser(code: Code) returns (byUser: map<UserId, RowId>)
      requires Valid()
      ensures forall u | u in byUser ::
          byUser[u] in members && OpenIn(members[byUser[u]], code) && members[byUser[u]].user == u
      ensures forall u :: HasOpenRow(members, code, u) ==> u in byUser
    {
      var existing := set id | id in members && OpenIn(members[id], code);
      assert forall i, j | i in existing && j in existing && i != j :: Apart(members, i, j);
      byUser := map id | id in existing :: members[id].user := id;
      forall u | HasOpenRow(members, code, u) ensures u in byUser {
        var id :| id in members && OpenIn(members[id], code) && members[id].user == u;
        assert id in existing;
      }
    }

    /** The sync's pass over one item's member entries: rows open before are updated, others enter. */
    method EnterMembers(code: Code, entries: seq<MemberIn>) returns (payloadUsers: set<UserId>)
      requires Valid()
      modifies this`members, this`nextRow
      ensures members == EnterRows(old(members), code, entries, old(nextRow))
      ensures nextRow == old(nextRow) + |entries|
      ensures forall u :: u in payloadUsers <==> Names(entries, u)
    {
      ghost var start := members;
      var base := nextRow;
      var byUser := ExistingByUser(code);
      payloadUsers := {};
      for k := 0 to |entries|
        invariant members == EnterRows(start, code, entries[..k], base)
        invariant payloadUsers == NamedUsers(entries[..k])
        invariant nextRow == base + k
      {
        assert entries[..k + 1][..k] == entries[..k];
        nextRow := nextRow + 1;
        if entries[k].user == "" {
          BlankEntryEntersNothing(start, code, entries, base, k);
          continue;
        }
        payloadUsers := payloadUsers + {entries[k].user};
        ApplyEntry(start, code, entries, base, k, byUser);
      }
      assert entries[..|entries|] == entries;
      NamedUsersAreNamed(entries);
    }

    method UpsertRoom(server: ServerId, serverUrl: Url, item: RoomIn, now: Time)
      modifies this`rooms
      ensures rooms == old(rooms)[item.code := SyncedRoom(old(Snapshot()), server, serverUrl, item, now)]
    {
      var url := OrElse(item.wsUrl, serverUrl);
      if item.code !in rooms {
        rooms := rooms[item.code := Room(item.owner, Some(server), item.status, item.policy, item.passwordHash,
            item.config, url, now)];
      } else {
        var room := rooms[item.code].(owner := item.owner, server := Some(server), status := item.status,
            policy := item.policy);
        if item.passwordHash.Some? {
          room := room.(passwordHash := item.passwordHash);
        } else if item.policy != Password {
          room := room.(passwordHash := None);
        }
        rooms := rooms[item.code := room.(config := item.config, wsUrl := OrElse(url, room.wsUrl), updatedAt := now)];
      }
    }

    /** The sync's second pass over the rows that were open: those the payload does not name are closed. */
    method CloseUnnamed(existing: set<RowId>, payloadUsers: set<UserId>, now: Time)
      requires existing <= members.Keys
      modifies this`members
      ensures members == map id | id in old(members) ::
                if id in existing && old(members)[id].user !in payloadUsers
                then CloseRow(old(members)[id], now, Departed) else old(members)[id]
    {
      ghost var start := members;
      var rest := existing;
      while rest != {}
        invariant rest <= existing && members.Keys == start.Keys
        invariant forall id | id in start :: members[id] == if id in existing - rest && start[id].user !in payloadUsers
                                                            then CloseRow(start[id], now, Departed) else start[id]
        decreases |rest|
      {
        var id :| id in rest;
        rest := rest - {id};
        if members[id].user in payloadUsers {
          continue;
        }
        members := members[id := members[id].(leftAt := Some(now), status := Departed)];
      }
    }

    /** The roster part of an accepted item. */
    method SyncRoster(code: Code, entries: seq<MemberIn>, now: Time)
      requires Valid()
      modifies this`members, this`nextRow
      ensures members == SyncedRows(old(members), code, entries, old(nextRow), now)
      ensures nextRow == old(nextRow) + |entries|
    {
      ghost var start, base := members, nextRow;
      var existing := set id | id in members && OpenIn(members[id], code);
      var payloadUsers := EnterMembers(code, entries);
      ghost var entered := members;
      forall id | id in existing ensures id in entered && entered[id].user == start[id].user {
        EnterRowsAt(start, code, entries, base, id);
      }
      CloseUnnamed(existing, payloadUsers, now);
      assert members == DropUnnamed(start, entered, code, entries, now);
    }

    method SyncAcceptedRoom(server: ServerId, serverUrl: Url, item: RoomIn, now: Time)
      requires Valid() && item.code != ""
      modifies this
      ensures Snapshot() == AcceptItem(old(Snapshot()), server, serverUrl, item, now)
    {
      UpsertRoom(server, serverUrl, item, now);
      SyncRoster(item.code, item.members, now);
    }

    /** One item's round: passed over, skipped as gone, or accepted if the indexes allow it. */
    method SyncPayloadItem(server: ServerId, serverUrl: Url, item: RoomIn, now: Time,
                           accepted: seq<Code>, skipped: seq<Code>)
      returns (ok: bool, accepted': seq<Code>, skipped': seq<Code>)
      requires Valid()
      modifies this
      ensures var next := SyncItem(Progress(old(Snapshot()), accepted, skipped), server, serverUrl, item, now);
        && ok == UniqueOpenRows(next.dir.members)
        && (ok ==> Valid() && next == Progress(Snapshot(), accepted', skipped'))
    {
      ok, accepted', skipped' := true, accepted, skipped;
      if item.code == "" {
        return;
      }
      if item.code in tombstones || (item.code in rooms && rooms[item.code].status == Ended) {
        skipped' := skipped + [item.code];
        return;
      }
      ghost var before := Snapshot();
      SyncAcceptedRoom(server, serverUrl, item, now);
      accepted' := accepted + [item.code];
      ok := UniqueOpenRows(members);
      if ok {
      }
    }

    /** The loop over the payload items; false once the unique indexes reject an item's rows. */
    method SyncPayload(server: ServerId, serverUrl: Url, items: seq<RoomIn>, now: Time)
      returns (ok: bool, payloadCodes: set<Code>, accepted: seq<Code>, skipped: seq<Code>)
      requires Valid()
      modifies this
      ensures ok == SyncItems(old(Snapshot()), server, serverUrl, items, now).Some?
      ensures ok ==> Valid() && payloadCodes == PayloadCodes(items)
      ensures ok ==>
        SyncItems(old(Snapshot()), server, serverUrl, items, now) == Some(Progress(Snapshot(), accepted, skipped))
    {
      ghost var start := Snapshot();
      payloadCodes, accepted, skipped := {}, [], [];
      for i := 0 to |items|
        invariant Valid()
        invariant SyncItems(start, server, serverUrl, items[..i], now) == Some(Progress(Snapshot(), accepted, skipped))
        invariant payloadCodes == PayloadCodes(items[..i])
      {
        assert items[..i + 1][..i] == items[..i];
        PayloadCodesStep(items, i);
        if items[i].code != "" {
          payloadCodes := payloadCodes + {items[i].code};
        }
        ok, accepted, skipped := SyncPayloadItem(server, serverUrl, items[i], now, accepted, skipped);
        if !ok {
          SyncItemsStuck(start, server, serverUrl, items, now, i + 1);
          return;
        }
      }
      assert items[..|items|] == items;
      ok := true;
    }

    method CheckConfigs(items: seq<RoomIn>) returns (readable: bool)
      ensures readable == ConfigsReadable(items)
    {
      for i := 0 to |items|
        invariant ConfigsReadable(items[..i])
      {
        assert items[..i + 1] == items[..i] + [items[i]];
        if items[i].config.Malformed? {
          return false;
        }
      }
      assert items[..|items|] == items;
      return true;
    }

    method SyncRoomDirectory(server: ServerId, serverUrl: Url, items: seq<RoomIn>, now: Time) returns (reply: SyncReply)
      requires Valid()
      modifies this
      ensures Valid()
      ensures SyncOutcome(Snapshot(), reply) == SyncDirectory(old(Snapshot()), server, serverUrl, items, now)
    {
      var saved := Snapshot();
      var readable := CheckConfigs(items);
      if !readable {
        return SyncRefused(BadConfig);
      }
      BeatServer(server, serverUrl, now);
      var ok, payloadCodes, accepted, skipped := SyncPayload(server, serverUrl, items, now);
      if !ok {
        Rollback(saved);
        return SyncRefused(Conflict);
      }
      CollectRooms(server, payloadCodes, now);
      return Synced(accepted, skipped);
    }

    // ---------------------------------------------------- administrators

    method EndFoundRooms(found: seq<Code>, now: Time)
      requires forall c | c in found :: c in rooms
      modifies this`rooms
      ensures rooms == EndRooms(old(rooms), Elements(found), now)
    {
      ghost var start := rooms;
      for i := 0 to |found|
        invariant rooms == EndRooms(start, Elements(found[..i]), now)
      {
        assert found[i] in rooms;
        assert found[..i + 1] == found[..i] + [found[i]];
        rooms := rooms[found[i] := rooms[found[i]].(status := Ended, updatedAt := now)];
      }
      assert found[..|found|] == found;
    }

    method EndRoomsIn(existing: seq<Code>, now: Time)
      requires Valid() && forall c | c in existing :: c in rooms
      modifies this
      ensures Valid()
      ensures Snapshot() == EndByCodes(old(Snapshot()), Elements(existing), now)
    {
      ghost var start := Snapshot();
      EndFoundRooms(existing, now);
      MarkRoomMembersLeft(Elements(existing), now, RoomEnded);
      assert Elements(existing) * start.rooms.Keys == Elements(existing);
      ShrinkingStaysUnique(start.members, members);
    }

    /** end_room; false where it answers 404. */
    method EndRoom(code: Code, now: Time) returns (found: bool)
      requires Valid()
      modifies this
      ensures Valid()
      ensures found == (code in old(rooms))
      ensures Snapshot() == if found then EndByCodes(old(Snapshot()), {code}, now) else old(Snapshot())
    {
      found := code in rooms;
      if found {
        EndRoomsIn([code], now);
        assert Elements([code]) == {code};
      }
    }

    method BatchEndRooms(codes: seq<Code>, now: Time) returns (requested: nat, affected: nat, missing: seq<Code>)
      requires Valid()
      modifies this
      ensures Valid()
      ensures Snapshot() == EndByCodes(old(Snapshot()), Reported(codes), now)
      ensures requested == |Reported(codes)| == affected + |missing|
      ensures affected == |Reported(codes) * old(rooms).Keys|
      ensures Distinct(missing) && Elements(missing) == Reported(codes) - old(rooms).Keys
    {
      ghost var start := Snapshot();
      var wanted := NonEmptyItems(codes);
      DistinctSize(wanted);
      requested := |wanted|;
      var found := Rows(set c | c in rooms && c in wanted);
      var existing := Elements(found);
      assert existing == Elements(wanted) * rooms.Keys;
      EndRoomsIn(found, now);
      EndFoundIsEndWanted(start, Elements(wanted), now);
      missing := Missing(wanted, existing);
      affected := |existing|;
      assert Elements(wanted) * existing == existing;
      assert Elements(wanted) - existing == Elements(wanted) - start.rooms.Keys;
    }

    method AddTombstones(codes: seq<Code>)
      modifies this`tombstones
      ensures tombstones == old(tombstones) + Elements(codes)
    {
      for i := 0 to |codes|
        invariant tombstones == old(tombstones) + Elements(codes[..i])
      {
        assert codes[..i + 1] == codes[..i] + [codes[i]];
        if codes[i] !in tombstones {
          tombstones := tombstones + {codes[i]};
        }
      }
      assert codes[..|codes|] == codes;
    }

    method DeleteRoomsByCodes(codes: seq<Code>) returns (deleted: seq<Code>)
      requires Valid()
      modifies this
      ensures Valid()
      ensures Snapshot() == DeleteByCodes(old(Snapshot()), Reported(codes))
      ensures Distinct(deleted) && Elements(deleted) == Reported(codes) * old(rooms.Keys)
    {
      ghost var start := Snapshot();
      var wanted := NonEmptyItems(codes);
      var found := set c | c in rooms && c in wanted;
      deleted := Rows(found);
      assert Elements(deleted) == found == Reported(codes) * rooms.Keys;
      AddTombstones(deleted);
      members := map id | id in members && members[id].room !in found :: members[id];
      rooms := rooms - found;
      ShrinkingStaysUnique(start.members, members);
    }

    /** batch_delete_users, the room part: the users' own rooms go first. */
    method DeleteOwnedRooms(users: set<UserId>) returns (deleted: seq<Code>)
      requires Valid()
      modifies this
      ensures Valid()
      ensures Snapshot() == DeleteByCodes(old(Snapshot()), OwnedCodes(old(Snapshot()), users))
      ensures Distinct(deleted) && Elements(deleted) == OwnedCodes(old(Snapshot()), users)
      ensures |deleted| == |OwnedCodes(old(Snapshot()), users)|
    {
      var owned := Rows(set c | c in rooms && rooms[c].owner in users);
      assert Reported(owned) == OwnedCodes(Snapshot(), users);
      deleted := DeleteRoomsByCodes(owned);
      assert Elements(deleted) == Reported(owned);
      DistinctSize(deleted);
    }

    /** batch_delete_users, the member part: rows of the users in rooms that stay. */
    method DeleteMembersOf(users: set<UserId>)
      requires Valid()
      modifies this`members
      ensures Valid()
      ensures Snapshot() == WithoutMembers(old(Snapshot()), users)
    {
      members := map id | id in members && members[id].user !in users :: members[id];
      ShrinkingStaysUnique(old(members), members);
    }
  }
}
