/**
  Seats in join_room and in resumed games (backend/app/rooms.py).
 */
module SeatAllocation {
  import opened Prelude
  import opened RoomModel
  import opened RoomHandlers
  import opened RoomRuns

  /** The seats of a room for n players. */
  function SeatRange(n: nat): (seats: set<int>)
    ensures forall k :: k in seats <==> 0 <= k < n
    ensures |seats| == n
  {
    if n == 0 then {} else SeatRange(n - 1) + {n - 1}
  }

  /** The seat search returns the least free seat, at most the number of taken seats; so
      after the size check passed, the later check against the desired count cannot fire. */
  lemma SecondSizeCheckIsDead(taken: set<int>, desired: int)
    requires !(desired > 0 && |taken| >= desired)
    ensures var seat := SeatFrom(taken, 0);
      && 0 <= seat <= |taken|
      && seat !in taken
      && (forall free | free >= 0 && free !in taken :: seat <= free)
      && !(desired > 0 && seat >= desired)
  {
  }

  /** A room whose seated rows sit within its desired count, and that is not a resumed game. */
  ghost predicate PlainLobby(d: Directory, code: Code, desired: int) {
    && code in d.rooms && d.rooms[code].status == Lobby
    && d.rooms[code].config.Parsed? && !d.rooms[code].config.config.resume
    && AsInt(d.rooms[code].config.config.desired) == Some(desired)
    && desired > 0
    && OccupiedSeats(d.members, code, None) <= SeatRange(desired)
  }

  lemma NewSeatIsTaken(d: Directory, target: Directory, code: Code, user: UserId, seat: int)
    requires target.members == d.members && target.nextRow == d.nextRow && Consistent(d)
    requires seat !in OccupiedSeats(d.members, code, None)
    ensures OccupiedSeats(Issue(Insert(target, NewRow(code, user, Player, Some(seat))), d.nextRow).members, code, None)
            == OccupiedSeats(d.members, code, None) + {seat}
  {
    var before := d.members;
    var row := NewRow(code, user, Player, Some(seat));
    var after := Issue(Insert(target, row), d.nextRow).members;
    forall s | s in OccupiedSeats(before, code, None) ensures s in OccupiedSeats(after, code, None) {
      var id :| id in before && Open(before[id]) && before[id].room == code && before[id].seat == Some(s);
      assert id in after && after[id] == before[id];
    }
    assert d.nextRow in after && after[d.nextRow].seat == Some(seat);
    forall s | s in OccupiedSeats(after, code, None) && s != seat ensures s in OccupiedSeats(before, code, None) {
      var id :| id in after && Open(after[id]) && after[id].room == code && after[id].seat == Some(s);
      assert id in before && before[id] == after[id];
    }
  }

  lemma FullExactlyWhenAllTaken(taken: set<int>, desired: nat)
    requires taken <= SeatRange(desired)
    ensures |taken| >= desired <==> taken == SeatRange(desired)
    ensures |taken| <= desired
  {
    var rest := SeatRange(desired) - taken;
    assert SeatRange(desired) == taken + rest;
    assert |SeatRange(desired)| == |taken| + |rest|;
  }

  /** What a new player's reply and room look like: the least free seat, or no seat at all. */
  ghost predicate SeatsFilled(before: map<RowId, Member>, o: Outcome, code: Code, desired: int) {
    var taken := OccupiedSeats(before, code, None);
    var now := OccupiedSeats(o.after.members, code, None);
    if taken == SeatRange(Max(0, desired)) then o.reply == Refused(RoomFull)
    else
      && o.reply.Connected? && o.reply.token.seat == Some(SeatFrom(taken, 0))
      && now == taken + {SeatFrom(taken, 0)}
      && |now| == |taken| + 1 <= desired
      && now <= SeatRange(Max(0, desired))
  }

  lemma NewPlayerFillsSeats(d: Directory, target: Directory, url: Url, code: Code, user: UserId, desired: int)
    requires Sound(d) && target.members == d.members && target.nextRow == d.nextRow
    requires code in target.rooms && target.rooms[code].status == Lobby
    requires PlainLobby(d, code, desired) && ActiveRow(d.members, code, user).None?
    ensures SeatsFilled(d.members, JoinAsNew(d, target, url, code, user, d.rooms[code].config.config), code, desired)
  {
    var taken := OccupiedSeats(d.members, code, None);
    var config := d.rooms[code].config.config;
    FullExactlyWhenAllTaken(taken, desired);
    if |taken| < desired {
      SecondSizeCheckIsDead(taken, desired);
      JoinRowFits(d, code, user, config, desired);
      IssueUnique(Insert(target, NewRow(code, user, Player, Some(SeatFrom(taken, 0)))), d.nextRow);
      NewSeatIsTaken(d, target, code, user, SeatFrom(taken, 0));
    }
  }

  /** Main result: a new player is refused for want of room exactly when every seat is taken;
      otherwise the player gets the least free seat and the seated stay within the desired count. */
  lemma JoinFillsSeats(d: Directory, code: Code, user: UserId, passwordOk: bool, env: Env, desired: int)
    requires Sound(d) && ValidEnv(d, env) && PlainLobby(d, code, desired)
    requires ActiveRow(d.members, code, user).None?
    requires d.rooms[code].policy == Password ==> d.rooms[code].passwordHash.Some? && passwordOk
    ensures SeatsFilled(d.members, JoinRoom(d, code, user, passwordOk, env), code, desired)
  {
    var Target(moved, url) := ResolveTarget(d.servers, d.rooms[code], env);
    NewPlayerFillsSeats(d, d.(rooms := d.rooms[code := moved]), url, code, user, desired);
  }

  // ---------------------------------------------------------- resumed games

  lemma {:induction false} BindingsNonNegative(raw: seq<RawBinding>)
    ensures forall k | 0 <= k < |Bindings(raw)| :: Bindings(raw)[k].seat >= 0 && Bindings(raw)[k].user != ""
  {
    if raw != [] {
      BindingsNonNegative(raw[..|raw| - 1]);
    }
  }

  lemma {:induction false} FirstBindingIsBound(bindings: seq<SeatBinding>, user: UserId)
    ensures match FirstBinding(bindings, user)
            case Some(seat) => exists k | 0 <= k < |bindings| ::
              bindings[k] == SeatBinding(user, seat) && forall j | 0 <= j < k :: bindings[j].user != user
            case None => forall k | 0 <= k < |bindings| :: bindings[k].user != user
  {
    if bindings != [] && bindings[0].user != user {
      FirstBindingIsBound(bindings[1..], user);
      match FirstBinding(bindings, user)
      case Some(seat) =>
        var k :| 0 <= k < |bindings[1..]| && bindings[1..][k] == SeatBinding(user, seat)
                 && forall j | 0 <= j < k :: bindings[1..][j].user != user;
        assert bindings[k + 1] == SeatBinding(user, seat);
        assert forall j | 0 < j < k + 1 :: bindings[j] == bindings[1..][j - 1];
      case None =>
        assert forall k | 0 < k < |bindings| :: bindings[k] == bindings[1..][k - 1];
    }
  }

  /** int(value or 0): nothing and empty values are 0, booleans 1 or 0, fractions lose what is behind the point,
      text counts if it reads as an integer, and everything else is an error. */
  lemma AsIntIs(value: Json)
    ensures value.Absent? || value.Empty? ==> AsInt(value) == Some(0)
    ensures value.Boolean? ==> AsInt(value) == Some(if value.b then 1 else 0)
    ensures value.Whole? ==> AsInt(value) == Some(value.n)
    ensures value.Numeral? ==> AsInt(value) == Some(value.digits)
    ensures value.Opaque? ==> AsInt(value) == None
    ensures value.Fraction? && value.r >= 0.0 ==>
      AsInt(value).Some? && AsInt(value).value as real <= value.r < AsInt(value).value as real + 1.0
    ensures value.Fraction? && value.r < 0.0 ==>
      AsInt(value).Some? && AsInt(value).value as real - 1.0 < value.r <= AsInt(value).value as real
  {
  }

  /** A JSON number that is a whole number, written as an integer or not. */
  predicate Integral(value: Json, n: int) {
    value == Whole(n) || (value.Fraction? && value.r == n as real)
  }

  /** The entry binds the user to the seat: by its seat index if that is a whole number, else by its player id. */
  ghost predicate Binds(item: RawBinding, user: UserId, seat: int) {
    && item.Entry? && item.user == user && user != "" && seat >= 0
    && (Integral(item.seatIndex, seat) || ((forall n :: !Integral(item.seatIndex, n)) && Integral(item.playerId, seat)))
  }

  /** The first entry that binds the user to a seat binds it to this one. */
  ghost predicate BoundTo(raw: seq<RawBinding>, user: UserId, seat: int) {
    exists k | 0 <= k < |raw| :: Binds(raw[k], user, seat) && forall j, n | 0 <= j < k :: !Binds(raw[j], user, n)
  }

  /** No whole desired count above zero rules the seat out. */
  ghost predicate WithinDesired(config: Config, seat: int) {
    forall n | Integral(config.desired, n) && n > 0 :: seat < n
  }

  /** The seat a resumed game has for the user: the one they are bound to, if it is free and within
      the desired count. */
  ghost predicate SeatGiven(config: Config, user: UserId, taken: set<int>, seat: Option<int>) {
    if seat.Some? then
      BoundTo(config.bindings, user, seat.value) && seat.value !in taken && WithinDesired(config, seat.value)
    else forall n | BoundTo(config.bindings, user, n) :: n in taken || !WithinDesired(config, n)
  }

  lemma {:induction false} FirstBindingAppends(a: seq<SeatBinding>, b: seq<SeatBinding>, user: UserId)
    ensures FirstBinding(a + b, user)
            == if FirstBinding(a, user).Some? then FirstBinding(a, user) else FirstBinding(b, user)
  {
    if a == [] {
      assert a + b == b;
    } else {
      FirstBindingAppends(a[1..], b, user);
      assert (a + b)[1..] == a[1..] + b;
    }
  }

  /** Whole numbers are read as themselves, everything else is not read. */
  lemma CoercedIsIntegral(value: Json)
    ensures forall n :: CoerceInt(value) == Some(n) <==> Integral(value, n)
  {
    if value.Fraction? {
      forall n ensures CoerceInt(value) == Some(n) <==> value.r == n as real {
        assert value.r == n as real ==> value.r.Floor == n;
      }
    }
  }

  lemma ReadBindingBinds(item: RawBinding, user: UserId)
    requires user != ""
    ensures forall seat :: FirstBinding(ReadBinding(item), user) == Some(seat) <==> Binds(item, user, seat)
  {
    if item.Entry? {
      CoercedIsIntegral(item.seatIndex);
      CoercedIsIntegral(item.playerId);
      forall n ensures CoerceInt(item.seatIndex).None? ==> !Integral(item.seatIndex, n) {
      }
    }
  }

  lemma BoundToAppends(front: seq<RawBinding>, last: RawBinding, user: UserId, seat: int)
    ensures BoundTo(front, user, seat) ==> BoundTo(front + [last], user, seat)
    ensures (forall k, n | 0 <= k < |front| :: !Binds(front[k], user, n)) && Binds(last, user, seat) ==>
      BoundTo(front + [last], user, seat)
  {
    var raw := front + [last];
    assert forall k | 0 <= k < |front| :: raw[k] == front[k];
    if BoundTo(front, user, seat) {
      var k :| 0 <= k < |front| && Binds(front[k], user, seat) && forall j, n | 0 <= j < k :: !Binds(front[j], user, n);
      assert Binds(raw[k], user, seat);
    }
    assert raw[|front|] == last;
  }

  lemma {:induction false} FirstBindingIsBoundTo(raw: seq<RawBinding>, user: UserId)
    requires user != ""
    ensures match FirstBinding(Bindings(raw), user)
            case Some(seat) => BoundTo(raw, user, seat)
            case None => forall k, n | 0 <= k < |raw| :: !Binds(raw[k], user, n)
  {
    if raw != [] {
      var front, last := raw[..|raw| - 1], raw[|raw| - 1];
      var before, now := FirstBinding(Bindings(front), user), FirstBinding(ReadBinding(last), user);
      FirstBindingIsBoundTo(front, user);
      FirstBindingAppends(Bindings(front), ReadBinding(last), user);
      ReadBindingBinds(last, user);
      assert raw == front + [last];
      if before.Some? {
        BoundToAppends(front, last, user, before.value);
      } else if now.Some? {
        BoundToAppends(front, last, user, now.value);
      }
    }
  }

  lemma BoundToIsOne(raw: seq<RawBinding>, user: UserId, m: int, n: int)
    requires BoundTo(raw, user, m) && BoundTo(raw, user, n)
    ensures m == n
  {
    var i :| 0 <= i < |raw| && Binds(raw[i], user, m) && forall j, x | 0 <= j < i :: !Binds(raw[j], user, x);
    var k :| 0 <= k < |raw| && Binds(raw[k], user, n) && forall j, x | 0 <= j < k :: !Binds(raw[j], user, x);
    assert i == k;
  }

  /** The seat search of a resumed game, in terms of the configuration as it is written. */
  lemma ResumeSeatIsGiven(config: Config, user: UserId, taken: set<int>)
    ensures SeatGiven(config, user, taken, ResumeSeat(config, user, taken))
  {
    CoercedIsIntegral(config.desired);
    if user != "" {
      FirstBindingIsBoundTo(config.bindings, user);
      BindingsNonNegative(config.bindings);
      var first := FirstBinding(Bindings(config.bindings), user);
      forall n | BoundTo(config.bindings, user, n) ensures first == Some(n) {
        if first.Some? {
          BoundToIsOne(config.bindings, user, first.value, n);
        }
      }
      if first.Some? {
        var desired := CoerceInt(config.desired);
        assert WithinDesired(config, first.value)
          <==> !(desired.Some? && desired.value > 0 && first.value >= desired.value) by
        {
          if desired.Some? {
            assert Integral(config.desired, desired.value);
          }
        }
      }
    }
  }

  /** A bound seat is the one the user's first binding names, is free, and is below the
      desired count whenever that count is written as a number. */
  lemma ResumeSeatIsBoundAndFree(config: Config, user: UserId, taken: set<int>)
    requires ResumeSeat(config, user, taken).Some?
    ensures var seat := ResumeSeat(config, user, taken).value;
      && 0 <= seat && seat !in taken
      && (exists k | 0 <= k < |Bindings(config.bindings)| :: Bindings(config.bindings)[k] == SeatBinding(user, seat))
      && (CoerceInt(config.desired).Some? && CoerceInt(config.desired).value > 0 ==>
          seat < CoerceInt(config.desired).value)
  {
    BindingsNonNegative(config.bindings);
    FirstBindingIsBound(Bindings(config.bindings), user);
  }

  /** Every bound seat of every configuration with this desired count is below it. */
  ghost predicate BoundSeatsFit(desired: Json) {
    forall resume, bindings, spectators, user, taken: set<int> ::
      var config := Config(resume, desired, bindings, spectators);
      ResumeSeat(config, user, taken).Some? ==> ResumeSeat(config, user, taken).value < AsInt(desired).GetOr(0)
  }

  /** join_room reads the desired count with int(), the bindings read it with a stricter
      rule. Bound seats stay below the count join_room enforces exactly when the stricter
      rule can read it too; for text, booleans and broken fractions they need not. */
  lemma BoundSeatsFitIff(desired: Json)
    requires AsInt(desired).Some? && AsInt(desired).value > 0
    ensures BoundSeatsFit(desired) <==> CoerceInt(desired).Some?
  {
    var n := AsInt(desired).value;
    if CoerceInt(desired).Some? {
      forall resume, bindings, spectators, user, taken: set<int>
        ensures var config := Config(resume, desired, bindings, spectators);
                ResumeSeat(config, user, taken).Some? ==> ResumeSeat(config, user, taken).value < n
      {
        var config := Config(resume, desired, bindings, spectators);
        if ResumeSeat(config, user, taken).Some? {
          ResumeSeatIsBoundAndFree(config, user, taken);
        }
      }
    } else {
      var entry := Entry("u", Whole(n), Absent);
      var config := Config(true, desired, [entry], true);
      assert Bindings([entry]) == [SeatBinding("u", n)] by {
        assert [entry][..0] == [];
      }
      assert ResumeSeat(config, "u", {}) == Some(n);
    }
  }

  /** An input that fails: for the desired count written as the text 4, a binding to seat 4 is honoured. */
  lemma TextCountLetsSeatPass()
    ensures var config := Config(true, Numeral(4), [Entry("u", Whole(4), Absent)], true);
            ResumeSeat(config, "u", {}) == Some(4) && AsInt(config.desired) == Some(4)
  {
    var entry := Entry("u", Whole(4), Absent);
    assert [entry][..0] == [];
    assert Bindings([entry]) == [SeatBinding("u", 4)];
  }
}
