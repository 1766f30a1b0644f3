/**
  The device authorization grant (backend/app/device_auth.py; sections 3.4 and 3.5 of
  RFC 8628). Codes are drawn by the caller; `sessions` and `approvals` record what
  was handed out and what was approved.
 */
module DeviceCodes {
  import opened Prelude
  import opened RoomModel

  datatype CodeStatus = PendingCode | Authorized | Consumed | Expired

  datatype DeviceCode = DeviceCode(userCode: string, deviceId: string, user: Option<UserId>, status: CodeStatus,
      expiresAt: Time)

  /** Something that happened for a device code, on behalf of a user. */
  datatype Event = Event(code: string, user: UserId, at: Time)

  datatype Devices = Devices(codes: map<string, DeviceCode>, approvals: seq<Event>, sessions: seq<Event>)

  datatype DeviceReply =
    | Issued | Approved | Session(user: UserId) | MissingDevice | NotFound | Gone | StillPending | CodeTaken

  datatype DeviceOutcome = DeviceOutcome(after: Devices, reply: DeviceReply)

  // ----------------------------------------------------------------- handlers

  predicate UserCodesUnique(codes: map<string, DeviceCode>) {
    forall c, c' | c in codes && c' in codes && c != c' :: codes[c].userCode != codes[c'].userCode
  }

  predicate Free(d: Devices, code: string, userCode: string) {
    code !in d.codes && forall c | c in d.codes :: d.codes[c].userCode != userCode
  }

  function RequestCode(d: Devices, deviceId: string, code: string, userCode: string, lifetime: nat,
                       now: Time): DeviceOutcome {
    if deviceId == "" then DeviceOutcome(d, MissingDevice)
    else if !Free(d, code, userCode) then DeviceOutcome(d, CodeTaken)
    else
      var added := DeviceCode(userCode, deviceId, None, PendingCode, now + lifetime);
      DeviceOutcome(d.(codes := d.codes[code := added]), Issued)
  }

  predicate Approvable(d: Devices, code: string, userCode: string, now: Time) {
    code in d.codes && d.codes[code].userCode == userCode && d.codes[code].status == PendingCode
        && d.codes[code].expiresAt > now
  }

  ghost function Authorize(d: Devices, user: UserId, userCode: string, now: Time): DeviceOutcome {
    if code :| Approvable(d, code, userCode, now) then
      DeviceOutcome(d.(codes := d.codes[code := d.codes[code].(user := Some(user), status := Authorized)],
                       approvals := d.approvals + [Event(code, user, now)]), Approved)
    else DeviceOutcome(d, NotFound)
  }

  function Poll(d: Devices, code: string, deviceId: string, userExists: bool, now: Time): DeviceOutcome {
    if code !in d.codes || d.codes[code].deviceId != deviceId then DeviceOutcome(d, NotFound)
    else
      var dc := d.codes[code];
      if dc.expiresAt <= now then DeviceOutcome(d.(codes := d.codes[code := dc.(status := Expired)]), Gone)
      else if dc.status == PendingCode then DeviceOutcome(d, StillPending)
      else if dc.status == Consumed || dc.status == Expired then DeviceOutcome(d, Gone)
      else if !userExists || dc.user.None? then DeviceOutcome(d, NotFound)
      else DeviceOutcome(d.(codes := d.codes[code := dc.(status := Consumed)],
                            sessions := d.sessions + [Event(code, dc.user.value, now)]), Session(dc.user.value))
  }

  // ---------------------------------------------------------------- invariant

  /** What the records say of one code, given where it stands. */
  ghost predicate CodeSound(d: Devices, code: string)
    requires code in d.codes
  {
    var dc := d.codes[code];
    && (dc.status == PendingCode ==> dc.user == None && !Happened(d.approvals, code) && !Happened(d.sessions, code))
    && (dc.status == Authorized ==>
        dc.user.Some? && ApprovedFor(d.approvals, code, dc.user.value, dc.expiresAt) && !Happened(d.sessions, code))
    && (dc.status == Consumed ==> dc.user.Some? && ApprovedFor(d.approvals, code, dc.user.value, dc.expiresAt))
  }

  ghost predicate Happened(events: seq<Event>, code: string) {
    exists k :: 0 <= k < |events| && events[k].code == code
  }

  /** The code was approved for this user, before it expired. */
  ghost predicate ApprovedFor(approvals: seq<Event>, code: string, user: UserId, expiresAt: Time) {
    exists k :: 0 <= k < |approvals| && approvals[k].code == code && approvals[k].user == user
        && approvals[k].at < expiresAt
  }

  ghost predicate OncePerCode(events: seq<Event>) {
    forall i, j | 0 <= i < j < |events| :: events[i].code != events[j].code
  }

  /** A session follows an approval of its code by its user, in time. */
  ghost predicate Earned(d: Devices, s: Event) {
    && s.code in d.codes && (d.codes[s.code].status == Consumed || d.codes[s.code].status == Expired)
    && s.at < d.codes[s.code].expiresAt
    && exists k :: 0 <= k < |d.approvals| && d.approvals[k].code == s.code && d.approvals[k].user == s.user
        && d.approvals[k].at <= s.at
  }

  ghost predicate Sound(d: Devices, now: Time) {
    && UserCodesUnique(d.codes)
    && (forall c | c in d.codes :: CodeSound(d, c))
    && OncePerCode(d.approvals) && OncePerCode(d.sessions)
    && (forall k | 0 <= k < |d.approvals| :: d.approvals[k].code in d.codes && d.approvals[k].at <= now)
    && (forall k | 0 <= k < |d.sessions| :: Earned(d, d.sessions[k]))
  }

  datatype Action =
    | Requests(deviceId: string, code: string, userCode: string, lifetime: nat)
    | Authorizes(user: UserId, userCode: string)
    | Polls(code: string, deviceId: string, userExists: bool)

  ghost function Step(d: Devices, a: Action, now: Time): DeviceOutcome {
    match a
    case Requests(deviceId, code, userCode, lifetime) => RequestCode(d, deviceId, code, userCode, lifetime, now)
    case Authorizes(user, userCode) => Authorize(d, user, userCode, now)
    case Polls(code, deviceId, userExists) => Poll(d, code, deviceId, userExists, now)
  }

  lemma RequestSound(d: Devices, deviceId: string, code: string, userCode: string, lifetime: nat, now: Time)
    requires Sound(d, now)
    ensures Sound(RequestCode(d, deviceId, code, userCode, lifetime, now).after, now)
  {
    var after := RequestCode(d, deviceId, code, userCode, lifetime, now).after;
    forall c | c in after.codes ensures CodeSound(after, c) {
      assert c in d.codes ==> CodeSound(d, c);
    }
    forall k | 0 <= k < |after.sessions| ensures Earned(after, after.sessions[k]) {
      assert Earned(d, d.sessions[k]);
    }
  }

  lemma AuthorizeSound(d: Devices, user: UserId, userCode: string, now: Time)
    requires Sound(d, now)
    ensures Sound(Authorize(d, user, userCode, now).after, now)
  {
    var o := Authorize(d, user, userCode, now);
    if o.reply == Approved {
      var after := o.after;
      var event := after.approvals[|d.approvals|];
      assert CodeSound(d, event.code);
      forall k | 0 <= k < |d.approvals| ensures d.approvals[k].code != event.code {
      }
      forall c | c in after.codes ensures CodeSound(after, c) {
        assert CodeSound(d, c);
        if c == event.code {
          assert after.approvals[|d.approvals|] == event;
        } else if d.codes[c].user.Some? && ApprovedFor(d.approvals, c, d.codes[c].user.value, d.codes[c].expiresAt) {
          ApprovalsOnlyGrow(d.approvals, event, c, d.codes[c].user.value, d.codes[c].expiresAt);
        }
      }
      forall k | 0 <= k < |after.sessions| ensures Earned(after, after.sessions[k]) {
        assert Earned(d, d.sessions[k]);
        var s := d.sessions[k];
        var j :| 0 <= j < |d.approvals| && d.approvals[j].code == s.code && d.approvals[j].user == s.user
            && d.approvals[j].at <= s.at;
        assert after.approvals[j] == d.approvals[j];
      }
    }
  }

  lemma ApprovalsOnlyGrow(approvals: seq<Event>, event: Event, code: string, user: UserId, expiresAt: Time)
    requires ApprovedFor(approvals, code, user, expiresAt)
    ensures ApprovedFor(approvals + [event], code, user, expiresAt)
  {
    var k :| 0 <= k < |approvals| && approvals[k].code == code && approvals[k].user == user
        && approvals[k].at < expiresAt;
    assert (approvals + [event])[k] == approvals[k];
  }

  lemma PollSound(d: Devices, code: string, deviceId: string, userExists: bool, now: Time)
    requires Sound(d, now)
    ensures Sound(Poll(d, code, deviceId, userExists, now).after, now)
  {
    var o := Poll(d, code, deviceId, userExists, now);
    var after := o.after;
    if code in d.codes {
      assert CodeSound(d, code);
    }
    forall c | c in after.codes ensures CodeSound(after, c) {
      assert CodeSound(d, c);
      if o.reply.Session? && c != code && d.codes[c].status != Consumed && d.codes[c].status != Expired {
        assert forall k | 0 <= k < |after.sessions| :: after.sessions[k].code != c;
      }
    }
    forall k | 0 <= k < |after.sessions| ensures Earned(after, after.sessions[k]) {
      if k < |d.sessions| {
        assert Earned(d, d.sessions[k]);
        assert after.sessions[k] == d.sessions[k];
      } else {
        var user := d.codes[code].user.value;
        var j :| 0 <= j < |d.approvals| && d.approvals[j].code == code && d.approvals[j].user == user
            && d.approvals[j].at < d.codes[code].expiresAt;
      }
    }
  }

  /** Once consumed or expired, never pending or authorized again; and the deadline never moves. */
  ghost predicate NeverBack(d: Devices, after: Devices, code: string) {
    code in d.codes ==>
      && code in after.codes && after.codes[code].expiresAt == d.codes[code].expiresAt
      && (d.codes[code].status == Consumed || d.codes[code].status == Expired ==>
            after.codes[code].status == Consumed || after.codes[code].status == Expired)
      && (after.codes[code].status == PendingCode ==> d.codes[code].status == PendingCode)
  }

  lemma StepSound(d: Devices, a: Action, now: Time, code: string)
    requires Sound(d, now)
    ensures Sound(Step(d, a, now).after, now)
    ensures NeverBack(d, Step(d, a, now).after, code)
  {
    match a
    case Requests(deviceId, c, userCode, lifetime) => RequestSound(d, deviceId, c, userCode, lifetime, now);
    case Authorizes(user, userCode) => AuthorizeSound(d, user, userCode, now);
    case Polls(c, deviceId, userExists) => PollSound(d, c, deviceId, userExists, now);
  }

  lemma LaterIsSound(d: Devices, now: Time, later: Time)
    requires Sound(d, now) && now <= later
    ensures Sound(d, later)
  {
  }

  ghost predicate IsRun(trace: seq<Devices>, actions: seq<Action>, times: seq<Time>) {
    && |trace| == |actions| + 1 && |times| == |actions| + 1
    && Sound(trace[0], times[0])
    && forall k | 0 <= k < |actions| :: times[k] <= times[k + 1]
        && trace[k + 1] == Step(trace[k], actions[k], times[k]).after
  }

  /** The approval was recorded at a step of the run that found the code pending and unexpired. */
  ghost predicate ApprovedWhilePending(trace: seq<Devices>, times: seq<Time>, k: nat, approval: Event)
    requires k < |trace| == |times|
  {
    exists n | 0 <= n < k :: ApprovedAt(trace, times, n, approval)
  }

  ghost predicate ApprovedAt(trace: seq<Devices>, times: seq<Time>, n: nat, approval: Event)
    requires n + 1 < |trace| == |times|
  {
    && approval.at == times[n] && approval.code in trace[n].codes
    && trace[n].codes[approval.code].status == PendingCode && times[n] < trace[n].codes[approval.code].expiresAt
    && trace[n + 1].approvals == trace[n].approvals + [approval]
  }

  /** Approvals a run adds were made while their code was pending. */
  lemma {:induction false} ApprovalsWerePending(trace: seq<Devices>, actions: seq<Action>, times: seq<Time>, k: nat)
    requires IsRun(trace, actions, times) && k < |trace|
    ensures trace[0].approvals <= trace[k].approvals
    ensures forall i | |trace[0].approvals| <= i < |trace[k].approvals| ::
      ApprovedWhilePending(trace, times, k, trace[k].approvals[i])
  {
    if k > 0 {
      ApprovalsWerePending(trace, actions, times, k - 1);
      var before, after := trace[k - 1].approvals, trace[k].approvals;
      forall i | |trace[0].approvals| <= i < |after| ensures ApprovedWhilePending(trace, times, k, after[i]) {
        if i < |before| {
          assert ApprovedWhilePending(trace, times, k - 1, before[i]);
        } else {
          assert ApprovedAt(trace, times, k - 1, after[i]);
        }
      }
    }
  }

  /** The session follows an approval of its code by its user, made earlier in the run while the
      code was pending and unexpired. */
  ghost predicate Granted(trace: seq<Devices>, times: seq<Time>, k: nat, session: Event)
    requires k < |trace| == |times|
  {
    exists n, at | 0 <= n < k && at <= session.at ::
      ApprovedAt(trace, times, n, Event(session.code, session.user, at))
  }

  lemma SessionGranted(trace: seq<Devices>, actions: seq<Action>, times: seq<Time>, k: nat, i: nat)
    requires IsRun(trace, actions, times) && k < |trace| && trace[0].approvals == []
    requires i < |trace[k].sessions| && Earned(trace[k], trace[k].sessions[i])
    ensures Granted(trace, times, k, trace[k].sessions[i])
  {
    var session, approvals := trace[k].sessions[i], trace[k].approvals;
    ApprovalsWerePending(trace, actions, times, k);
    var a :| 0 <= a < |approvals| && approvals[a].code == session.code && approvals[a].user == session.user
             && approvals[a].at <= session.at;
    var n :| 0 <= n < k && ApprovedAt(trace, times, n, approvals[a]);
    assert approvals[a] == Event(session.code, session.user, approvals[a].at);
  }

  /** Main result: over any run with advancing time a device code yields at most one session, each
      session follows an approval of that code by that same user; and in a run that starts without
      approvals, that approval was made at a step that found the code pending and unexpired. */
  lemma {:induction false} RunsAreSound(trace: seq<Devices>, actions: seq<Action>, times: seq<Time>, k: nat)
    requires IsRun(trace, actions, times) && k < |trace|
    ensures Sound(trace[k], times[k])
    ensures OncePerCode(trace[k].sessions)
    ensures forall i | 0 <= i < |trace[k].sessions| :: Earned(trace[k], trace[k].sessions[i])
    ensures trace[0].approvals == [] ==>
      forall i | 0 <= i < |trace[k].sessions| :: Granted(trace, times, k, trace[k].sessions[i])
  {
    if k > 0 {
      RunsAreSound(trace, actions, times, k - 1);
      StepSound(trace[k - 1], actions[k - 1], times[k - 1], "");
      LaterIsSound(trace[k], times[k - 1], times[k]);
    }
    if trace[0].approvals == [] {
      forall i | 0 <= i < |trace[k].sessions| ensures Granted(trace, times, k, trace[k].sessions[i]) {
        SessionGranted(trace, actions, times, k, i);
      }
    }
  }

  /** Main result: consumed and expired codes never become pending or authorized again. */
  lemma {:induction false} SpentStaysSpent(trace: seq<Devices>, actions: seq<Action>, times: seq<Time>, i: nat,
                                           j: nat, code: string)
    requires IsRun(trace, actions, times) && i <= j < |trace|
    ensures NeverBack(trace[i], trace[j], code)
  {
    if i < j {
      SpentStaysSpent(trace, actions, times, i, j - 1, code);
      RunsAreSound(trace, actions, times, j - 1);
      StepSound(trace[j - 1], actions[j - 1], times[j - 1], code);
    }
  }

  /** A session is granted exactly to a poll, with the right device, of an authorized and
      unexpired code whose user exists, and for the user who authorized it. */
  lemma PollGrantsIff(d: Devices, code: string, deviceId: string, userExists: bool, now: Time)
    requires Sound(d, now)
    ensures Poll(d, code, deviceId, userExists, now).reply.Session? <==>
      code in d.codes && d.codes[code].deviceId == deviceId && d.codes[code].status == Authorized
          && now < d.codes[code].expiresAt && userExists
    ensures Poll(d, code, deviceId, userExists, now).reply.Session? ==>
      ApprovedFor(d.approvals, code, Poll(d, code, deviceId, userExists, now).reply.user, d.codes[code].expiresAt)
  {
  }

  /** A request with a device id and unused codes is issued: a pending code nobody has approved, which
      expires when its lifetime is over. */
  lemma RequestAnswers(d: Devices, deviceId: string, code: string, userCode: string, lifetime: nat, now: Time)
    ensures var o := RequestCode(d, deviceId, code, userCode, lifetime, now);
      && (o.reply == Issued <==>
            deviceId != "" && code !in d.codes && forall c | c in d.codes :: d.codes[c].userCode != userCode)
      && (o.reply == MissingDevice <==> deviceId == "")
      && (o.reply != Issued ==> o.after == d)
      && (o.reply == Issued ==>
            && o.after.codes.Keys == d.codes.Keys + {code}
            && (forall c | c in d.codes :: o.after.codes[c] == d.codes[c])
            && o.after.codes[code].status == PendingCode && o.after.codes[code].user == None
            && o.after.codes[code].userCode == userCode && o.after.codes[code].deviceId == deviceId
            && o.after.codes[code].expiresAt == now + lifetime
            && o.after.approvals == d.approvals && o.after.sessions == d.sessions)
  {
  }

  /** An approval finds the pending unexpired code of this user code, and only marks it as the user's. */
  lemma AuthorizeAnswers(d: Devices, user: UserId, userCode: string, now: Time)
    requires UserCodesUnique(d.codes)
    ensures var o := Authorize(d, user, userCode, now);
      && (o.reply == Approved || (o.reply == NotFound && o.after == d))
      && (o.reply == Approved <==> exists c :: c in d.codes && d.codes[c].userCode == userCode
                                    && d.codes[c].status == PendingCode && now < d.codes[c].expiresAt)
      && (forall c | c in d.codes && d.codes[c].userCode == userCode && o.reply == Approved ::
            && o.after.codes.Keys == d.codes.Keys
            && (forall x | x in d.codes && x != c :: o.after.codes[x] == d.codes[x])
            && o.after.codes[c].status == Authorized && o.after.codes[c].user == Some(user)
            && o.after.codes[c].userCode == userCode && o.after.codes[c].deviceId == d.codes[c].deviceId
            && o.after.codes[c].expiresAt == d.codes[c].expiresAt
            && o.after.approvals == d.approvals + [Event(c, user, now)] && o.after.sessions == d.sessions)
  {
    if c :| c in d.codes && d.codes[c].userCode == userCode && d.codes[c].status == PendingCode
            && now < d.codes[c].expiresAt
    {
      assert Approvable(d, c, userCode, now);
    }
  }

  /** Which answer a poll gets, code by code; only expiry and a granted session change anything. */
  lemma PollAnswers(d: Devices, code: string, deviceId: string, userExists: bool, now: Time)
    requires Sound(d, now)
    ensures var o := Poll(d, code, deviceId, userExists, now);
      if code !in d.codes || d.codes[code].deviceId != deviceId then o == DeviceOutcome(d, NotFound)
      else if d.codes[code].expiresAt <= now then
        && o.reply == Gone && o.after.sessions == d.sessions && o.after.approvals == d.approvals
        && o.after.codes == d.codes[code := d.codes[code].(status := Expired)]
      else
        match d.codes[code].status
        case PendingCode => o == DeviceOutcome(d, StillPending)
        case Consumed => o == DeviceOutcome(d, Gone)
        case Expired => o == DeviceOutcome(d, Gone)
        case Authorized =>
          if !userExists then o == DeviceOutcome(d, NotFound)
          else
            && o.reply.Session? && d.codes[code].user == Some(o.reply.user)
            && o.after.sessions == d.sessions + [Event(code, o.reply.user, now)] && o.after.approvals == d.approvals
            && o.after.codes == d.codes[code := d.codes[code].(status := Consumed)]
  {
    if code in d.codes {
      assert CodeSound(d, code);
    }
  }

  // -------------------------------------------------------------------- class

  class DeviceStore {
    var codes: map<string, DeviceCode>
    ghost var approvals: seq<Event>
    var sessions: seq<Event>

    ghost function Snapshot(): Devices
      reads this
    {
      Devices(codes, approvals, sessions)
    }

    ghost predicate Valid()
      reads this
    {
      UserCodesUnique(codes)
    }

    constructor ()
      ensures Valid() && Snapshot() == Devices(map[], [], [])
    {
      codes, approvals, sessions := map[], [], [];
    }

    method RequestDeviceCode(deviceId: string, code: string, userCode: string, lifetime: nat, now: Time)
      returns (reply: DeviceReply)
      requires Valid()
      modifies this
      ensures Valid()
      ensures DeviceOutcome(Snapshot(), reply) == RequestCode(old(Snapshot()), deviceId, code, userCode, lifetime, now)
      ensures reply != Issued ==> Snapshot() == old(Snapshot())
      ensures reply == Issued ==> code !in old(codes) && code in codes && codes - {code} == old(codes)
    {
      if deviceId == "" {
        return MissingDevice;
      }
      if code in codes || userCode in (set c | c in codes :: codes[c].userCode) {
        return CodeTaken;
      }
      codes := codes[code := DeviceCode(userCode, deviceId, None, PendingCode, now + lifetime)];
      return Issued;
    }

    method AuthorizeDevice(user: UserId, userCode: string, now: Time) returns (reply: DeviceReply)
      requires Valid()
      modifies this
      ensures Valid()
      ensures DeviceOutcome(Snapshot(), reply) == Authorize(old(Snapshot()), user, userCode, now)
      ensures reply != Approved ==>
        Snapshot() == old(Snapshot()) && forall c :: !Approvable(old(Snapshot()), c, userCode, now)
      ensures reply == Approved ==> exists c ::
        && Approvable(old(Snapshot()), c, userCode, now)
        && codes == old(codes)[c := old(codes)[c].(user := Some(user), status := Authorized)]
        && approvals == old(approvals) + [Event(c, user, now)]
    {
      var rows := set c | c in codes && codes[c].userCode == userCode && codes[c].status == PendingCode
          && codes[c].expiresAt > now;
      if rows == {} {
        assert forall c :: !Approvable(Snapshot(), c, userCode, now) by {
          assert forall c | c in codes :: c !in rows;
        }
        return NotFound;
      }
      var code :| code in rows;
      assert Approvable(Snapshot(), code, userCode, now);
      assert forall c :: Approvable(Snapshot(), c, userCode, now) ==> c == code;
      codes := codes[code := codes[code].(user := Some(user), status := Authorized)];
      approvals := approvals + [Event(code, user, now)];
      return Approved;
    }

    method PollDeviceToken(code: string, deviceId: string, userExists: bool, now: Time) returns (reply: DeviceReply)
      requires Valid()
      modifies this
      ensures Valid()
      ensures DeviceOutcome(Snapshot(), reply) == Poll(old(Snapshot()), code, deviceId, userExists, now)
      ensures reply.Session? ==>
        && code in old(codes) && code in codes && codes - {code} == old(codes) - {code}
        && old(codes)[code].status == Authorized && old(codes)[code].user == Some(reply.user)
        && codes[code].status == Consumed && sessions == old(sessions) + [Event(code, reply.user, now)]
      ensures !reply.Session? ==> sessions == old(sessions)
    {
      if code !in codes || codes[code].deviceId != deviceId {
        return NotFound;
      }
      var dc := codes[code];
      if dc.expiresAt <= now {
        codes := codes[code := dc.(status := Expired)];
        return Gone;
      }
      match dc.status
      case PendingCode => return StillPending;
      case Consumed => return Gone;
      case Expired => return Gone;
      case Authorized =>
        if dc.user.None? || !userExists {
          return NotFound;
        }
        codes := codes[code := dc.(status := Consumed)];
        sessions := sessions + [Event(code, dc.user.value, now)];
        return Session(dc.user.value);
    }
  }
}
