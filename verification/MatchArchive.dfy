/**
  Finished matches and the artifacts uploaded for their rooms
  (backend/app/internal.py, backend/app/matches.py, backend/app/admin.py).
 */
module MatchArchive {
  import opened Prelude
  import opened RoomModel

  type MatchId = nat

  datatype ArtifactType = Autosave | Snapshot | OtherArtifact

  datatype SnapshotKind = RoundEnd | GameOver

  /** A blank room code is "". */
  datatype Match = Match(room: Code, createdAt: Time)

  datatype Artifact = Artifact(
    owner: Option<MatchId>,
    room: Code,
    what: ArtifactType,
    kind: SnapshotKind,
    round: nat,
    content: string,
    createdAt: Time)

  datatype Participant = Participant(matchId: MatchId, user: UserId)

  datatype Replay = Replay(matchId: MatchId, uri: string)

  datatype Archive = Archive(
    matches: map<MatchId, Match>,
    participants: map<RowId, Participant>,
    replays: map<RowId, Replay>,
    artifacts: map<RowId, Artifact>,
    nextId: nat)

  // -------------------------------------------------------------- handlers

  /** What an upload addresses: one autosave per room, one snapshot per room, kind and round. */
  datatype Slot = Slot(room: Code, what: ArtifactType, kind: SnapshotKind, round: nat)

  predicate InSlot(artifact: Artifact, slot: Slot) {
    && artifact.room == slot.room && artifact.what == slot.what
    && (slot.what == Snapshot ==> artifact.kind == slot.kind && artifact.round == slot.round)
  }

  predicate SameSlot(a: Artifact, b: Artifact) {
    InSlot(a, Slot(b.room, b.what, b.kind, b.round))
  }

  ghost predicate IsLatestMatch(matches: map<MatchId, Match>, room: Code, found: Option<MatchId>) {
    match found
    case None => forall m | m in matches :: matches[m].room != room
    case Some(id) =>
      && id in matches && matches[id].room == room
      && forall m | m in matches && matches[m].room == room :: matches[m].createdAt <= matches[id].createdAt
  }

  ghost function SlotRow(a: Archive, slot: Slot): (found: Option<RowId>)
    ensures found.Some? ==> found.value in a.artifacts && InSlot(a.artifacts[found.value], slot)
    ensures found.None? ==> forall id | id in a.artifacts :: !InSlot(a.artifacts[id], slot)
  {
    if exists id :: id in a.artifacts && InSlot(a.artifacts[id], slot)
    then var id :| id in a.artifacts && InSlot(a.artifacts[id], slot); Some(id)
    else None
  }

  /** The slot's row is rewritten, its owner and creation time kept; without one a row is added. */
  ghost function Upsert(a: Archive, slot: Slot, content: string, owner: Option<MatchId>, now: Time): Archive {
    match SlotRow(a, slot)
    case None =>
      var row := Artifact(owner, slot.room, slot.what, slot.kind, slot.round, content, now);
      a.(artifacts := a.artifacts[a.nextId := row], nextId := a.nextId + 1)
    case Some(id) =>
      var kept := a.artifacts[id];
      a.(artifacts := a.artifacts[id := kept.(
        owner := if kept.owner.Some? then kept.owner else owner,
        kind := slot.kind, round := slot.round, content := content)])
  }

  /** An uploaded file: missing, failing its size, checksum or format check, or good. */
  datatype File = NoFile | BadFile | Good(content: string)

  datatype UploadReply = Uploaded(count: nat) | UploadRefused

  datatype UploadOutcome = UploadOutcome(after: Archive, reply: UploadReply)

  /** What an upload carries; kind is None where its text names no snapshot kind. */
  datatype UploadIn = UploadIn(room: Code, kind: Option<SnapshotKind>, round: int, archive: File, snapshot: File)

  /** upload_round_artifacts */
  ghost function Upload(a: Archive, up: UploadIn, owner: Option<MatchId>, now: Time): UploadOutcome {
    var round := Max(0, up.round);
    if up.room == "" || up.kind.None? || up.archive.BadFile? || up.snapshot.BadFile?
       || (up.archive.NoFile? && up.snapshot.NoFile?)
    then UploadOutcome(a, UploadRefused)
    else
      var save, picture := Slot(up.room, Autosave, up.kind.value, round), Slot(up.room, Snapshot, up.kind.value, round);
      var first := if up.archive.Good? then Upsert(a, save, up.archive.content, owner, now) else a;
      var second := if up.snapshot.Good? then Upsert(first, picture, up.snapshot.content, owner, now) else first;
      UploadOutcome(second, Uploaded((if up.archive.Good? then 1 else 0) + (if up.snapshot.Good? then 1 else 0)))
  }

  /** Orphan artifacts of the room get their match. */
  function Adopt(artifacts: map<RowId, Artifact>, room: Code, owner: MatchId): map<RowId, Artifact> {
    map id | id in artifacts ::
      if room != "" && artifacts[id].room == room && artifacts[id].owner.None?
      then artifacts[id].(owner := Some(owner)) else artifacts[id]
  }

  function Enroll(participants: map<RowId, Participant>, base: nat, m: MatchId, users: seq<UserId>): map<RowId,
                  Participant> {
    if users == [] then participants
    else Enroll(participants, base, m, users[..|users| - 1])[base + |users| - 1 := Participant(m, users[|users| - 1])]
  }

  lemma {:induction false} EnrollAdds(participants: map<RowId, Participant>, base: nat, m: MatchId, users: seq<UserId>)
    requires forall id | id in participants :: id < base
    ensures var after := Enroll(participants, base, m, users);
      && (forall id :: id in after <==> id in participants || base <= id < base + |users|)
      && (forall id | id in participants :: after[id] == participants[id])
      && (forall id | base <= id < base + |users| :: after[id] == Participant(m, users[id - base]))
  {
    if users != [] {
      EnrollAdds(participants, base, m, users[..|users| - 1]);
    }
  }

  function Finalize(a: Archive, room: Code, now: Time, users: seq<UserId>, replay: Option<string>): Archive {
    var m := a.nextId;
    var afterUsers := m + 1 + |users|;
    Archive(a.matches[m := Match(room, now)],
            Enroll(a.participants, m + 1, m, users),
            if replay.Some? then a.replays[afterUsers := Replay(m, replay.value)] else a.replays,
            Adopt(a.artifacts, room, m),
            afterUsers + 1)
  }

  /** _delete_matches_by_ids: the matches go with everything that points at them. */
  function DeleteMatches(a: Archive, ids: set<MatchId>): Archive {
    var gone := ids * a.matches.Keys;
    a.(matches := a.matches - gone,
       participants := map id | id in a.participants && a.participants[id].matchId !in gone :: a.participants[id],
       replays := map id | id in a.replays && a.replays[id].matchId !in gone :: a.replays[id],
       artifacts := map id | id in a.artifacts
           && !(a.artifacts[id].owner.Some? && a.artifacts[id].owner.value in gone) :: a.artifacts[id])
  }

  /** Matches some of the users took part in. */
  function TouchedBy(participants: map<RowId, Participant>, users: set<UserId>): set<MatchId> {
    set id | id in participants && participants[id].user in users :: participants[id].matchId
  }

  function WithParticipants(participants: map<RowId, Participant>): set<MatchId> {
    set id | id in participants :: participants[id].matchId
  }

  function WithoutUsers(participants: map<RowId, Participant>, users: set<UserId>): map<RowId, Participant> {
    map id | id in participants && participants[id].user !in users :: participants[id]
  }

  /** The matches that lose their last participant with these users. */
  function Orphaned(a: Archive, users: set<UserId>): set<MatchId> {
    (TouchedBy(a.participants, users) - WithParticipants(WithoutUsers(a.participants, users))) * a.matches.Keys
  }

  /** What deleting users does to the archive. */
  function DropPlayers(a: Archive, users: set<UserId>): Archive {
    DeleteMatches(a.(participants := WithoutUsers(a.participants, users)), Orphaned(a, users))
  }

  // -------------------------------------------------------------- invariant

  ghost predicate OnePerSlot(artifacts: map<RowId, Artifact>) {
    forall i, j | i in artifacts && j in artifacts && i != j && artifacts[i].what != OtherArtifact ::
      !SameSlot(artifacts[i], artifacts[j])
  }

  /** A room that has a match keeps no orphan artifact. */
  ghost predicate NoStrayOrphans(a: Archive) {
    forall id, m | id in a.artifacts && m in a.matches && a.artifacts[id].owner.None? ::
        a.matches[m].room != a.artifacts[id].room
  }

  /** Owners exist, and are matches of the artifact's room. */
  ghost predicate OwnersMatch(a: Archive) {
    forall id | id in a.artifacts ::
      && a.artifacts[id].room != ""
      && (a.artifacts[id].owner.Some? ==>
            a.artifacts[id].owner.value in a.matches
                && a.matches[a.artifacts[id].owner.value].room == a.artifacts[id].room)
  }

  ghost predicate Linked(a: Archive) {
    && (forall id | id in a.participants :: a.participants[id].matchId in a.matches)
    && (forall id | id in a.replays :: a.replays[id].matchId in a.matches)
  }

  ghost predicate Fresh(a: Archive) {
    && (forall m | m in a.matches :: m < a.nextId)
    && (forall id | id in a.participants :: id < a.nextId)
    && (forall id | id in a.replays :: id < a.nextId)
    && (forall id | id in a.artifacts :: id < a.nextId)
  }

  ghost predicate Sound(a: Archive) {
    OnePerSlot(a.artifacts) && NoStrayOrphans(a) && OwnersMatch(a) && Linked(a) && Fresh(a)
  }

  /** No artifact that has an owner changes it. */
  ghost predicate OwnersKept(before: Archive, after: Archive) {
    forall id | id in before.artifacts && id in after.artifacts && before.artifacts[id].owner.Some? ::
      after.artifacts[id].owner == before.artifacts[id].owner
  }

  lemma UpsertKeepsSlots(a: Archive, slot: Slot, content: string, owner: Option<MatchId>, now: Time)
    requires OnePerSlot(a.artifacts) && Fresh(a) && slot.what != OtherArtifact
    ensures OnePerSlot(Upsert(a, slot, content, owner, now).artifacts)
  {
    var after := Upsert(a, slot, content, owner, now);
    var found := SlotRow(a, slot);
    var put := if found.Some? then found.value else a.nextId;
    forall i, j | i in after.artifacts && j in after.artifacts && i != j && after.artifacts[i].what != OtherArtifact
      ensures !SameSlot(after.artifacts[i], after.artifacts[j])
    {
      if i != put && j != put {
        assert !SameSlot(a.artifacts[i], a.artifacts[j]);
      } else if found.Some? {
        var other := if i == put then j else i;
        assert !SameSlot(a.artifacts[put], a.artifacts[other]) && !SameSlot(a.artifacts[other], a.artifacts[put]);
      }
    }
  }

  lemma UpsertKeepsOwners(a: Archive, slot: Slot, content: string, owner: Option<MatchId>, now: Time)
    requires OwnersMatch(a) && NoStrayOrphans(a) && slot.room != "" && IsLatestMatch(a.matches, slot.room, owner)
    ensures OwnersMatch(Upsert(a, slot, content, owner, now))
    ensures NoStrayOrphans(Upsert(a, slot, content, owner, now))
  {
    var found := SlotRow(a, slot);
    var after := Upsert(a, slot, content, owner, now);
    var put := if found.Some? then found.value else a.nextId;
    assert after.artifacts == a.artifacts[put := after.artifacts[put]];
    assert after.artifacts[put].room == slot.room;
    assert after.artifacts[put].owner == if found.Some? && a.artifacts[put].owner.Some?
        then a.artifacts[put].owner else owner;
  }

  lemma UpsertSound(a: Archive, slot: Slot, content: string, owner: Option<MatchId>, now: Time)
    requires Sound(a) && slot.room != "" && slot.what != OtherArtifact && IsLatestMatch(a.matches, slot.room, owner)
    ensures Sound(Upsert(a, slot, content, owner, now))
    ensures OwnersKept(a, Upsert(a, slot, content, owner, now))
    ensures a.artifacts.Keys <= Upsert(a, slot, content, owner, now).artifacts.Keys
    ensures Upsert(a, slot, content, owner, now).matches == a.matches
  {
    UpsertKeepsSlots(a, slot, content, owner, now);
    UpsertKeepsOwners(a, slot, content, owner, now);
  }

  lemma UploadSound(a: Archive, up: UploadIn, owner: Option<MatchId>, now: Time)
    requires Sound(a) && IsLatestMatch(a.matches, up.room, owner)
    ensures Sound(Upload(a, up, owner, now).after)
    ensures OwnersKept(a, Upload(a, up, owner, now).after)
  {
    if Upload(a, up, owner, now).reply.Uploaded? {
      var round := Max(0, up.round);
      var first := a;
      if up.archive.Good? {
        var save := Slot(up.room, Autosave, up.kind.value, round);
        UpsertSound(a, save, up.archive.content, owner, now);
        first := Upsert(a, save, up.archive.content, owner, now);
      }
      if up.snapshot.Good? {
        UpsertSound(first, Slot(up.room, Snapshot, up.kind.value, round), up.snapshot.content, owner, now);
      }
    }
  }

  lemma FinalizeLinks(a: Archive, room: Code, now: Time, users: seq<UserId>, replay: Option<string>)
    requires Linked(a) && Fresh(a)
    ensures Linked(Finalize(a, room, now, users, replay)) && Fresh(Finalize(a, room, now, users, replay))
  {
    EnrollAdds(a.participants, a.nextId + 1, a.nextId, users);
  }

  lemma FinalizeSound(a: Archive, room: Code, now: Time, users: seq<UserId>, replay: Option<string>)
    requires Sound(a)
    ensures Sound(Finalize(a, room, now, users, replay))
    ensures OwnersKept(a, Finalize(a, room, now, users, replay))
  {
    FinalizeLinks(a, room, now, users, replay);
  }

  lemma DeleteMatchesSound(a: Archive, ids: set<MatchId>)
    requires Sound(a)
    ensures Sound(DeleteMatches(a, ids))
    ensures OwnersKept(a, DeleteMatches(a, ids))
  {
  }

  lemma DropPlayersSound(a: Archive, users: set<UserId>)
    requires Sound(a)
    ensures Sound(DropPlayers(a, users))
    ensures OwnersKept(a, DropPlayers(a, users))
  {
  }

  // ------------------------------------------------------------------- runs

  datatype Action =
    | UploadArtifacts(up: UploadIn, owner: Option<MatchId>, at: Time)
    | FinalizeMatch(room: Code, now: Time, users: seq<UserId>, replay: Option<string>)
    | DeleteByIds(ids: set<MatchId>)
    | DropUsers(dropped: set<UserId>)

  /** An upload reads the room's latest match truthfully. */
  ghost predicate Admissible(a: Archive, act: Action) {
    act.UploadArtifacts? ==> IsLatestMatch(a.matches, act.up.room, act.owner)
  }

  ghost function Step(a: Archive, act: Action): Archive {
    match act
    case UploadArtifacts(up, owner, at) => Upload(a, up, owner, at).after
    case FinalizeMatch(room, now, users, replay) => Finalize(a, room, now, users, replay)
    case DeleteByIds(ids) => DeleteMatches(a, ids)
    case DropUsers(users) => DropPlayers(a, users)
  }

  ghost predicate IsRun(trace: seq<Archive>, actions: seq<Action>) {
    && |trace| == |actions| + 1
    && Sound(trace[0])
    && forall k | 0 <= k < |actions| :: Admissible(trace[k], actions[k]) && trace[k + 1] == Step(trace[k], actions[k])
  }

  lemma StepSound(a: Archive, act: Action)
    requires Sound(a) && Admissible(a, act)
    ensures Sound(Step(a, act)) && OwnersKept(a, Step(a, act))
  {
    match act
    case UploadArtifacts(up, owner, at) => UploadSound(a, up, owner, at);
    case FinalizeMatch(room, now, users, replay) => FinalizeSound(a, room, now, users, replay);
    case DeleteByIds(ids) => DeleteMatchesSound(a, ids);
    case DropUsers(users) => DropPlayersSound(a, users);
  }

  /** Main result: over any run, one artifact per slot, no stray orphan, owners of the right room. */
  lemma {:induction false} RunsAreSound(trace: seq<Archive>, actions: seq<Action>, k: nat)
    requires IsRun(trace, actions) && k < |trace|
    ensures Sound(trace[k])
    ensures forall i, j | i in trace[k].artifacts && j in trace[k].artifacts && i != j
        && trace[k].artifacts[i].what != OtherArtifact ::
      !SameSlot(trace[k].artifacts[i], trace[k].artifacts[j])
    ensures forall id, m | id in trace[k].artifacts && m in trace[k].matches
        && trace[k].matches[m].room == trace[k].artifacts[id].room ::
      trace[k].artifacts[id].owner.Some? && trace[k].artifacts[id].owner.value in trace[k].matches
  {
    if k > 0 {
      RunsAreSound(trace, actions, k - 1);
      StepSound(trace[k - 1], actions[k - 1]);
    }
  }

  /** Row ids are never reused, so an owner seen once is the owner as long as the artifact lives. */
  lemma {:induction false} OwnersNeverChange(trace: seq<Archive>, actions: seq<Action>, i: nat, j: nat, id: RowId)
    requires IsRun(trace, actions) && i <= j < |trace|
    requires id in trace[i].artifacts && trace[i].artifacts[id].owner.Some?
    ensures id < trace[j].nextId
    ensures id in trace[j].artifacts ==> trace[j].artifacts[id].owner == trace[i].artifacts[id].owner
  {
    RunsAreSound(trace, actions, i);
    if i < j {
      OwnersNeverChange(trace, actions, i, j - 1, id);
      RunsAreSound(trace, actions, j - 1);
      StepSound(trace[j - 1], actions[j - 1]);
      StepAddsFreshRows(trace[j - 1], actions[j - 1], id);
    }
  }

  lemma StepAddsFreshRows(a: Archive, act: Action, id: RowId)
    requires id < a.nextId
    ensures id < Step(a, act).nextId
    ensures id in Step(a, act).artifacts ==> id in a.artifacts
  {
  }

  // ------------------------------------------------------------------ views

  /** _match_artifact_owner_filter: what the detail view shows under a match. */
  predicate Shown(a: Archive, m: MatchId, artifact: Artifact)
    requires m in a.matches
  {
    artifact.owner == Some(m) || (a.matches[m].room != "" && artifact.owner.None? && artifact.room == a.matches[m].room)
  }

  function ShownRows(a: Archive, m: MatchId, what: ArtifactType): set<RowId>
    requires m in a.matches
  {
    set id | id in a.artifacts && a.artifacts[id].what == what && Shown(a, m, a.artifacts[id])
  }

  /** Where the list view puts an artifact: under its owner, else under the match indexed for its room. */
  function Assigned(byCode: map<Code, MatchId>, artifact: Artifact): Option<MatchId> {
    if artifact.owner.Some? then artifact.owner
    else if artifact.room in byCode then Some(byCode[artifact.room]) else None
  }

  function ListedRows(a: Archive, byCode: map<Code, MatchId>, m: MatchId, what: ArtifactType): set<RowId> {
    set id | id in a.artifacts && a.artifacts[id].what == what && Assigned(byCode, a.artifacts[id]) == Some(m)
  }

  /** The list view's index: for each nonblank room code of the listed matches, one of them. */
  ghost predicate IsIndex(a: Archive, rows: set<MatchId>, byCode: map<Code, MatchId>) {
    && rows <= a.matches.Keys
    && (forall c :: c in byCode <==> c != "" && exists m :: m in rows && a.matches[m].room == c)
    && (forall c | c in byCode :: byCode[c] in rows && a.matches[byCode[c]].room == c)
  }

  /** An orphan artifact whose room code two listed matches share. */
  ghost predicate Contested(a: Archive, rows: set<MatchId>, id: RowId) {
    && id in a.artifacts && a.artifacts[id].owner.None? && a.artifacts[id].room != ""
    && exists m, m' :: m in rows && m' in rows && m != m'
         && m in a.matches && m' in a.matches && a.matches[m].room == a.matches[m'].room == a.artifacts[id].room
  }

  lemma ContestedLosesOne(a: Archive, rows: set<MatchId>, byCode: map<Code, MatchId>, id: RowId)
    requires IsIndex(a, rows, byCode) && Contested(a, rows, id)
    ensures exists m :: m in rows && m in a.matches
              && |ListedRows(a, byCode, m, a.artifacts[id].what)| < |ShownRows(a, m, a.artifacts[id].what)|
  {
    var room, what := a.artifacts[id].room, a.artifacts[id].what;
    var m, m' :| m in rows && m' in rows && m != m' && a.matches[m].room == a.matches[m'].room == room;
    assert room in byCode;
    var loser := if byCode[room] == m then m' else m;
    var shown, listed := ShownRows(a, loser, what), ListedRows(a, byCode, loser, what);
    assert id in shown && id !in listed;
    SubsetSize(listed, shown - {id});
  }

  /** The exact condition under which the list's snapshot counts are the details': no orphan
      snapshot is contested by two listed matches. */
  lemma SnapshotCountsAgreeIff(a: Archive, rows: set<MatchId>, byCode: map<Code, MatchId>)
    requires IsIndex(a, rows, byCode)
    ensures (forall m | m in rows && m in a.matches ::
        |ListedRows(a, byCode, m, Snapshot)| == |ShownRows(a, m, Snapshot)|)
            <==> (forall id | id in a.artifacts && a.artifacts[id].what == Snapshot :: !Contested(a, rows, id))
  {
    if id :| id in a.artifacts && a.artifacts[id].what == Snapshot && Contested(a, rows, id) {
      ContestedLosesOne(a, rows, byCode, id);
    } else {
      forall m | m in rows ensures ListedRows(a, byCode, m, Snapshot) == ShownRows(a, m, Snapshot) {
      }
    }
  }

  /** Main result: in every state a run reaches, list and detail show the same artifacts of
      every listed match, even when room codes repeat. */
  lemma ReachableViewsAgree(a: Archive, rows: set<MatchId>, byCode: map<Code, MatchId>, m: MatchId, what: ArtifactType)
    requires Sound(a) && IsIndex(a, rows, byCode) && m in rows
    ensures ListedRows(a, byCode, m, what) == ShownRows(a, m, what)
    ensures forall id | id in ShownRows(a, m, what) :: a.artifacts[id].owner == Some(m)
  {
  }

  /** In any state, distinct room codes among the listed matches are enough. */
  lemma DistinctCodesAgree(a: Archive, rows: set<MatchId>, byCode: map<Code, MatchId>, m: MatchId, what: ArtifactType)
    requires IsIndex(a, rows, byCode) && m in rows
    requires forall x, y | x in rows && y in rows && x != y && a.matches[x].room != "" ::
        a.matches[x].room != a.matches[y].room
    ensures ListedRows(a, byCode, m, what) == ShownRows(a, m, what)
  {
  }

  /** A match shows at most one autosave, so both views name its round. */
  lemma OneAutosavePerMatch(a: Archive, m: MatchId, i: RowId, j: RowId)
    requires Sound(a) && m in a.matches
    requires i in ShownRows(a, m, Autosave) && j in ShownRows(a, m, Autosave)
    ensures i == j
  {
  }

  /** A state that fails: two matches of one room code and an orphan snapshot of it. Whichever of
      them the index names, the list misses the snapshot for the other. */
  lemma ContestedSnapshotIsMissed(byCode: map<Code, MatchId>)
    requires IsIndex(ContestedArchive(), {0, 1}, byCode)
    ensures Contested(ContestedArchive(), {0, 1}, 2)
    ensures exists m :: m in {0, 1} && |ListedRows(ContestedArchive(), byCode, m, Snapshot)|
                                       < |ShownRows(ContestedArchive(), m, Snapshot)|
  {
    var a := ContestedArchive();
    assert 0 in a.matches && 1 in a.matches && a.matches[0].room == a.matches[1].room == a.artifacts[2].room;
    assert a.artifacts[2].room != "" by {
      assert |"ABCDEF"| == 6;
    }
    ContestedLosesOne(a, {0, 1}, byCode, 2);
  }

  function ContestedArchive(): Archive {
    Archive(map[0 := Match("ABCDEF", 0), 1 := Match("ABCDEF", 1)], map[], map[],
            map[2 := Artifact(None, "ABCDEF", Snapshot, RoundEnd, 1, "", 0)], 3)
  }
}
