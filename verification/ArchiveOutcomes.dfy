/**
  What uploads, finalised matches and deletions leave in the archive, in terms of the archive
  before and the request alone (backend/app/internal.py, backend/app/admin.py).
 */
module ArchiveOutcomes {
  import opened Prelude
  import opened RoomModel
  import opened MatchArchive

  /** The artifact an upload addresses: the room's autosave, or its snapshot of that kind and round. */
  predicate Addressed(row: Artifact, room: Code, what: ArtifactType, kind: SnapshotKind, round: int) {
    row.room == room && row.what == what && (what == Snapshot ==> row.kind == kind && row.round == round)
  }

  /** The one artifact addressed holds what was uploaded. A row that was there keeps its creation time and its
      owner, if it had one; a new one was created now. Either is else owned by the room's latest match. */
  ghost predicate Stored(a: Archive, after: Archive, id: RowId, room: Code, what: ArtifactType, kind: SnapshotKind,
                         round: int, content: string, owner: Option<MatchId>, now: Time) {
    && id in after.artifacts
    && after.artifacts[id].room == room && after.artifacts[id].what == what && after.artifacts[id].kind == kind
    && after.artifacts[id].round == round && after.artifacts[id].content == content
    && (forall i | i in after.artifacts && Addressed(after.artifacts[i], room, what, kind, round) :: i == id)
    && if id in a.artifacts then
         && Addressed(a.artifacts[id], room, what, kind, round)
         && after.artifacts[id].createdAt == a.artifacts[id].createdAt
         && after.artifacts[id].owner == (if a.artifacts[id].owner.Some? then a.artifacts[id].owner else owner)
       else
         && (forall i | i in a.artifacts :: !Addressed(a.artifacts[i], room, what, kind, round))
         && after.artifacts[id].createdAt == now && after.artifacts[id].owner == owner
  }

  /** Matches, participants and replays are as they were, and so is every artifact but the given ones. */
  ghost predicate OnlyArtifacts(a: Archive, after: Archive, ids: set<RowId>) {
    && after.matches == a.matches && after.participants == a.participants && after.replays == a.replays
    && after.artifacts.Keys == a.artifacts.Keys + ids
    && forall i | i in a.artifacts && i !in ids :: after.artifacts[i] == a.artifacts[i]
  }

  /** The row an upsert writes. */
  ghost function Written(a: Archive, slot: Slot): RowId {
    SlotRow(a, slot).GetOr(a.nextId)
  }

  lemma UpsertStores(a: Archive, slot: Slot, content: string, owner: Option<MatchId>, now: Time)
    requires OnePerSlot(a.artifacts) && Fresh(a) && slot.what != OtherArtifact
    ensures var after := Upsert(a, slot, content, owner, now);
      && Stored(a, after, Written(a, slot), slot.room, slot.what, slot.kind, slot.round, content, owner, now)
      && OnlyArtifacts(a, after, {Written(a, slot)})
  {
    var after := Upsert(a, slot, content, owner, now);
    var id := Written(a, slot);
    assert after.artifacts == a.artifacts[id := after.artifacts[id]];
    forall i | i in after.artifacts && i != id
      ensures !Addressed(after.artifacts[i], slot.room, slot.what, slot.kind, slot.round)
    {
    }
  }

  /** The uploaded files that were stored. */
  function GoodFiles(up: UploadIn): nat {
    (if up.archive.Good? then 1 else 0) + (if up.snapshot.Good? then 1 else 0)
  }

  /** The rows an upload wrote: the autosave and the snapshot, each if its file is there. */
  ghost predicate UploadWrote(a: Archive, after: Archive, up: UploadIn, owner: Option<MatchId>, now: Time,
                              save: RowId, picture: RowId)
    requires up.kind.Some?
  {
    var round := if up.round > 0 then up.round else 0;
    && (up.archive.Good? ==>
          Stored(a, after, save, up.room, Autosave, up.kind.value, round, up.archive.content, owner, now))
    && (up.snapshot.Good? ==>
          Stored(a, after, picture, up.room, Snapshot, up.kind.value, round, up.snapshot.content, owner, now))
    && OnlyArtifacts(a, after,
                     (if up.archive.Good? then {save} else {}) + (if up.snapshot.Good? then {picture} else {}))
  }

  /** Storing the snapshot disturbs no autosave. */
  lemma SnapshotKeepsSave(a: Archive, first: Archive, after: Archive, save: RowId, picture: RowId, up: UploadIn,
                          round: int, owner: Option<MatchId>, now: Time)
    requires up.kind.Some? && up.archive.Good? && up.snapshot.Good?
    requires Stored(a, first, save, up.room, Autosave, up.kind.value, round, up.archive.content, owner, now)
    requires OnlyArtifacts(a, first, {save})
    requires Stored(first, after, picture, up.room, Snapshot, up.kind.value, round, up.snapshot.content, owner, now)
    requires OnlyArtifacts(first, after, {picture})
    ensures Stored(a, after, save, up.room, Autosave, up.kind.value, round, up.archive.content, owner, now)
    ensures Stored(a, after, picture, up.room, Snapshot, up.kind.value, round, up.snapshot.content, owner, now)
    ensures OnlyArtifacts(a, after, {save} + {picture})
  {
    assert picture != save;
  }

  /** Main result: an upload is taken exactly when it is complete and sound, counts its good files, and each of
      them is then the content of the one artifact it addresses; nothing else changes. */
  lemma UploadStores(a: Archive, up: UploadIn, owner: Option<MatchId>, now: Time)
    requires Sound(a) && IsLatestMatch(a.matches, up.room, owner)
    ensures var o := Upload(a, up, owner, now);
      && (o.reply.Uploaded? <==> up.room != "" && up.kind.Some? && !up.archive.BadFile? && !up.snapshot.BadFile?
                                 && (up.archive.Good? || up.snapshot.Good?))
      && (o.reply.UploadRefused? ==> o.after == a)
      && (o.reply.Uploaded? ==>
            o.reply.count == GoodFiles(up)
            && exists save, picture :: UploadWrote(a, o.after, up, owner, now, save, picture))
  {
    var o := Upload(a, up, owner, now);
    if o.reply.Uploaded? {
      var round := Max(0, up.round);
      var save, picture := Slot(up.room, Autosave, up.kind.value, round), Slot(up.room, Snapshot, up.kind.value, round);
      var first := a;
      if up.archive.Good? {
        UpsertStores(a, save, up.archive.content, owner, now);
        UpsertSound(a, save, up.archive.content, owner, now);
        first := Upsert(a, save, up.archive.content, owner, now);
      }
      if up.snapshot.Good? {
        UpsertStores(first, picture, up.snapshot.content, owner, now);
      }
      if up.archive.Good? && up.snapshot.Good? {
        SnapshotKeepsSave(a, first, o.after, Written(a, save), Written(first, picture), up, round, owner, now);
      }
      assert UploadWrote(a, o.after, up, owner, now, Written(a, save), Written(first, picture));
    }
  }

  /** One new row for each user, in order, and no other. */
  ghost predicate Enrolled(a: Archive, after: Archive, first: RowId, m: MatchId, users: seq<UserId>) {
    && (forall id :: id in after.participants <==> id in a.participants || first <= id < first + |users|)
    && (forall id | id in a.participants :: id < first && after.participants[id] == a.participants[id])
    && (forall id | first <= id < first + |users| :: after.participants[id] == Participant(m, users[id - first]))
  }

  /** The replay, if there is one, is a new row of the match. */
  ghost predicate ReplayRecorded(a: Archive, after: Archive, m: MatchId, replay: Option<string>, id: RowId) {
    if replay.None? then after.replays == a.replays
    else id !in a.replays && after.replays == a.replays[id := Replay(m, replay.value)]
  }

  /** Orphan artifacts of the room belong to the match. */
  ghost predicate OrphansAdopted(a: Archive, after: Archive, m: MatchId, room: Code) {
    && after.artifacts.Keys == a.artifacts.Keys
    && forall id | id in a.artifacts ::
         if room != "" && a.artifacts[id].room == room && a.artifacts[id].owner.None?
         then after.artifacts[id].owner == Some(m) && after.artifacts[id].(owner := None) == a.artifacts[id]
         else after.artifacts[id] == a.artifacts[id]
  }

  /** Main result: a finalised match is there with exactly the given participants and replay, and the room's
      orphan artifacts are its own; nothing else changes. */
  lemma FinalizeRecords(a: Archive, room: Code, now: Time, users: seq<UserId>, replay: Option<string>)
    requires Fresh(a)
    ensures var after, m := Finalize(a, room, now, users, replay), a.nextId;
      && m !in a.matches && after.matches == a.matches[m := Match(room, now)]
      && Enrolled(a, after, m + 1, m, users)
      && ReplayRecorded(a, after, m, replay, m + 1 + |users|)
      && OrphansAdopted(a, after, m, room)
  {
    EnrollAdds(a.participants, a.nextId + 1, a.nextId, users);
  }

  /** Main result: deleting matches takes them and all that points at them, and nothing else. */
  lemma DeletingMatchesIs(a: Archive, ids: set<MatchId>)
    ensures var after := DeleteMatches(a, ids);
      && (forall m :: m in after.matches <==> m in a.matches && m !in ids)
      && (forall m | m in after.matches :: after.matches[m] == a.matches[m])
      && (forall id :: id in after.participants <==>
            (id in a.participants && !(a.participants[id].matchId in ids && a.participants[id].matchId in a.matches)))
      && (forall id | id in after.participants :: after.participants[id] == a.participants[id])
      && (forall id :: id in after.replays <==>
            (id in a.replays && !(a.replays[id].matchId in ids && a.replays[id].matchId in a.matches)))
      && (forall id | id in after.replays :: after.replays[id] == a.replays[id])
      && (forall id :: id in after.artifacts <==>
            (id in a.artifacts && !(a.artifacts[id].owner.Some? && a.artifacts[id].owner.value in ids
                                    && a.artifacts[id].owner.value in a.matches)))
      && (forall id | id in after.artifacts :: after.artifacts[id] == a.artifacts[id])
  {
  }

  /** What the detail view shows under a match: its own artifacts, and orphans of its room. */
  lemma ShownRowsAre(a: Archive, m: MatchId, what: ArtifactType)
    requires m in a.matches
    ensures forall id :: id in ShownRows(a, m, what) <==>
      && id in a.artifacts && a.artifacts[id].what == what
      && (a.artifacts[id].owner == Some(m)
          || (a.artifacts[id].owner == None && a.artifacts[id].room == a.matches[m].room != ""))
  {
  }
}
