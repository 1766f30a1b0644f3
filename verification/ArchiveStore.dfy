/**
  The match archive as the handlers keep it, row by row
  (backend/app/internal.py, backend/app/matches.py, backend/app/admin.py).
 */
module ArchiveStore {
  import opened Prelude
  import opened RoomModel
  import opened MatchArchive

  /** What the list view says about one match. */
  datatype Summary = Summary(latestSaveRound: Option<nat>, snapshotCount: nat)

  /** The rows among some that the list view puts under a match. */
  function Under(artifacts: map<RowId, Artifact>, byCode: map<Code, MatchId>, rows: set<RowId>, m: MatchId,
                 what: ArtifactType): set<RowId> {
    set id | id in rows && id in artifacts && artifacts[id].what == what && Assigned(byCode, artifacts[id]) == Some(m)
  }

  /** The counts and save rounds are those of the rows seen. */
  ghost predicate Counted(artifacts: map<RowId, Artifact>, byCode: map<Code, MatchId>, seen: set<RowId>,
                          rows: set<MatchId>,
                          saves: map<MatchId, nat>, counts: map<MatchId, nat>) {
    && counts.Keys == rows && saves.Keys <= rows
    && forall m | m in rows ::
         CountedRow(artifacts, byCode, seen, m, if m in saves then Some(saves[m]) else None, counts[m])
  }

  ghost predicate CountedRow(artifacts: map<RowId, Artifact>, byCode: map<Code, MatchId>, seen: set<RowId>, m: MatchId,
                             save: Option<nat>, count: nat) {
    && count == |Under(artifacts, byCode, seen, m, Snapshot)|
    && if save.None? then Under(artifacts, byCode, seen, m, Autosave) == {}
       else HasSave(artifacts, Under(artifacts, byCode, seen, m, Autosave), save.value)
  }

  ghost predicate HasSave(artifacts: map<RowId, Artifact>, ids: set<RowId>, round: nat) {
    exists id :: id in ids && id in artifacts && artifacts[id].round == round
  }

  lemma UnderGrows(artifacts: map<RowId, Artifact>, byCode: map<Code, MatchId>, seen: set<RowId>, id: RowId, m: MatchId,
                   x: MatchId, what: ArtifactType)
    requires id in artifacts && id !in seen && Assigned(byCode, artifacts[id]) == Some(m)
    ensures Under(artifacts, byCode, seen + {id}, x, what)
            == Under(artifacts, byCode, seen, x, what) + (if x == m && what == artifacts[id].what then {id} else {})
    ensures id !in Under(artifacts, byCode, seen, x, what)
  {
  }

  lemma SnapshotStep(artifacts: map<RowId, Artifact>, byCode: map<Code, MatchId>, seen: set<RowId>, id: RowId,
                     m: MatchId, x: MatchId, count: nat)
    requires id in artifacts && id !in seen && Assigned(byCode, artifacts[id]) == Some(m)
    requires count == |Under(artifacts, byCode, seen, x, Snapshot)|
    ensures |Under(artifacts, byCode, seen + {id}, x, Snapshot)|
            == if artifacts[id].what == Snapshot && x == m then count + 1 else count
  {
    UnderGrows(artifacts, byCode, seen, id, m, x, Snapshot);
  }

  lemma CountStep(artifacts: map<RowId, Artifact>, byCode: map<Code, MatchId>, seen: set<RowId>, rows: set<MatchId>,
                  saves: map<MatchId, nat>, counts: map<MatchId, nat>, id: RowId, m: MatchId)
    requires id in artifacts && id !in seen && Assigned(byCode, artifacts[id]) == Some(m) && m in rows
    requires Counted(artifacts, byCode, seen, rows, saves, counts)
    ensures var what := artifacts[id].what;
      Counted(artifacts, byCode, seen + {id}, rows,
              if what == Autosave then saves[m := artifacts[id].round] else saves,
              if what == Snapshot then counts[m := counts[m] + 1] else counts)
  {
    var what := artifacts[id].what;
    forall x | x in rows
      ensures CountedRow(artifacts, byCode, seen + {id}, x,
                         if what == Autosave && x == m then Some(artifacts[id].round)
                         else if x in saves then Some(saves[x]) else None,
                         if what == Snapshot && x == m then counts[x] + 1 else counts[x])
    {
      SnapshotStep(artifacts, byCode, seen, id, m, x, counts[x]);
    }
  }

  /** The order of the artifacts query: by round, then by creation time. */
  predicate NotAfter(a: Artifact, b: Artifact) {
    a.round < b.round || (a.round == b.round && a.createdAt <= b.createdAt)
  }

  predicate InQueryOrder(artifacts: map<RowId, Artifact>, rows: seq<RowId>) {
    forall i, j | 0 <= i < j < |rows| && rows[i] in artifacts && rows[j] in artifacts ::
      NotAfter(artifacts[rows[i]], artifacts[rows[j]])
  }

  /** The autosave of the highest round among some rows. */
  ghost predicate IsLatestSave(artifacts: map<RowId, Artifact>, rows: seq<RowId>, save: Option<RowId>) {
    if save.None? then forall id | id in rows && id in artifacts :: artifacts[id].what != Autosave
    else
      && save.value in rows && save.value in artifacts && artifacts[save.value].what == Autosave
      && forall id | id in rows && id in artifacts && artifacts[id].what == Autosave ::
          NotAfter(artifacts[id], artifacts[save.value])
  }

  /** The rows of one type, in the order they came. */
  function OfType(artifacts: map<RowId, Artifact>, rows: seq<RowId>, what: ArtifactType): seq<RowId> {
    if rows == [] then []
    else
      var last := rows[|rows| - 1];
      OfType(artifacts, rows[..|rows| - 1], what)
      + (if last in artifacts && artifacts[last].what == what then [last] else [])
  }

  lemma {:induction false} OfTypeAre(artifacts: map<RowId, Artifact>, rows: seq<RowId>, what: ArtifactType)
    requires Distinct(rows) && InQueryOrder(artifacts, rows)
    ensures forall id :: id in OfType(artifacts, rows, what) <==>
        id in rows && id in artifacts && artifacts[id].what == what
    ensures Distinct(OfType(artifacts, rows, what)) && InQueryOrder(artifacts, OfType(artifacts, rows, what))
  {
    if rows != [] {
      var front, last := rows[..|rows| - 1], rows[|rows| - 1];
      OfTypeAre(artifacts, front, what);
      assert rows == front + [last];
      forall i | 0 <= i < |OfType(artifacts, front, what)|
        ensures OfType(artifacts, front, what)[i] != last
        ensures last in artifacts ==> NotAfter(artifacts[OfType(artifacts, front, what)[i]], artifacts[last])
      {
        var id := OfType(artifacts, front, what)[i];
        assert id in front;
        var k :| 0 <= k < |front| && front[k] == id;
        assert rows[k] == id;
      }
    }
  }

  lemma {:induction false} EarliestExists(artifacts: map<RowId, Artifact>, rows: set<RowId>)
    requires rows != {} && rows <= artifacts.Keys
    ensures exists id :: id in rows && forall j | j in rows :: NotAfter(artifacts[id], artifacts[j])
    decreases |rows|
  {
    var x :| x in rows;
    if rows != {x} {
      EarliestExists(artifacts, rows - {x});
      var id :| id in rows - {x} && forall j | j in rows - {x} :: NotAfter(artifacts[id], artifacts[j]);
      var least := if NotAfter(artifacts[x], artifacts[id]) then x else id;
      assert forall j | j in rows :: j == x || j in rows - {x};
      assert least in rows && forall j | j in rows :: NotAfter(artifacts[least], artifacts[j]);
    }
  }

  /** What the list view says of a match, as ListMatches promises it. */
  ghost predicate IsSummary(a: Archive, byCode: map<Code, MatchId>, m: MatchId, summary: Summary) {
    && summary.snapshotCount == |ListedRows(a, byCode, m, Snapshot)|
    && if summary.latestSaveRound.None? then ListedRows(a, byCode, m, Autosave) == {}
       else HasSave(a.artifacts, ListedRows(a, byCode, m, Autosave), summary.latestSaveRound.value)
  }

  /** What the detail view says of a match, as GetMatch promises it. */
  ghost predicate IsDetail(a: Archive, m: MatchId, latestSave: Option<RowId>, snapshots: seq<RowId>)
    requires m in a.matches
  {
    && Distinct(snapshots) && Elements(snapshots) == ShownRows(a, m, Snapshot)
    && if latestSave.None? then ShownRows(a, m, Autosave) == {}
       else latestSave.value in ShownRows(a, m, Autosave)
            && forall i | i in ShownRows(a, m, Autosave) :: NotAfter(a.artifacts[i], a.artifacts[latestSave.value])
  }

  /** Main result: in every state a run reaches, the list's snapshot count and latest-save round
      are the detail view's. */
  lemma ViewsGiveTheSameNumbers(a: Archive, rows: set<MatchId>, byCode: map<Code, MatchId>, m: MatchId,
                                summary: Summary, latestSave: Option<RowId>, snapshots: seq<RowId>)
    requires MatchArchive.Sound(a) && IsIndex(a, rows, byCode) && m in rows
    requires IsSummary(a, byCode, m, summary) && IsDetail(a, m, latestSave, snapshots)
    ensures summary.snapshotCount == |snapshots|
    ensures summary.latestSaveRound == if latestSave.None? then None else Some(a.artifacts[latestSave.value].round)
  {
    ReachableViewsAgree(a, rows, byCode, m, Snapshot);
    ReachableViewsAgree(a, rows, byCode, m, Autosave);
    DistinctSize(snapshots);
    if latestSave.Some? && summary.latestSaveRound.Some? {
      var id :| id in ListedRows(a, byCode, m, Autosave) && a.artifacts[id].round == summary.latestSaveRound.value;
      OneAutosavePerMatch(a, m, id, latestSave.value);
    }
  }

  class ArchiveStore {
    var matches: map<MatchId, Match>
    var participants: map<RowId, Participant>
    var replays: map<RowId, Replay>
    var artifacts: map<RowId, Artifact>
    var nextId: nat

    function Snapshot(): Archive
      reads this
    {
      Archive(matches, participants, replays, artifacts, nextId)
    }

    ghost predicate Valid()
      reads this
    {
      Sound(Snapshot())
    }

    constructor ()
      ensures Valid() && Snapshot() == Archive(map[], map[], map[], map[], 0)
    {
      matches, participants, replays, artifacts, nextId := map[], map[], map[], map[], 0;
    }

    // ------------------------------------------------------------ uploads

    method FindMatchIdForRoom(room: Code) returns (found: Option<MatchId>)
      ensures IsLatestMatch(matches, room, found)
    {
      found := None;
      var rest := matches.Keys;
      while rest != {}
        invariant rest <= matches.Keys
        invariant match found
                  case None => forall m | m in matches && m !in rest :: matches[m].room != room
                  case Some(id) =>
                    && id in matches && matches[id].room == room
                    && forall m | m in matches && m !in rest && matches[m].room == room ::
                        matches[m].createdAt <= matches[id].createdAt
        decreases |rest|
      {
        var m :| m in rest;
        rest := rest - {m};
        if matches[m].room == room && (found.None? || matches[found.value].createdAt < matches[m].createdAt) {
          found := Some(m);
        }
      }
    }

    method UpsertMatchArtifact(slot: Slot, content: string, owner: Option<MatchId>, now: Time)
      requires Valid() && slot.what != OtherArtifact
      modifies this`artifacts, this`nextId
      ensures Snapshot() == Upsert(old(Snapshot()), slot, content, owner, now)
    {
      var found := set id | id in artifacts && InSlot(artifacts[id], slot);
      ghost var row := SlotRow(Snapshot(), slot);
      if found == {} {
        assert row.None? by {
          assert forall id | id in artifacts :: id !in found;
        }
        artifacts := artifacts[nextId := Artifact(owner, slot.room, slot.what, slot.kind, slot.round, content, now)];
        nextId := nextId + 1;
      } else {
        var id :| id in found;
        assert row.Some? && (row.value == id || SameSlot(artifacts[row.value], artifacts[id]));
        var artifact := artifacts[id];
        if artifact.owner.None? {
          artifact := artifact.(owner := owner);
        }
        artifacts := artifacts[id := artifact.(kind := slot.kind, round := slot.round, content := content)];
      }
    }

    method UploadRoundArtifacts(up: UploadIn, now: Time) returns (reply: UploadReply, ghost owner: Option<MatchId>)
      requires Valid()
      modifies this
      ensures Valid() && IsLatestMatch(old(matches), up.room, owner)
      ensures UploadOutcome(Snapshot(), reply) == Upload(old(Snapshot()), up, owner, now)
    {
      var found := FindMatchIdForRoom(up.room);
      owner := found;
      UploadSound(Snapshot(), up, owner, now);
      if up.room == "" || up.kind.None? || up.archive.BadFile? || up.snapshot.BadFile? {
        return UploadRefused, owner;
      }
      var round: nat := Max(0, up.round);
      var count := 0;
      if up.archive.Good? {
        var slot := Slot(up.room, Autosave, up.kind.value, round);
        UpsertSound(Snapshot(), slot, up.archive.content, owner, now);
        UpsertMatchArtifact(slot, up.archive.content, found, now);
        count := count + 1;
      }
      if up.snapshot.Good? {
        var slot := Slot(up.room, MatchArchive.Snapshot, up.kind.value, round);
        UpsertMatchArtifact(slot, up.snapshot.content, found, now);
        count := count + 1;
      }
      if count == 0 {
        return UploadRefused, owner;
      }
      return Uploaded(count), owner;
    }

    // ----------------------------------------------------------- finalize

    method AddParticipants(m: MatchId, users: seq<UserId>)
      requires forall id | id in participants :: id < nextId
      modifies this`participants, this`nextId
      ensures participants == Enroll(old(participants), old(nextId), m, users)
      ensures nextId == old(nextId) + |users|
    {
      ghost var start, base := participants, nextId;
      for i := 0 to |users|
        invariant participants == Enroll(start, base, m, users[..i]) && nextId == base + i
      {
        assert users[..i + 1][..i] == users[..i];
        participants := participants[nextId := Participant(m, users[i])];
        nextId := nextId + 1;
      }
      assert users[..|users|] == users;
    }

    method AdoptOrphans(room: Code, m: MatchId)
      modifies this`artifacts
      ensures artifacts == Adopt(old(artifacts), room, m)
    {
      if room == "" {
        assert artifacts == Adopt(artifacts, room, m);
        return;
      }
      ghost var start := artifacts;
      var rest := set id | id in artifacts && artifacts[id].room == room && artifacts[id].owner.None?;
      ghost var orphans := rest;
      while rest != {}
        invariant rest <= orphans && artifacts.Keys == start.Keys
        invariant forall id | id in start ::
          artifacts[id] == (if id in orphans && id !in rest then start[id].(owner := Some(m)) else start[id])
        decreases |rest|
      {
        var id :| id in rest;
        rest := rest - {id};
        artifacts := artifacts[id := artifacts[id].(owner := Some(m))];
      }
    }

    method AddMatch(room: Code, now: Time, users: seq<UserId>, replay: Option<string>) returns (m: MatchId)
      requires forall id | id in participants :: id < nextId
      modifies this
      ensures m == old(nextId)
      ensures Snapshot() == Finalize(old(Snapshot()), room, now, users, replay)
    {
      m := nextId;
      matches := matches[m := Match(room, now)];
      nextId := nextId + 1;
      AddParticipants(m, users);
      if replay.Some? {
        replays := replays[nextId := Replay(m, replay.value)];
      }
      nextId := nextId + 1;
      AdoptOrphans(room, m);
    }

    method FinalizeMatch(room: Code, now: Time, users: seq<UserId>, replay: Option<string>) returns (m: MatchId)
      requires Valid()
      modifies this
      ensures Valid() && m == old(nextId) && m !in old(matches)
      ensures Snapshot() == Finalize(old(Snapshot()), room, now, users, replay)
    {
      FinalizeSound(Snapshot(), room, now, users, replay);
      m := AddMatch(room, now, users, replay);
    }

    // ----------------------------------------------------------- deletion

    /** The bulk delete statements of _delete_matches_by_ids. */
    method DeleteMatchRows(ids: set<MatchId>) returns (deleted: set<MatchId>)
      modifies this
      ensures deleted == ids * old(matches).Keys
      ensures Snapshot() == DeleteMatches(old(Snapshot()), ids)
    {
      deleted := ids * matches.Keys;
      participants := map id | id in participants && participants[id].matchId !in deleted :: participants[id];
      replays := map id | id in replays && replays[id].matchId !in deleted :: replays[id];
      artifacts := map id |
        id in artifacts && !(artifacts[id].owner.Some? && artifacts[id].owner.value in deleted) :: artifacts[id];
      matches := matches - deleted;
    }

    method DeleteMatchesByIds(ids: set<MatchId>) returns (deleted: set<MatchId>)
      requires Valid()
      modifies this
      ensures Valid() && deleted == ids * old(matches).Keys
      ensures Snapshot() == DeleteMatches(old(Snapshot()), ids)
    {
      DeleteMatchesSound(Snapshot(), ids);
      deleted := DeleteMatchRows(ids);
    }

    /** The candidates that have no participant left. */
    method FindOrphans(candidates: set<MatchId>) returns (orphans: set<MatchId>)
      ensures orphans == candidates * matches.Keys - WithParticipants(participants)
    {
      orphans := {};
      var rest := candidates * matches.Keys;
      ghost var all := rest;
      while rest != {}
        invariant rest <= all
        invariant orphans == (all - rest) - WithParticipants(participants)
        decreases |rest|
      {
        var m :| m in rest;
        rest := rest - {m};
        var rows := set id | id in participants && participants[id].matchId == m;
        if |rows| == 0 {
          assert forall id | id in participants :: id !in rows;
          orphans := orphans + {m};
        } else {
          assert exists id :: id in rows;
        }
      }
    }

    /** batch_delete_users, the match part: participants go, and with them matches left without any. */
    method DeletePlayers(users: set<UserId>) returns (deleted: set<MatchId>)
      requires Valid()
      modifies this
      ensures Valid() && deleted == Orphaned(old(Snapshot()), users)
      ensures Snapshot() == DropPlayers(old(Snapshot()), users)
    {
      ghost var start := Snapshot();
      DropPlayersSound(start, users);
      var candidates := TouchedBy(participants, users);
      participants := WithoutUsers(participants, users);
      var orphans := FindOrphans(candidates);
      assert orphans == Orphaned(start, users);
      deleted := DeleteMatchRows(orphans);
      assert orphans * start.matches.Keys == orphans;
    }

    // -------------------------------------------------------------- views

    method IndexByRoom(rows: set<MatchId>) returns (byCode: map<Code, MatchId>)
      requires rows <= matches.Keys
      ensures IsIndex(Snapshot(), rows, byCode)
    {
      byCode := map[];
      var rest := rows;
      while rest != {}
        invariant rest <= rows
        invariant IsIndex(Snapshot(), rows - rest, byCode)
        decreases |rest|
      {
        var m :| m in rest;
        ghost var before, seen := byCode, rows - rest;
        rest := rest - {m};
        if matches[m].room != "" {
          byCode := byCode[matches[m].room := m];
        }
        forall c ensures c in byCode <==> c != "" && exists x :: x in rows - rest && matches[x].room == c {
          assert c in before <==> c != "" && exists x :: x in seen && matches[x].room == c;
          if c == matches[m].room {
            assert m in rows - rest;
          }
        }
      }
      assert rows - {} == rows;
    }

    /** The list view's pass over the artifact rows: the round of an autosave and the number of
        snapshots under each match. */
    method CountArtifacts(rows: set<MatchId>, byCode: map<Code, MatchId>, found: set<RowId>)
      returns (saves: map<MatchId, nat>, counts: map<MatchId, nat>)
      requires found <= artifacts.Keys
      requires forall id | id in found ::
          Assigned(byCode, artifacts[id]).Some? && Assigned(byCode, artifacts[id]).value in rows
      ensures Counted(artifacts, byCode, found, rows, saves, counts)
    {
      saves := map[];
      counts := map m | m in rows :: 0;
      var rest := found;
      while rest != {}
        invariant rest <= found
        invariant Counted(artifacts, byCode, found - rest, rows, saves, counts)
        decreases |rest|
      {
        var id :| id in rest;
        TakenOne(found, rest, id);
        saves, counts := CountArtifact(rows, byCode, found - rest, saves, counts, id);
        rest := rest - {id};
      }
      assert found - {} == found;
    }

    method CountArtifact(ghost rows: set<MatchId>, byCode: map<Code, MatchId>, ghost seen: set<RowId>,
                         saves: map<MatchId, nat>, counts: map<MatchId, nat>, id: RowId)
      returns (newSaves: map<MatchId, nat>, newCounts: map<MatchId, nat>)
      requires id in artifacts && id !in seen
      requires Assigned(byCode, artifacts[id]).Some? && Assigned(byCode, artifacts[id]).value in rows
      requires Counted(artifacts, byCode, seen, rows, saves, counts)
      ensures Counted(artifacts, byCode, seen + {id}, rows, newSaves, newCounts)
    {
      var artifact := artifacts[id];
      var m := if artifact.owner.Some? then artifact.owner.value else byCode[artifact.room];
      CountStep(artifacts, byCode, seen, rows, saves, counts, id, m);
      newSaves, newCounts := saves, counts;
      if artifact.what == Autosave {
        newSaves := saves[m := artifact.round];
      } else if artifact.what == MatchArchive.Snapshot {
        newCounts := counts[m := counts[m] + 1];
      }
    }

    /** list_matches for the matches of a user, in whatever order the rows come. */
    method ListMatches(user: UserId) returns (listed: map<MatchId, Summary>, byCode: map<Code, MatchId>)
      ensures listed.Keys == TouchedBy(participants, {user}) * matches.Keys && IsIndex(Snapshot(), listed.Keys, byCode)
      ensures forall m | m in listed :: IsSummary(Snapshot(), byCode, m, listed[m])
    {
      var rows := TouchedBy(participants, {user}) * matches.Keys;
      byCode := IndexByRoom(rows);
      var found := set id | id in artifacts && (if artifacts[id].owner.Some? then artifacts[id].owner.value in rows
                                                else artifacts[id].room in byCode);
      var saves, counts := CountArtifacts(rows, byCode, found);
      listed := map m | m in rows :: Summary(if m in saves then Some(saves[m]) else None, counts[m]);
      forall m, what | m in rows
        ensures Under(artifacts, byCode, found, m, what) == ListedRows(Snapshot(), byCode, m, what)
      {
      }
    }

    /** The rows of a query ordered by round. */
    method RowsByRound(found: set<RowId>) returns (rows: seq<RowId>)
      requires found <= artifacts.Keys
      ensures Distinct(rows) && InQueryOrder(artifacts, rows)
      ensures forall id :: id in rows <==> id in found
    {
      rows := [];
      var rest := found;
      while rest != {}
        invariant rest <= found
        invariant Distinct(rows) && InQueryOrder(artifacts, rows)
        invariant forall id :: id in rows <==> id in found - rest
        invariant forall i, id | 0 <= i < |rows| && id in rest ::
            rows[i] in artifacts && NotAfter(artifacts[rows[i]], artifacts[id])
        decreases |rest|
      {
        EarliestExists(artifacts, rest);
        var id :| id in rest && forall j | j in rest :: NotAfter(artifacts[id], artifacts[j]);
        assert id !in rows;
        rows := rows + [id];
        rest := rest - {id};
      }
    }

    /** get_match: the artifacts shown under a match, in round order. */
    method GetMatch(m: MatchId) returns (latestSave: Option<RowId>, snapshots: seq<RowId>)
      requires m in matches
      ensures IsDetail(Snapshot(), m, latestSave, snapshots) && InQueryOrder(artifacts, snapshots)
    {
      var rows := RowsByRound(set id | id in artifacts && Shown(Snapshot(), m, artifacts[id]));
      latestSave, snapshots := PickArtifacts(rows);
      OfTypeAre(artifacts, rows, MatchArchive.Snapshot);
      assert Elements(snapshots) == ShownRows(Snapshot(), m, MatchArchive.Snapshot);
      assert forall id | id in ShownRows(Snapshot(), m, Autosave) :: id in rows;
    }

    /** The loop over the ordered rows: the last autosave wins, snapshots are listed. */
    method PickArtifacts(rows: seq<RowId>) returns (latestSave: Option<RowId>, snapshots: seq<RowId>)
      requires InQueryOrder(artifacts, rows) && forall id | id in rows :: id in artifacts
      ensures snapshots == OfType(artifacts, rows, MatchArchive.Snapshot) && IsLatestSave(artifacts, rows, latestSave)
    {
      latestSave, snapshots := None, [];
      for i := 0 to |rows|
        invariant snapshots == OfType(artifacts, rows[..i], MatchArchive.Snapshot)
        invariant IsLatestSave(artifacts, rows[..i], latestSave)
      {
        var id := rows[i];
        assert rows[..i + 1][..i] == rows[..i] && rows[..i + 1] == rows[..i] + [id];
        if artifacts[id].what == Autosave {
          forall j | j in rows[..i] ensures NotAfter(artifacts[j], artifacts[id]) {
            var k :| 0 <= k < i && rows[k] == j;
          }
          latestSave := Some(id);
        } else if artifacts[id].what == MatchArchive.Snapshot {
          snapshots := snapshots + [id];
        }
      }
      assert rows[..|rows|] == rows;
    }
  }
}
