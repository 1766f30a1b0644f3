/**
  Deleting users for good, across rooms, matches and accounts
  (backend/app/admin.py, batch_delete_users).
 */
module UserDeletion {
  import opened Prelude
  import opened RoomModel
  import RoomHandlers
  import RoomRuns
  import Rooms = RoomStore
  import MatchArchive
  import Matches = ArchiveStore
  import AccountModel
  import People = AccountStore

  /** Everything user deletion touches. */
  datatype World = World(rooms: Directory, archive: MatchArchive.Archive, accounts: AccountModel.Accounts)

  function Delete(w: World, users: set<UserId>): World {
    World(RoomHandlers.DropUsers(w.rooms, users),
          MatchArchive.DropPlayers(w.archive, users),
          AccountModel.DropAccounts(w.accounts, users))
  }

  /** No row anywhere names one of the users. */
  ghost predicate Forgotten(w: World, users: set<UserId>) {
    && (forall c | c in w.rooms.rooms :: w.rooms.rooms[c].owner !in users)
    && (forall id | id in w.rooms.members :: w.rooms.members[id].user !in users)
    && (forall id | id in w.archive.participants :: w.archive.participants[id].user !in users)
    && (forall id | id in w.accounts.sessions :: w.accounts.sessions[id] !in users)
    && (forall id | id in w.accounts.identities :: w.accounts.identities[id].user !in users)
    && w.accounts.users.Keys !! users
  }

  /** Main result, closure: nothing mentions the users afterwards, and each room they owned left a tombstone. */
  lemma DeletionIsClosed(w: World, users: set<UserId>)
    requires RoomRuns.Sound(w.rooms)
    ensures Forgotten(Delete(w, users), users)
    ensures forall c | c in w.rooms.rooms && w.rooms.rooms[c].owner in users ::
      c in Delete(w, users).rooms.tombstones && c !in Delete(w, users).rooms.rooms
  {
  }

  /** Participants of a match, before or after. */
  ghost predicate Played(a: MatchArchive.Archive, m: MatchArchive.MatchId, user: UserId) {
    exists id :: id in a.participants && a.participants[id] == MatchArchive.Participant(m, user)
  }

  lemma OrphanedIff(a: MatchArchive.Archive, users: set<UserId>, m: MatchArchive.MatchId)
    requires m in a.matches
    ensures m in MatchArchive.Orphaned(a, users) <==>
      (exists u :: Played(a, m, u)) && (forall u | Played(a, m, u) :: u in users)
  {
    var rest := MatchArchive.WithoutUsers(a.participants, users);
    if m in MatchArchive.Orphaned(a, users) {
      var id :| id in a.participants && a.participants[id].user in users && a.participants[id].matchId == m;
      assert Played(a, m, a.participants[id].user);
      forall u | Played(a, m, u) ensures u in users {
        var i :| i in a.participants && a.participants[i] == MatchArchive.Participant(m, u);
        assert i in rest ==> m in MatchArchive.WithParticipants(rest);
      }
    }
    if (exists u :: Played(a, m, u)) && (forall u | Played(a, m, u) :: u in users) {
      var u :| Played(a, m, u);
      var id :| id in a.participants && a.participants[id] == MatchArchive.Participant(m, u);
      assert m in MatchArchive.TouchedBy(a.participants, users);
      forall i | i in rest ensures rest[i].matchId != m {
        assert Played(a, rest[i].matchId, rest[i].user);
      }
    }
  }

  /** Main result: a match goes exactly when it had participants and all of them were deleted. */
  lemma MatchGoesIff(w: World, users: set<UserId>, m: MatchArchive.MatchId)
    requires m in w.archive.matches
    ensures m !in Delete(w, users).archive.matches <==>
      (exists u :: Played(w.archive, m, u)) && (forall u | Played(w.archive, m, u) :: u in users)
  {
    OrphanedIff(w.archive, users, m);
  }

  /** The directory lost no room of others, no row of others outside the deleted rooms, and gained
      the tombstones of the owned rooms only. */
  ghost predicate RoomsSpared(before: Directory, after: Directory, users: set<UserId>) {
    && (forall c | c in before.rooms && before.rooms[c].owner !in users ::
          c in after.rooms && after.rooms[c] == before.rooms[c])
    && (forall id | id in before.members && before.members[id].user !in users
                    && before.members[id].room in before.rooms
                    && before.rooms[before.members[id].room].owner !in users ::
          id in after.members && after.members[id] == before.members[id])
    && after.rooms.Keys <= before.rooms.Keys && after.members.Keys <= before.members.Keys
    && after.tombstones == before.tombstones + (set c | c in before.rooms && c != "" && before.rooms[c].owner in users)
    && after.servers == before.servers && after.issued == before.issued
  }

  /** Matches that stay are as they were, and so is everything of theirs but the users'
      participations; artifacts go only with their owner. */
  ghost predicate MatchesSpared(before: MatchArchive.Archive, after: MatchArchive.Archive, users: set<UserId>) {
    && (forall m | m in after.matches :: m in before.matches && after.matches[m] == before.matches[m])
    && (forall id :: id in after.participants <==> id in before.participants && before.participants[id].user !in users)
    && (forall id | id in after.participants :: after.participants[id] == before.participants[id])
    && (forall id :: id in after.replays <==>
          id in before.replays && before.replays[id].matchId !in before.matches.Keys - after.matches.Keys)
    && (forall id | id in after.replays :: after.replays[id] == before.replays[id])
    && (forall id :: id in after.artifacts <==>
          (id in before.artifacts && !(before.artifacts[id].owner.Some?
             && before.artifacts[id].owner.value in before.matches.Keys - after.matches.Keys)))
    && (forall id | id in after.artifacts :: after.artifacts[id] == before.artifacts[id])
  }

  ghost predicate AccountsSpared(before: AccountModel.Accounts, after: AccountModel.Accounts, users: set<UserId>) {
    && (forall u :: u in after.users <==> u in before.users && u !in users)
    && (forall u | u in after.users :: after.users[u] == before.users[u])
    && (forall id :: id in after.identities <==> id in before.identities && before.identities[id].user !in users)
    && (forall id | id in after.identities :: after.identities[id] == before.identities[id])
    && (forall id :: id in after.sessions <==> id in before.sessions && before.sessions[id] !in users)
    && (forall id | id in after.sessions :: after.sessions[id] == before.sessions[id])
  }

  /** Main result, minimality: everything of other people stays as it was. */
  lemma DeletionIsMinimal(w: World, users: set<UserId>)
    ensures RoomsSpared(w.rooms, Delete(w, users).rooms, users)
    ensures MatchesSpared(w.archive, Delete(w, users).archive, users)
    ensures AccountsSpared(w.accounts, Delete(w, users).accounts, users)
  {
  }

  /** Main result: every surviving participant, replay and owned artifact still has its match, and
      all three stores keep their invariants. */
  lemma SurvivorsKeepTheirMatch(w: World, users: set<UserId>)
    requires RoomRuns.Sound(w.rooms) && MatchArchive.Sound(w.archive) && AccountModel.Sound(w.accounts)
    ensures var after := Delete(w, users);
      && RoomRuns.Sound(after.rooms) && MatchArchive.Sound(after.archive) && AccountModel.Sound(after.accounts)
      && (forall id | id in after.archive.participants ::
          after.archive.participants[id].matchId in after.archive.matches)
      && (forall id | id in after.archive.replays :: after.archive.replays[id].matchId in after.archive.matches)
      && (forall id | id in after.archive.artifacts && after.archive.artifacts[id].owner.Some? ::
            after.archive.artifacts[id].owner.value in after.archive.matches)
  {
    RoomRuns.DropUsersSound(w.rooms, users);
    MatchArchive.DropPlayersSound(w.archive, users);
    AccountModel.StepSound(w.accounts, AccountModel.Deletes(users), "");
  }

  /** With no user to delete the handler returns at once, and deleting nobody changes nothing. */
  lemma DeletingNobody(w: World)
    ensures Delete(w, {}) == w
    ensures RoomHandlers.OwnedCodes(w.rooms, {}) == {} && MatchArchive.Orphaned(w.archive, {}) == {}
  {
    assert RoomHandlers.OwnedCodes(w.rooms, {}) == {};
    assert MatchArchive.Orphaned(w.archive, {}) == {};
    assert RoomHandlers.DropUsers(w.rooms, {}) == w.rooms by {
      assert w.rooms.rooms - {} == w.rooms.rooms;
      assert w.rooms.tombstones + {} * w.rooms.rooms.Keys == w.rooms.tombstones;
    }
    assert MatchArchive.DropPlayers(w.archive, {}) == w.archive by {
      assert MatchArchive.WithoutUsers(w.archive.participants, {}) == w.archive.participants;
      assert w.archive.matches - {} * w.archive.matches.Keys == w.archive.matches;
    }
    assert w.accounts.users - {} == w.accounts.users;
  }

  class AdminStore {
    const rooms: Rooms.RoomStore
    const matches: Matches.ArchiveStore
    const people: People.AccountStore

    ghost predicate Valid()
      reads this, rooms, matches, people
    {
      rooms.Valid() && matches.Valid() && people.Valid()
    }

    ghost function Snapshot(): World
      reads this, rooms, matches, people
    {
      World(rooms.Snapshot(), matches.Snapshot(), people.Snapshot())
    }

    constructor ()
      ensures Valid() && fresh(rooms) && fresh(matches) && fresh(people)
    {
      rooms := new Rooms.RoomStore();
      matches := new Matches.ArchiveStore();
      people := new People.AccountStore();
    }

    /** The deletes of batch_delete_users, for the users that exist. */
    method DeleteFound(existing: set<UserId>) returns (deletedRooms: nat, deletedMatches: nat)
      requires Valid()
      modifies rooms, matches, people
      ensures Valid()
      ensures Snapshot() == Delete(old(Snapshot()), existing)
      ensures deletedRooms == |RoomHandlers.OwnedCodes(old(rooms.Snapshot()), existing)|
      ensures deletedMatches == |MatchArchive.Orphaned(old(matches.Snapshot()), existing)|
    {
      var codes := rooms.DeleteOwnedRooms(existing);
      assert matches.Snapshot() == old(matches.Snapshot());
      var orphans := matches.DeletePlayers(existing);
      deletedRooms, deletedMatches := |codes|, |orphans|;
      rooms.DeleteMembersOf(existing);
      people.DeleteAccounts(existing);
    }

    method BatchDeleteUsers(ids: seq<UserId>)
      returns (requested: nat, affected: nat, missing: seq<UserId>, deletedRooms: nat, deletedMatches: nat)
      requires Valid()
      modifies rooms, matches, people
      ensures Valid()
      ensures Snapshot() == Delete(old(Snapshot()), RoomHandlers.Reported(ids) * old(people.users).Keys)
      ensures requested == |RoomHandlers.Reported(ids)| == affected + |missing|
      ensures affected == |RoomHandlers.Reported(ids) * old(people.users).Keys|
      ensures Distinct(missing) && Elements(missing) == RoomHandlers.Reported(ids) - old(people.users).Keys
      ensures var gone := RoomHandlers.Reported(ids) * old(people.users).Keys;
        && deletedRooms == |RoomHandlers.OwnedCodes(old(rooms.Snapshot()), gone)|
        && deletedMatches == |MatchArchive.Orphaned(old(matches.Snapshot()), gone)|
    {
      ghost var known := people.users.Keys;
      var wanted := Rooms.NonEmptyItems(ids);
      DistinctSize(wanted);
      requested := |wanted|;
      var existing := Elements(wanted) * people.users.Keys;
      missing := Missing(wanted, existing);
      affected := |existing|;
      assert Elements(wanted) * existing == existing;
      assert Elements(wanted) - existing == Elements(wanted) - known;
      if requested == 0 {
        assert existing == {};
        DeletingNobody(Snapshot());
        deletedRooms, deletedMatches := 0, 0;
        return;
      }
      deletedRooms, deletedMatches := DeleteFound(existing);
    }
  }
}
