/**
  The accounts as the handlers keep them, row by row (backend/app/auth.py,
  backend/app/guest_identity_cleanup.py, backend/app/admin.py).
 */
module AccountStore {
  import opened Prelude
  import opened RoomModel
  import opened AccountModel

  class AccountStore {
    var users: map<UserId, bool>
    var identities: map<RowId, Identity>
    var sessions: map<RowId, UserId>
    var nextRow: RowId

    function Snapshot(): Accounts
      reads this
    {
      AccountBook(users, identities, sessions, nextRow)
    }

    ghost predicate Valid()
      reads this
    {
      RowsSound(Snapshot())
    }

    constructor ()
      ensures Valid() && Snapshot() == AccountBook(map[], map[], map[], 0)
    {
      users, identities, sessions, nextRow := map[], map[], map[], 0;
    }

    method GetByKey(provider: Provider, key: string) returns (found: Option<RowId>)
      requires Valid()
      ensures found == FindByKey(identities, provider, key)
    {
      var rows := set id | id in identities && identities[id].provider == provider && identities[id].key == key;
      ghost var want := FindByKey(identities, provider, key);
      if rows == {} {
        assert want.None? by {
          assert forall id | id in identities :: id !in rows;
        }
        return None;
      }
      var id :| id in rows;
      assert ByKey(identities, id, provider, key);
      return Some(id);
    }

    method GetEmailIdentityByUser(user: UserId) returns (found: Option<RowId>)
      requires Valid()
      ensures found == FindByUser(identities, Email, user)
    {
      var rows := set id | id in identities && identities[id].provider == Email && identities[id].user == user;
      ghost var want := FindByUser(identities, Email, user);
      if rows == {} {
        assert want.None? by {
          assert forall id | id in identities :: id !in rows;
        }
        return None;
      }
      var id :| id in rows;
      assert ByUser(identities, id, Email, user);
      return Some(id);
    }

    method NewSession(user: UserId)
      modifies this`sessions, this`nextRow
      ensures Snapshot() == SignIn(old(Snapshot()), user)
    {
      sessions := sessions[nextRow := user];
      nextRow := nextRow + 1;
    }

    method NewIdentity(identity: Identity)
      modifies this`identities, this`nextRow
      ensures Snapshot() == AddIdentity(old(Snapshot()), identity)
    {
      identities := identities[nextRow := identity];
      nextRow := nextRow + 1;
    }

    method DeleteGuestIdentitiesByUser(user: UserId)
      modifies this`identities
      ensures identities == WithoutGuest(old(identities), user)
    {
      DeleteIdentities(set id | id in identities && identities[id].provider == Guest && identities[id].user == user);
    }

    method DeleteIdentities(rows: set<RowId>)
      modifies this`identities
      ensures identities == old(identities) - rows
    {
      ghost var start := identities;
      var rest := rows;
      while rest != {}
        invariant rest <= rows
        invariant identities == start - (rows - rest)
        decreases |rest|
      {
        var id :| id in rest;
        identities := identities - {id};
        rest := rest - {id};
      }
    }

    method GuestLogin(device: string, newUser: UserId) returns (reply: AuthReply)
      requires Valid() && Unheard(Snapshot(), newUser)
      modifies this
      ensures Valid()
      ensures AuthOutcome(Snapshot(), reply) == AccountModel.GuestLogin(old(Snapshot()), device, newUser)
      ensures reply.SignedIn? <==>
        device != "" && forall id | IsHolder(old(Snapshot()), id, Guest, device) ::
          NotBarred(old(Snapshot()), old(identities)[id].user)
      ensures reply.Denied? ==> Snapshot() == old(Snapshot())
      ensures reply.SignedIn? ==>
        && ActiveUser(Snapshot(), reply.user) && OpensSession(old(Snapshot()), Snapshot(), reply.user)
        && Holds(old(Snapshot()), Snapshot(), Identity(Guest, device, reply.user))
        && (reply.user == newUser <==> Fresh(old(Snapshot()), Guest, device))
    {
      StepSound(Snapshot(), AsGuest(device, newUser), "");
      GuestLoginHolds(Snapshot(), device, newUser);
      GuestLoginAnswers(Snapshot(), device, newUser);
      if device == "" {
        return Denied;
      }
      var identity := GetByKey(Guest, device);
      var user := newUser;
      if identity.Some? {
        user := identities[identity.value].user;
        if user !in users {
          users := users[user := true];
        } else if !users[user] {
          return Denied;
        }
      } else {
        users := users[user := true];
        NewIdentity(Identity(Guest, device, user));
      }
      NewSession(user);
      return SignedIn(user);
    }

    method Register(email: string, hasPassword: bool, nameFits: bool, reserved: string, newUser: UserId)
      returns (reply: AuthReply)
      requires Valid() && Unheard(Snapshot(), newUser)
      modifies this
      ensures Valid()
      ensures AuthOutcome(Snapshot(), reply)
              == AccountModel.Register(old(Snapshot()), email, hasPassword, nameFits, reserved, newUser)
      ensures reply.Denied? ==> Snapshot() == old(Snapshot())
      ensures reply.SignedIn? <==> email != "" && hasPassword && nameFits && !(reserved != "" && email == reserved)
                                   && Fresh(old(Snapshot()), Email, email)
      ensures reply.SignedIn? ==>
        && reply.user == newUser && users == old(users)[newUser := true]
        && identities == old(identities)[old(nextRow) := Identity(Email, email, newUser)]
        && old(nextRow) !in old(identities)
        && OpensSession(old(Snapshot()), Snapshot(), newUser)
    {
      StepSound(Snapshot(), Registers(email, hasPassword, nameFits, newUser), reserved);
      if email == "" || !hasPassword {
        return Denied;
      }
      if reserved != "" && email == reserved {
        return Denied;
      }
      var existing := GetByKey(Email, email);
      if existing.Some? || !nameFits {
        return Denied;
      }
      users := users[newUser := true];
      NewIdentity(Identity(Email, email, newUser));
      NewSession(newUser);
      return SignedIn(newUser);
    }

    method Login(email: string, passwordOk: bool, adminPasswordOk: bool, reserved: string, newUser: UserId)
      returns (reply: AuthReply)
      requires Valid() && Unheard(Snapshot(), newUser)
      modifies this
      ensures Valid()
      ensures AuthOutcome(Snapshot(), reply)
              == AccountModel.Login(old(Snapshot()), email, passwordOk, adminPasswordOk, reserved, newUser)
      ensures reply.Denied? ==> Snapshot() == old(Snapshot())
      ensures reply.SignedIn? ==>
        && ActiveUser(Snapshot(), reply.user) && OpensSession(old(Snapshot()), Snapshot(), reply.user)
        && Holds(old(Snapshot()), Snapshot(), Identity(Email, email, reply.user))
      ensures reply.SignedIn? <==>
        if reserved != "" && email == reserved && adminPasswordOk
        then forall id | IsHolder(old(Snapshot()), id, Email, email) ::
               NotBarred(old(Snapshot()), old(identities)[id].user)
        else
          passwordOk && exists id ::
            IsHolder(old(Snapshot()), id, Email, email) && ActiveUser(old(Snapshot()), old(identities)[id].user)
    {
      StepSound(Snapshot(), LogsIn(email, passwordOk, adminPasswordOk, newUser), reserved);
      LoginHolds(Snapshot(), email, passwordOk, adminPasswordOk, reserved, newUser);
      LoginAnswers(Snapshot(), email, passwordOk, adminPasswordOk, reserved, newUser);
      var identity := GetByKey(Email, email);
      if reserved != "" && email == reserved && adminPasswordOk {
        var user := newUser;
        if identity.Some? {
          user := identities[identity.value].user;
          if user !in users {
            users := users[user := true];
          } else if !users[user] {
            return Denied;
          }
        } else {
          users := users[user := true];
          NewIdentity(Identity(Email, email, user));
        }
        NewSession(user);
        return SignedIn(user);
      }
      if identity.None? || !passwordOk {
        return Denied;
      }
      var user := identities[identity.value].user;
      if user !in users || !users[user] {
        return Denied;
      }
      NewSession(user);
      return SignedIn(user);
    }

    method Bind(user: UserId, email: string, hasPassword: bool, reserved: string) returns (reply: AuthReply)
      requires Valid()
      modifies this
      ensures Valid()
      ensures AuthOutcome(Snapshot(), reply) == AccountModel.Bind(old(Snapshot()), user, email, hasPassword, reserved)
      ensures reply.SignedIn? <==> old(user in users && users[user]) && IsAddress(email, reserved) && hasPassword
                                   && AddressFree(old(Snapshot()), email, user)
      ensures reply.Denied? ==> Snapshot() == old(Snapshot())
      ensures reply.SignedIn? ==>
        && reply.user == user && users == old(users) && sessions == old(sessions)
        && Holds(old(Snapshot()), Snapshot(), Identity(Email, email, user))
        && (forall id :: !ByUser(identities, id, Guest, user))
    {
      BindSound(Snapshot(), user, email, hasPassword, reserved);
      BindHolds(Snapshot(), user, email, hasPassword, reserved);
      BindAnswers(Snapshot(), user, email, hasPassword, reserved);
      if user !in users || !users[user] || !hasPassword || email == "" {
        return Denied;
      }
      if reserved != "" && email == reserved {
        return Denied;
      }
      var identity := GetEmailIdentityByUser(user);
      var existing := GetByKey(Email, email);
      if existing.Some? && identities[existing.value].user != user {
        return Denied;
      }
      if identity.None? {
        NewIdentity(Identity(Email, email, user));
      } else {
        identities := identities[identity.value := identities[identity.value].(key := email)];
      }
      DeleteGuestIdentitiesByUser(user);
      return SignedIn(user);
    }

    method UpdateEmail(user: UserId, email: string, passwordOk: bool, reserved: string) returns (reply: AuthReply)
      requires Valid()
      modifies this
      ensures Valid()
      ensures AuthOutcome(Snapshot(), reply)
              == AccountModel.UpdateEmail(old(Snapshot()), user, email, passwordOk, reserved)
      ensures reply == Done <==>
        && old(user in users && users[user]) && passwordOk && email != "" && AddressFree(old(Snapshot()), email, user)
        && exists own ::
             && own in old(identities) && old(identities)[own].provider == Email && old(identities)[own].user == user
             && (IsAddress(email, reserved) || old(identities)[own].key == reserved)
      ensures reply != Done ==> Snapshot() == old(Snapshot())
      ensures reply == Done ==>
        && users == old(users) && sessions == old(sessions) && identities.Keys == old(identities).Keys
        && Holds(old(Snapshot()), Snapshot(), Identity(Email, email, user))
    {
      UpdateEmailSound(Snapshot(), user, email, passwordOk, reserved);
      UpdateEmailAnswers(Snapshot(), user, email, passwordOk, reserved);
      if user !in users || !users[user] {
        return Denied;
      }
      var identity := GetEmailIdentityByUser(user);
      if identity.None? || !passwordOk || email == "" {
        return Denied;
      }
      if reserved != "" && email == reserved && identities[identity.value].key != reserved {
        return Denied;
      }
      var existing := GetByKey(Email, email);
      if existing.Some? && identities[existing.value].user != user {
        return Denied;
      }
      identities := identities[identity.value := identities[identity.value].(key := email)];
      return Done;
    }

    /** The candidates, in whatever order the database's collation gives their users and devices. */
    method FindUpgradedGuestIdentityCandidates() returns (candidates: seq<RowId>)
      ensures Distinct(candidates) && Elements(candidates) == UpgradedGuests(identities)
    {
      candidates := Rows(UpgradedGuests(identities));
    }

    method CleanupUpgradedGuestIdentities(dryRun: bool)
      returns (affectedUsers: nat, removed: nat, candidates: seq<RowId>)
      modifies this`identities
      ensures Distinct(candidates) && Elements(candidates) == UpgradedGuests(old(identities))
      ensures affectedUsers == |UpgradedUsers(old(identities))|
      ensures removed == if dryRun then 0 else |UpgradedGuests(old(identities))|
      ensures Snapshot() == if dryRun then old(Snapshot()) else Cleanup(old(Snapshot()))
    {
      ghost var start := identities;
      candidates := FindUpgradedGuestIdentityCandidates();
      DistinctSize(candidates);
      assert forall id :: id in candidates <==> id in Elements(candidates);
      var users := set id | id in candidates :: identities[id].user;
      assert users == UpgradedUsers(identities);
      affectedUsers := |users|;
      removed := 0;
      if !dryRun {
        for i := 0 to |candidates|
          invariant identities == start - Elements(candidates[..i])
        {
          assert candidates[..i + 1] == candidates[..i] + [candidates[i]];
          identities := identities - {candidates[i]};
        }
        assert candidates[..|candidates|] == candidates;
        removed := |candidates|;
      }
    }

    /** batch_delete_users, the account part: sessions, identities and users go. */
    method DeleteAccounts(gone: set<UserId>)
      requires Valid()
      modifies this
      ensures Valid() && Snapshot() == DropAccounts(old(Snapshot()), gone)
    {
      StepSound(Snapshot(), Deletes(gone), "");
      sessions := map id | id in sessions && sessions[id] !in gone :: sessions[id];
      identities := map id | id in identities && identities[id].user !in gone :: identities[id];
      users := users - gone;
    }
  }
}
