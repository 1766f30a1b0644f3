/**
  Accounts, their login identities and sessions (backend/app/auth.py,
  backend/app/guest_identity_cleanup.py). E-mail addresses are already normalised;
  password checks come in as their result.
 */
module AccountModel {
  import opened Prelude
  import opened RoomModel

  datatype Provider = Guest | Email

  /** A guest identity's key is its device id, an e-mail identity's its address. */
  datatype Identity = Identity(provider: Provider, key: string, user: UserId)

  /** users maps a user to whether the account is active; reserved is the configured
      administrator's address, "" if none is configured. */
  datatype Accounts = AccountBook(
    users: map<UserId, bool>,
    identities: map<RowId, Identity>,
    sessions: map<RowId, UserId>,
    nextRow: RowId)

  datatype AuthReply = SignedIn(user: UserId) | Done | Denied

  datatype AuthOutcome = AuthOutcome(after: Accounts, reply: AuthReply)

  // ----------------------------------------------------------- lookups, writes

  /** The unique constraint on (provider, provider_user_id). */
  predicate UniqueKeys(identities: map<RowId, Identity>) {
    forall i, j | i in identities && j in identities && i != j ::
      identities[i].provider != identities[j].provider || identities[i].key != identities[j].key
  }

  predicate ByKey(identities: map<RowId, Identity>, id: RowId, provider: Provider, key: string) {
    id in identities && identities[id].provider == provider && identities[id].key == key
  }

  predicate ByUser(identities: map<RowId, Identity>, id: RowId, provider: Provider, user: UserId) {
    id in identities && identities[id].provider == provider && identities[id].user == user
  }

  ghost function FindByKey(identities: map<RowId, Identity>, provider: Provider, key: string): (found: Option<RowId>)
    ensures found.Some? ==> ByKey(identities, found.value, provider, key)
    ensures found.None? ==> forall id :: !ByKey(identities, id, provider, key)
  {
    if exists id :: ByKey(identities, id, provider, key)
    then var id :| ByKey(identities, id, provider, key); Some(id) else None
  }

  ghost function FindByUser(identities: map<RowId, Identity>, provider: Provider, user: UserId): (found: Option<RowId>)
    ensures found.Some? ==> ByUser(identities, found.value, provider, user)
    ensures found.None? ==> forall id :: !ByUser(identities, id, provider, user)
  {
    if exists id :: ByUser(identities, id, provider, user)
    then var id :| ByUser(identities, id, provider, user); Some(id) else None
  }

  function SignIn(a: Accounts, user: UserId): Accounts {
    a.(sessions := a.sessions[a.nextRow := user], nextRow := a.nextRow + 1)
  }

  function AddIdentity(a: Accounts, identity: Identity): Accounts {
    a.(identities := a.identities[a.nextRow := identity], nextRow := a.nextRow + 1)
  }

  function ActiveUser(a: Accounts, user: UserId): bool {
    user in a.users && a.users[user]
  }

  function WithoutGuest(identities: map<RowId, Identity>, user: UserId): map<RowId, Identity> {
    map id | id in identities && !(identities[id].provider == Guest && identities[id].user == user) :: identities[id]
  }

  // ----------------------------------------------------------------- handlers

  ghost function GuestLogin(a: Accounts, device: string, newUser: UserId): AuthOutcome {
    if device == "" then AuthOutcome(a, Denied)
    else
      match FindByKey(a.identities, Guest, device)
      case Some(id) =>
        var user := a.identities[id].user;
        if user in a.users && !a.users[user] then AuthOutcome(a, Denied)
        else
          var known := if user in a.users then a else a.(users := a.users[user := true]);
          AuthOutcome(SignIn(known, user), SignedIn(user))
      case None =>
        var added := AddIdentity(a.(users := a.users[newUser := true]), Identity(Guest, device, newUser));
        AuthOutcome(SignIn(added, newUser), SignedIn(newUser))
  }

  /** nameFits: no display name was given, or one that is not blank, not too long and nobody's. */
  ghost function Register(a: Accounts, email: string, hasPassword: bool, nameFits: bool, reserved: string,
                          newUser: UserId): AuthOutcome {
    if email == "" || !hasPassword || (reserved != "" && email == reserved)
       || FindByKey(a.identities, Email, email).Some? || !nameFits
    then AuthOutcome(a, Denied)
    else
      var added := AddIdentity(a.(users := a.users[newUser := true]), Identity(Email, email, newUser));
      AuthOutcome(SignIn(added, newUser), SignedIn(newUser))
  }

  /** login; the administrator's configured password signs in the administrator's account, made on first use. */
  ghost function Login(a: Accounts, email: string, passwordOk: bool, adminPasswordOk: bool, reserved: string,
                       newUser: UserId): AuthOutcome {
    if reserved != "" && email == reserved && adminPasswordOk then
      match FindByKey(a.identities, Email, email)
      case Some(id) =>
        var user := a.identities[id].user;
        if user in a.users && !a.users[user] then AuthOutcome(a, Denied)
        else
          var known := if user in a.users then a else a.(users := a.users[user := true]);
          AuthOutcome(SignIn(known, user), SignedIn(user))
      case None =>
        var added := AddIdentity(a.(users := a.users[newUser := true]), Identity(Email, email, newUser));
        AuthOutcome(SignIn(added, newUser), SignedIn(newUser))
    else
      match FindByKey(a.identities, Email, email)
      case None => AuthOutcome(a, Denied)
      case Some(id) =>
        var user := a.identities[id].user;
        if !passwordOk || !ActiveUser(a, user) then AuthOutcome(a, Denied)
        else AuthOutcome(SignIn(a, user), SignedIn(user))
  }

  /** bind, for the user of a valid session. */
  ghost function Bind(a: Accounts, user: UserId, email: string, hasPassword: bool, reserved: string): AuthOutcome {
    if !ActiveUser(a, user) || email == "" || !hasPassword || (reserved != "" && email == reserved)
    then AuthOutcome(a, Denied)
    else
      var taken := FindByKey(a.identities, Email, email);
      if taken.Some? && a.identities[taken.value].user != user then AuthOutcome(a, Denied)
      else
        var bound := match FindByUser(a.identities, Email, user)
          case None => AddIdentity(a, Identity(Email, email, user))
          case Some(id) => a.(identities := a.identities[id := Identity(Email, email, user)]);
        AuthOutcome(bound.(identities := WithoutGuest(bound.identities, user)), SignedIn(user))
  }

  ghost function UpdateEmail(a: Accounts, user: UserId, email: string, passwordOk: bool,
                             reserved: string): AuthOutcome {
    match FindByUser(a.identities, Email, user)
    case None => AuthOutcome(a, Denied)
    case Some(id) =>
      var taken := FindByKey(a.identities, Email, email);
      if !ActiveUser(a, user) || !passwordOk || email == ""
         || (reserved != "" && email == reserved && a.identities[id].key != reserved)
         || (taken.Some? && a.identities[taken.value].user != user)
      then AuthOutcome(a, Denied)
      else AuthOutcome(a.(identities := a.identities[id := Identity(Email, email, user)]), Done)
  }

  /** Guest identities of users that also have an e-mail identity. */
  function UpgradedGuests(identities: map<RowId, Identity>): set<RowId> {
    set id | id in identities && identities[id].provider == Guest
             && exists e :: e in identities && identities[e].provider == Email
                 && identities[e].user == identities[id].user
  }

  /** The users that hold a guest identity they no longer need. */
  function UpgradedUsers(identities: map<RowId, Identity>): set<UserId> {
    set id | id in UpgradedGuests(identities) :: identities[id].user
  }

  function Cleanup(a: Accounts): Accounts {
    a.(identities := a.identities - UpgradedGuests(a.identities))
  }

  function SetActive(a: Accounts, users: set<UserId>, active: bool): Accounts {
    a.(users := map u | u in a.users :: if u in users then active else a.users[u])
  }

  /** The account part of deleting users. */
  function DropAccounts(a: Accounts, users: set<UserId>): Accounts {
    a.(users := a.users - users,
       identities := map id | id in a.identities && a.identities[id].user !in users :: a.identities[id],
       sessions := map id | id in a.sessions && a.sessions[id] !in users :: a.sessions[id])
  }

  // ---------------------------------------------------------------- invariant

  /** No user has two identities: not two e-mail addresses, not two devices, not one of each. */
  ghost predicate OneIdentityEach(identities: map<RowId, Identity>) {
    forall i, j | i in identities && j in identities && i != j :: identities[i].user != identities[j].user
  }

  ghost predicate NobodyHoldsBoth(identities: map<RowId, Identity>) {
    forall i, j | i in identities && j in identities && identities[i].provider == Email
        && identities[j].provider == Guest ::
      identities[i].user != identities[j].user
  }

  ghost predicate RowsSound(a: Accounts) {
    && UniqueKeys(a.identities) && OneIdentityEach(a.identities)
    && (forall id | id in a.identities :: id < a.nextRow)
  }

  /** Identities and sessions are of users that exist. */
  ghost predicate Linked(a: Accounts) {
    && (forall id | id in a.identities :: a.identities[id].user in a.users)
    && (forall id | id in a.sessions :: a.sessions[id] in a.users)
  }

  ghost predicate Sound(a: Accounts) {
    RowsSound(a) && Linked(a)
  }

  predicate Unheard(a: Accounts, user: UserId) {
    user !in a.users && forall id | id in a.identities :: a.identities[id].user != user
  }

  datatype Action =
    | AsGuest(device: string, newUser: UserId)
    | Registers(email: string, hasPassword: bool, nameFits: bool, newUser: UserId)
    | LogsIn(email: string, passwordOk: bool, adminPasswordOk: bool, newUser: UserId)
    | Binds(user: UserId, email: string, hasPassword: bool)
    | UpdatesEmail(user: UserId, email: string, passwordOk: bool)
    | CleansUp
    | SetsActive(users: set<UserId>, active: bool)
    | Deletes(users: set<UserId>)

  /** A new account gets a user id never used before. */
  ghost predicate Admissible(a: Accounts, act: Action) {
    act.AsGuest? || act.Registers? || act.LogsIn? ==> Unheard(a, act.newUser)
  }

  ghost function Step(a: Accounts, act: Action, reserved: string): AuthOutcome {
    match act
    case AsGuest(device, newUser) => GuestLogin(a, device, newUser)
    case Registers(email, hasPassword, nameFits, newUser) =>
        Register(a, email, hasPassword, nameFits, reserved, newUser)
    case LogsIn(email, passwordOk, adminOk, newUser) => Login(a, email, passwordOk, adminOk, reserved, newUser)
    case Binds(user, email, hasPassword) => Bind(a, user, email, hasPassword, reserved)
    case UpdatesEmail(user, email, passwordOk) => UpdateEmail(a, user, email, passwordOk, reserved)
    case CleansUp => AuthOutcome(Cleanup(a), Done)
    case SetsActive(users, active) => AuthOutcome(SetActive(a, users, active), Done)
    case Deletes(users) => AuthOutcome(DropAccounts(a, users), Done)
  }

  /** A row whose key and user no other row has. */
  lemma PutKeepsRows(identities: map<RowId, Identity>, id: RowId, identity: Identity)
    requires UniqueKeys(identities) && OneIdentityEach(identities)
    requires forall i | i in identities && i != id ::
      identities[i].user != identity.user && !ByKey(identities, i, identity.provider, identity.key)
    ensures UniqueKeys(identities[id := identity]) && OneIdentityEach(identities[id := identity])
  {
  }

  /** A key nobody has, for a user without identities. */
  lemma NewIdentitySound(a: Accounts, identity: Identity)
    requires RowsSound(a) && Unheard(a, identity.user) && FindByKey(a.identities, identity.provider, identity.key).None?
    ensures RowsSound(SignIn(AddIdentity(a.(users := a.users[identity.user := true]), identity), identity.user))
    ensures Linked(a) ==> Linked(SignIn(AddIdentity(a.(users := a.users[identity.user := true]), identity),
        identity.user))
  {
    PutKeepsRows(a.identities, a.nextRow, identity);
  }

  /** What bind leaves of the other identities differs from the bound one in user and key. */
  lemma OthersFitBinding(a: Accounts, user: UserId, email: string, put: RowId, i: RowId)
    requires RowsSound(a)
    requires var taken := FindByKey(a.identities, Email, email); taken.None? || a.identities[taken.value].user == user
    requires var mine := FindByUser(a.identities, Email, user); mine.None? || mine.value == put
    requires i in WithoutGuest(a.identities, user) && i != put
    ensures a.identities[i].user != user && !ByKey(a.identities, i, Email, email)
  {
    if FindByUser(a.identities, Email, user).None? {
      assert !ByUser(a.identities, i, Email, user);
    }
  }

  lemma BoundRowsSound(a: Accounts, user: UserId, email: string, put: RowId)
    requires RowsSound(a)
    requires var taken := FindByKey(a.identities, Email, email); taken.None? || a.identities[taken.value].user == user
    requires var mine := FindByUser(a.identities, Email, user); mine.None? || mine.value == put
    ensures var after := WithoutGuest(a.identities, user)[put := Identity(Email, email, user)];
            UniqueKeys(after) && OneIdentityEach(after)
  {
    var kept := WithoutGuest(a.identities, user);
    forall i | i in kept && i != put ensures kept[i].user != user && !ByKey(kept, i, Email, email) {
      OthersFitBinding(a, user, email, put, i);
    }
    assert UniqueKeys(kept);
    assert OneIdentityEach(kept);
    PutKeepsRows(kept, put, Identity(Email, email, user));
  }

  lemma BindSound(a: Accounts, user: UserId, email: string, hasPassword: bool, reserved: string)
    requires RowsSound(a)
    ensures var o := Bind(a, user, email, hasPassword, reserved);
      && RowsSound(o.after) && (Linked(a) ==> Linked(o.after))
      && (o.reply.SignedIn? ==> exists id ::
          ByKey(o.after.identities, id, Email, email) && o.after.identities[id].user == user)
  {
    var o := Bind(a, user, email, hasPassword, reserved);
    if o.reply.SignedIn? {
      var mine := FindByUser(a.identities, Email, user);
      var put := if mine.Some? then mine.value else a.nextRow;
      BoundRowsSound(a, user, email, put);
      assert o.after.identities == WithoutGuest(a.identities, user)[put := Identity(Email, email, user)];
      assert ByKey(o.after.identities, put, Email, email);
    }
  }

  lemma UpdateEmailSound(a: Accounts, user: UserId, email: string, passwordOk: bool, reserved: string)
    requires RowsSound(a)
    ensures var o := UpdateEmail(a, user, email, passwordOk, reserved);
            RowsSound(o.after) && (Linked(a) ==> Linked(o.after))
  {
    if UpdateEmail(a, user, email, passwordOk, reserved).reply == Done {
      var mine := FindByUser(a.identities, Email, user).value;
      forall i | i in a.identities && i != mine
        ensures a.identities[i].user != user && !ByKey(a.identities, i, Email, email)
      {
      }
      PutKeepsRows(a.identities, mine, Identity(Email, email, user));
    }
  }

  lemma SignInsSound(a: Accounts, act: Action, reserved: string)
    requires RowsSound(a) && Admissible(a, act) && (act.AsGuest? || act.Registers? || act.LogsIn?)
    ensures RowsSound(Step(a, act, reserved).after)
    ensures Linked(a) ==> Linked(Step(a, act, reserved).after)
  {
    match act
    case AsGuest(device, newUser) =>
      if FindByKey(a.identities, Guest, device).None? {
        NewIdentitySound(a, Identity(Guest, device, newUser));
      }
    case Registers(email, _, _, newUser) =>
      if FindByKey(a.identities, Email, email).None? {
        NewIdentitySound(a, Identity(Email, email, newUser));
      }
    case LogsIn(email, _, _, newUser) =>
      if FindByKey(a.identities, Email, email).None? {
        NewIdentitySound(a, Identity(Email, email, newUser));
      }
  }

  lemma StepSound(a: Accounts, act: Action, reserved: string)
    requires RowsSound(a) && Admissible(a, act)
    ensures RowsSound(Step(a, act, reserved).after)
    ensures Linked(a) ==> Linked(Step(a, act, reserved).after)
  {
    match act
    case Binds(user, email, hasPassword) => BindSound(a, user, email, hasPassword, reserved);
    case UpdatesEmail(user, email, passwordOk) => UpdateEmailSound(a, user, email, passwordOk, reserved);
    case CleansUp =>
    case SetsActive(_, _) =>
    case Deletes(_) =>
    case _ => SignInsSound(a, act, reserved);
  }

  // ------------------------------------------------ what callers may rely on

  /** The user holds the identity, and every identity of other users is as it was. */
  ghost predicate Holds(before: Accounts, after: Accounts, identity: Identity) {
    && (exists id :: id in after.identities && after.identities[id] == identity)
    && (forall id | id in before.identities && before.identities[id].user != identity.user ::
          id in after.identities && after.identities[id] == before.identities[id])
    && (forall id | id in after.identities && after.identities[id].user != identity.user ::
          id in before.identities)
  }

  /** A session of the user was added, and no other changed. */
  ghost predicate OpensSession(before: Accounts, after: Accounts, user: UserId) {
    after.nextRow > 0 && after.sessions == before.sessions[after.nextRow - 1 := user]
  }

  ghost predicate Fresh(a: Accounts, provider: Provider, key: string) {
    forall id | id in a.identities :: !ByKey(a.identities, id, provider, key)
  }

  /** Nobody but the user has the address. */
  ghost predicate AddressFree(a: Accounts, email: string, user: UserId) {
    forall id | id in a.identities && a.identities[id].provider == Email && a.identities[id].key == email ::
      a.identities[id].user == user
  }

  /** The row is the identity of this provider and key. */
  predicate IsHolder(a: Accounts, id: RowId, provider: Provider, key: string) {
    id in a.identities && a.identities[id].provider == provider && a.identities[id].key == key
  }

  /** The account, if there is one, has not been switched off. */
  predicate NotBarred(a: Accounts, user: UserId) {
    user in a.users ==> a.users[user]
  }

  predicate IsAddress(email: string, reserved: string) {
    email != "" && (reserved == "" || email != reserved)
  }

  /** Main result: exactly which guests sign in, as whom, and what is added. */
  lemma GuestLoginAnswers(a: Accounts, device: string, newUser: UserId)
    requires UniqueKeys(a.identities)
    ensures var o := GuestLogin(a, device, newUser);
      && (o.reply.SignedIn? <==>
            device != "" && forall id | IsHolder(a, id, Guest, device) :: NotBarred(a, a.identities[id].user))
      && (!o.reply.SignedIn? ==> o == AuthOutcome(a, Denied))
      && (o.reply.SignedIn? ==> o.after.users == a.users[o.reply.user := true])
      && (forall id | o.reply.SignedIn? && IsHolder(a, id, Guest, device) ::
            o.reply.user == a.identities[id].user && o.after.identities == a.identities)
      && (o.reply.SignedIn? && Fresh(a, Guest, device) ==>
            && o.reply.user == newUser
            && o.after.identities == a.identities[a.nextRow := Identity(Guest, device, newUser)])
  {
    var found := FindByKey(a.identities, Guest, device);
    assert found.Some? ==> IsHolder(a, found.value, Guest, device);
    forall id: RowId | IsHolder(a, id, Guest, device) ensures found == Some(id) {
      assert ByKey(a.identities, id, Guest, device);
    }
  }

  /** Main result: exactly who signs in with an address, as whom, and what is added. The configured
      administrator's own password makes or restores the administrator's account; anybody else must have
      an account already, and it must be active. */
  lemma LoginAnswers(a: Accounts, email: string, passwordOk: bool, adminPasswordOk: bool, reserved: string,
                     newUser: UserId)
    requires UniqueKeys(a.identities)
    ensures var o := Login(a, email, passwordOk, adminPasswordOk, reserved, newUser);
      var asAdmin := reserved != "" && email == reserved && adminPasswordOk;
      && (o.reply.SignedIn? <==>
            if asAdmin then forall id | IsHolder(a, id, Email, email) :: NotBarred(a, a.identities[id].user)
            else
              passwordOk && exists id ::
                IsHolder(a, id, Email, email) && a.identities[id].user in a.users && a.users[a.identities[id].user])
      && (!o.reply.SignedIn? ==> o == AuthOutcome(a, Denied))
      && (o.reply.SignedIn? ==> o.after.users == a.users[o.reply.user := true])
      && (forall id | o.reply.SignedIn? && IsHolder(a, id, Email, email) ::
            o.reply.user == a.identities[id].user && o.after.identities == a.identities)
      && (o.reply.SignedIn? && Fresh(a, Email, email) ==>
            o.reply.user == newUser && o.after.identities == a.identities[a.nextRow := Identity(Email, email, newUser)])
  {
    var found := FindByKey(a.identities, Email, email);
    assert found.Some? ==> IsHolder(a, found.value, Email, email);
    forall id: RowId | IsHolder(a, id, Email, email) ensures found == Some(id) {
      assert ByKey(a.identities, id, Email, email);
    }
    var o := Login(a, email, passwordOk, adminPasswordOk, reserved, newUser);
    if o.reply.SignedIn? && o.reply.user in a.users && a.users[o.reply.user] {
      assert a.users[o.reply.user := true] == a.users;
    }
  }

  /** Main result: exactly who may bind an address. */
  lemma BindAnswers(a: Accounts, user: UserId, email: string, hasPassword: bool, reserved: string)
    requires UniqueKeys(a.identities)
    ensures var o := Bind(a, user, email, hasPassword, reserved);
      && (o.reply.SignedIn? <==> user in a.users && a.users[user] && IsAddress(email, reserved) && hasPassword
                                 && AddressFree(a, email, user))
      && (!o.reply.SignedIn? ==> o == AuthOutcome(a, Denied))
  {
    var found := FindByKey(a.identities, Email, email);
    forall id: RowId | IsHolder(a, id, Email, email) ensures found == Some(id) {
      assert ByKey(a.identities, id, Email, email);
    }
    if found.Some? && a.identities[found.value].user != user {
      assert !AddressFree(a, email, user);
    }
    if !AddressFree(a, email, user) {
      var id :| id in a.identities && a.identities[id].provider == Email && a.identities[id].key == email
        && a.identities[id].user != user;
      assert IsHolder(a, id, Email, email);
    }
  }

  /** Main result: exactly who may change their address, and that it is their own row that changes. An
      address may be kept even when it is the reserved one. */
  lemma UpdateEmailAnswers(a: Accounts, user: UserId, email: string, passwordOk: bool, reserved: string)
    requires RowsSound(a)
    ensures var o := UpdateEmail(a, user, email, passwordOk, reserved);
      && (o.reply == Done <==>
            && user in a.users && a.users[user] && passwordOk && email != "" && AddressFree(a, email, user)
            && exists own ::
                 && own in a.identities && a.identities[own].provider == Email && a.identities[own].user == user
                 && (IsAddress(email, reserved) || a.identities[own].key == reserved))
      && (o.reply != Done ==> o == AuthOutcome(a, Denied))
      && (forall own | o.reply == Done && own in a.identities && a.identities[own].provider == Email
                       && a.identities[own].user == user ::
            o.after == a.(identities := a.identities[own := Identity(Email, email, user)]))
  {
    var found := FindByKey(a.identities, Email, email);
    var mine := FindByUser(a.identities, Email, user);
    forall id: RowId | IsHolder(a, id, Email, email) ensures found == Some(id) {
      assert ByKey(a.identities, id, Email, email);
    }
    forall own: RowId | own in a.identities && a.identities[own].provider == Email && a.identities[own].user == user
      ensures mine == Some(own)
    {
      assert ByUser(a.identities, own, Email, user);
    }
    if found.Some? && a.identities[found.value].user != user {
      assert !AddressFree(a, email, user);
    }
    if !AddressFree(a, email, user) {
      var id :| id in a.identities && a.identities[id].provider == Email && a.identities[id].key == email
        && a.identities[id].user != user;
      assert IsHolder(a, id, Email, email);
    }
  }

  lemma BindHolds(a: Accounts, user: UserId, email: string, hasPassword: bool, reserved: string)
    requires RowsSound(a)
    ensures var o := Bind(a, user, email, hasPassword, reserved);
      o.reply.SignedIn? ==>
        && o.reply.user == user && Holds(a, o.after, Identity(Email, email, user))
        && (forall id :: !ByUser(o.after.identities, id, Guest, user))
  {
    var o := Bind(a, user, email, hasPassword, reserved);
    if o.reply.SignedIn? {
      var mine := FindByUser(a.identities, Email, user);
      var put := if mine.Some? then mine.value else a.nextRow;
      assert o.after.identities == WithoutGuest(a.identities, user)[put := Identity(Email, email, user)];
      assert o.after.identities[put] == Identity(Email, email, user);
    }
  }

  lemma GuestLoginHolds(a: Accounts, device: string, newUser: UserId)
    requires RowsSound(a) && Unheard(a, newUser)
    ensures var o := GuestLogin(a, device, newUser);
      o.reply.SignedIn? ==>
        && ActiveUser(o.after, o.reply.user) && OpensSession(a, o.after, o.reply.user)
        && Holds(a, o.after, Identity(Guest, device, o.reply.user))
        && (o.reply.user == newUser <==> Fresh(a, Guest, device))
  {
    var o := GuestLogin(a, device, newUser);
    if o.reply.SignedIn? {
      var known := FindByKey(a.identities, Guest, device);
      var row := if known.Some? then known.value else a.nextRow;
      assert o.after.identities[row] == Identity(Guest, device, o.reply.user);
      assert known.Some? ==> ByKey(a.identities, known.value, Guest, device);
    }
  }

  lemma LoginHolds(a: Accounts, email: string, passwordOk: bool, adminPasswordOk: bool, reserved: string,
                   newUser: UserId)
    requires RowsSound(a) && Unheard(a, newUser)
    ensures var o := Login(a, email, passwordOk, adminPasswordOk, reserved, newUser);
      o.reply.SignedIn? ==>
        && ActiveUser(o.after, o.reply.user) && OpensSession(a, o.after, o.reply.user)
        && Holds(a, o.after, Identity(Email, email, o.reply.user))
        && (passwordOk || (reserved != "" && email == reserved && adminPasswordOk))
  {
    var o := Login(a, email, passwordOk, adminPasswordOk, reserved, newUser);
    if o.reply.SignedIn? {
      var known := FindByKey(a.identities, Email, email);
      var row := if known.Some? then known.value else a.nextRow;
      assert o.after.identities[row] == Identity(Email, email, o.reply.user);
    }
  }

  ghost predicate IsRun(trace: seq<Accounts>, actions: seq<Action>, reserved: string) {
    && |trace| == |actions| + 1
    && Sound(trace[0])
    && forall k | 0 <= k < |actions| :: Admissible(trace[k], actions[k])
        && trace[k + 1] == Step(trace[k], actions[k], reserved).after
  }

  /** Main result: through any run each user has at most one identity, so nobody holds an
      e-mail and a guest identity, and addresses stay unique. */
  lemma {:induction false} RunsAreSound(trace: seq<Accounts>, actions: seq<Action>, reserved: string, k: nat)
    requires IsRun(trace, actions, reserved) && k < |trace|
    ensures Sound(trace[k]) && NobodyHoldsBoth(trace[k].identities)
  {
    if k > 0 {
      RunsAreSound(trace, actions, reserved, k - 1);
      StepSound(trace[k - 1], actions[k - 1], reserved);
    }
  }

  /** Cleanup, from any state: afterwards nobody holds both, and what it removed are exactly the
      guest identities of users with an e-mail identity. */
  lemma CleanupSeparates(a: Accounts)
    ensures NobodyHoldsBoth(Cleanup(a).identities)
    ensures forall id | id in a.identities :: id in Cleanup(a).identities <==>
      !(a.identities[id].provider == Guest && FindByUser(a.identities, Email, a.identities[id].user).Some?)
    ensures forall id | id in Cleanup(a).identities ::
        id in a.identities && Cleanup(a).identities[id] == a.identities[id]
    ensures Cleanup(Cleanup(a)) == Cleanup(a)
    ensures NobodyHoldsBoth(a.identities) <==> Cleanup(a) == a
  {
    var after := Cleanup(a).identities;
    forall id | id in a.identities
      ensures id in UpgradedGuests(a.identities) <==>
        a.identities[id].provider == Guest && FindByUser(a.identities, Email, a.identities[id].user).Some?
    {
      var user := a.identities[id].user;
      var found := FindByUser(a.identities, Email, user);
      assert found.None? ==> forall e | e in a.identities :: !ByUser(a.identities, e, Email, user);
      assert found.Some? ==> ByUser(a.identities, found.value, Email, user);
    }
    forall i, j | i in after && j in after && after[i].provider == Email && after[j].provider == Guest
      ensures after[i].user != after[j].user
    {
      assert j !in UpgradedGuests(a.identities);
    }
    assert UpgradedGuests(after) == {};
    assert after - {} == after;
    if NobodyHoldsBoth(a.identities) {
      assert UpgradedGuests(a.identities) == {};
    }
  }
}
