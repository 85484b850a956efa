/** The users and identities tables as the program updates them in place. */
module AccountTables {
  import opened Wrappers
  import opened Text
  import opened FreshNames
  import opened AccountModel
  import opened AccountProofs

  lemma CandidateLookup(users: map<string, User>, base: string, k: nat, username: string)
    requires Clean(username) && NameOk(base)
    ensures NameInUse(users, Candidate(base, "", k), username)
            <==> Candidate(Lower(base), "", k) in NamesOfOthers(users, username)
    ensures Candidate(base, "", k) == if k == 0 then base else base + Decimal(k + 1)
  {
    assert base + "" == base;
    var name := Candidate(base, "", k);
    LowerCandidate(base, k);
    assert NameOk(name);
    NameSurvives(name);
  }

  lemma HolderUnique(s: Accounts, email: string, username: string)
    requires Sound(s) && username in s.users && HeldEmail(s.users[username]) == Some(email)
    ensures HasEmail(s.users, email) && username == Holder(s.users, email)
  {
    hide RowOk, Clean, HeldEmail;
  }

  /** `_email_in_use_by_other_username`. */
  predicate EmailInUse(users: map<string, User>, email: string, username: string) {
    var normal := NormalEmail(Some(email));
    normal != "" && Strip(username) != "" && EmailTaken(users, normal, Strip(username))
  }

  lemma BlankNameFree(users: map<string, User>, row: User, username: string)
    requires Strip(username) == ""
    ensures !NameInUse(users, row.displayName, username)
    ensures row.email.Some? ==> !EmailInUse(users, row.email.value, username)
  {
    hide Strip, Lower, NamesOfOthers, EmailTaken, NormalEmail;
  }

  lemma NameQuery(users: map<string, User>, name: string, username: string)
    requires NameOk(name) && Strip(username) != ""
    ensures NameInUse(users, name, username) <==> Lower(name) in NamesOfOthers(users, Strip(username))
  {
    hide Lower, NamesOfOthers, Keep;
    NameSurvives(name);
    hide Strip;
  }

  lemma EmailQuery(users: map<string, User>, email: string, username: string)
    requires EmailOk(email) && Strip(username) != ""
    ensures EmailInUse(users, email, username) <==> EmailTaken(users, Lower(email), Strip(username))
  {
    hide Strip, Lower, EmailTaken, NormalEmail;
    EmailPlain(email);
  }

  /** The two queries of a write, for a name and an email already normalised. */
  lemma QueriesWritable(users: map<string, User>, username: string, row: User)
    requires RowOk(row) && Strip(username) != ""
    ensures Writable(users, Strip(username), row) <==>
              && !NameInUse(users, row.displayName, username)
              && (row.email.Some? ==> !EmailInUse(users, row.email.value, username))
  {
    hide Strip, Lower, NamesOfOthers, EmailTaken, EmailInUse, NameInUse, NameOk, EmailOk;
    NameQuery(users, row.displayName, username);
    if row.email.Some? {
      EmailQuery(users, row.email.value, username);
    }
  }

  class UserStore {
    var users: map<string, User>
    var identities: map<string, Identity>

    ghost function State(): Accounts
      reads this
    {
      Accounts(users, identities)
    }

    constructor ()
      ensures State() == Accounts(map[], map[]) && Sound(State())
    {
      users, identities := map[], map[];
    }

    /** `_next_available_display_name`: the loop ends within one try more than there are other users. */
    method FindDisplayName(seed: string, username: string) returns (name: string, ghost tries: nat)
      requires Clean(username)
      ensures name == NextDisplayName(users, seed, username)
      ensures 1 <= tries <= |NamesOfOthers(users, username)| + 1
    {
      hide Lower, BaseName, NamesOfOthers, Strip, NameInUse, Clean, NameOk, FirstFree, Candidate, Decimal;
      var base := BaseName(seed);
      BaseNameOk(seed);
      ghost var others, k: nat := NamesOfOthers(users, username), 0;
      TriedNone(Lower(base), "");
      ghost var free := FirstFree(Lower(base), "", others, 0);
      name := base;
      var counter := 2;
      CandidateLookup(users, base, 0, username);
      while NameInUse(users, name, username)
        invariant counter == k + 2 && k <= free && name == Candidate(base, "", k)
        invariant NameInUse(users, name, username) <==> Candidate(Lower(base), "", k) in others
        decreases free - k
      {
        name := base + Decimal(counter);
        k := k + 1;
        CandidateLookup(users, base, k, username);
        counter := counter + 1;
      }
      tries := k + 1;
    }

    /** The `INSERT ... ON CONFLICT(id) DO UPDATE`, under the two unique indexes. */
    method InsertUser(username: string, row: User) returns (ok: bool)
      modifies `users
      ensures ok <==> Lower(row.displayName) !in NamesOfOthers(old(users), username)
                      && (HeldEmail(row).Some? ==> !EmailTaken(old(users), HeldEmail(row).value, username))
      ensures users == if ok then old(users)[username := row] else old(users)
    {
      ok := Lower(row.displayName) !in NamesOfOthers(users, username)
            && (HeldEmail(row).Some? ==> !EmailTaken(users, HeldEmail(row).value, username));
      if ok {
        users := users[username := row];
      }
    }

    /** `upsert_user`; false is an error raised. */
    method UpsertUser(username: string, row: User) returns (ok: bool)
      modifies `users
      ensures match Upsert(old(State()), username, row)
              case Some(next) => ok && State() == next
              case None => !ok && users == old(users)
    {
      hide Strip, Lower, NamesOfOthers, EmailTaken, NormalEmail, NameOk, HeldEmail, EmailInUse, NameInUse, RowOk;
      if row.role == Guest || !NameOk(Strip(row.displayName)) {
        return false;
      }
      NormalOk(row);
      var normal := row.(displayName := Strip(row.displayName), email := Stored(NormalEmail(row.email)));
      if Strip(username) != "" {
        QueriesWritable(users, username, normal);
      } else {
        BlankNameFree(users, normal, username);
      }
      if NameInUse(users, normal.displayName, username) {
        return false;
      }
      if normal.email.Some? && EmailInUse(users, normal.email.value, username) {
        return false;
      }
      ok := InsertUser(username, normal);
    }

    /** `create_user`: the same checks, for a user name that is neither blank nor taken. */
    method CreateUser(username: string, row: User) returns (ok: bool)
      modifies `users
      ensures match Create(old(State()), username, row)
              case Some(next) => ok && State() == next
              case None => !ok && users == old(users)
    {
      hide Writable, Strip, Normal;
      var name := Strip(username);
      StripIdempotent(username);
      if name == "" || name in users {
        return false;
      }
      ok := UpsertUser(name, row);
    }

    /** `upsert_auth_identity`, under the foreign key to the users. */
    method UpsertIdentity(subject: string, identity: Identity) returns (ok: bool)
      modifies `identities
      ensures match Identify(old(State()), subject, identity)
              case Some(next) => ok && State() == next
              case None => !ok && identities == old(identities)
    {
      ok := identity.username in users;
      if ok {
        identities := identities[subject := identity];
      }
    }

    /** The display name a login settles on. */
    method LoginDisplayName(login: Login, username: string, fallback: string) returns (name: string)
      requires Clean(username)
      ensures name == LoginName(users, login, username, fallback)
    {
      ghost var tries;
      var seed := if Strip(login.displayName) != "" then Strip(login.displayName) else fallback;
      name, tries := FindDisplayName(seed, username);
    }

    method RefreshedRow(login: Login, username: string, email: Option<string>, superEmail: string) returns (row: User)
      requires Sound(State()) && username in users
      ensures row == Refreshed(users, login, username, email, superEmail)
    {
      var user := users[username];
      var name := user.displayName;
      hide Strip, Lower, NamesOfOthers, NormalEmail, LoginName, Apart, NameOk;
      if !Onboarded(user) {
        name := LoginDisplayName(login, username, user.displayName);
      }
      var normal := NormalEmail(login.email);
      row := user.(displayName := name, email := email, active := true,
                   role := if normal != "" && normal == superEmail then Superadmin else user.role);
    }

    /** Writes a known user's row and the identity. */
    method SignIn(username: string, row: User, subject: string, identity: Identity)
      requires Clean(username) && Writable(users, username, row) && RowOk(row) && identity.username == username
      modifies this
      ensures Some((State(), username)) == Settle(Upsert(old(State()), username, row), subject, identity)
    {
      hide Writable, Sound, Clean, RowOk, Upsert, Strip;
      WritesPlain(State(), username, row);
      var ok := UpsertUser(username, row);
      ok := UpsertIdentity(subject, identity);
    }

    method KnownLogin(login: Login, superEmail: string) returns (username: string)
      requires Sound(State()) && KnownIdentity(State(), Strip(login.subject))
      modifies this
      ensures username == old(identities[Strip(login.subject)].username)
      ensures var email := IdentityEmail(old(users), login, username);
              Some((State(), username))
              == Settle(Upsert(old(State()), username, Refreshed(old(users), login, username, email, superEmail)),
                        Strip(login.subject),
                        Identity(username, email, login.verified))
    {
      hide Lower, Strip, NamesOfOthers, NormalEmail, Writable, Refreshed, EmailOk, IdentityEmail, LoginName, Apart,
           EmailTaken, Sound, Settle, Upsert, NameOk, Clean;
      username := identities[Strip(login.subject)].username;
      var email := IdentityEmail(users, login, username);
      IdentityEmailFree(State(), login, username);
      RefreshedWritable(State(), login, username, email, superEmail);
      var row := RefreshedRow(login, username, email, superEmail);
      SignIn(username, row, Strip(login.subject), Identity(username, email, login.verified));
    }

    method EmailLogin(login: Login, superEmail: string) returns (username: string)
      requires Sound(State()) && NormalEmail(login.email) != "" && HasEmail(users, NormalEmail(login.email))
      modifies this
      ensures username == Holder(old(users), NormalEmail(login.email))
      ensures var email := Some(NormalEmail(login.email));
              Some((State(), username))
              == Settle(Upsert(old(State()), username, Refreshed(old(users), login, username, email, superEmail)),
                        Strip(login.subject),
                        Identity(username, email, login.verified))
    {
      var normal := NormalEmail(login.email);
      username :| username in users && HeldEmail(users[username]) == Some(normal);
      HolderAlone(State(), normal);
      EmailSettles(login.email);
      HolderUnique(State(), normal, username);
      hide Lower, Strip, NamesOfOthers, NormalEmail, Writable, Refreshed, EmailOk, LoginName, Apart, EmailTaken,
           Sound, Settle, Upsert, NameOk, HasEmail, Clean;
      RefreshedWritable(State(), login, username, Some(normal), superEmail);
      var row := RefreshedRow(login, username, Some(normal), superEmail);
      SignIn(username, row, Strip(login.subject), Identity(username, Some(normal), login.verified));
    }

    method FirstLogin(login: Login, superEmail: string, newId: string)
      requires Sound(State()) && Clean(newId) && newId !in users
      requires NormalEmail(login.email) == "" || !HasEmail(users, NormalEmail(login.email))
      modifies this
      ensures Some((State(), newId))
              == Settle(Create(old(State()), newId, NewUser(old(users), login, newId, superEmail)),
                        Strip(login.subject),
                        Identity(newId, Stored(NormalEmail(login.email)), login.verified))
    {
      hide Lower, Strip, NormalEmail, Writable, LoginName, Sound, HasEmail, Clean, RowOk, Create;
      NewUserWritable(State(), login, superEmail, newId);
      WritesPlain(State(), newId, NewUser(users, login, newId, superEmail));
      var normal := NormalEmail(login.email);
      var name := LoginDisplayName(login, newId, newId);
      var role := if normal == superEmail then Superadmin else Member;
      var ok := CreateUser(newId, User(name, Stored(normal), None, false, true, role));
      ok := UpsertIdentity(Strip(login.subject), Identity(newId, Stored(normal), login.verified));
    }

    /** `get_or_create_user_for_auth0_identity`, with the id `uuid4` drew. */
    method LogInWith(login: Login, superEmail: string, newId: string) returns (username: Option<string>)
      requires Sound(State()) && Clean(newId) && newId !in users
      modifies this
      ensures Strip(login.subject) == "" ==> username == None && State() == old(State())
      ensures Strip(login.subject) != "" ==>
                username.Some? && DoLogin(old(State()), login, superEmail, newId) == Some((State(), username.value))
    {
      var subject, normal := Strip(login.subject), NormalEmail(login.email);
      EmailSettles(login.email);
      hide Lower, Strip, NamesOfOthers, NormalEmail, Writable, Refreshed, EmailOk, IdentityEmail, HasEmail, LoginName,
           Apart, EmailTaken, Sound, Settle, Upsert, Create, NameOk, Clean;
      if subject == "" {
        return None;
      }
      if subject in identities && identities[subject].username in users {
        var user := KnownLogin(login, superEmail);
        username := Some(user);
      } else if normal != "" && HasEmail(users, normal) {
        var user := EmailLogin(login, superEmail);
        username := Some(user);
      } else {
        FirstLogin(login, superEmail, newId);
        username := Some(newId);
      }
    }

    /** `delete_user`. */
    method DeleteUser(username: string) returns (deleted: bool)
      modifies this
      ensures State() == Without(old(State()), Strip(username)) && deleted == (Strip(username) in old(users))
    {
      var name := Strip(username);
      deleted := name in users;
      users := users - {name};
      identities := map i | i in identities && identities[i].username != name :: identities[i];
    }
  }
}
