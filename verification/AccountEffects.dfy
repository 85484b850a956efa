/** What a login and the other account operations leave in the tables, column by column. */
module AccountEffects {
  import opened Wrappers
  import opened Text
  import opened AccountModel
  import opened AccountProofs

  // ---- Login

  lemma SoundIdentities(s: Accounts)
    requires Sound(s)
    ensures forall i :: i in s.identities ==> s.identities[i].username in s.users
  {
    hide Clean, RowOk, Apart;
  }

  /** The user a login signs in: by its identity, else by its email, else a new one. */
  lemma LoginFinds(s: Accounts, login: Login, superEmail: string, newId: string)
    requires Sound(s) && Strip(login.subject) != "" && Clean(newId) && newId !in s.users
    ensures DoLogin(s, login, superEmail, newId).Some?
    ensures var username, normal := DoLogin(s, login, superEmail, newId).value.1, NormalEmail(login.email);
            if Strip(login.subject) in s.identities then username == s.identities[Strip(login.subject)].username
            else if normal != "" && exists u :: u in s.users && HeldEmail(s.users[u]) == Some(normal) then
              username in s.users && HeldEmail(s.users[username]) == Some(normal)
            else username == newId
  {
    LoginWrites(s, login, superEmail, newId);
    SoundIdentities(s);
    hide Sound, Lower, Strip, NormalEmail, DoLogin, Clean, LoginRow, HeldEmail;
  }

  /** The role a login leaves: promoted, kept, or that of an ordinary member for a new user. */
  lemma LoginRole(s: Accounts, login: Login, superEmail: string, newId: string)
    requires Sound(s) && Strip(login.subject) != "" && Clean(newId) && newId !in s.users
    ensures DoLogin(s, login, superEmail, newId).Some?
    ensures var (next, username) := DoLogin(s, login, superEmail, newId).value;
            var promoted := NormalEmail(login.email) == superEmail && (superEmail != "" || username !in s.users);
            username in next.users && next.users[username].role
            == if promoted then Superadmin else if username in s.users then s.users[username].role else Member
  {
    hide Sound, Lower, Strip, NormalEmail, IdentityEmail, LoginName, DoLogin, Clean, HasEmail, Onboarded, Stored;
    LoginWrites(s, login, superEmail, newId);
  }

  /**
   The other columns: an active user; for a known one the age, the age gate and, once onboarded, the display name
   as they were; for a new one neither age nor age gate. Until onboarding the display name is the next available
   one for the name of the login, or else for the one there was.
  */
  lemma LoginColumns(s: Accounts, login: Login, superEmail: string, newId: string)
    requires Sound(s) && Strip(login.subject) != "" && Clean(newId) && newId !in s.users
    ensures DoLogin(s, login, superEmail, newId).Some?
    ensures var (next, username) := DoLogin(s, login, superEmail, newId).value;
            var asked := Strip(login.displayName);
            && username in next.users && next.users[username].active
            && (username in s.users ==>
                  var was, row := s.users[username], next.users[username];
                  && row.over18 == was.over18 && row.ageGate == was.ageGate
                  && (was.ageGate && was.over18.Some? ==> row.displayName == was.displayName)
                  && (!(was.ageGate && was.over18.Some?) ==>
                        row.displayName
                        == NextDisplayName(s.users, if asked != "" then asked else was.displayName, username)))
            && (username !in s.users ==>
                  var row := next.users[username];
                  && row.over18 == None && !row.ageGate
                  && row.displayName == NextDisplayName(s.users, if asked != "" then asked else newId, newId))
  {
    hide Sound, Lower, Strip, NormalEmail, IdentityEmail, NextDisplayName, DoLogin, Clean, HasEmail, Stored;
    LoginWrites(s, login, superEmail, newId);
  }

  lemma NobodyHas(users: map<string, User>, email: string, username: string)
    ensures !HasEmail(users, email) ==> !EmailTaken(users, email, username)
  {
  }

  /** The email: that of the login unless another user has it, and otherwise as it was; the identity has the same. */
  lemma LoginEmail(s: Accounts, login: Login, superEmail: string, newId: string)
    requires Sound(s) && Strip(login.subject) != "" && Clean(newId) && newId !in s.users
    ensures DoLogin(s, login, superEmail, newId).Some?
    ensures var (next, username) := DoLogin(s, login, superEmail, newId).value;
            var normal := NormalEmail(login.email);
            && username in next.users && Strip(login.subject) in next.identities
            && next.identities[Strip(login.subject)] == Identity(username, next.users[username].email, login.verified)
            && (normal != "" && !EmailTaken(s.users, normal, username) ==> next.users[username].email == Some(normal))
            && (normal == "" || EmailTaken(s.users, normal, username) ==>
                  next.users[username].email == if username in s.users then s.users[username].email else None)
  {
    hide Sound, Lower, Strip, NormalEmail, LoginName, DoLogin, Clean, Onboarded, IdentityEmail, EmailTaken, HeldEmail;
    LoginWrites(s, login, superEmail, newId);
    var username, normal := LoginUser(s, login, newId), NormalEmail(login.email);
    if KnownIdentity(s, Strip(login.subject)) {
      IdentityEmailSettles(s.users, login, username);
    } else if normal != "" && HasEmail(s.users, normal) {
      HolderAlone(s, normal);
    } else {
      NobodyHas(s.users, normal, username);
    }
  }

  // ---- The other operations

  /** One user's row and no other changes, and no identity. */
  ghost predicate OnlyRow(s: Accounts, next: Accounts, username: string) {
    && next.identities == s.identities && next.users.Keys == s.users.Keys
    && forall u :: u in s.users && u != username ==> next.users[u] == s.users[u]
  }

  /** A role or an activity is set for a user that exists, and nothing else changes; there is no setting to guest. */
  lemma SettingsEffect(s: Accounts, username: string, role: Role, active: bool, superEmail: string)
    ensures var u := Strip(username);
            var next := Step(s, SetRole(username, role), superEmail);
            if u in s.users && role != Guest then
              OnlyRow(s, next, u) && next.users[u].role == role && next.users[u].(role := s.users[u].role) == s.users[u]
            else next == s
    ensures var u := Strip(username);
            var next := Step(s, SetActive(username, active), superEmail);
            if u in s.users then
              && OnlyRow(s, next, u) && next.users[u].active == active
              && next.users[u].(active := s.users[u].active) == s.users[u]
            else next == s
  {
    hide Strip;
  }

  /** Nobody else has the name, in any letter case, and it is made of letters and digits. */
  ghost predicate NameFree(users: map<string, User>, name: string, username: string) {
    && name != "" && (forall c :: c in name ==> Alnum(c))
    && forall u :: u in users && u != username ==> Lower(users[u].displayName) != Lower(name)
  }

  lemma NameFreeIff(users: map<string, User>, name: string, username: string)
    ensures NameFree(users, name, username) <==> NameOk(name) && Lower(name) !in NamesOfOthers(users, username)
  {
    hide Lower, Alnum;
  }

  /**
   A new display name is stored, stripped, if it is valid and free; with it, for a profile and for the onboarding of
   a user who has not been through it, the age. Nothing else changes, and otherwise nothing does.
  */
  lemma NamesEffect(s: Accounts, username: string, displayName: string, over18: bool, superEmail: string)
    ensures var u, name := Strip(username), Strip(displayName);
            var next := Step(s, Rename(username, displayName), superEmail);
            if u in s.users && u != "" && NameFree(s.users, name, u) then
              OnlyRow(s, next, u) && next.users[u] == s.users[u].(displayName := name)
            else next == s
    ensures var u, name := Strip(username), Strip(displayName);
            var next := Step(s, SetProfile(username, displayName, over18), superEmail);
            if u in s.users && u != "" && NameFree(s.users, name, u) then
              OnlyRow(s, next, u)
              && next.users[u] == s.users[u].(displayName := name, over18 := Some(over18), ageGate := true)
            else next == s
    ensures var u, name := Strip(username), Strip(displayName);
            var next := Step(s, Onboard(username, displayName, over18), superEmail);
            if u in s.users && u != "" && NameFree(s.users, name, u)
               && (!s.users[u].ageGate || s.users[u].over18 == None) then
              OnlyRow(s, next, u)
              && next.users[u] == s.users[u].(displayName := name, over18 := Some(over18), ageGate := true)
            else next == s
  {
    NameFreeIff(s.users, Strip(displayName), Strip(username));
    hide Strip, Lower, NameFree, NamesOfOthers, NameOk;
  }

  /** A user goes together with the identities that point at it. */
  lemma DeleteEffect(s: Accounts, username: string, superEmail: string)
    ensures var next := Step(s, Delete(username), superEmail);
            && (forall u :: u in next.users <==> u in s.users && u != Strip(username))
            && (forall u :: u in next.users ==> next.users[u] == s.users[u])
            && (forall i :: i in next.identities <==>
                  i in s.identities && s.identities[i].username != Strip(username))
            && (forall i :: i in next.identities ==> next.identities[i] == s.identities[i])
  {
    hide Strip;
  }

  /** Nobody else has the email, in any letter case. */
  ghost predicate EmailFree(users: map<string, User>, email: string, username: string) {
    forall u :: u in users && u != username && users[u].email.Some? ==> Lower(users[u].email.value) != email
  }

  lemma WritableIff(users: map<string, User>, username: string, row: User)
    requires row.email.Some? ==> Lower(row.email.value) == row.email.value
    ensures Writable(users, username, row) <==>
              && row.role != Guest && NameFree(users, row.displayName, username)
              && (row.email.Some? ==> EmailFree(users, row.email.value, username))
  {
    NameFreeIff(users, row.displayName, username);
    hide Lower, NameFree, NamesOfOthers, NameOk;
  }

  /**
   Writing a user under a name without blanks around it: the row goes in, with its display name stripped and its email
   stripped and in small letters or absent, if its role is managed and nobody else has the name or the email.
  */
  lemma WriteEffect(s: Accounts, username: string, row: User)
    requires Clean(username)
    ensures var name, email := Strip(row.displayName), NormalEmail(row.email);
            var ok := row.role != Guest && NameFree(s.users, name, username)
                      && (email != "" ==> EmailFree(s.users, email, username));
            var stored := row.(displayName := name, email := if email == "" then None else Some(email));
            && Upsert(s, username, row)
               == (if ok then Some(Accounts(s.users[username := stored], s.identities)) else None)
            && Create(s, username, row)
               == (if ok && username !in s.users then Some(Accounts(s.users[username := stored], s.identities))
                   else None)
  {
    EmailSettles(row.email);
    if NormalEmail(row.email) != "" {
      EmailPlain(NormalEmail(row.email));
    }
    WritableIff(s.users, username, Normal(row));
    hide Strip, NormalEmail, NameFree, Writable, EmailFree, EmailOk, Lower;
  }
}
