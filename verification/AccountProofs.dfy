/** Auth0 login and the other account operations keep the tables sound, and a subject keeps its user. */
module AccountProofs {
  import opened Wrappers
  import opened Text
  import opened FreshNames
  import opened AccountModel

  // ---- Display names

  lemma {:induction false} KeepAlnum(name: string)
    requires forall c :: c in name ==> Alnum(c)
    ensures Keep(name) == name
  {
    if name != "" {
      assert name[0] in name;
      KeepAlnum(name[1..]);
    }
  }

  lemma NameSurvives(name: string)
    requires NameOk(name)
    ensures Strip(name) == name && Sanitize(name) == name
  {
    assert name[0] in name && name[|name| - 1] in name;
    StripKeeps(name);
    KeepAlnum(name);
  }

  lemma LowerCandidate(base: string, k: nat)
    ensures Lower(Candidate(base, "", k)) == Candidate(Lower(base), "", k)
  {
    if k != 0 {
      LowerConcat(base + "", Decimal(k + 1));
      assert base + "" == base && Lower(base) + "" == Lower(base);
      LowerDecimal(k + 1);
    }
  }

  /** The name found is valid and nobody else's, in any letter case; a valid name nobody else has is kept. */
  lemma NextNameFree(users: map<string, User>, seed: string, username: string)
    ensures var name := NextDisplayName(users, seed, username);
            && NameOk(name) && Lower(name) !in NamesOfOthers(users, username)
            && (NameOk(seed) && Lower(seed) !in NamesOfOthers(users, username) ==> name == seed)
  {
    var base := BaseName(seed);
    BaseNameOk(seed);
    TriedNone(Lower(base), "");
    LowerCandidate(base, FirstFree(Lower(base), "", NamesOfOthers(users, username), 0));
    if NameOk(seed) {
      NameSurvives(seed);
    }
  }

  /** The base of a display name: the letters and digits of the seed in their order, or `User` if it has none. */
  lemma {:induction false} KeepConcat(a: string, b: string)
    ensures Keep(a + b) == Keep(a) + Keep(b)
  {
    if a == "" {
      assert a + b == b;
    } else {
      assert (a + b)[1..] == a[1..] + b;
      KeepConcat(a[1..], b);
    }
  }

  lemma {:induction false} KeepNone(s: string)
    requires forall c :: c in s ==> !Alnum(c)
    ensures Keep(s) == ""
  {
    if s != "" {
      assert s[0] in s && forall c :: c in s[1..] ==> c in s;
      KeepNone(s[1..]);
    }
  }

  lemma SeriesName(base: string, k: nat)
    ensures Candidate(base, "", k) == if k == 0 then base else base + Decimal(k + 1)
    ensures Lower(Candidate(base, "", k)) == Candidate(Lower(base), "", k)
  {
    LowerCandidate(base, k);
    assert base + "" == base;
  }

  /**
   The name found is the base if nobody else has it, in any letter case, and else the first free of `base2`, `base3`
   and so on.
  */
  lemma NextNameIsFirst(users: map<string, User>, seed: string, username: string) returns (n: nat)
    ensures var base := if Keep(Strip(seed)) == "" then "User" else Keep(Strip(seed));
            var name, others := NextDisplayName(users, seed, username), NamesOfOthers(users, username);
            if Lower(base) !in others then name == base
            else
              && 2 <= n && name == base + Decimal(n) && Lower(name) !in others
              && forall m :: 2 <= m < n ==> Lower(base + Decimal(m)) in others
  {
    var base, others := BaseName(seed), NamesOfOthers(users, username);
    TriedNone(Lower(base), "");
    var k := FirstFree(Lower(base), "", others, 0);
    n := k + 1;
    hide Lower, NamesOfOthers, Strip, Keep, Decimal, FirstFree;
    SeriesName(base, k);
    assert Candidate(Lower(base), "", 0) == Lower(base);
    if Lower(base) in others {
      forall m | 2 <= m < n ensures Lower(base + Decimal(m)) in others {
        SeriesName(base, m - 1);
        assert Candidate(Lower(base), "", m - 1) in others;
      }
    }
  }

  lemma LowerSpace(c: char)
    ensures IsSpace(LowerChar(c)) <==> IsSpace(c)
  {
  }

  lemma StripLower(s: string)
    ensures Strip(Lower(Strip(s))) == Lower(Strip(s))
  {
    var e := Strip(s);
    hide Strip, StripLeft, StripRight, IsSpace;
    if e != "" {
      LowerSpace(e[0]);
      LowerSpace(e[|e| - 1]);
    }
    StripKeeps(Lower(e));
  }

  /** A normalised email is blank, or its own normal form. */
  lemma EmailSettles(email: Option<string>)
    ensures NormalEmail(email) == "" || EmailOk(NormalEmail(email))
  {
    hide Strip, Lower;
    if email.Some? {
      StripLower(email.value);
      LowerIdempotent(Strip(email.value));
    }
  }

  lemma EmailPlain(email: string)
    requires EmailOk(email)
    ensures Lower(email) == email && NormalEmail(Some(email)) == email
  {
    hide Strip, Lower;
    LowerIdempotent(Strip(email));
  }

  // ---- Writing one row

  lemma PutApart(users: map<string, User>, username: string, row: User)
    requires Apart(users) && Lower(row.displayName) !in NamesOfOthers(users, username)
    requires HeldEmail(row).Some? ==> !EmailTaken(users, HeldEmail(row).value, username)
    ensures Apart(users[username := row])
  {
    hide Lower, HeldEmail;
    var next := users[username := row];
    forall a, b | a in next && b in next && a != b
      ensures Lower(next[a].displayName) != Lower(next[b].displayName)
      ensures HeldEmail(next[a]).Some? ==> HeldEmail(next[a]) != HeldEmail(next[b])
    {
      if a != username {
        assert Lower(users[a].displayName) in NamesOfOthers(users, username);
      }
      if b != username {
        assert Lower(users[b].displayName) in NamesOfOthers(users, username);
      }
    }
  }

  lemma PutSound(s: Accounts, username: string, row: User)
    requires Sound(s) && Clean(username) && Writable(s.users, username, row) && RowOk(row)
    ensures Sound(s.(users := s.users[username := row]))
  {
    PutApart(s.users, username, row);
    hide Lower, Strip, Apart, NamesOfOthers, NameOk, EmailOk, EmailTaken, Clean, HeldEmail;
  }

  lemma NormalOk(row: User)
    requires row.role != Guest && NameOk(Strip(row.displayName))
    ensures RowOk(Normal(row))
  {
    EmailSettles(row.email);
    hide Strip, NormalEmail, EmailOk, NameOk;
  }

  lemma RowNormal(row: User)
    requires RowOk(row)
    ensures Normal(row) == row
  {
    NameSurvives(row.displayName);
    if row.email.Some? {
      EmailPlain(row.email.value);
    }
    hide Strip, NormalEmail, NameOk;
  }

  /** For a row and a user name already in normal form, the writes come down to one condition. */
  lemma WritesPlain(s: Accounts, username: string, row: User)
    requires Clean(username) && RowOk(row)
    ensures Upsert(s, username, row)
            == if Writable(s.users, username, row) then Some(s.(users := s.users[username := row])) else None
    ensures Create(s, username, row)
            == if Writable(s.users, username, row) && username !in s.users
               then Some(s.(users := s.users[username := row]))
               else None
  {
    RowNormal(row);
    hide Writable, RowOk, Normal, Strip;
  }

  lemma OwnNameFree(users: map<string, User>, username: string)
    requires Apart(users) && username in users
    ensures Lower(users[username].displayName) !in NamesOfOthers(users, username)
    ensures HeldEmail(users[username]).Some? ==> !EmailTaken(users, HeldEmail(users[username]).value, username)
  {
    hide Lower, HeldEmail;
  }

  /** Name, email and role decide whether a row can be written. */
  lemma PartsWritable(users: map<string, User>, username: string, row: User)
    requires row.role != Guest && NameOk(row.displayName) && Lower(row.displayName) !in NamesOfOthers(users, username)
    requires row.email.Some? ==> !EmailTaken(users, row.email.value, username) && EmailOk(row.email.value)
    ensures Writable(users, username, row) && RowOk(row)
  {
    if row.email.Some? {
      EmailPlain(row.email.value);
    }
    hide Lower, Strip, NamesOfOthers, EmailTaken, NameOk, EmailOk;
  }

  lemma RefreshedWritable(s: Accounts, login: Login, username: string, email: Option<string>, superEmail: string)
    requires Sound(s) && username in s.users
    requires email.Some? ==> !EmailTaken(s.users, email.value, username) && EmailOk(email.value)
    ensures var row := Refreshed(s.users, login, username, email, superEmail);
            Writable(s.users, username, row) && RowOk(row) && row.email == email && row.active && Clean(username)
  {
    hide Lower, Strip, NamesOfOthers, NormalEmail, EmailTaken, NextDisplayName, NameOk, EmailOk, Apart, Clean,
         HeldEmail, Writable;
    OwnNameFree(s.users, username);
    var seed := if Strip(login.displayName) != "" then Strip(login.displayName) else s.users[username].displayName;
    NextNameFree(s.users, seed, username);
    PartsWritable(s.users, username, Refreshed(s.users, login, username, email, superEmail));
  }

  lemma OwnRow(s: Accounts, username: string)
    requires Sound(s) && username in s.users && s.users[username].email.Some?
    ensures var email := s.users[username].email.value;
            EmailOk(email) && NormalEmail(Some(email)) == email && !EmailTaken(s.users, email, username)
  {
    OwnNameFree(s.users, username);
    EmailPlain(s.users[username].email.value);
    hide Lower, EmailTaken, EmailOk, Apart, NameOk, Clean, NormalEmail;
  }

  lemma IdentityEmailSettles(users: map<string, User>, login: Login, username: string)
    requires username in users
    ensures var normal, email := NormalEmail(login.email), IdentityEmail(users, login, username);
            normal != "" ==>
              email == if EmailTaken(users, normal, username) then users[username].email else Some(normal)
    ensures NormalEmail(login.email) == "" ==> IdentityEmail(users, login, username) == users[username].email
  {
    hide EmailOk, Lower, Strip, NormalEmail, EmailTaken;
    EmailSettles(login.email);
    if NormalEmail(login.email) != "" {
      EmailPlain(NormalEmail(login.email));
    }
  }

  lemma IdentityEmailFree(s: Accounts, login: Login, username: string)
    requires Sound(s) && username in s.users
    ensures var email := IdentityEmail(s.users, login, username);
            email.Some? ==> !EmailTaken(s.users, email.value, username) && EmailOk(email.value)
  {
    hide Sound, NormalEmail, EmailTaken, EmailOk, IdentityEmail;
    IdentityEmailSettles(s.users, login, username);
    EmailSettles(login.email);
    if s.users[username].email.Some? {
      OwnRow(s, username);
    }
  }

  // ---- Login

  /** The new user row of a first login. */
  lemma NewUserWritable(s: Accounts, login: Login, superEmail: string, newId: string)
    requires Sound(s) && Clean(newId) && newId !in s.users
    requires NormalEmail(login.email) == "" || !HasEmail(s.users, NormalEmail(login.email))
    ensures var row := NewUser(s.users, login, newId, superEmail); Writable(s.users, newId, row) && RowOk(row)
  {
    hide Lower, Strip, NextDisplayName, NamesOfOthers, NameOk, NormalEmail, Sound, EmailOk, HeldEmail, Writable,
         Clean, RowOk;
    NextNameFree(s.users, if Strip(login.displayName) != "" then Strip(login.displayName) else newId, newId);
    EmailSettles(login.email);
    PartsWritable(s.users, newId, NewUser(s.users, login, newId, superEmail));
  }

  lemma HolderAlone(s: Accounts, email: string)
    requires Sound(s) && HasEmail(s.users, email)
    ensures !EmailTaken(s.users, email, Holder(s.users, email))
  {
    hide RowOk, Clean, HeldEmail;
  }

  /** The row a login writes, and for whom. */
  ghost function LoginUser(s: Accounts, login: Login, newId: string): string {
    if KnownIdentity(s, Strip(login.subject)) then s.identities[Strip(login.subject)].username
    else if NormalEmail(login.email) != "" && HasEmail(s.users, NormalEmail(login.email)) then
      Holder(s.users, NormalEmail(login.email))
    else newId
  }

  /** The row a login leaves its user with. */
  ghost function LoginRow(s: Accounts, login: Login, superEmail: string, newId: string): User {
    var username, normal := LoginUser(s, login, newId), NormalEmail(login.email);
    if KnownIdentity(s, Strip(login.subject)) then
      Refreshed(s.users, login, username, IdentityEmail(s.users, login, username), superEmail)
    else if normal != "" && HasEmail(s.users, normal) then
      Refreshed(s.users, login, username, Some(normal), superEmail)
    else NewUser(s.users, login, newId, superEmail)
  }

  /** The subject is signed in as an active user on sound tables, and no other user or identity has changed. */
  ghost predicate SignedIn(s: Accounts, result: Option<(Accounts, string)>, subject: string, username: string) {
    && result.Some? && Sound(result.value.0) && result.value.1 == username
    && var next := result.value.0;
       && username in next.users && next.users[username].active
       && next.users == s.users[username := next.users[username]]
       && subject in next.identities && next.identities[subject].username == username
       && next.identities == s.identities[subject := next.identities[subject]]
  }

  lemma IdentifySound(s: Accounts, subject: string, identity: Identity)
    requires Sound(s) && identity.username in s.users
    ensures Sound(s.(identities := s.identities[subject := identity]))
  {
    hide Apart, Clean, RowOk;
  }

  lemma LoginRowOk(s: Accounts, login: Login, superEmail: string, newId: string)
    requires Sound(s) && Clean(newId) && newId !in s.users
    ensures var username, row := LoginUser(s, login, newId), LoginRow(s, login, superEmail, newId);
            Clean(username) && Writable(s.users, username, row) && RowOk(row) && row.active
  {
    hide Lower, Strip, NamesOfOthers, NormalEmail, Writable, Refreshed, EmailOk, IdentityEmail, HasEmail, LoginName,
         Apart, Clean, EmailTaken, Sound, RowOk;
    EmailSettles(login.email);
    var normal, username := NormalEmail(login.email), LoginUser(s, login, newId);
    if KnownIdentity(s, Strip(login.subject)) {
      IdentityEmailFree(s, login, username);
      RefreshedWritable(s, login, username, IdentityEmail(s.users, login, username), superEmail);
    } else if normal != "" && HasEmail(s.users, normal) {
      HolderAlone(s, normal);
      RefreshedWritable(s, login, username, Some(normal), superEmail);
    } else {
      NewUserWritable(s, login, superEmail, newId);
    }
  }

  lemma LoginIsWrite(s: Accounts, login: Login, superEmail: string, newId: string)
    requires Strip(login.subject) != "" && newId !in s.users
    ensures var username, row := LoginUser(s, login, newId), LoginRow(s, login, superEmail, newId);
            DoLogin(s, login, superEmail, newId)
            == Settle(if username in s.users then Upsert(s, username, row) else Create(s, username, row),
                      Strip(login.subject), Identity(username, row.email, login.verified))
  {
    hide Lower, Strip, NormalEmail, IdentityEmail, HasEmail, LoginName, Upsert, Create, Onboarded, Settle, EmailTaken;
  }

  /** On sound tables a login writes its user's row and its identity, and never fails. */
  lemma LoginWrites(s: Accounts, login: Login, superEmail: string, newId: string)
    requires Sound(s) && Strip(login.subject) != "" && Clean(newId) && newId !in s.users
    ensures var username, row := LoginUser(s, login, newId), LoginRow(s, login, superEmail, newId);
            DoLogin(s, login, superEmail, newId)
            == Some((Accounts(s.users[username := row],
                              s.identities[Strip(login.subject) := Identity(username, row.email, login.verified)]),
                     username))
  {
    hide Strip, Writable, Clean, Sound, Upsert, Create, RowOk, LoginRow, LoginUser, DoLogin;
    LoginRowOk(s, login, superEmail, newId);
    WritesPlain(s, LoginUser(s, login, newId), LoginRow(s, login, superEmail, newId));
    LoginIsWrite(s, login, superEmail, newId);
  }

  /** Login never fails on sound tables. */
  lemma LoginSound(s: Accounts, login: Login, superEmail: string, newId: string)
    requires Sound(s) && Strip(login.subject) != "" && Clean(newId) && newId !in s.users
    ensures SignedIn(s, DoLogin(s, login, superEmail, newId), Strip(login.subject), LoginUser(s, login, newId))
  {
    hide Sound, Clean, Writable, RowOk, LoginUser, LoginRow, DoLogin, Strip;
    var username, row := LoginUser(s, login, newId), LoginRow(s, login, superEmail, newId);
    LoginRowOk(s, login, superEmail, newId);
    LoginWrites(s, login, superEmail, newId);
    PutSound(s, username, row);
    IdentifySound(s.(users := s.users[username := row]), Strip(login.subject),
                  Identity(username, row.email, login.verified));
  }

  /**
   A login leaves its user a superadmin exactly when the user was one, or the login's email is the configured
   one; with neither an email nor a configured one, that makes every first login a superadmin.
  */
  lemma SuperadminIff(s: Accounts, login: Login, superEmail: string, newId: string)
    requires Sound(s) && Strip(login.subject) != "" && Clean(newId) && newId !in s.users
    ensures DoLogin(s, login, superEmail, newId).Some?
    ensures var (next, username) := DoLogin(s, login, superEmail, newId).value;
            username in next.users
            && (next.users[username].role == Superadmin <==>
                  || (username in s.users && s.users[username].role == Superadmin)
                  || (NormalEmail(login.email) == superEmail && (superEmail != "" || username !in s.users)))
  {
    hide Sound, Lower, Strip, NormalEmail, IdentityEmail, LoginName, DoLogin, Clean, HasEmail, Onboarded, Stored;
    LoginWrites(s, login, superEmail, newId);
  }

  /** Where no superadmin email is configured, anyone's first login without an email makes a superadmin. */
  lemma FirstLoginWithoutEmail(s: Accounts, login: Login, newId: string)
    requires Sound(s) && Strip(login.subject) != "" && Clean(newId) && newId !in s.users
    requires !KnownIdentity(s, Strip(login.subject)) && login.email == None
    ensures DoLogin(s, login, "", newId).Some?
    ensures var (next, username) := DoLogin(s, login, "", newId).value;
            username == newId && newId in next.users && next.users[newId].role == Superadmin
  {
    hide Sound, Strip, DoLogin, LoginRow, Clean, HasEmail;
    LoginWrites(s, login, "", newId);
    SuperadminIff(s, login, "", newId);
  }

  lemma BlankSubjectFails(s: Accounts, login: Login, superEmail: string, newId: string)
    requires Strip(login.subject) == ""
    ensures DoLogin(s, login, superEmail, newId) == None
  {
  }

  // ---- Logging in again

  lemma OthersUnchanged(users: map<string, User>, username: string, row: User)
    ensures NamesOfOthers(users[username := row], username) == NamesOfOthers(users, username)
    ensures forall email :: EmailTaken(users[username := row], email, username) == EmailTaken(users, email, username)
  {
    hide Lower, HeldEmail;
    var next := users[username := row];
    forall name ensures name in NamesOfOthers(next, username) <==> name in NamesOfOthers(users, username) {
      if name in NamesOfOthers(next, username) {
        var u :| u in next && u != username && Lower(next[u].displayName) == name;
        assert u in users;
      }
      if name in NamesOfOthers(users, username) {
        var u :| u in users && u != username && Lower(users[u].displayName) == name;
        assert u in next;
      }
    }
    forall email ensures EmailTaken(next, email, username) == EmailTaken(users, email, username) {
      if EmailTaken(next, email, username) {
        var u :| u in next && u != username && HeldEmail(next[u]) == Some(email);
        assert u in users;
      }
      if EmailTaken(users, email, username) {
        var u :| u in users && u != username && HeldEmail(users[u]) == Some(email);
        assert u in next;
      }
    }
  }

  /** A row as this login would leave it. */
  ghost predicate Settled(users: map<string, User>, login: Login, username: string, superEmail: string)
    requires username in users
  {
    var row, normal := users[username], NormalEmail(login.email);
    && row.active && (normal == "" || row.email == Some(normal) || EmailTaken(users, normal, username))
    && (normal != "" && normal == superEmail ==> row.role == Superadmin)
    && (Onboarded(row) || Strip(login.displayName) == ""
        || row.displayName == NextDisplayName(users, Strip(login.displayName), username))
  }

  lemma SettledAgain(s: Accounts, login: Login, superEmail: string, username: string, otherId: string)
    requires Sound(s) && Strip(login.subject) in s.identities && username in s.users && Strip(login.subject) != ""
    requires s.identities[Strip(login.subject)] == Identity(username, s.users[username].email, login.verified)
    requires Settled(s.users, login, username, superEmail)
    ensures DoLogin(s, login, superEmail, otherId) == Some((s, username))
  {
    hide Lower, Strip, NormalEmail, NamesOfOthers, EmailTaken, Clean, NextDisplayName, NameOk, EmailOk, Apart,
         IdentityEmail, HeldEmail, Writable, Upsert;
    OwnNameFree(s.users, username);
    NextNameFree(s.users, s.users[username].displayName, username);
    IdentityEmailFree(s, login, username);
    IdentityEmailSettles(s.users, login, username);
    var row := s.users[username];
    assert Refreshed(s.users, login, username, row.email, superEmail) == row;
    RefreshedWritable(s, login, username, row.email, superEmail);
    WritesPlain(s, username, row);
    assert s.users[username := row] == s.users;
    assert s.identities[Strip(login.subject) := s.identities[Strip(login.subject)]] == s.identities;
  }

  lemma SettledPut(users: map<string, User>, login: Login, username: string, row: User, superEmail: string)
    requires row.active
    requires NormalEmail(login.email) == "" || row.email == Some(NormalEmail(login.email))
             || EmailTaken(users, NormalEmail(login.email), username)
    requires NormalEmail(login.email) != "" && NormalEmail(login.email) == superEmail ==> row.role == Superadmin
    requires Onboarded(row) || Strip(login.displayName) == ""
             || row.displayName == NextDisplayName(users, Strip(login.displayName), username)
    ensures Settled(users[username := row], login, username, superEmail)
  {
    OthersUnchanged(users, username, row);
    hide Lower, Strip, NormalEmail, EmailTaken, Sanitize, NamesOfOthers;
  }

  lemma RefreshedSettles(users: map<string, User>, login: Login, username: string, email: Option<string>,
                         superEmail: string)
    requires username in users
    requires NormalEmail(login.email) == "" || email == Some(NormalEmail(login.email))
             || EmailTaken(users, NormalEmail(login.email), username)
    ensures var row := Refreshed(users, login, username, email, superEmail);
            Settled(users[username := row], login, username, superEmail) && row.email == email
  {
    hide Lower, Strip, NormalEmail, EmailTaken, NextDisplayName, Settled;
    SettledPut(users, login, username, Refreshed(users, login, username, email, superEmail), superEmail);
  }

  lemma NewUserSettles(users: map<string, User>, login: Login, newId: string, superEmail: string)
    ensures Settled(users[newId := NewUser(users, login, newId, superEmail)], login, newId, superEmail)
  {
    hide Lower, Strip, NormalEmail, EmailTaken, NextDisplayName, Settled;
    SettledPut(users, login, newId, NewUser(users, login, newId, superEmail), superEmail);
  }

  lemma LoginSettles(s: Accounts, login: Login, superEmail: string, newId: string)
    requires Sound(s) && Strip(login.subject) != "" && Clean(newId) && newId !in s.users
    ensures var username, row := LoginUser(s, login, newId), LoginRow(s, login, superEmail, newId);
            Settled(s.users[username := row], login, username, superEmail)
  {
    hide Lower, Strip, NormalEmail, EmailTaken, Clean, Settled, Sound, HasEmail, LoginName, Refreshed, IdentityEmail;
    var normal, username := NormalEmail(login.email), LoginUser(s, login, newId);
    if KnownIdentity(s, Strip(login.subject)) {
      IdentityEmailSettles(s.users, login, username);
      RefreshedSettles(s.users, login, username, IdentityEmail(s.users, login, username), superEmail);
    } else if normal != "" && HasEmail(s.users, normal) {
      RefreshedSettles(s.users, login, username, Some(normal), superEmail);
    } else {
      NewUserSettles(s.users, login, newId, superEmail);
    }
  }

  /** Logging in again with the same details changes nothing more. */
  lemma LoginIdempotent(s: Accounts, login: Login, superEmail: string, newId: string, otherId: string)
    requires Sound(s) && Strip(login.subject) != "" && Clean(newId) && newId !in s.users
    ensures DoLogin(s, login, superEmail, newId).Some?
    ensures var (next, username) := DoLogin(s, login, superEmail, newId).value;
            DoLogin(next, login, superEmail, otherId) == Some((next, username))
  {
    LoginSound(s, login, superEmail, newId);
    LoginWrites(s, login, superEmail, newId);
    LoginSettles(s, login, superEmail, newId);
    hide DoLogin, Sound, Settled, Strip, LoginRow, LoginUser;
    var (next, username) := DoLogin(s, login, superEmail, newId).value;
    SettledAgain(next, login, superEmail, username, otherId);
  }

  // ---- Every operation, and whole runs

  lemma RetitleSound(s: Accounts, username: string, displayName: string, over18: Option<bool>, onlyNew: bool)
    requires Sound(s)
    ensures Retitle(s, username, displayName, over18, onlyNew).Some? ==>
              Sound(Retitle(s, username, displayName, over18, onlyNew).value)
  {
    hide Lower, Strip, Apart, NamesOfOthers, NameOk, EmailOk, EmailTaken, Clean;
    var u, name := Strip(username), Strip(displayName);
    if Retitle(s, username, displayName, over18, onlyNew).Some? && u in s.users {
      OwnNameFree(s.users, u);
      if over18.None? {
        PutSound(s, u, s.users[u].(displayName := name));
      } else {
        PutSound(s, u, s.users[u].(displayName := name, over18 := over18, ageGate := true));
      }
    }
  }

  lemma CreateSound(s: Accounts, username: string, row: User)
    requires Sound(s)
    ensures Create(s, username, row).Some? ==> Sound(Create(s, username, row).value)
  {
    hide Lower, Strip, Sound, NamesOfOthers, NameOk, EmailTaken, HeldEmail, RowOk, NormalEmail;
    StripIdempotent(username);
    if Create(s, username, row).Some? {
      NormalOk(row);
      PutSound(s, Strip(username), Normal(row));
    }
  }

  lemma WithoutSound(s: Accounts, username: string)
    requires Sound(s)
    ensures Sound(Without(s, username))
  {
    hide Lower, Clean, RowOk;
  }

  /** A new id from `uuid4` is in no row yet. */
  predicate FreshId(s: Accounts, op: Op) {
    op.LogIn? ==> Clean(op.newId) && op.newId !in s.users
  }

  lemma StepSound(s: Accounts, op: Op, superEmail: string)
    requires Sound(s) && FreshId(s, op)
    ensures Sound(Step(s, op, superEmail))
  {
    hide Lower, Strip, NamesOfOthers, NormalEmail, EmailOk, Apart, EmailTaken, DoLogin, Retitle, NameOk;
    match op
    case LogIn(login, newId) =>
      if Strip(login.subject) != "" {
        LoginSound(s, login, superEmail, newId);
      } else {
        BlankSubjectFails(s, login, superEmail, newId);
      }
    case AddUser(username, row) =>
      CreateSound(s, username, row);
    case SetRole(username, role) =>
      var u := Strip(username);
      if role != Guest && u in s.users {
        OwnNameFree(s.users, u);
        PutSound(s, u, s.users[u].(role := role));
      }
    case SetActive(username, active) =>
      var u := Strip(username);
      if u in s.users {
        OwnNameFree(s.users, u);
        PutSound(s, u, s.users[u].(active := active));
      }
    case Rename(username, displayName) => RetitleSound(s, username, displayName, None, false);
    case SetProfile(username, displayName, over18) => RetitleSound(s, username, displayName, Some(over18), false);
    case Onboard(username, displayName, over18) => RetitleSound(s, username, displayName, Some(over18), true);
    case Delete(username) => WithoutSound(s, Strip(username));
  }

  ghost predicate FreshIds(s: Accounts, ops: seq<Op>, superEmail: string)
    decreases |ops|
  {
    ops != [] ==> FreshId(s, ops[0]) && FreshIds(Step(s, ops[0], superEmail), ops[1..], superEmail)
  }

  ghost function Run(s: Accounts, ops: seq<Op>, superEmail: string): Accounts
    decreases |ops|
  {
    if ops == [] then s else Run(Step(s, ops[0], superEmail), ops[1..], superEmail)
  }

  lemma {:induction false} RunSound(s: Accounts, ops: seq<Op>, superEmail: string)
    requires Sound(s) && FreshIds(s, ops, superEmail)
    ensures Sound(Run(s, ops, superEmail))
    decreases |ops|
  {
    if ops != [] {
      StepSound(s, ops[0], superEmail);
      RunSound(Step(s, ops[0], superEmail), ops[1..], superEmail);
    }
  }

  predicate Bound(s: Accounts, subject: string, username: string) {
    subject in s.identities && s.identities[subject].username == username && username in s.users
  }

  lemma StepKeepsBinding(s: Accounts, op: Op, superEmail: string, subject: string, username: string)
    requires Sound(s) && FreshId(s, op) && Bound(s, subject, username)
    requires op.Delete? ==> Strip(op.username) != username
    ensures Bound(Step(s, op, superEmail), subject, username)
  {
    hide Lower, Strip, NamesOfOthers, NormalEmail, Apart, EmailTaken, NameOk, RowOk, Clean, Writable, Sound;
    if op.LogIn? && Strip(op.login.subject) != "" {
      LoginSound(s, op.login, superEmail, op.newId);
    }
  }

  /** A subject that has logged in gets the same user name at every later login, until that user is deleted. */
  lemma {:induction false} SameUserUntilDeleted(s: Accounts, ops: seq<Op>, superEmail: string, login: Login,
                                                username: string, newId: string)
    requires Sound(s) && FreshIds(s, ops, superEmail) && Strip(login.subject) != ""
             && Bound(s, Strip(login.subject), username)
    requires forall op :: op in ops && op.Delete? ==> Strip(op.username) != username
    requires Clean(newId) && newId !in Run(s, ops, superEmail).users
    ensures var again := DoLogin(Run(s, ops, superEmail), login, superEmail, newId);
            again.Some? && again.value.1 == username
    decreases |ops|
  {
    if ops == [] {
      LoginSound(s, login, superEmail, newId);
    } else {
      StepSound(s, ops[0], superEmail);
      StepKeepsBinding(s, ops[0], superEmail, Strip(login.subject), username);
      SameUserUntilDeleted(Step(s, ops[0], superEmail), ops[1..], superEmail, login, username, newId);
    }
  }
}
