/**
 The users table and the Auth0 identities, and what each account operation does to them. Text is ASCII,
 where `strip` and `lower` agree with SQLite's.
*/
module AccountModel {
  import opened Wrappers
  import opened Text
  import opened FreshNames

  datatype Role = Superadmin | Admin | Member | Guest

  datatype User = User(displayName: string, email: Option<string>, over18: Option<bool>, ageGate: bool,
                       active: bool, role: Role)

  datatype Identity = Identity(username: string, email: Option<string>, verified: bool)

  /** Users by user name (which is also their id), identities by Auth0 subject. */
  datatype Accounts = Accounts(users: map<string, User>, identities: map<string, Identity>)

  // ---- Names and emails

  predicate NameOk(name: string) {
    name != "" && forall c :: c in name ==> Alnum(c)
  }

  /** `re.sub(r"[^A-Za-z0-9]", "", name)`. */
  function Keep(name: string): (r: string)
    ensures forall c :: c in r <==> c in name && Alnum(c)
  {
    if name == "" then "" else (if Alnum(name[0]) then [name[0]] else "") + Keep(name[1..])
  }

  function Sanitize(name: string): string {
    Keep(Strip(name))
  }

  /** `email.strip().lower() if isinstance(email, str) else ""`. */
  function NormalEmail(email: Option<string>): string {
    match email
    case Some(e) => Lower(Strip(e))
    case None => ""
  }

  function Stored(email: string): Option<string> {
    if email == "" then None else Some(email)
  }

  function NamesOfOthers(users: map<string, User>, username: string): set<string> {
    set u | u in users && u != username :: Lower(users[u].displayName)
  }

  /** `_display_name_in_use_by_other_username`. */
  predicate NameInUse(users: map<string, User>, name: string, username: string) {
    Strip(name) != "" && Strip(username) != "" && Lower(Strip(name)) in NamesOfOthers(users, Strip(username))
  }

  /** `lower(email)`, as the queries and the unique index see it. */
  function HeldEmail(u: User): Option<string> {
    if u.email.Some? then Some(Lower(u.email.value)) else None
  }

  predicate EmailTaken(users: map<string, User>, email: string, username: string) {
    exists u :: u in users && u != username && HeldEmail(users[u]) == Some(email)
  }

  function BaseName(seed: string): string {
    if Sanitize(seed) == "" then "User" else Sanitize(seed)
  }

  lemma BaseNameOk(seed: string)
    ensures NameOk(BaseName(seed))
  {
    hide Strip;
    assert NameOk("User");
  }

  /** `_next_available_display_name`. */
  ghost function NextDisplayName(users: map<string, User>, seed: string, username: string): string {
    var base := BaseName(seed);
    TriedNone(Lower(base), "");
    Candidate(base, "", FirstFree(Lower(base), "", NamesOfOthers(users, username), 0))
  }

  // ---- Writing a row; the errors raised are `None` here

  /** No other user has the row's name or email: what the queries ask and what the unique indexes enforce. */
  predicate Writable(users: map<string, User>, username: string, row: User) {
    && row.role != Guest && NameOk(row.displayName)
    && Lower(row.displayName) !in NamesOfOthers(users, username)
    && (HeldEmail(row).Some? ==> !EmailTaken(users, HeldEmail(row).value, username))
  }

  /** The row with its display name stripped and its email stripped, lowered and never blank. */
  function Normal(row: User): User {
    row.(displayName := Strip(row.displayName), email := Stored(NormalEmail(row.email)))
  }

  /**
   `upsert_user`: the queries exclude the stripped user name (and are skipped when it is blank), while the row
   is stored, and indexed, under the name as given.
  */
  function Upsert(s: Accounts, username: string, row: User): Option<Accounts> {
    var normal := Normal(row);
    if (Strip(username) != "" ==> Writable(s.users, Strip(username), normal)) && Writable(s.users, username, normal)
    then Some(s.(users := s.users[username := normal]))
    else None
  }

  /** `create_user`: the insertion also fails on a blank or a taken user name. */
  function Create(s: Accounts, username: string, row: User): Option<Accounts> {
    var name := Strip(username);
    if name != "" && Writable(s.users, name, Normal(row)) && name !in s.users
    then Some(s.(users := s.users[name := Normal(row)]))
    else None
  }

  function Identify(s: Accounts, subject: string, identity: Identity): Option<Accounts> {
    if identity.username in s.users then Some(s.(identities := s.identities[subject := identity])) else None
  }

  // ---- Auth0 login

  datatype Login = Login(subject: string, email: Option<string>, verified: bool, displayName: string)

  predicate Onboarded(u: User) {
    u.ageGate && u.over18.Some?
  }

  ghost function LoginName(users: map<string, User>, login: Login, username: string, fallback: string): string {
    NextDisplayName(users, if Strip(login.displayName) != "" then Strip(login.displayName) else fallback, username)
  }

  /** The row a login leaves behind for a user that exists. */
  ghost function Refreshed(users: map<string, User>, login: Login, username: string, email: Option<string>,
                           superEmail: string): User
    requires username in users
  {
    var u := users[username];
    var normal := NormalEmail(login.email);
    u.(displayName := if Onboarded(u) then u.displayName else LoginName(users, login, username, u.displayName),
       email := email, active := true,
       role := if normal != "" && normal == superEmail then Superadmin else u.role)
  }

  /** The row of a user created by its first login. */
  ghost function NewUser(users: map<string, User>, login: Login, newId: string, superEmail: string): User {
    var normal := NormalEmail(login.email);
    User(LoginName(users, login, newId, newId), Stored(normal), None, false, true,
         if normal == superEmail then Superadmin else Member)
  }

  /** The email kept when the identity is known: the one given, unless another user has it. */
  function IdentityEmail(users: map<string, User>, login: Login, username: string): Option<string>
    requires username in users
  {
    var candidate := if NormalEmail(login.email) != "" then Some(NormalEmail(login.email)) else users[username].email;
    var normal := NormalEmail(candidate);
    if normal != "" && EmailTaken(users, normal, username) then users[username].email else candidate
  }

  predicate KnownIdentity(s: Accounts, subject: string) {
    subject in s.identities && s.identities[subject].username in s.users
  }

  predicate HasEmail(users: map<string, User>, email: string) {
    exists u :: u in users && HeldEmail(users[u]) == Some(email)
  }

  ghost function Holder(users: map<string, User>, email: string): (username: string)
    requires HasEmail(users, email)
    ensures username in users && HeldEmail(users[username]) == Some(email)
  {
    var u :| u in users && HeldEmail(users[u]) == Some(email);
    u
  }

  /** Writes the user's row and then the identity. */
  function Settle(written: Option<Accounts>, subject: string, identity: Identity): Option<(Accounts, string)> {
    match written
    case None => None
    case Some(s) =>
      match Identify(s, subject, identity)
      case None => None
      case Some(done) => Some((done, identity.username))
  }

  /**
   `get_or_create_user_for_auth0_identity`: the accounts afterwards and the user name, or nothing when an
   error is raised.
  */
  ghost function DoLogin(s: Accounts, login: Login, superEmail: string, newId: string)
    : Option<(Accounts, string)>
  {
    var subject := Strip(login.subject);
    var normal := NormalEmail(login.email);
    if subject == "" then None
    else if KnownIdentity(s, subject) then
      var username := s.identities[subject].username;
      var email := IdentityEmail(s.users, login, username);
      Settle(Upsert(s, username, Refreshed(s.users, login, username, email, superEmail)), subject,
             Identity(username, email, login.verified))
    else if normal != "" && HasEmail(s.users, normal) then
      var username := Holder(s.users, normal);
      Settle(Upsert(s, username, Refreshed(s.users, login, username, Some(normal), superEmail)), subject,
             Identity(username, Some(normal), login.verified))
    else
      Settle(Create(s, newId, NewUser(s.users, login, newId, superEmail)), subject,
             Identity(newId, Stored(normal), login.verified))
  }

  // ---- What the tables must satisfy

  predicate EmailOk(email: string) {
    email != "" && Lower(Strip(email)) == email
  }

  predicate RowOk(u: User) {
    u.role != Guest && NameOk(u.displayName) && (u.email.Some? ==> EmailOk(u.email.value))
  }

  predicate Clean(username: string) {
    username != "" && Strip(username) == username
  }

  ghost predicate Apart(users: map<string, User>) {
    forall a, b :: a in users && b in users && a != b ==>
      && Lower(users[a].displayName) != Lower(users[b].displayName)
      && (HeldEmail(users[a]).Some? ==> HeldEmail(users[a]) != HeldEmail(users[b]))
  }

  ghost predicate Sound(s: Accounts) {
    && (forall u :: u in s.users ==> Clean(u) && RowOk(s.users[u]))
    && Apart(s.users)
    && (forall i :: i in s.identities ==> s.identities[i].username in s.users)
  }

  // ---- The other operations on accounts

  datatype Op =
    | LogIn(login: Login, newId: string)
    | AddUser(username: string, row: User)
    | SetRole(username: string, role: Role)
    | SetActive(username: string, active: bool)
    | Rename(username: string, displayName: string)
    | SetProfile(username: string, displayName: string, over18: bool)
    | Onboard(username: string, displayName: string, over18: bool)
    | Delete(username: string)

  /** An update that gives a user a display name (and, for the last two, an age), with its checks. */
  function Retitle(s: Accounts, username: string, displayName: string, over18: Option<bool>, onlyNew: bool)
    : Option<Accounts>
  {
    var u := Strip(username);
    var name := Strip(displayName);
    if u == "" || !NameOk(name) || Lower(name) in NamesOfOthers(s.users, u) then None
    else if u !in s.users || (onlyNew && Onboarded(s.users[u])) then Some(s)
    else
      var row := s.users[u];
      Some(s.(users := s.users[u := if over18.None? then row.(displayName := name)
                                    else row.(displayName := name, over18 := over18, ageGate := true)]))
  }

  /** The foreign key from identities to users cascades. */
  function Without(s: Accounts, username: string): Accounts {
    Accounts(s.users - {username},
             map i | i in s.identities && s.identities[i].username != username :: s.identities[i])
  }

  /** One operation; an error leaves the tables as they were. */
  ghost function Step(s: Accounts, op: Op, superEmail: string): Accounts {
    match op
    case LogIn(login, newId) =>
      (match DoLogin(s, login, superEmail, newId) { case Some(done) => done.0 case None => s })
    case AddUser(username, row) =>
      (match Create(s, username, row) { case Some(next) => next case None => s })
    case SetRole(username, role) =>
      var u := Strip(username);
      if role != Guest && u in s.users then s.(users := s.users[u := s.users[u].(role := role)]) else s
    case SetActive(username, active) =>
      var u := Strip(username);
      if u in s.users then s.(users := s.users[u := s.users[u].(active := active)]) else s
    case Rename(username, displayName) =>
      (match Retitle(s, username, displayName, None, false) { case Some(next) => next case None => s })
    case SetProfile(username, displayName, over18) =>
      (match Retitle(s, username, displayName, Some(over18), false) { case Some(next) => next case None => s })
    case Onboard(username, displayName, over18) =>
      (match Retitle(s, username, displayName, Some(over18), true) { case Some(next) => next case None => s })
    case Delete(username) => Without(s, Strip(username))
  }
}
