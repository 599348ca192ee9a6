/** The session state of the dashboard (frontend/src/contexts/AuthContext.tsx): loading a
    remembered user from local storage, and the login, register and logout transitions.
    The simulated one-second delays, and the navigation after logout, are not modelled. */
module AuthContext {
  import opened Wrappers

  /** A signed-in user; only registration records a name. */
  datatype User = User(email: string, name: Option<string>)

  /** The entry under the key "user" in local storage: either what login or register wrote
      (`JSON.stringify` of a user), or any other text put there from outside. */
  datatype StoredEntry = Serialized(user: User) | Raw(text: string)

  /** The outcome of `JSON.parse` on stored text: an error, or a value that is either a
      user or `null`. */
  datatype ParseOutcome = Malformed | Parsed(value: Option<User>)

  datatype AuthState = AuthState(
    user: Option<User>,
    isAuthenticated: bool,
    initialized: bool,
    storage: Option<StoredEntry>)

  /** The provider's state before its first effect runs: nobody signed in, storage as the
      browser left it. */
  function Initial(storage: Option<StoredEntry>): (s: AuthState)
    ensures s.user.None? && !s.isAuthenticated && !s.initialized && s.storage == storage
  {
    AuthState(None, false, false, storage)
  }

  /** The session flag agrees with the presence of a user. */
  predicate Consistent(s: AuthState) {
    s.isAuthenticated <==> s.user.Some?
  }

  /** `JSON.parse` of a stored entry: what was serialized parses back to the same user
      (the round trip `JSON.stringify` guarantees for these string fields); other text is
      parsed by `parseRaw`. */
  function ParseEntry(e: StoredEntry, parseRaw: string -> ParseOutcome): ParseOutcome {
    match e
    case Serialized(u) => Parsed(Some(u))
    case Raw(text) => parseRaw(text)
  }

  /** The stored text is truthy: present and not the empty string (a serialized user is
      never empty). */
  predicate EntryPresent(storage: Option<StoredEntry>) {
    storage.Some? && storage.value != Raw("")
  }

  /** The effect that runs once on mount: a present entry that parses becomes the user and
      signs in; one that does not parse is removed; the provider is initialized either way. */
  function Load(s: AuthState, parseRaw: string -> ParseOutcome): (r: AuthState)
    ensures r.initialized
    ensures !EntryPresent(s.storage) ==> r == s.(initialized := true)
    ensures EntryPresent(s.storage) && ParseEntry(s.storage.value, parseRaw).Malformed? ==>
              r == s.(initialized := true, storage := None)
    ensures EntryPresent(s.storage) && ParseEntry(s.storage.value, parseRaw).Parsed? ==>
              r.isAuthenticated && r.user == ParseEntry(s.storage.value, parseRaw).value
              && r.storage == s.storage
  {
    if !EntryPresent(s.storage) then s.(initialized := true)
    else
      match ParseEntry(s.storage.value, parseRaw)
      case Malformed => s.(initialized := true, storage := None)
      case Parsed(v) => s.(user := v, isAuthenticated := true, initialized := true)
  }

  /** Loading keeps the session consistent unless the stored text is a JSON `null`. */
  lemma LoadConsistent(storage: Option<StoredEntry>, parseRaw: string -> ParseOutcome)
    requires !EntryPresent(storage) || ParseEntry(storage.value, parseRaw) != Parsed(None)
    ensures Consistent(Load(Initial(storage), parseRaw))
  {
  }

  /** A stored "null" is present and parses, so the load signs in with no user: the
      session flag and the user disagree. */
  lemma LoadOfNullIsInconsistent(parseRaw: string -> ParseOutcome)
    requires parseRaw("null") == Parsed(None)
    ensures var r := Load(Initial(Some(Raw("null"))), parseRaw);
      r.isAuthenticated && r.user.None? && !Consistent(r)
  {
  }

  /** The result of `login` or `register`: the state afterwards and the resolved value. */
  datatype AuthResult = AuthResult(state: AuthState, success: bool)

  /** `login(email, password)`: any non-empty email and password sign in as a user with
      that email and no name, who is also written to storage. */
  function Login(s: AuthState, email: string, password: string): (r: AuthResult)
    ensures r.success <==> email != "" && password != ""
    ensures r.success ==>
      && r.state.user == Some(User(email, None)) && r.state.isAuthenticated
      && r.state.storage == Some(Serialized(User(email, None)))
    ensures !r.success ==> r.state == s
    ensures r.state.initialized == s.initialized
  {
    if email != "" && password != "" then
      var u := User(email, None);
      AuthResult(s.(user := Some(u), isAuthenticated := true, storage := Some(Serialized(u))), true)
    else AuthResult(s, false)
  }

  /** `register(name, email, password)`: like login, but all three must be non-empty and
      the user keeps the name. */
  function Register(s: AuthState, name: string, email: string, password: string): (r: AuthResult)
    ensures r.success <==> name != "" && email != "" && password != ""
    ensures r.success ==>
      && r.state.user == Some(User(email, Some(name))) && r.state.isAuthenticated
      && r.state.storage == Some(Serialized(User(email, Some(name))))
    ensures !r.success ==> r.state == s
    ensures r.state.initialized == s.initialized
  {
    if name != "" && email != "" && password != "" then
      var u := User(email, Some(name));
      AuthResult(s.(user := Some(u), isAuthenticated := true, storage := Some(Serialized(u))), true)
    else AuthResult(s, false)
  }

  /** `logout`: nobody is signed in and the stored user is removed. */
  function Logout(s: AuthState): (r: AuthState)
    ensures r.user.None? && !r.isAuthenticated && r.storage.None?
    ensures r.initialized == s.initialized
  {
    s.(user := None, isAuthenticated := false, storage := None)
  }

  /** Login, register and logout keep a consistent session consistent. */
  lemma TransitionsKeepConsistent(s: AuthState, name: string, email: string, password: string)
    requires Consistent(s)
    ensures Consistent(Login(s, email, password).state)
    ensures Consistent(Register(s, name, email, password).state)
    ensures Consistent(Logout(s))
  {
  }

  /** The password is never checked beyond being non-empty: any two non-empty passwords
      give the same session. */
  lemma PasswordNotChecked(s: AuthState, email: string, p: string, q: string)
    requires p != "" && q != ""
    ensures Login(s, email, p) == Login(s, email, q)
  {
  }

  /** A successful login survives a reload: loading from what it stored signs the same
      user in again. */
  lemma LoginPersists(s: AuthState, email: string, password: string,
                      parseRaw: string -> ParseOutcome)
    requires Login(s, email, password).success
    ensures var stored := Login(s, email, password).state.storage;
      var r := Load(Initial(stored), parseRaw);
      r.isAuthenticated && r.user == Some(User(email, None)) && Consistent(r)
  {
  }

  /** After logout a reload finds nobody. */
  lemma LogoutPersists(s: AuthState, parseRaw: string -> ParseOutcome)
    ensures var r := Load(Initial(Logout(s).storage), parseRaw);
      !r.isAuthenticated && r.user.None?
  {
  }
}
