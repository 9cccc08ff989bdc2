/** The auth slice of the client's state: the signed-in user, a loading flag,
    whether the session has been restored, and the last error; and the
    register, login, restore and logout requests whose outcomes it records.
    The authentication service itself is outside the model: what it answers
    is a parameter. */
module AuthSlice {
  import opened Wrappers
  import opened Backend

  /** The signed-in user as the client holds it. Every request that yields a
      user sets its name. */
  datatype AuthUser = AuthUser(id: string, email: Option<string>, name: string)

  datatype State = State(user: Option<AuthUser>, loading: bool, hydrated: bool, error: Option<string>)

  /** No user, not loading, not restored, no error. */
  const Initial := State(None, false, false, None)

  /** The actions the slice handles. A rejected register or login action
      carries its rejection value, `None` when there is none. */
  datatype Action =
    | RegisterPending
    | RegisterFulfilled(registered: AuthUser)
    | RegisterRejected(payload: Option<string>)
    | LoginPending
    | LoginFulfilled(loggedIn: AuthUser)
    | LoginRejected(payload: Option<string>)
    | LogoutPending
    | LogoutFulfilled
    | LogoutRejected
    | HydratePending
    | HydrateFulfilled(restored: Option<AuthUser>)
    | HydrateRejected
    | Other

  /** The actions after which the session counts as restored. */
  predicate Hydrates(a: Action)
  {
    a.LogoutFulfilled? || a.HydrateFulfilled? || a.HydrateRejected?
  }

  /** The state after one action. `login.fulfilled` leaves `loading` as it
      was. */
  function Reduce(s: State, a: Action): (t: State)
    ensures t.hydrated <==> s.hydrated || Hydrates(a)
    ensures t.loading != s.loading ==> !a.LoginFulfilled? && !a.Other?
    ensures a.Other? ==> t == s
  {
    match a
    case RegisterPending => s.(loading := true, error := None)
    case RegisterFulfilled(u) => s.(loading := false, user := Some(u))
    case RegisterRejected(p) => s.(loading := false, error := p)
    case LoginPending => s.(loading := true, error := None)
    case LoginFulfilled(u) => s.(user := Some(u), error := None)
    case LoginRejected(p) =>
      s.(loading := false, error := Some(if p.Some? && p.value != "" then p.value else "Invalid credentials"))
    case LogoutPending => s.(loading := true)
    case LogoutFulfilled => s.(user := None, error := None, loading := false, hydrated := true)
    case LogoutRejected => s.(loading := false)
    case HydratePending => s.(loading := true)
    case HydrateFulfilled(u) => s.(user := u, loading := false, hydrated := true)
    case HydrateRejected => s.(loading := false, hydrated := true)
    case Other => s
  }

  /** The state after a sequence of actions, oldest first. */
  function ReduceAll(s: State, trace: seq<Action>): State
    decreases |trace|
  {
    if trace == [] then s else ReduceAll(Reduce(s, trace[0]), trace[1..])
  }

  /** `hydrated` is set by a logout, or by a restore either way, and never
      cleared: after a trace it holds exactly when it held before or the trace
      has such an action. From the initial state it is first `false`. */
  lemma {:induction false} HydratedOnlyRises(s: State, trace: seq<Action>)
    ensures ReduceAll(s, trace).hydrated <==> s.hydrated || exists a :: a in trace && Hydrates(a)
    ensures ReduceAll(Initial, trace).hydrated <==> exists a :: a in trace && Hydrates(a)
    decreases |trace|
  {
    if trace != [] {
      var s1 := Reduce(s, trace[0]);
      HydratedOnlyRises(s1, trace[1..]);
      HydratedOnlyRises(Reduce(Initial, trace[0]), trace[1..]);
      assert s1.hydrated <==> s.hydrated || Hydrates(trace[0]);
      assert trace[0] in trace;
      assert forall a :: a in trace[1..] ==> a in trace;
      if exists a :: a in trace && Hydrates(a) {
        var a :| a in trace && Hydrates(a);
        assert a == trace[0] || a in trace[1..];
      }
    }
  }

  /** `register.pending` and `login.pending` start loading and clear the error,
      keeping the user and `hydrated`. */
  lemma PendingClearsError(s: State)
    ensures Reduce(s, RegisterPending) == s.(loading := true, error := None)
    ensures Reduce(s, LoginPending) == s.(loading := true, error := None)
  {
  }

  /** `login.fulfilled` sets the user and clears the error but does not end
      loading, so a login that starts and succeeds leaves `loading` set. */
  lemma LoginFulfilledKeepsLoading(s: State, u: AuthUser)
    ensures Reduce(s, LoginFulfilled(u)) == s.(user := Some(u), error := None)
    ensures var t := ReduceAll(s, [LoginPending, LoginFulfilled(u)]);
      t.loading && t.user == Some(u) && t.error.None?
  {
    var trace := [LoginPending, LoginFulfilled(u)];
    assert trace[1..] == [LoginFulfilled(u)] && trace[1..][1..] == [];
    assert ReduceAll(s, trace) == ReduceAll(Reduce(s, LoginPending), [LoginFulfilled(u)]);
  }

  /** `login.rejected` ends loading and sets the error to its payload, or to
      `Invalid credentials` when the payload is missing or empty. */
  lemma LoginRejectedMessage(s: State, p: Option<string>)
    ensures var t := Reduce(s, LoginRejected(p));
      && !t.loading && t.user == s.user && t.hydrated == s.hydrated
      && (p.Some? && p.value != "" ==> t.error == p)
      && (p.None? || p == Some("") ==> t.error == Some("Invalid credentials"))
  {
  }

  /** `logout.fulfilled` clears user and error, ends loading and marks the
      session restored. */
  lemma LogoutClears(s: State)
    ensures Reduce(s, LogoutFulfilled) == State(None, false, true, None)
  {
  }

  /** `hydrateUser.fulfilled` takes its payload as the user, `null` included;
      either outcome ends loading and marks the session restored, and neither
      touches the error. */
  lemma HydrateOutcomes(s: State, u: Option<AuthUser>)
    ensures Reduce(s, HydrateFulfilled(u)) == State(u, false, true, s.error)
    ensures Reduce(s, HydrateRejected) == State(s.user, false, true, s.error)
  {
  }

  // ---------------------------------------------------------------- requests

  /** What the authentication service answers a sign-up or sign-in with. */
  datatype AuthOutcome = Thrown(message: string) | NoUser | SignedIn(id: string, email: Option<string>)

  /** The profile name of a user: the stored name, or `Unknown` when there is
      no profile row, its name is `null`, or the lookup fails. */
  method ResolveProfileName(st: Store, userId: string) returns (profileName: string)
    ensures SelectProfile(userId) in st.faults ==> profileName == "Unknown"
    ensures SelectProfile(userId) !in st.faults ==> profileName == AuthorName(st, userId)
  {
    profileName := "Unknown";
    var profile := ReadProfile(st, userId);
    if profile.Ok? && profile.value.Some? {
      profileName := profile.value.value.GetOr("Unknown");
    }
  }

  /** `register`: signs up; without a user it fails with `Registration failed`
      before writing anything; otherwise it stores the profile name and yields
      the user, or fails with the store's error. */
  function Register(st: Store, signUp: AuthOutcome, name: string): (r: (Store, Action))
    ensures signUp.Thrown? ==> r == (st, RegisterRejected(Some(signUp.message)))
    ensures signUp.NoUser? ==> r == (st, RegisterRejected(Some("Registration failed")))
    ensures signUp.SignedIn? ==>
      var req := InsertProfileRow(signUp.id, name);
      && r.0.sent == st.sent + [req]
      && (req in st.faults ==> r.1 == RegisterRejected(Some(st.faults[req])) && r.0.profiles == st.profiles)
      && (req !in st.faults ==>
            r.1 == RegisterFulfilled(AuthUser(signUp.id, signUp.email, name))
            && r.0.profiles == st.profiles[signUp.id := Some(name)])
    ensures r.0.blogs == st.blogs && r.0.comments == st.comments && r.0.objects == st.objects
  {
    match signUp
    case Thrown(m) => (st, RegisterRejected(Some(m)))
    case NoUser => (st, RegisterRejected(Some("Registration failed")))
    case SignedIn(id, email) =>
      var (st', res) := Execute(st, InsertProfileRow(id, name));
      if res.Err? then (st', RegisterRejected(Some(res.message)))
      else (st', RegisterFulfilled(AuthUser(id, email, name)))
  }

  /** A registration that ends well leaves the name it was given readable as
      the user's profile name. */
  lemma RegisteredNameResolves(st: Store, signUp: AuthOutcome, name: string)
    requires Register(st, signUp, name).1.RegisterFulfilled?
    ensures signUp.SignedIn?
    ensures AuthorName(Register(st, signUp, name).0, signUp.id) == name
  {
  }

  /** `login`: signs in and yields the user with the profile name. A failed
      sign-in throws, so the rejected action carries no payload. */
  method Login(st: Store, signIn: AuthOutcome) returns (a: Action)
    ensures !signIn.SignedIn? ==> a == LoginRejected(None)
    ensures signIn.SignedIn? ==> a.LoginFulfilled? && a.loggedIn.id == signIn.id && a.loggedIn.email == signIn.email
    ensures signIn.SignedIn? && SelectProfile(signIn.id) !in st.faults ==>
      a == LoginFulfilled(AuthUser(signIn.id, signIn.email, AuthorName(st, signIn.id)))
    ensures signIn.SignedIn? && SelectProfile(signIn.id) in st.faults ==>
      a == LoginFulfilled(AuthUser(signIn.id, signIn.email, "Unknown"))
  {
    if !signIn.SignedIn? {
      return LoginRejected(None);
    }
    var profileName := ResolveProfileName(st, signIn.id);
    a := LoginFulfilled(AuthUser(signIn.id, signIn.email, profileName));
  }

  /** So every failed login shows `Invalid credentials`, whatever the
      authentication service said. */
  lemma FailedLoginMessage(s: State, a: Action)
    requires a == LoginRejected(None)
    ensures Reduce(s, a).error == Some("Invalid credentials")
  {
  }

  /** `hydrateUser`: restores the session's user with the profile name, or
      yields `null` when there is no session. */
  method Hydrate(st: Store, session: Option<(string, Option<string>)>) returns (a: Action)
    ensures session.None? ==> a == HydrateFulfilled(None)
    ensures session.Some? ==>
      (a.HydrateFulfilled? && a.restored.Some?
       && a.restored.value.id == session.value.0 && a.restored.value.email == session.value.1)
    ensures session.Some? ==>
      (a.HydrateFulfilled? && a.restored.Some? && a.restored.value.name ==
       if SelectProfile(session.value.0) in st.faults then "Unknown" else AuthorName(st, session.value.0))
  {
    if session.None? {
      return HydrateFulfilled(None);
    }
    var (id, email) := session.value;
    var profileName := ResolveProfileName(st, id);
    a := HydrateFulfilled(Some(AuthUser(id, email, profileName)));
  }

  /** `logout`: signs out; a sign-out error rejects it. */
  function Logout(signOutError: Option<string>): (a: Action)
    ensures a.LogoutFulfilled? <==> signOutError.None?
    ensures a.LogoutFulfilled? || a.LogoutRejected?
  {
    if signOutError.None? then LogoutFulfilled else LogoutRejected
  }

  // ---------------------------------------------------------------- the slice as an object

  /** The slice's state held in place; `Dispatch` applies one action to it. */
  class AuthStore {
    var user: Option<AuthUser>
    var loading: bool
    var hydrated: bool
    var error: Option<string>

    function Snapshot(): State
      reads this
    {
      State(user, loading, hydrated, error)
    }

    constructor()
      ensures Snapshot() == Initial
    {
      user := None;
      loading := false;
      hydrated := false;
      error := None;
    }

    method Dispatch(a: Action)
      modifies this
      ensures Snapshot() == Reduce(old(Snapshot()), a)
    {
      match a
      case RegisterPending =>
        loading := true;
        error := None;
      case RegisterFulfilled(u) =>
        loading := false;
        user := Some(u);
      case RegisterRejected(p) =>
        loading := false;
        error := p;
      case LoginPending =>
        loading := true;
        error := None;
      case LoginFulfilled(u) =>
        user := Some(u);
        error := None;
      case LoginRejected(p) =>
        loading := false;
        error := Some(if p.Some? && p.value != "" then p.value else "Invalid credentials");
      case LogoutPending =>
        loading := true;
      case LogoutFulfilled =>
        user := None;
        error := None;
        loading := false;
        hydrated := true;
      case LogoutRejected =>
        loading := false;
      case HydratePending =>
        loading := true;
      case HydrateFulfilled(u) =>
        user := u;
        loading := false;
        hydrated := true;
      case HydrateRejected =>
        loading := false;
        hydrated := true;
      case Other =>
    }
  }
}
