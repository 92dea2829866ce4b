/** The Redux "user" slice: who is signed in, whether the session is
    authenticated, and the current JWT access token. Each case reducer
    writes a fixed subset of the three fields of the state draft and leaves
    the others alone. `U` stands for whatever user record the server sends;
    `null` is `None`. */
module UserSlice {
  import opened JsText

  datatype AuthState<U> = AuthState(user: Option<U>, isAuthenticated: bool, accessToken: Option<string>)

  /** Payload of `loginSuccess`: `{ user, access_token }`. */
  datatype LoginPayload<U> = LoginPayload(user: Option<U>, accessToken: Option<string>)

  /** Payload of `refreshAccessToken`: `{ access_token }`. */
  datatype RefreshPayload = RefreshPayload(accessToken: Option<string>)

  /** The four actions the slice exports, with their payloads
      (`setUser`'s payload is the user itself). */
  datatype Action<U> =
    | LoginSuccess(login: LoginPayload<U>)
    | Logout
    | RefreshAccessToken(refresh: RefreshPayload)
    | SetUser(newUser: Option<U>)
  {
    /** The actions after which the session counts as authenticated. */
    predicate Grants() {
      LoginSuccess? || RefreshAccessToken?
    }
  }

  /** `initialState`: nobody signed in, no token. */
  function Initial<U>(): AuthState<U> {
    AuthState(None, false, None)
  }

  /** The slice reducer: the new state after one action. `user` and
      `access_token` take the value the action writes to them (`UserWrite`,
      `TokenWrite`) and keep theirs otherwise; the session is authenticated
      after `loginSuccess` and `refreshAccessToken`, signed out after
      `logout`, and `setUser` leaves the flag alone. No action leaves an
      unauthenticated state holding a token. */
  function Reduce<U>(s: AuthState<U>, a: Action<U>): (r: AuthState<U>)
    ensures r.user == match UserWrite(a) case None => s.user case Some(u) => u
    ensures r.accessToken == match TokenWrite(a) case None => s.accessToken case Some(t) => t
    ensures r.isAuthenticated <==> a.Grants() || (a.SetUser? && s.isAuthenticated)
    ensures Consistent(s) ==> Consistent(r)
  {
    match a
    case LoginSuccess(p) => AuthState(p.user, true, p.accessToken)
    case Logout => AuthState(None, false, None)
    case RefreshAccessToken(p) => s.(accessToken := p.accessToken, isAuthenticated := true)
    case SetUser(u) => s.(user := u)
  }

  /** The state after a whole sequence of dispatched actions. Every state
      reached from a consistent one, such as `initialState`, is consistent. */
  function ReduceAll<U>(s: AuthState<U>, actions: seq<Action<U>>): (r: AuthState<U>)
    ensures Consistent(s) ==> Consistent(r)
    decreases |actions|
  {
    if actions == [] then s else ReduceAll(Reduce(s, actions[0]), actions[1..])
  }

  /** A session that is not authenticated holds no access token. */
  predicate Consistent<U>(s: AuthState<U>) {
    !s.isAuthenticated ==> s.accessToken.None?
  }

  /** `logout` brings back `initialState`, whatever the state was. */
  lemma LogoutRestoresInitial<U>(s: AuthState<U>)
    ensures Reduce(s, Logout) == Initial()
  {
  }

  /** Logging out twice is the same as logging out once. */
  lemma LogoutIdempotent<U>(s: AuthState<U>)
    ensures Reduce(Reduce(s, Logout), Logout) == Reduce(s, Logout)
  {
  }

  /** Dispatching one more action after a sequence. */
  lemma {:induction false} ReduceAllSnoc<U>(s: AuthState<U>, actions: seq<Action<U>>, a: Action<U>)
    ensures ReduceAll(s, actions + [a]) == Reduce(ReduceAll(s, actions), a)
    decreases |actions|
  {
    if actions == [] {
      assert [a][1..] == [];
    } else {
      assert (actions + [a])[1..] == actions[1..] + [a];
      ReduceAllSnoc(Reduce(s, actions[0]), actions[1..], a);
    }
  }

  /** Starting signed out, the session is authenticated exactly when some
      `loginSuccess` or `refreshAccessToken` was dispatched and no `logout`
      came after it. */
  lemma {:induction false} AuthenticatedIffGrantedSinceLogout<U>(actions: seq<Action<U>>)
    ensures ReduceAll(Initial(), actions).isAuthenticated <==>
            exists i :: 0 <= i < |actions| && actions[i].Grants() &&
                        forall j :: i < j < |actions| ==> !actions[j].Logout?
    decreases |actions|
  {
    if actions != [] {
      var n := |actions| - 1;
      var prefix, a := actions[..n], actions[n];
      assert actions == prefix + [a];
      ReduceAllSnoc(Initial(), prefix, a);
      AuthenticatedIffGrantedSinceLogout(prefix);
      if a.Grants() {
        assert actions[n].Grants();
      } else if a.Logout? {
        forall i | 0 <= i < |actions| && actions[i].Grants()
          ensures exists j :: i < j < |actions| && actions[j].Logout?
        {
          assert i < n && actions[n].Logout?;
        }
      } else {
        if ReduceAll(Initial(), actions).isAuthenticated {
          var i :| 0 <= i < |prefix| && prefix[i].Grants() &&
                   forall j :: i < j < |prefix| ==> !prefix[j].Logout?;
          assert actions[i].Grants();
          forall j | i < j < |actions| ensures !actions[j].Logout? {
            if j < n { assert actions[j] == prefix[j]; }
          }
        } else {
          forall i | 0 <= i < |actions| && actions[i].Grants()
            ensures exists j :: i < j < |actions| && actions[j].Logout?
          {
            assert i < n && prefix[i] == actions[i];
            var j :| i < j < |prefix| && prefix[j].Logout?;
            assert actions[j].Logout?;
          }
        }
      }
    }
  }

  /** The value an action writes to `user`, if it writes that field. */
  function UserWrite<U>(a: Action<U>): Option<Option<U>> {
    match a
    case LoginSuccess(p) => Some(p.user)
    case Logout => Some(None)
    case RefreshAccessToken(_) => None
    case SetUser(u) => Some(u)
  }

  /** The value an action writes to `access_token`, if it writes that field. */
  function TokenWrite<U>(a: Action<U>): Option<Option<string>> {
    match a
    case LoginSuccess(p) => Some(p.accessToken)
    case Logout => Some(None)
    case RefreshAccessToken(p) => Some(p.accessToken)
    case SetUser(_) => None
  }

  function UserWrites<U>(actions: seq<Action<U>>): seq<Option<Option<U>>> {
    seq(|actions|, i requires 0 <= i < |actions| => UserWrite(actions[i]))
  }

  function TokenWrites<U>(actions: seq<Action<U>>): seq<Option<Option<string>>> {
    seq(|actions|, i requires 0 <= i < |actions| => TokenWrite(actions[i]))
  }

  /** The last write in a sequence of optional writes, if any. */
  function LastWrite<T>(writes: seq<Option<T>>): Option<T>
    decreases |writes|
  {
    if writes == [] then None
    else if writes[|writes| - 1].Some? then writes[|writes| - 1]
    else LastWrite(writes[..|writes| - 1])
  }

  /** After any sequence of actions, `user` and `access_token` each hold
      what the last action writing that field wrote, or their starting
      value when no action wrote it. */
  lemma {:induction false} LastWriterWins<U>(s: AuthState<U>, actions: seq<Action<U>>)
    ensures ReduceAll(s, actions).user ==
            match LastWrite(UserWrites(actions))
            case None => s.user
            case Some(u) => u
    ensures ReduceAll(s, actions).accessToken ==
            match LastWrite(TokenWrites(actions))
            case None => s.accessToken
            case Some(t) => t
    decreases |actions|
  {
    if actions != [] {
      var n := |actions| - 1;
      var prefix, a := actions[..n], actions[n];
      assert actions == prefix + [a];
      ReduceAllSnoc(s, prefix, a);
      LastWriterWins(s, prefix);
      assert UserWrites(actions)[..n] == UserWrites(prefix);
      assert TokenWrites(actions)[..n] == TokenWrites(prefix);
    }
  }

  /** The slice as a store whose reducers update the state draft in place. */
  class AuthSlice<U> {
    var user: Option<U>
    var isAuthenticated: bool
    var accessToken: Option<string>

    /** The current value of the slice. */
    function State(): AuthState<U>
      reads this
    {
      AuthState(user, isAuthenticated, accessToken)
    }

    /** The store starts from `initialState`. */
    constructor ()
      ensures State() == Initial()
      ensures Consistent(State())
    {
      user, isAuthenticated, accessToken := None, false, None;
    }

    /** `loginSuccess`: user and token from the payload, authenticated. */
    method LoginSuccess(payload: LoginPayload<U>)
      modifies this
      ensures user == payload.user && isAuthenticated && accessToken == payload.accessToken
      ensures State() == Reduce(old(State()), Action.LoginSuccess(payload))
      ensures Consistent(State())
    {
      user := payload.user;
      isAuthenticated := true;
      accessToken := payload.accessToken;
    }

    /** `logout`: every field back to its initial value. */
    method Logout()
      modifies this
      ensures user.None? && !isAuthenticated && accessToken.None?
      ensures State() == Initial()
      ensures State() == Reduce(old(State()), Action.Logout)
    {
      user := None;
      isAuthenticated := false;
      accessToken := None;
    }

    /** `refreshAccessToken`: new token, authenticated, same user. */
    method RefreshAccessToken(payload: RefreshPayload)
      modifies this
      ensures accessToken == payload.accessToken && isAuthenticated
      ensures user == old(user)
      ensures State() == Reduce(old(State()), Action.RefreshAccessToken(payload))
      ensures Consistent(State())
    {
      accessToken := payload.accessToken;
      isAuthenticated := true;
    }

    /** `setUser`: only the user changes. */
    method SetUser(payload: Option<U>)
      modifies this
      ensures user == payload
      ensures isAuthenticated == old(isAuthenticated) && accessToken == old(accessToken)
      ensures State() == Reduce(old(State()), Action.SetUser(payload))
      ensures old(Consistent(State())) ==> Consistent(State())
    {
      user := payload;
    }
  }
}
