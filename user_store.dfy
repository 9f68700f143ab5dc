/**
 * The client's user store (`stores/user.ts`): the session token, the signed-in user and a
 * login flag, mirrored into the browser's `localStorage`, a map from keys to strings.
 * `user` starts out `undefined` and is set to `null` on logout; both read as `None` here.
 */
module UserStore {
  import opened Wrappers

  /** `IUser`. */
  datatype User = User(id: int, username: string)

  /** The store's fields together with the storage they mirror into. */
  datatype Session = Session(storage: map<string, string>, token: Option<string>,
                             user: Option<User>, isLogin: bool)

  const TokenKey: string := "token"
  const IsLoginKey: string := "isLogin"

  /** `localStorage.getItem(key)`: the stored string, or null. */
  function GetItem(storage: map<string, string>, key: string): (r: Option<string>)
    ensures r.Some? <==> key in storage
    ensures r.Some? ==> r.value == storage[key]
  {
    if key in storage then Some(storage[key]) else None
  }

  /** `Boolean(x)` of a string or null: true exactly for a non-empty string. */
  function Truthy(x: Option<string>): (b: bool)
    ensures b <==> x.Some? && x.value != ""
  {
    x.Some? && x.value != ""
  }

  /** The state a freshly created store starts in, over what the storage holds. */
  function Loaded(storage: map<string, string>): (s: Session)
    ensures s.storage == storage && s.user.None?
    ensures s.token == GetItem(storage, TokenKey)
    ensures s.isLogin <==> IsLoginKey in storage && storage[IsLoginKey] != ""
  {
    Session(storage, GetItem(storage, TokenKey), None, Truthy(GetItem(storage, IsLoginKey)))
  }

  /** `setToken(t)`. */
  function AfterSetToken(s: Session, t: string): (s': Session)
    ensures s'.token == Some(t) && s'.storage == s.storage[TokenKey := t]
    ensures s'.user == s.user && s'.isLogin == s.isLogin
    ensures GetItem(s'.storage, IsLoginKey) == GetItem(s.storage, IsLoginKey)
  {
    s.(token := Some(t), storage := s.storage[TokenKey := t])
  }

  /** `logout()`. */
  function AfterLogout(s: Session): (s': Session)
    ensures s'.token.None? && s'.user.None? && !s'.isLogin
    ensures GetItem(s'.storage, IsLoginKey) == Some("false") && TokenKey !in s'.storage
    ensures forall k :: k != TokenKey && k != IsLoginKey ==> GetItem(s'.storage, k) == GetItem(s.storage, k)
  {
    Session(s.storage[IsLoginKey := "false"] - {TokenKey}, None, None, false)
  }

  /** `login(u)`. */
  function AfterLogin(s: Session, u: User): (s': Session)
    ensures s'.user == Some(u) && s'.isLogin && GetItem(s'.storage, IsLoginKey) == Some("true")
    ensures s'.token == s.token && GetItem(s'.storage, TokenKey) == GetItem(s.storage, TokenKey)
    ensures forall k :: k != IsLoginKey ==> GetItem(s'.storage, k) == GetItem(s.storage, k)
  {
    s.(user := Some(u), isLogin := true, storage := s.storage[IsLoginKey := "true"])
  }

  /** Logging out twice is logging out once. */
  lemma LogoutIdempotent(s: Session)
    ensures AfterLogout(AfterLogout(s)) == AfterLogout(s)
  {
    assert AfterLogout(AfterLogout(s)).storage == AfterLogout(s).storage;
  }

  /**
   * The flag is restored with `Boolean`, and what logout stores is the non-empty string
   * `"false"`: a store created after a logout believes it is logged in, with no token.
   */
  lemma ReloadAfterLogout(s: Session)
    ensures Loaded(AfterLogout(s).storage).isLogin
    ensures Loaded(AfterLogout(s).storage).token.None?
  {
  }

  /** A store created after a login keeps the session's token and flag, but not the user. */
  lemma ReloadAfterLogin(s: Session, u: User)
    ensures Loaded(AfterLogin(s, u).storage).isLogin
    ensures Loaded(AfterLogin(s, u).storage).token == GetItem(s.storage, TokenKey)
    ensures Loaded(AfterLogin(s, u).storage).user.None?
  {
  }

  /** A token set and then reloaded is the token the store starts with. */
  lemma ReloadAfterSetToken(s: Session, t: string)
    ensures Loaded(AfterSetToken(s, t).storage).token == Some(t)
  {
  }

  /** The Pinia store: its three refs and the `localStorage` it writes to. */
  class Store {
    var storage: map<string, string>
    var token: Option<string>
    var user: Option<User>
    var isLogin: bool

    function Current(): Session
      reads this
    {
      Session(storage, token, user, isLogin)
    }

    /** `useUserStore()` the first time: the refs are read from storage. */
    constructor (storage: map<string, string>)
      ensures Current() == Loaded(storage)
    {
      this.storage := storage;
      token := GetItem(storage, TokenKey);
      user := None;
      isLogin := Truthy(GetItem(storage, IsLoginKey));
    }

    method SetToken(newToken: string)
      modifies this
      ensures Current() == AfterSetToken(old(Current()), newToken)
    {
      token := Some(newToken);
      storage := storage[TokenKey := newToken];
    }

    method Logout()
      modifies this
      ensures Current() == AfterLogout(old(Current()))
    {
      token := None;
      user := None;
      isLogin := false;
      storage := storage[IsLoginKey := "false"];
      storage := storage - {TokenKey};
    }

    method Login(newUser: User)
      modifies this
      ensures Current() == AfterLogin(old(Current()), newUser)
    {
      user := Some(newUser);
      storage := storage[IsLoginKey := "true"];
      isLogin := true;
    }
  }
}
