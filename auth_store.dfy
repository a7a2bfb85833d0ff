/** The client's session store: the signed-in user, whether the session
    counts as authenticated, and the two tokens kept in the browser's
    local storage. */
module AuthStore {
  import opened Common

  datatype GroupInfo = GroupInfo(groupId: int, groupName: string, section: string)

  datatype User = User(id: int, email: string, username: string, firstName: string, lastName: string,
                       phone: string, isStaff: bool, groups: seq<GroupInfo>)

  /** `!!localStorage.getItem(key)`: a stored, non-empty value. */
  predicate Truthy(stored: Option<string>)
  {
    stored.Some? && stored.value != ""
  }

  class Store {
    var user: Option<User>
    var isAuthenticated: bool
    /** The `access_token` and `refresh_token` entries of local storage. */
    var accessToken: Option<string>
    var refreshToken: Option<string>

    /** The flag says whether a user is set. */
    predicate Consistent()
      reads this
    {
      isAuthenticated <==> user.Some?
    }

    /** The initial state: no user yet, and authenticated exactly when an
        access token is stored (the user is fetched afterwards). */
    constructor (access: Option<string>, refresh: Option<string>)
      ensures user.None? && (isAuthenticated <==> Truthy(access))
      ensures accessToken == access && refreshToken == refresh
      ensures Consistent() <==> !Truthy(access)
    {
      user := None;
      isAuthenticated := Truthy(access);
      accessToken := access;
      refreshToken := refresh;
    }

    /** `setUser`: the user is replaced and the flag follows it; the
        tokens stay. */
    method SetUser(u: Option<User>)
      modifies this
      ensures user == u && (isAuthenticated <==> u.Some?)
      ensures Consistent()
      ensures accessToken == old(accessToken) && refreshToken == old(refreshToken)
    {
      user := u;
      isAuthenticated := u.Some?;
    }

    /** `logout`: both tokens are removed and the session is cleared. */
    method Logout()
      modifies this
      ensures user.None? && !isAuthenticated
      ensures accessToken.None? && refreshToken.None?
      ensures Consistent()
    {
      accessToken := None;
      refreshToken := None;
      user := None;
      isAuthenticated := false;
    }
  }
}
