/**
 * The login state kept in PHP's $_SESSION (includes/auth.php): who is logged
 * in is read from, and written to, the session map.
 */
module Auth {
  import opened PhpRuntime

  const UserIdKey := "user_id"
  const UserNameKey := "user_name"

  /** isLoggedIn on a session map: both the user id and the user name are set. */
  function LoggedIn(vars: map<string, Value>): (r: bool)
    ensures r ==> UserIdKey in vars && UserNameKey in vars
    ensures vars == map[] ==> !r
  {
    IsSet(vars, UserIdKey) && IsSet(vars, UserNameKey)
  }

  /** The $_SESSION array of one visitor. */
  class PhpSession {
    var vars: map<string, Value>

    constructor (vars0: map<string, Value>)
      ensures vars == vars0
    {
      vars := vars0;
    }

    /** isLoggedIn, on this visitor's session: exactly when neither getter answers null. */
    function IsLoggedIn(): (r: bool)
      reads this
      ensures r <==> GetUserId() != Null && GetUserName() != Null
    {
      LoggedIn(vars)
    }

    /** getUserId: the stored user id, or null when it is not set. */
    function GetUserId(): (r: Value)
      reads this
      ensures r == Null <==> !IsSet(vars, UserIdKey)
      ensures r != Null ==> r == vars[UserIdKey]
    {
      if IsSet(vars, UserIdKey) then vars[UserIdKey] else Null
    }

    /** getUserName: the stored user name, or null when it is not set. */
    function GetUserName(): (r: Value)
      reads this
      ensures r == Null <==> !IsSet(vars, UserNameKey)
      ensures r != Null ==> r == vars[UserNameKey]
    {
      if IsSet(vars, UserNameKey) then vars[UserNameKey] else Null
    }

    /**
     * loginUser: stores the id and the name and touches no other key. With
     * a non-null id and name the visitor is then logged in as them.
     */
    method LoginUser(userId: Value, userName: Value)
      modifies this
      ensures vars == old(vars)[UserIdKey := userId][UserNameKey := userName]
      ensures userId != Null && userName != Null ==>
        IsLoggedIn() && GetUserId() == userId && GetUserName() == userName
      ensures forall k :: k != UserIdKey && k != UserNameKey ==>
        (k in vars <==> k in old(vars)) && (k in vars ==> vars[k] == old(vars)[k])
    {
      vars := vars[UserIdKey := userId];
      vars := vars[UserNameKey := userName];
    }

    /** logoutUser: session_unset empties the map, so nobody is logged in any more. */
    method LogoutUser()
      modifies this
      ensures vars == map[]
      ensures !IsLoggedIn() && GetUserId() == Null && GetUserName() == Null
    {
      vars := map[];
    }
  }
}
