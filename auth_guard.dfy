/**
 * The route guard in front of the product pages: it lets navigation
 * through when the token store yields a non-empty token and otherwise
 * sends the user to the login route.
 */
module RouteGuard {
  import opened Wrappers
  import opened Auth

  /** The guard's answer, and the navigation it asks the router for, if any. */
  datatype Decision = Decision(allow: bool, navigate: Option<seq<string>>)

  const LoginRoute: seq<string> := ["/login"]

  /** The guard's decision on the value `getToken()` returned: allow exactly when it is truthy. */
  function Decide(authKey: Option<string>): (d: Decision)
    ensures d.allow <==> authKey.Some? && authKey.value != ""
    ensures !d.allow <==> d.navigate == Some(["/login"])
    ensures d.allow ==> d.navigate.None?
  {
    if authKey.Some? && authKey.value != "" then Decision(true, None)
    else Decision(false, Some(LoginRoute))
  }

  /** `AuthGuard`: reads the token from the store and decides; the store is left as it is. */
  method AuthGuard(auth: AuthService) returns (d: Decision)
    ensures d.allow <==> auth.authToken != "" || (TokenKey in auth.storage && auth.storage[TokenKey] != "")
    ensures !d.allow ==> d.navigate == Some(["/login"])
    ensures d.allow ==> d.navigate.None?
  {
    var authKey := auth.GetToken();
    d := Decide(authKey);
  }

  /** After `setToken` with a non-empty token the guard allows. */
  method GuardAfterSetToken(auth: AuthService, t: string) returns (d: Decision)
    requires t != ""
    modifies auth
    ensures d.allow && d.navigate.None?
  {
    auth.SetToken(t);
    d := AuthGuard(auth);
  }

  /** After `logout` the guard denies and redirects to the login route. */
  method GuardAfterLogout(auth: AuthService) returns (d: Decision)
    modifies auth
    ensures !d.allow && d.navigate == Some(["/login"])
  {
    auth.Logout();
    d := AuthGuard(auth);
  }
}
