/**
 * The bearer-token store: an in-memory token (the `authToken` subject's
 * value) and the browser's durable key-value storage, where the token
 * lives under the key "token".
 */
module Auth {
  import opened Wrappers

  const TokenKey := "token"

  /** `localStorage.getItem(key)`: the stored string, or null when the key is absent. */
  function GetItem(storage: map<string, string>, key: string): (r: Option<string>)
    ensures r.Some? <==> key in storage
    ensures r.Some? ==> r.value == storage[key]
  {
    if key in storage then Some(storage[key]) else None
  }

  class AuthService {
    /** The value held by the `authToken` subject; "" is its initial value. */
    var authToken: string
    /** The durable storage the service shares with the rest of the browser session. */
    var storage: map<string, string>

    /** A fresh service starts with an empty in-memory token over the storage as found. */
    constructor (storage: map<string, string>)
      ensures authToken == "" && this.storage == storage
    {
      authToken := "";
      this.storage := storage;
    }

    /** `setToken`: the same token goes to memory and to storage. */
    method SetToken(token: string)
      modifies this
      ensures authToken == token
      ensures storage == old(storage)[TokenKey := token]
    {
      authToken := token;
      storage := storage[TokenKey := token];
    }

    /**
     * `getToken`: the in-memory token when it is non-empty, otherwise
     * whatever storage holds under "token" (null when nothing does).
     */
    method GetToken() returns (token: Option<string>)
      ensures authToken != "" ==> token == Some(authToken)
      ensures authToken == "" ==> token == GetItem(storage, TokenKey)
    {
      if authToken != "" {
        token := Some(authToken);
      } else {
        token := GetItem(storage, TokenKey);
      }
    }

    /** `logout`: empties the in-memory token and removes the stored one. */
    method Logout()
      modifies this
      ensures authToken == ""
      ensures storage == old(storage) - {TokenKey}
    {
      authToken := "";
      storage := storage - {TokenKey};
    }
  }

  /** After `setToken(t)`, `getToken()` returns `t`, for every `t`, the empty string included. */
  method SetThenGet(auth: AuthService, t: string) returns (token: Option<string>)
    modifies auth
    ensures token == Some(t)
    ensures auth.authToken == t && auth.storage == old(auth.storage)[TokenKey := t]
  {
    auth.SetToken(t);
    token := auth.GetToken();
  }

  /** After `logout()`, `getToken()` returns null, whatever came before. */
  method LogoutThenGet(auth: AuthService) returns (token: Option<string>)
    modifies auth
    ensures token.None?
    ensures auth.authToken == "" && auth.storage == old(auth.storage) - {TokenKey}
  {
    auth.Logout();
    token := auth.GetToken();
  }

  /** A second `logout()` leaves the state the first one left. */
  method LogoutTwice(auth: AuthService)
    modifies auth
    ensures auth.authToken == "" && auth.storage == old(auth.storage) - {TokenKey}
  {
    auth.Logout();
    ghost var once := auth.storage;
    auth.Logout();
    assert auth.storage == once;
  }

  /** Reading the token changes neither the in-memory token nor storage. */
  method GetTokenTwice(auth: AuthService) returns (first: Option<string>, second: Option<string>)
    ensures first == second
  {
    first := auth.GetToken();
    second := auth.GetToken();
  }
}
