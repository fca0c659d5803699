/**
 * The request gate in front of the API blueprint, and the `auth_required`
 * decorator. Token verification is a library call and is an input here:
 * `token` is `None` when the request carries no valid token, and otherwise
 * the identity the token names.
 */
module Auth {
  import opened Python
  import opened Tables
  import opened Models
  import UserService

  /** The exempt list used when none is supplied. */
  const DefaultExemptRoutes: seq<string> := ["/login", "/logout"]

  /** The exempt list the application factory installs. */
  const InstalledExemptRoutes: seq<string> := ["/login", "/logout", "/users"]

  const InvalidToken := "Invalid or missing authentication token"
  const InvalidTokenPleaseLogin := "Invalid or missing authentication token. Please login first."
  const UserNotFound := "User not found"

  /** What a before-request hook decides: let the view run, or answer in its place. */
  datatype Gate = Proceed | Reject(status: int, error: string, message: string)

  /** The path with a leading `/api` cut off, then with a `/` put in front when it has none. */
  function Normalize(path: string): (r: string)
    ensures StartsWith(r, "/")
    ensures StartsWith(path, "/") && !StartsWith(path, "/api") ==> r == path
    ensures StartsWith(path, "/api/") ==> r == path[4..]
    ensures StartsWith(path, "/api") && !StartsWith(path, "/api/") ==> r == "/" + path[4..]
    ensures !StartsWith(path, "/") ==> r == "/" + path
  {
    ApiPrefix(path);
    if StartsWith(path, "/api") then
      var rest := path[4..];
      if StartsWith(rest, "/") then rest else "/" + rest
    else if StartsWith(path, "/") then path
    else "/" + path
  }

  /** How the prefixes `Normalize` tests relate: `/api/` extends `/api`, which extends `/`. */
  lemma ApiPrefix(path: string)
    ensures StartsWith(path, "/api/") ==> StartsWith(path, "/api") && StartsWith(path[4..], "/")
    ensures StartsWith(path, "/api") ==> StartsWith(path, "/")
  {
    if StartsWith(path, "/api/") {
      assert path[..4] == path[..5][..4];
      assert path[4..][..1] == path[..5][4..];
    }
    if StartsWith(path, "/api") {
      assert path[..1] == path[..4][..1];
    }
  }

  /**
   * The outcome of the exemption loop: the path equals a listed route, or it
   * is a POST to `/users`, a case tested inside the loop and so seen only
   * when the list is not empty.
   */
  predicate Exempt(path: string, httpMethod: string, routes: seq<string>) {
    path in routes || (routes != [] && path == "/users" && httpMethod == "POST")
  }

  /** The exemption loop decides on the normalised path only. */
  ghost predicate ExemptRequest(path: string, httpMethod: string, routes: seq<string>) {
    Exempt(Normalize(path), httpMethod, routes)
  }

  /** The attributes Flask gives the view: the request line, and the user the gate attaches. */
  class Request {
    const path: string
    const httpMethod: string
    var currentUser: Option<User>
    var currentUserId: Option<int>

    constructor (path: string, httpMethod: string)
      ensures this.path == path && this.httpMethod == httpMethod
      ensures currentUser.None? && currentUserId.None?
    {
      this.path := path;
      this.httpMethod := httpMethod;
      currentUser := None;
      currentUserId := None;
    }
  }

  /** `setup_auth_middleware(blueprint, exempt_routes)`: the hook, with its exempt list fixed at setup. */
  class AuthGate {
    const exemptRoutes: seq<string>

    constructor (exemptRoutes: Option<seq<string>>)
      ensures this.exemptRoutes == if exemptRoutes.None? then DefaultExemptRoutes else exemptRoutes.value
    {
      this.exemptRoutes := if exemptRoutes.None? then DefaultExemptRoutes else exemptRoutes.value;
    }

    /**
     * `require_auth()`: an exempt request proceeds untouched; any other one
     * needs a token naming a stored user, who is then attached to the request.
     */
    method RequireAuth(req: Request, token: Option<int>, users: Table<User>) returns (g: Gate)
      requires UsersOk(users)
      modifies req
      ensures ExemptRequest(req.path, req.httpMethod, exemptRoutes) ==> g == Proceed && unchanged(req)
      ensures !ExemptRequest(req.path, req.httpMethod, exemptRoutes) && token.None? ==>
                g == Reject(401, "Unauthorized", InvalidTokenPleaseLogin) && unchanged(req)
      ensures !ExemptRequest(req.path, req.httpMethod, exemptRoutes) && token.Some? && token.value !in users.rows ==>
                g == Reject(401, "Unauthorized", UserNotFound) && unchanged(req)
      ensures !ExemptRequest(req.path, req.httpMethod, exemptRoutes) && token.Some? && token.value in users.rows ==>
                && g == Proceed
                && req.currentUser == Some(users.rows[token.value]) && req.currentUserId == token
    {
      var path := req.path;
      if StartsWith(path, "/api") {
        path := path[4..];
      }
      if !StartsWith(path, "/") {
        path := "/" + path;
      }
      assert path == Normalize(req.path);

      var isExempt := false;
      for i := 0 to |exemptRoutes|
        invariant !isExempt ==> forall j :: 0 <= j < i ==> exemptRoutes[j] != path
        invariant !isExempt && 0 < i ==> !(path == "/users" && req.httpMethod == "POST")
        invariant isExempt <==> Exempt(path, req.httpMethod, exemptRoutes[..i])
      {
        if path == exemptRoutes[i] {
          assert exemptRoutes[..i + 1][i] == path;
          isExempt := true;
          break;
        }
        if path == "/users" && req.httpMethod == "POST" {
          isExempt := true;
          break;
        }
      }
      if isExempt {
        return Proceed;
      }
      assert !Exempt(path, req.httpMethod, exemptRoutes);

      if token.None? {
        return Reject(401, "Unauthorized", InvalidTokenPleaseLogin);
      }
      var user := UserService.GetUserById(users, token.value);
      if user.None? {
        return Reject(401, "Unauthorized", UserNotFound);
      }
      req.currentUser := user;
      req.currentUserId := token;
      g := Proceed;
    }
  }

  /**
   * `auth_required(f)`: the same check without exemptions; the wrapped view
   * runs exactly when the result is `Proceed`.
   */
  method AuthRequired(req: Request, token: Option<int>, users: Table<User>) returns (g: Gate)
    requires UsersOk(users)
    modifies req
    ensures token.None? ==> g == Reject(401, "Unauthorized", InvalidToken) && unchanged(req)
    ensures token.Some? && token.value !in users.rows ==> g == Reject(401, "Unauthorized", UserNotFound) && unchanged(req)
    ensures token.Some? && token.value in users.rows ==>
              && g == Proceed
              && req.currentUser == Some(users.rows[token.value]) && req.currentUserId == token
  {
    if token.None? {
      return Reject(401, "Unauthorized", InvalidToken);
    }
    var user := UserService.GetUserById(users, token.value);
    if user.None? {
      return Reject(401, "Unauthorized", UserNotFound);
    }
    req.currentUser := user;
    req.currentUserId := token;
    g := Proceed;
  }

  /** The prefix cut is textual: `/api` becomes `/`, and `/apix` becomes `/x`. */
  lemma NormalizeExamples()
    ensures Normalize("/api") == "/"
    ensures Normalize("/apix") == "/x"
    ensures Normalize("/api/users") == "/users"
    ensures Normalize("users") == "/users"
  {
    assert StartsWith("/api", "/api");
    assert StartsWith("/apix", "/api");
    assert StartsWith("/api/users", "/api");
    assert "users"[..4] != "/api" by { assert "users"[0] != "/api"[0]; }
    assert "users"[..1] != "/" by { assert "users"[0] != '/'; }
    assert !StartsWith("users", "/api") && !StartsWith("users", "/");
    assert "/" + "users" == "/users";
  }

  /** Under the blueprint's `/api` prefix, the gate sees exactly the route path. */
  lemma NormalizeApi(route: string)
    requires StartsWith(route, "/")
    ensures Normalize("/api" + route) == route
  {
    var path := "/api" + route;
    assert path[..4] == "/api";
    assert path[4..] == route;
  }

  /** A request for a listed route passes the gate with no token, whatever its method. */
  lemma ListedOpenForAnyMethod(route: string, httpMethod: string, routes: seq<string>)
    requires route in routes && StartsWith(route, "/")
    ensures ExemptRequest("/api" + route, httpMethod, routes)
  {
    NormalizeApi(route);
  }

  /**
   * Matching is exact: a request below a listed route, such as one for a
   * single record, is exempt only when its own path is listed.
   */
  lemma SubRoutesExemptOnlyIfListed(route: string, rest: string, httpMethod: string, routes: seq<string>)
    requires StartsWith(route, "/") && rest != []
    ensures ExemptRequest("/api" + route + "/" + rest, httpMethod, routes) <==> route + "/" + rest in routes
  {
    var p := route + "/" + rest;
    assert p[..1] == route[..1];
    assert p != "/users" by {
      assert p[|route|] == '/' && 0 < |route| && |route| < |p| - 1;
      assert forall j :: 0 < j < |"/users"| ==> "/users"[j] != '/';
    }
    assert "/api" + route + "/" + rest == "/api" + p;
    NormalizeApi(p);
  }

  /** `/users/5` is not exempt under the installed list, whatever the method. */
  lemma UserByIdNotExempt(httpMethod: string)
    ensures !Exempt("/users/5", httpMethod, InstalledExemptRoutes)
  {
    assert "/users/5" != "/users";
  }

  /** A POST to `/api/users` passes the gate with no token exactly when the exempt list is not empty. */
  lemma PostUsersNeedsNonEmptyList(routes: seq<string>)
    ensures ExemptRequest("/api/users", "POST", routes) <==> routes != []
  {
    NormalizeExamples();
  }

  /**
   * Under the default list only POST reaches `/users` unauthenticated; under
   * the installed list, which names `/users`, every method does.
   */
  lemma UsersExemption(httpMethod: string)
    ensures Exempt("/users", httpMethod, DefaultExemptRoutes) <==> httpMethod == "POST"
    ensures Exempt("/users", httpMethod, InstalledExemptRoutes)
  {
    assert InstalledExemptRoutes[2] == "/users";
  }

  /** Under the installed list, `/api/login`, `/api/logout` and `/api/users` pass the gate with no token. */
  lemma InstalledOpenPaths(httpMethod: string)
    ensures ExemptRequest("/api/login", httpMethod, InstalledExemptRoutes)
    ensures ExemptRequest("/api/logout", httpMethod, InstalledExemptRoutes)
    ensures ExemptRequest("/api/users", httpMethod, InstalledExemptRoutes)
  {
    NormalizeExamples();
    assert StartsWith("/api/login", "/api") && StartsWith("/api/logout", "/api");
    assert Normalize("/api/login") == "/login" && Normalize("/api/logout") == "/logout";
    assert InstalledExemptRoutes[0] == "/login" && InstalledExemptRoutes[1] == "/logout";
    assert InstalledExemptRoutes[2] == "/users";
  }
}
