/** proxy.ts: the route guard run before every matched request. It decides from the path and
    from whether the session cookie is present whether the request passes or is redirected. */
module Proxy {
  /** What the guard returns: `NextResponse.next()` or a redirect to a path of the same origin. */
  datatype Decision = Next | Redirect(to: string)

  const SessionCookie: string := "better-auth.session_token"
  const ProtectedRoutes: seq<string> := ["/dashboard"]
  const AuthRoutes: seq<string> := ["/login", "/signup"]
  const LoginPath: string := "/login"
  const DashboardPath: string := "/dashboard"

  /** `routes.some(route => path.startsWith(route))`. */
  function AnyPrefix(routes: seq<string>, path: string): (r: bool)
    ensures r <==> exists i :: 0 <= i < |routes| && routes[i] <= path
  {
    if routes == [] then false
    else routes[0] <= path || AnyPrefix(routes[1..], path)
  }

  /** A protected path starts with "/dashboard" (plain prefix: "/dashboards" is one too). */
  function IsProtectedRoute(path: string): (r: bool)
    ensures r <==> DashboardPath <= path
  {
    assert ProtectedRoutes[0] == DashboardPath;
    AnyPrefix(ProtectedRoutes, path)
  }

  /** An auth path starts with "/login" or "/signup". */
  function IsAuthRoute(path: string): (r: bool)
    ensures r <==> LoginPath <= path || "/signup" <= path
  {
    assert AuthRoutes[0] == LoginPath && AuthRoutes[1] == "/signup";
    AnyPrefix(AuthRoutes, path)
  }

  /** `proxy`: the cookie jar is a map from cookie names to values. A protected path without the
      session cookie goes to the login page, an auth path with it goes to the dashboard, and
      every other request passes. */
  function Guard(path: string, cookies: map<string, string>): (d: Decision)
    ensures d == Redirect(LoginPath) <==> IsProtectedRoute(path) && SessionCookie !in cookies
    ensures d == Redirect(DashboardPath) <==> IsAuthRoute(path) && SessionCookie in cookies
    ensures d == Next <==>
              (IsProtectedRoute(path) ==> SessionCookie in cookies) && (IsAuthRoute(path) ==> SessionCookie !in cookies)
  {
    var hasSession := SessionCookie in cookies;
    if IsProtectedRoute(path) && !hasSession then Redirect(LoginPath)
    else if IsAuthRoute(path) && hasSession then Redirect(DashboardPath)
    else Next
  }

  /** No path is both protected and an auth path. */
  lemma RoutesAreDisjoint(path: string)
    ensures !(IsProtectedRoute(path) && IsAuthRoute(path))
  {
    if DashboardPath <= path {
      assert path[1] == 'd';
      assert !(LoginPath <= path) && !("/signup" <= path) by {
        assert LoginPath[1] == 'l' && "/signup"[1] == 's';
      }
    }
  }

  /** No redirect loop: the target of a redirect, requested with the same cookies, passes. */
  lemma NoRedirectLoop(path: string, cookies: map<string, string>)
    ensures Guard(path, cookies).Redirect? ==> Guard(Guard(path, cookies).to, cookies) == Next
  {
    if Guard(path, cookies) == Redirect(LoginPath) {
      assert !IsProtectedRoute(LoginPath) by { assert LoginPath[1] != DashboardPath[1]; }
    } else if Guard(path, cookies) == Redirect(DashboardPath) {
      assert !IsAuthRoute(DashboardPath) by {
        assert DashboardPath[1] != LoginPath[1] && DashboardPath[1] != "/signup"[1];
      }
    }
  }

  /** Only the presence of the session cookie matters, never its value nor any other cookie. */
  lemma OnlyPresenceMatters(path: string, c1: map<string, string>, c2: map<string, string>)
    requires (SessionCookie in c1) == (SessionCookie in c2)
    ensures Guard(path, c1) == Guard(path, c2)
  {
  }
}
