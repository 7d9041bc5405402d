/** The admin route guard (`middleware`, middleware.ts:3-26): redirect to the
    login page, redirect to the dashboard, or let the request through,
    decided from the request's pathname and the `admin_session` cookie. */
module Middleware {
  import opened Wrappers
  import opened Strings

  const LoginPath := "/admin/login"
  const DashboardPath := "/admin"

  /** `NextResponse.next()` or `NextResponse.redirect` to a URL that differs
      from the request's only in its pathname. */
  datatype Response = Pass | Redirect(pathname: string)

  /** The session counts as authenticated only for the exact cookie value
      "authenticated"; a missing cookie does not. */
  predicate IsAuthenticated(cookie: Option<string>)
  {
    cookie == Some("authenticated")
  }

  /** The middleware's decision for a pathname and the cookie's value. */
  function Decide(pathname: string, cookie: Option<string>): Response
  {
    if StartsWith(pathname, "/admin") && !StartsWith(pathname, LoginPath) && !IsAuthenticated(cookie) then
      Redirect(LoginPath)
    else if pathname == LoginPath && IsAuthenticated(cookie) then
      Redirect(DashboardPath)
    else
      Pass
  }

  lemma StartsWithSelf(s: string)
    ensures StartsWith(s, s)
  {
    assert s[..|s|] == s;
  }

  /** The three outcomes, each with exactly the inputs that produce it. */
  lemma DecideCases(pathname: string, cookie: Option<string>)
    ensures Decide(pathname, cookie) == Redirect(LoginPath) <==>
      StartsWith(pathname, "/admin") && !StartsWith(pathname, LoginPath) && !IsAuthenticated(cookie)
    ensures Decide(pathname, cookie) == Redirect(DashboardPath) <==>
      pathname == LoginPath && IsAuthenticated(cookie)
    ensures Decide(pathname, cookie) == Pass <==>
      !(StartsWith(pathname, "/admin") && !StartsWith(pathname, LoginPath) && !IsAuthenticated(cookie))
      && !(pathname == LoginPath && IsAuthenticated(cookie))
  {
    if pathname == LoginPath {
      StartsWithSelf(LoginPath);
    }
  }

  /** A redirect never targets the requested path, and the request it leads
      to (with the same cookie) passes: there is no redirect loop. */
  lemma NoRedirectLoop(pathname: string, cookie: Option<string>)
    requires Decide(pathname, cookie).Redirect?
    ensures Decide(pathname, cookie).pathname != pathname
    ensures Decide(Decide(pathname, cookie).pathname, cookie) == Pass
  {
    StartsWithSelf(LoginPath);
    if Decide(pathname, cookie) == Redirect(LoginPath) {
      assert pathname != LoginPath;
    }
  }

  /** Every path that merely starts with "/admin" is guarded, such as
      "/administrator"; a near-miss cookie value does not authenticate. */
  lemma GuardExamples()
    ensures Decide("/administrator", None) == Redirect(LoginPath)
    ensures Decide("/admin/books", Some("Authenticated")) == Redirect(LoginPath)
    ensures Decide("/admin/books", Some("authenticated")) == Pass
  {
    assert "/administrator"[..6] == "/admin";
    assert "/admin/books"[..6] == "/admin";
    assert "/admin/books"[..12][7] != LoginPath[7];
  }

  /** The login page: an authenticated visit to exactly "/admin/login" goes to
      the dashboard, an unauthenticated one passes, and a deeper login path
      passes even when authenticated. */
  lemma LoginExamples(cookie: Option<string>)
    ensures IsAuthenticated(cookie) ==> Decide(LoginPath, cookie) == Redirect(DashboardPath)
    ensures !IsAuthenticated(cookie) ==> Decide(LoginPath, cookie) == Pass
    ensures Decide("/admin/login/reset", cookie) == Pass || !IsAuthenticated(cookie)
  {
    StartsWithSelf(LoginPath);
    assert "/admin/login/reset"[..12] == LoginPath;
  }
}
