/**
  The page-routing gate of proxy.ts: for each page request it either lets the
  request through or redirects it to the login page, the onboarding page or the
  dashboard, depending on the path, on whether a user is signed in, and on
  whether that user's profile says onboarding is complete.

  The signed-in user and the profile row are the results of the identity
  provider's `getUser` and of the `users` table query; they are inputs here.
*/
module Proxy {
  import opened Wrappers

  /** The response: pass the request on, or redirect to `target`. */
  datatype Response = Next | Redirect(target: string)

  /** The `users` row selected for the signed-in user (its `onboarding_completed`
      column may be null). */
  datatype Profile = Profile(onboardingCompleted: Option<bool>)

  const Login: string := "/login"
  const Onboarding: string := "/onboarding"
  const Dashboard: string := "/dashboard"

  /** The page prefixes that require a signed-in user. */
  const ProtectedPrefixes: seq<string> := ["/dashboard", "/payments", "/insights", "/updates"]

  /** The page prefixes a signed-in user is sent away from. */
  const AuthPrefixes: seq<string> := ["/login", "/signup"]

  /** JavaScript's `s.startsWith(prefix)`. */
  predicate StartsWith(s: string, prefix: string) {
    prefix <= s
  }

  /** The path falls under one of the listed prefixes. */
  predicate UnderAny(pathname: string, prefixes: seq<string>) {
    exists p :: p in prefixes && StartsWith(pathname, p)
  }

  predicate IsProtected(pathname: string) {
    UnderAny(pathname, ProtectedPrefixes)
  }

  predicate IsAuthPage(pathname: string) {
    UnderAny(pathname, AuthPrefixes)
  }

  /** `profile?.onboarding_completed` is truthy: there is a profile and its flag
      is true (a missing profile, a null flag and false all count as not
      onboarded). */
  predicate Onboarded(profile: Option<Profile>)
    ensures Onboarded(profile) <==> profile == Some(Profile(Some(true)))
  {
    profile.Some? && profile.value.onboardingCompleted == Some(true)
  }

  /** The redirect chain of `proxy`, check by check. The outcome is fully
      described by the decision table: the root and protected pages without a
      user go to the login page; protected and auth pages with a user who has
      not finished onboarding go to the onboarding page; auth pages with an
      onboarded user go to the dashboard; everything else passes. */
  function Decide(pathname: string, signedIn: bool, profile: Option<Profile>): (d: Response)
    ensures d.Next? || d.target in {Login, Onboarding, Dashboard}
    ensures d == Redirect(Login) <==> pathname == "/" || (!signedIn && IsProtected(pathname))
    ensures d == Redirect(Onboarding) <==>
              pathname != "/" && signedIn && (IsProtected(pathname) || IsAuthPage(pathname)) && !Onboarded(profile)
    ensures d == Redirect(Dashboard) <==> signedIn && IsAuthPage(pathname) && Onboarded(profile)
    ensures d.Next? <==>
              pathname != "/" &&
              (if signedIn then !IsAuthPage(pathname) && (!IsProtected(pathname) || Onboarded(profile))
               else !IsProtected(pathname))
  {
    PrefixFacts(pathname);
    if pathname == "/" then Redirect(Login)
    else if StartsWith(pathname, "/dashboard") && !signedIn then Redirect(Login)
    else if StartsWith(pathname, "/payments") && !signedIn then Redirect(Login)
    else if StartsWith(pathname, "/insights") && !signedIn then Redirect(Login)
    else if StartsWith(pathname, "/updates") && !signedIn then Redirect(Login)
    else if signedIn && (StartsWith(pathname, "/dashboard") || StartsWith(pathname, "/payments")
                         || StartsWith(pathname, "/insights") || StartsWith(pathname, "/updates"))
            && !Onboarded(profile) then Redirect(Onboarding)
    else if (StartsWith(pathname, "/login") || StartsWith(pathname, "/signup")) && signedIn then
      if !Onboarded(profile) then Redirect(Onboarding) else Redirect(Dashboard)
    else Next
  }

  /** The two prefix lists spelled out, and the fact that no path is both
      protected and an auth page, nor is "/" either. */
  lemma PrefixFacts(pathname: string)
    ensures IsProtected(pathname) <==>
              StartsWith(pathname, "/dashboard") || StartsWith(pathname, "/payments")
              || StartsWith(pathname, "/insights") || StartsWith(pathname, "/updates")
    ensures IsAuthPage(pathname) <==> StartsWith(pathname, "/login") || StartsWith(pathname, "/signup")
    ensures !(IsProtected(pathname) && IsAuthPage(pathname))
    ensures pathname == "/" ==> !IsProtected(pathname) && !IsAuthPage(pathname)
  {
    forall p, q | p in ProtectedPrefixes && q in AuthPrefixes
      ensures !(StartsWith(pathname, p) && StartsWith(pathname, q))
    {
      PrefixesApart(pathname, p, q);
    }
  }

  /** Two prefixes that differ in their second character cannot both start
      the same path. */
  lemma PrefixesApart(s: string, p: string, q: string)
    requires |p| > 1 && |q| > 1 && p[1] != q[1]
    ensures StartsWith(s, p) ==> !StartsWith(s, q)
  {
    if StartsWith(s, p) {
      assert s[1] == p[1];
    }
  }

  /** The profile row is only consulted for a signed-in user on a protected or
      auth page: everywhere else two different rows give the same outcome. */
  lemma ProfileOnlyConsultedWhenNeeded(pathname: string, signedIn: bool, a: Option<Profile>, b: Option<Profile>)
    requires !(signedIn && (IsProtected(pathname) || IsAuthPage(pathname)))
    ensures Decide(pathname, signedIn, a) == Decide(pathname, signedIn, b)
  {
    PrefixFacts(pathname);
  }

  /** Matching is a raw string prefix test, not a path-segment test: a path that
      merely begins with a listed prefix is treated like it. */
  lemma RawPrefixMatching()
    ensures Decide("/dashboardX", false, None) == Redirect(Login)
    ensures Decide("/signup-help", true, Some(Profile(Some(true)))) == Redirect(Dashboard)
    ensures Decide("/loginfo", true, None) == Redirect(Onboarding)
  {
    assert StartsWith("/dashboardX", "/dashboard");
    assert StartsWith("/signup-help", "/signup");
    assert StartsWith("/loginfo", "/login");
  }

  /** Follows redirects with the same user and profile: the page that finally
      passes, or None when it takes more than `hops` redirects. */
  function Landing(pathname: string, signedIn: bool, profile: Option<Profile>, hops: nat): (r: Option<string>)
    ensures r.Some? ==> Decide(r.value, signedIn, profile).Next?
    decreases hops
  {
    match Decide(pathname, signedIn, profile)
    case Next => Some(pathname)
    case Redirect(target) => if hops == 0 then None else Landing(target, signedIn, profile, hops - 1)
  }

  /** The three redirect targets, with the same user and profile. */
  lemma TargetsSettle(signedIn: bool, profile: Option<Profile>)
    ensures Decide(Onboarding, signedIn, profile).Next?
    ensures Decide(Dashboard, signedIn, profile) ==
              if !signedIn then Redirect(Login)
              else if Onboarded(profile) then Next else Redirect(Onboarding)
    ensures Decide(Login, signedIn, profile) ==
              if !signedIn then Next
              else if Onboarded(profile) then Redirect(Dashboard) else Redirect(Onboarding)
  {
    assert StartsWith(Dashboard, "/dashboard") && StartsWith(Login, "/login");
    PrefixFacts(Onboarding);
    forall p | p in ProtectedPrefixes + AuthPrefixes
      ensures !StartsWith(Onboarding, p)
    {
      PrefixesApart(Onboarding, Onboarding, p);
    }
  }

  /** No redirect loop: whatever the path, following the redirects with the same
      user and profile reaches a page that passes after at most two redirects,
      and two can be needed ("/" to "/login" to "/dashboard"). */
  lemma NoRedirectLoop(pathname: string, signedIn: bool, profile: Option<Profile>)
    ensures Landing(pathname, signedIn, profile, 2).Some?
    ensures Landing("/", true, Some(Profile(Some(true))), 1).None?
  {
    TargetsSettle(signedIn, profile);
    TargetsSettle(true, Some(Profile(Some(true))));
  }
}
