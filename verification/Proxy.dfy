/**
 * The proxy's decision about `Cache-Control` and `Set-Cookie`: which addresses can be answered with a
 * page, which directive a response gets, and who writes a cookie on it.
 */
module Proxy {
  import opened Outcomes
  import opened Text
  import opened CookieLines
  import opened SignedInHint
  import opened FamilyInvite

  const ANONYMOUS_PAGE_CACHE_CONTROL: string := "private, max-age=60, stale-while-revalidate=300"
  const PRIVATE_ONLY_CACHE_CONTROL: string := "private, no-cache, no-store, max-age=0, must-revalidate"

  const CACHEABLE_ANONYMOUS_PATHS: set<string> := {"/"}

  const ASSET_URL_EXTENSIONS: seq<string> := ["png", "jpg", "jpeg", "gif", "webp", "svg", "ico"]

  const NON_WEBSITE_EXACT_PATHS: set<string> := {"/robots.txt", "/sitemap.xml", "/favicon.ico"}

  const NON_WEBSITE_ROOT_SEGMENTS: set<string> := {
    "admin", "book", "bookings", "calendar", "dashboard", "induction", "lodge-instructions", "lodge-roster",
    "maintenance-report", "message-board", "nominations", "notices", "profile", "change-password", "chores",
    "confirm-email-change", "family-invite", "forgot-password", "login", "lodge-maintenance",
    "membership-cancellation", "pay", "register", "reset-password", "verify-email", "finance", "lodge", "api",
    "display", "asset-not-found"
  }

  // ---------- requests and responses ----------

  /**
   * `cookieNames` are the names the framework parsed out of the request's cookies; `inviteNonce` is a
   * copy of the proxy's own header for the render, should the client have sent one.
   */
  datatype Request = Request(
    httpMethod: string, pathname: string, cookieHeader: Option<string>, cookieNames: seq<string>,
    secFetchDest: Option<string>, inviteNonce: Option<string>
  )

  /** The headers of a response this part of the proxy touches. */
  class Response {
    var cacheControl: Option<string>
    var setCookies: seq<string>
    var vary: seq<string>

    constructor ()
      ensures cacheControl == None && setCookies == [] && vary == []
    {
      cacheControl, setCookies, vary := None, [], [];
    }
  }

  /** The headers handed to the render that this part of the proxy touches: a copy of the client's, changed in place. */
  class ForwardedHeaders {
    var cookie: Option<string>
    var inviteNonce: Option<string>

    constructor (cookie: Option<string>, inviteNonce: Option<string>)
      ensures this.cookie == cookie && this.inviteNonce == inviteNonce
    {
      this.cookie, this.inviteNonce := cookie, inviteNonce;
    }
  }

  // ---------- addresses ----------

  function NormalisePathname(pathname: string): string {
    if |pathname| > 1 && pathname[|pathname| - 1] == '/' then pathname[..|pathname| - 1] else pathname
  }

  predicate IsApiHandlerPath(path: string) {
    path == "/api" || "/api/" <= path
  }

  /** Case is ignored for ASCII letters only, as a regular expression without the `u` flag ignores it. */
  function Lower(s: string): (t: string)
    ensures |t| == |s|
  {
    if s == [] then [] else [if 'A' <= s[0] <= 'Z' then (s[0] as int + 32) as char else s[0]] + Lower(s[1..])
  }

  predicate IsApiInAnyCase(path: string) {
    |path| >= 4 && Lower(path[..4]) == "/api" && (|path| == 4 || path[4] == '/')
  }

  predicate EndsInAnyCase(path: string, ending: string) {
    |path| >= |ending| && Lower(path[|path| - |ending|..]) == ending
  }

  predicate IsAssetShaped(path: string) {
    exists i :: 0 <= i < |ASSET_URL_EXTENSIONS| && EndsInAnyCase(path, "." + ASSET_URL_EXTENSIONS[i])
  }

  predicate IsPageShapedPath(path: string) {
    !IsApiHandlerPath(path) && (IsApiInAnyCase(path) || !IsAssetShaped(path))
  }

  predicate IsPublicWebsitePath(pathname: string) {
    var path := NormalisePathname(pathname);
    "/" <= path
    && (path == "/"
        || (&& path !in NON_WEBSITE_EXACT_PATHS
            && !IsAssetShaped(path)
            && !("_" <= RootSegment(path))
            && RootSegment(path) !in NON_WEBSITE_ROOT_SEGMENTS))
  }

  function RootSegment(path: string): string {
    var segments := Split(path, '/');
    if |segments| > 1 then segments[1] else ""
  }

  /** A website address can never be an `/api` handler's or asset-shaped: the proxy does not ask again. */
  lemma PublicWebsiteIsPageShaped(pathname: string)
    requires IsPublicWebsitePath(pathname)
    ensures IsPageShapedPath(NormalisePathname(pathname))
  {
    var path := NormalisePathname(pathname);
    if path == "/" {
      RootIsPageShaped();
    } else if IsApiHandlerPath(path) {
      RootSegmentOf("api", path);
    }
  }

  lemma RootIsPageShaped()
    ensures IsPageShapedPath("/") && NormalisePathname("/") == "/"
  {
  }

  lemma RootSegmentOf(root: string, path: string)
    requires '/' !in root
    requires path == "/" + root || "/" + root + "/" <= path
    ensures RootSegment(path) == root
  {
    if path == "/" + root {
      assert path == [] + ['/'] + root;
      SplitOfHead([], '/', root);
      SplitOfWhole(root, '/');
    } else {
      var tail := path[|root| + 2..];
      assert path == [] + ['/'] + (root + ['/'] + tail);
      SplitOfHead([], '/', root + ['/'] + tail);
      SplitOfHead(root, '/', tail);
    }
  }

  // ---------- the session cookie ----------

  predicate IsSessionCookieName(name: string) {
    var rest := if "__Secure-" <= name then name[|"__Secure-"|..] else name;
    IsTokenName(rest, "authjs.session-token") || IsTokenName(rest, "next-auth.session-token")
  }

  /** The name itself, or one of its numbered chunks. */
  predicate IsTokenName(name: string, token: string) {
    token <= name
    && (name == token || (|name| > |token| + 1 && name[|token|] == '.' && AllDigits(name[|token| + 1..])))
  }

  predicate HasSessionCookie(request: Request) {
    exists i :: 0 <= i < |request.cookieNames| && IsSessionCookieName(request.cookieNames[i])
  }

  // ---------- cache directives ----------

  function GetAnonymousPageCacheControl(request: Request): Option<string> {
    if request.httpMethod != "GET" then None
    else if NormalisePathname(request.pathname) !in CACHEABLE_ANONYMOUS_PATHS then None
    else if HasSessionCookie(request) then None
    else Some(ANONYMOUS_PAGE_CACHE_CONTROL)
  }

  predicate GetPrivateOnlyCacheControl(request: Request, publicWebsite: bool) {
    var path := NormalisePathname(request.pathname);
    request.httpMethod in {"GET", "HEAD"}
    && if path in CACHEABLE_ANONYMOUS_PATHS then GetAnonymousPageCacheControl(request) == None
       else publicWebsite || IsPageShapedPath(path)
  }

  /** The directive of a response that is passed through to the application, if any. */
  function PassThroughDirective(request: Request): Option<string> {
    if GetAnonymousPageCacheControl(request).Some? then GetAnonymousPageCacheControl(request)
    else if GetPrivateOnlyCacheControl(request, IsPublicWebsitePath(request.pathname)) then Some(PRIVATE_ONLY_CACHE_CONTROL)
    else None
  }

  predicate IsPageGet(request: Request) {
    request.httpMethod == "GET" && IsPageShapedPath(NormalisePathname(request.pathname))
  }

  /**
   * The two cache functions cover every page-shaped GET and HEAD between them, and nothing else; the
   * anonymous directive goes to a GET of `/` without a session cookie and to nothing else.
   */
  lemma DirectiveExact(request: Request)
    ensures var page := IsPageShapedPath(NormalisePathname(request.pathname));
            var anonymousHome :=
              request.httpMethod == "GET" && NormalisePathname(request.pathname) == "/" && !HasSessionCookie(request);
            && (PassThroughDirective(request) == Some(ANONYMOUS_PAGE_CACHE_CONTROL) <==> anonymousHome)
            && (PassThroughDirective(request) == Some(PRIVATE_ONLY_CACHE_CONTROL) <==>
                  request.httpMethod in {"GET", "HEAD"} && page && !anonymousHome)
            && (PassThroughDirective(request) == None <==> !(request.httpMethod in {"GET", "HEAD"} && page))
  {
    hide IsPageShapedPath, IsPublicWebsitePath, HasSessionCookie;
    RootIsPageShaped();
    if IsPublicWebsitePath(request.pathname) {
      PublicWebsiteIsPageShaped(request.pathname);
    }
    DirectivesDiffer();
  }

  lemma DirectivesDiffer()
    ensures ANONYMOUS_PAGE_CACHE_CONTROL != PRIVATE_ONLY_CACHE_CONTROL
  {
    assert |ANONYMOUS_PAGE_CACHE_CONTROL| != |PRIVATE_ONLY_CACHE_CONTROL|;
  }

  // ---------- cookies ----------

  const SIGNED_IN_HINT_MAX_AGE_SECONDS: nat := 60 * 60 * 24 * 30

  /** What `syncSignedInHint` appends, if anything. */
  function HintWrite(request: Request, production: bool): Option<string> {
    var signedIn := HasSessionCookie(request);
    if !IsPageGet(request) || HasSignedInHint(request.cookieHeader) == signedIn then None
    else Some(Serialise(SIGNED_IN_HINT_COOKIE, if signedIn then SIGNED_IN_HINT_VALUE else "",
                        if signedIn then SIGNED_IN_HINT_MAX_AGE_SECONDS else 0, false, production))
  }

  /** The plan for a request, as the proxy assembles its facts. */
  function PlanFor(request: Request, nonce: string, production: bool): Option<InvitePlan> {
    var path := NormalisePathname(request.pathname);
    PlanFamilyInviteReturnAddress(request.httpMethod, if IsPageShapedPath(path) then Some(path) else None,
                                  HasSessionCookie(request), request.secFetchDest, nonce, production)
  }

  /** The cookies of a response that is passed through, in the order they are appended. */
  function PassThroughCookies(request: Request, nonce: string, production: bool): seq<string> {
    var hint, plan := HintWrite(request, production), PlanFor(request, nonce, production);
    (if hint.Some? then [hint.value] else []) + (if plan.Some? then [plan.value.setCookie] else [])
  }

  /**
   * The proxy never writes a cookie next to a directive it has left to another layer: whenever it
   * writes one it has written one of its two private directives as well, and next to the invitation's
   * always the private-only one.
   */
  lemma CookieOnlyOnPrivate(request: Request, nonce: string, production: bool)
    requires PassThroughCookies(request, nonce, production) != []
    ensures IsPageGet(request)
    ensures PassThroughDirective(request) == Some(ANONYMOUS_PAGE_CACHE_CONTROL)
         || PassThroughDirective(request) == Some(PRIVATE_ONLY_CACHE_CONTROL)
    ensures PassThroughDirective(request) == Some(ANONYMOUS_PAGE_CACHE_CONTROL) <==>
              NormalisePathname(request.pathname) == "/" && !HasSessionCookie(request)
    ensures PlanFor(request, nonce, production).Some? ==>
              !IsPublicWebsitePath(request.pathname) && PassThroughDirective(request) == Some(PRIVATE_ONLY_CACHE_CONTROL)
  {
    hide IsPageShapedPath, IsPublicWebsitePath, HasSessionCookie, PassThroughDirective, HasSignedInHint, Serialise;
    DirectiveExact(request);
    if PlanFor(request, nonce, production).Some? {
      InviteIsNoWebsite(request.pathname);
    }
  }

  /** The one address of the invitation cookie is page-shaped by its form, and no website address. */
  lemma InviteIsNoWebsite(pathname: string)
    requires IsInvitePath(NormalisePathname(pathname))
    ensures IsPageShapedPath(NormalisePathname(pathname)) && !IsPublicWebsitePath(pathname)
    ensures NormalisePathname(pathname) != "/"
  {
    hide IsAssetShaped, NON_WEBSITE_EXACT_PATHS, ASSET_URL_EXTENSIONS;
    var path := NormalisePathname(pathname);
    assert path[1] == 'f';
    assert !IsAssetShaped(path) by { HexIsNoAsset(path); }
    assert "/" + "family-invite" + "/" == FAMILY_INVITE_PREFIX;
    RootSegmentOf("family-invite", path);
  }

  /** Sixty-four hexadecimal digits at the end leave no room for an extension. */
  lemma HexIsNoAsset(path: string)
    requires IsInvitePath(path)
    ensures !IsAssetShaped(path)
  {
    hide IsHex, Lower, FAMILY_INVITE_PREFIX;
    forall i | 0 <= i < |ASSET_URL_EXTENSIONS| ensures !EndsInAnyCase(path, "." + ASSET_URL_EXTENSIONS[i]) {
      assert 0 < |ASSET_URL_EXTENSIONS[i]| <= 4;
      HexEndsInNoDot(path, "." + ASSET_URL_EXTENSIONS[i]);
    }
  }

  lemma HexEndsInNoDot(path: string, ending: string)
    requires IsInvitePath(path) && 1 < |ending| <= 5 && ending[0] == '.'
    ensures !EndsInAnyCase(path, ending)
  {
    hide Lower;
    var tail := path[|path| - |ending|..];
    assert tail[0] == path[|FAMILY_INVITE_PREFIX|..][64 - |ending|];
    LowerOfDot(tail);
  }

  lemma LowerOfDot(s: string)
    requires s != ""
    ensures Lower(s)[0] == '.' <==> s[0] == '.'
  {
  }

  /** A plan that hands a nonce to the render writes the cookie with that nonce and the request's own path. */
  lemma PlannedNonce(request: Request, nonce: string, production: bool)
    requires PlanFor(request, nonce, production).Some? && PlanFor(request, nonce, production).value.nonce.Some?
    ensures var plan := PlanFor(request, nonce, production).value;
            && plan.nonce == Some(nonce) && IsNonce(nonce) && !HasSessionCookie(request)
            && plan.setCookie == InviteLine(nonce + "." + NormalisePathname(request.pathname),
                                            FAMILY_INVITE_RETURN_MAX_AGE_SECONDS, production)
  {
    hide IsPageShapedPath, HasSessionCookie, IsHex, Serialise;
  }

  // ---------- the header writers ----------

  method SyncSignedInHint(request: Request, response: Response, signedIn: bool, production: bool)
    requires signedIn == HasSessionCookie(request)
    modifies response`setCookies
    ensures response.setCookies ==
              old(response.setCookies)
              + if HintWrite(request, production).Some? then [HintWrite(request, production).value] else []
  {
    if request.httpMethod != "GET" {
      return;
    }
    if !IsPageShapedPath(NormalisePathname(request.pathname)) {
      return;
    }
    var hintPresent := HasSignedInHint(request.cookieHeader);
    if hintPresent == signedIn {
      return;
    }
    response.setCookies := response.setCookies
      + [Serialise(SIGNED_IN_HINT_COOKIE, if signedIn then SIGNED_IN_HINT_VALUE else "",
                   if signedIn then SIGNED_IN_HINT_MAX_AGE_SECONDS else 0, false, production)];
  }

  method SyncFamilyInviteReturnAddress(response: Response, plan: Option<InvitePlan>)
    modifies response`setCookies
    ensures response.setCookies == old(response.setCookies) + if plan.Some? then [plan.value.setCookie] else []
  {
    if plan.Some? {
      response.setCookies := response.setCookies + [plan.value.setCookie];
    }
  }

  /** A client's own copy of the nonce never reaches the render; a freshly minted one does. */
  method SetFamilyInviteReturnNonceHeader(forwarded: ForwardedHeaders, plan: Option<InvitePlan>)
    modifies forwarded`inviteNonce
    ensures forwarded.inviteNonce == if plan.Some? then plan.value.nonce else None
  {
    forwarded.inviteNonce := None;
    if plan.Some? && plan.value.nonce.Some? {
      forwarded.inviteNonce := plan.value.nonce;
    }
  }

  /** For a response the proxy itself returns; a directive already chosen stays. */
  method ApplyPrivateOnlyCacheControl(request: Request, response: Response)
    modifies response`cacheControl
    ensures old(response.cacheControl).Some? ==> response.cacheControl == old(response.cacheControl)
    ensures var path := NormalisePathname(request.pathname);
            old(response.cacheControl) == None ==>
              response.cacheControl ==
              if request.httpMethod in {"GET", "HEAD"} && path != "/api" && !("/api/" <= path)
              then Some(PRIVATE_ONLY_CACHE_CONTROL) else None
  {
    if response.cacheControl.Some? {
      return;
    }
    if request.httpMethod != "GET" && request.httpMethod != "HEAD" {
      return;
    }
    if IsApiHandlerPath(NormalisePathname(request.pathname)) {
      return;
    }
    response.cacheControl := Some(PRIVATE_ONLY_CACHE_CONTROL);
  }

  /**
   * `setupInProgress` and `moduleBlock` are the responses of the setup gate and of the module gate,
   * or null where the gate lets the request through.
   */
  method HandleRequest(
    request: Request, setupInProgress: Response?, moduleBlock: Response?, nonce: string, production: bool
  ) returns (response: Response, forwarded: ForwardedHeaders?)
    modifies setupInProgress, moduleBlock
    ensures setupInProgress != null ==> response == setupInProgress
    ensures setupInProgress == null && moduleBlock != null ==> response == moduleBlock
    ensures setupInProgress == null && moduleBlock == null ==>
              && fresh(response)
              && response.setCookies == PassThroughCookies(request, nonce, production)
              && response.cacheControl == PassThroughDirective(request)
              && response.vary == (if response.cacheControl == Some(ANONYMOUS_PAGE_CACHE_CONTROL) then ["Cookie"] else [])
    // No cookie without one of the two private directives next to it.
    ensures setupInProgress == null && moduleBlock == null && response.setCookies != [] ==>
              response.cacheControl in {Some(ANONYMOUS_PAGE_CACHE_CONTROL), Some(PRIVATE_ONLY_CACHE_CONTROL)}
    // The render never sees the marker, and is handed a nonce only with the cookie it matches.
    ensures setupInProgress == null && moduleBlock == null ==>
              && forwarded != null && fresh(forwarded)
              && forwarded.cookie == StripSignedInHint(request.cookieHeader) && !HasSignedInHint(forwarded.cookie)
              && (forwarded.inviteNonce.Some? ==>
                    && forwarded.inviteNonce == Some(nonce) && IsNonce(nonce) && response.setCookies != []
                    && response.setCookies[|response.setCookies| - 1]
                       == InviteLine(nonce + "." + NormalisePathname(request.pathname),
                                     FAMILY_INVITE_RETURN_MAX_AGE_SECONDS, production))
    // On a response of its own the proxy writes no cookie, and no directive over one already there.
    ensures setupInProgress != null || moduleBlock != null ==>
              var own := if setupInProgress != null then setupInProgress else moduleBlock;
              && response.setCookies == old(own.setCookies) && response.vary == old(own.vary)
              && (old(own.cacheControl).Some? ==> response.cacheControl == old(own.cacheControl))
              && var path := NormalisePathname(request.pathname);
              request.httpMethod in {"GET", "HEAD"} && path != "/api" && !("/api/" <= path) ==> response.cacheControl.Some?
  {
    hide IsPublicWebsitePath, IsPageShapedPath, HintWrite, PlanFor, HasSessionCookie, NormalisePathname, IsApiHandlerPath,
      StripSignedInHint, HasSignedInHint, IsHex, InviteLine, IsNonce, GetPrivateOnlyCacheControl;
    if setupInProgress != null {
      ApplyPrivateOnlyCacheControl(request, setupInProgress);
      return setupInProgress, null;
    }
    if moduleBlock != null {
      ApplyPrivateOnlyCacheControl(request, moduleBlock);
      return moduleBlock, null;
    }
    var plan := PlanFor(request, nonce, production);
    forwarded := new ForwardedHeaders(request.cookieHeader, request.inviteNonce);
    var forwardedCookies := StripSignedInHint(request.cookieHeader);
    forwarded.cookie := forwardedCookies;
    StripReadsTheSame(request.cookieHeader, SIGNED_IN_HINT_COOKIE);
    SetFamilyInviteReturnNonceHeader(forwarded, plan);
    response := new Response();
    SyncSignedInHint(request, response, HasSessionCookie(request), production);
    SyncFamilyInviteReturnAddress(response, plan);
    var anonymousCacheControl := GetAnonymousPageCacheControl(request);
    if anonymousCacheControl.Some? {
      response.cacheControl := anonymousCacheControl;
      response.vary := response.vary + ["Cookie"];
    } else if GetPrivateOnlyCacheControl(request, IsPublicWebsitePath(request.pathname)) {
      response.cacheControl := Some(PRIVATE_ONLY_CACHE_CONTROL);
    }
    DirectivesDiffer();
    if PassThroughCookies(request, nonce, production) != [] {
      CookieOnlyOnPrivate(request, nonce, production);
    }
    if plan.Some? && plan.value.nonce.Some? {
      PlannedNonce(request, nonce, production);
    }
  }
}
