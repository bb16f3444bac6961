/**
 * What an address alone decides: the proxy's directive and cookies, told from the characters of the
 * path, the names of the cookies and the method, without the predicates the proxy asks.
 */
module Addresses {
  import opened Outcomes
  import opened Text
  import opened CookieLines
  import opened SignedInHint
  import opened FamilyInvite
  import opened Proxy

  // ---------- the characters of an address ----------

  /** `word`, each of its letters in either case. */
  predicate Spells(s: string, word: string) {
    |s| == |word|
    && forall i :: 0 <= i < |s| ==> s[i] == word[i] || ('a' <= word[i] <= 'z' && s[i] as int + 32 == word[i] as int)
  }

  predicate IsImageExtension(e: string) {
    Spells(e, "png") || Spells(e, "jpg") || Spells(e, "jpeg") || Spells(e, "gif")
    || Spells(e, "webp") || Spells(e, "svg") || Spells(e, "ico")
  }

  /** A dot and one of the seven image extensions at the end. */
  predicate IsImage(path: string) {
    exists dot :: 0 <= dot < |path| && path[dot] == '.' && IsImageExtension(path[dot + 1..])
  }

  /** The namespace handlers answer. */
  predicate IsHandlers(path: string) {
    path == "/api" || "/api/" <= path
  }

  /** The same in any letter case, which no rewrite claims. */
  ghost predicate LooksLikeHandlers(path: string) {
    exists root: string, rest: string :: path == root + rest && Spells(root, "/api") && (rest == "" || rest[0] == '/')
  }

  /** The addresses only a page can answer. */
  ghost predicate IsDocument(path: string) {
    !IsHandlers(path) && (LooksLikeHandlers(path) || !IsImage(path))
  }

  /** An address with or without one slash at its end, unless it is that slash. */
  predicate Names(pathname: string, path: string) {
    if |pathname| > 1 && pathname[|pathname| - 1] == '/' then pathname == path + "/" else pathname == path
  }

  /** No chunk number, or a dot and digits. */
  predicate IsChunk(chunk: string) {
    chunk == "" || (|chunk| > 1 && chunk[0] == '.' && AllDigits(chunk[1..]))
  }

  ghost predicate IsSessionCookie(name: string) {
    exists chunk: string :: IsChunk(chunk)
      && (|| name == "authjs.session-token" + chunk || name == "__Secure-authjs.session-token" + chunk
          || name == "next-auth.session-token" + chunk || name == "__Secure-next-auth.session-token" + chunk)
  }

  ghost predicate IsSignedIn(request: Request) {
    exists name :: name in request.cookieNames && IsSessionCookie(name)
  }

  /** An invitation: sixty-four hexadecimal digits under their one prefix. */
  ghost predicate IsInvitation(path: string) {
    exists token: string :: path == "/family-invite/" + token && IsHexOf(token, 64)
  }

  predicate IsHexOf(s: string, digits: nat) {
    |s| == digits && forall i :: 0 <= i < |s| ==> s[i] in "0123456789abcdef"
  }

  // ---------- the proxy's predicates, read off the characters ----------

  predicate IsLowerCase(word: string) {
    forall i :: 0 <= i < |word| ==> !('A' <= word[i] <= 'Z')
  }

  lemma {:induction false} LowerSpells(s: string, word: string)
    requires IsLowerCase(word)
    ensures Lower(s) == word <==> Spells(s, word)
  {
    if s != [] && word != [] {
      LowerSpells(s[1..], word[1..]);
      assert word == [word[0]] + word[1..];
      assert forall i :: 0 <= i < |s| - 1 ==> s[1..][i] == s[i + 1];
    }
  }

  predicate EndsSpelling(path: string, e: string) {
    exists dot :: 0 <= dot < |path| && path[dot] == '.' && Spells(path[dot + 1..], e)
  }

  lemma EndsExactly(path: string, e: string)
    requires IsLowerCase(e)
    ensures EndsInAnyCase(path, "." + e) <==> EndsSpelling(path, e)
  {
    hide Lower;
    var n := |path| - |e| - 1;
    if n >= 0 {
      LowerSpells(path[n..], "." + e);
      assert path[n..] == [path[n]] + path[n + 1..];
      assert Spells(path[n..], "." + e) <==> path[n] == '.' && Spells(path[n + 1..], e) by {
        assert forall i :: 0 <= i < |e| ==> path[n..][i + 1] == path[n + 1..][i] && ("." + e)[i + 1] == e[i];
      }
    }
  }

  lemma ImageExact(path: string)
    ensures IsAssetShaped(path) <==> IsImage(path)
  {
    hide EndsInAnyCase, EndsSpelling, IsAssetShaped, IsImage, Spells;
    EndsExactly(path, "png");
    EndsExactly(path, "jpg");
    EndsExactly(path, "jpeg");
    EndsExactly(path, "gif");
    EndsExactly(path, "webp");
    EndsExactly(path, "svg");
    EndsExactly(path, "ico");
    AssetByCases(path);
    ImageByCases(path);
  }

  lemma ImageByCases(path: string)
    ensures IsImage(path) <==>
              || EndsSpelling(path, "png") || EndsSpelling(path, "jpg") || EndsSpelling(path, "jpeg")
              || EndsSpelling(path, "gif") || EndsSpelling(path, "webp") || EndsSpelling(path, "svg")
              || EndsSpelling(path, "ico")
  {
    hide Spells;
  }

  lemma AssetByCases(path: string)
    ensures IsAssetShaped(path) <==>
              || EndsInAnyCase(path, "." + "png") || EndsInAnyCase(path, "." + "jpg")
              || EndsInAnyCase(path, "." + "jpeg") || EndsInAnyCase(path, "." + "gif")
              || EndsInAnyCase(path, "." + "webp") || EndsInAnyCase(path, "." + "svg")
              || EndsInAnyCase(path, "." + "ico")
  {
    hide EndsInAnyCase;
    var e := ASSET_URL_EXTENSIONS;
    assert e[0] == "png" && e[1] == "jpg" && e[2] == "jpeg" && e[3] == "gif";
    assert e[4] == "webp" && e[5] == "svg" && e[6] == "ico";
  }

  lemma LooksExact(path: string)
    ensures IsApiInAnyCase(path) <==> LooksLikeHandlers(path)
  {
    hide Lower;
    if |path| >= 4 {
      LowerSpells(path[..4], "/api");
      assert path == path[..4] + path[4..];
    }
    if root: string, rest: string :| path == root + rest && Spells(root, "/api") && (rest == "" || rest[0] == '/') {
      assert path[..4] == root;
    }
  }

  lemma DocumentExact(path: string)
    ensures IsPageShapedPath(path) <==> IsDocument(path)
  {
    hide IsAssetShaped, IsApiInAnyCase, IsImage, LooksLikeHandlers;
    ImageExact(path);
    LooksExact(path);
  }

  lemma NormaliseExact(pathname: string, path: string)
    ensures NormalisePathname(pathname) == path <==> Names(pathname, path)
  {
  }

  lemma TokenNameExact(name: string, token: string)
    ensures IsTokenName(name, token) <==> exists chunk: string :: IsChunk(chunk) && name == token + chunk
  {
    hide AllDigits;
    if token <= name {
      var chunk := name[|token|..];
      assert name == token + chunk;
      assert chunk != "" ==> chunk[1..] == name[|token| + 1..];
    }
  }

  lemma WithoutSecure(name: string, token: string, chunk: string)
    requires token != "" && token[0] != '_'
    ensures var rest := if "__Secure-" <= name then name[|"__Secure-"|..] else name;
            rest == token + chunk <==> name == token + chunk || name == "__Secure-" + token + chunk
  {
    var prefix := "__Secure-";
    assert (token + chunk)[0] == token[0];
    assert prefix + token + chunk == prefix + (token + chunk);
    if prefix <= name {
      var rest := name[|prefix|..];
      assert name == prefix + rest && name[0] == '_';
      assert name == prefix + (token + chunk) ==> rest == token + chunk;
    }
  }

  lemma SessionCookieExact(name: string)
    ensures IsSessionCookieName(name) <==> IsSessionCookie(name)
  {
    hide AllDigits, IsTokenName, IsChunk;
    var rest := if "__Secure-" <= name then name[|"__Secure-"|..] else name;
    var authjs, nextAuth := "authjs.session-token", "next-auth.session-token";
    TokenNameExact(rest, authjs);
    TokenNameExact(rest, nextAuth);
    assert "__Secure-" + authjs == "__Secure-authjs.session-token";
    assert "__Secure-" + nextAuth == "__Secure-next-auth.session-token";
    forall chunk: string ensures
      rest == authjs + chunk || rest == nextAuth + chunk <==>
        || name == "authjs.session-token" + chunk || name == "__Secure-authjs.session-token" + chunk
        || name == "next-auth.session-token" + chunk || name == "__Secure-next-auth.session-token" + chunk
    {
      WithoutSecure(name, authjs, chunk);
      WithoutSecure(name, nextAuth, chunk);
    }
  }

  lemma SignedInExact(request: Request)
    ensures HasSessionCookie(request) <==> IsSignedIn(request)
  {
    hide IsSessionCookie, IsSessionCookieName;
    forall name ensures IsSessionCookieName(name) <==> IsSessionCookie(name) {
      SessionCookieExact(name);
    }
  }

  lemma InvitationExact(path: string)
    ensures IsInvitePath(path) <==> IsInvitation(path)
  {
    hide IsHex, IsHexOf;
    if IsInvitePath(path) {
      var token := path[15..];
      assert path == "/family-invite/" + token;
      HexExact(token, 64);
    }
    if token: string :| path == "/family-invite/" + token && IsHexOf(token, 64) {
      assert path[15..] == token;
      HexExact(token, 64);
    }
  }

  lemma HexExact(s: string, digits: nat)
    ensures IsHexOf(s, digits) <==> |s| == digits && IsHex(s)
  {
    forall i | 0 <= i < |s| ensures s[i] in "0123456789abcdef" <==> '0' <= s[i] <= '9' || 'a' <= s[i] <= 'f' {
      HexCharacter(s[i]);
    }
  }

  lemma HexCharacter(c: char)
    ensures c in "0123456789abcdef" <==> '0' <= c <= '9' || 'a' <= c <= 'f'
  {
    var digits := "0123456789abcdef";
    if '0' <= c <= '9' {
      assert digits[c as int - '0' as int] == c;
    } else if 'a' <= c <= 'f' {
      assert digits[10 + c as int - 'a' as int] == c;
    }
  }

  // ---------- what an address gets ----------

  /**
   * The directive of a response passed through. A GET of `/` without a session cookie gets the
   * anonymous one; every other GET or HEAD of an address only a page can answer gets the private-only
   * one, an image address under `/API` in any other case among them; handlers, images outside that and
   * every other method get none.
   */
  lemma DirectiveByAddress(request: Request, path: string)
    requires Names(request.pathname, path)
    ensures var asked := request.httpMethod == "GET" || request.httpMethod == "HEAD";
            var anonymousHome := request.httpMethod == "GET" && path == "/" && !IsSignedIn(request);
            PassThroughDirective(request) ==
              if anonymousHome then Some("private, max-age=60, stale-while-revalidate=300")
              else if asked && IsDocument(path) then Some("private, no-cache, no-store, max-age=0, must-revalidate")
              else None
  {
    hide IsPageShapedPath, IsDocument, HasSessionCookie, IsSignedIn, PassThroughDirective, NormalisePathname, Names;
    DirectiveExact(request);
    NormaliseExact(request.pathname, path);
    DocumentExact(path);
    SignedInExact(request);
  }

  /**
   * The marker's cookie: on a GET of an address only a page can answer, when the marker and the session
   * disagree, and then with the session's state, for the whole site and never `HttpOnly`.
   */
  lemma HintByAddress(request: Request, path: string, production: bool)
    requires Names(request.pathname, path)
    ensures var signedIn := IsSignedIn(request);
            var write := HintWrite(request, production);
            && (write.Some? <==>
                  request.httpMethod == "GET" && IsDocument(path) && HasSignedInHint(request.cookieHeader) != signedIn)
            && (write.Some? ==>
                  && Split(write.value, ';')[0] == (if signedIn then "signed-in-hint=1" else "signed-in-hint=")
                  && forall a :: HasAttribute(write.value, a) <==>
                       || a == "Path=/" || a == "SameSite=Lax" || (a == "Secure" && production)
                       || a == (if signedIn then "Max-Age=" + Decimal(2_592_000) else "Max-Age=" + Decimal(0)))
  {
    hide IsPageShapedPath, IsDocument, HasSessionCookie, IsSignedIn, NormalisePathname, Names, Serialise, HasAttribute,
      HasSignedInHint, Split, Decimal;
    NormaliseExact(request.pathname, path);
    DocumentExact(path);
    SignedInExact(request);
    var value, maxAge := if IsSignedIn(request) then "1" else "", if IsSignedIn(request) then 2_592_000 else 0;
    LineParts("signed-in-hint", value, maxAge, false, production);
    AttributesExact("signed-in-hint", value, maxAge, false, production);
  }

  /**
   * The invitation's cookie: on a GET of an invitation, removed for a visitor with a session, and written
   * for one without who opens it as a document, with the nonce the render is handed; always `HttpOnly`.
   */
  lemma InvitationByAddress(request: Request, path: string, nonce: string, production: bool)
    requires Names(request.pathname, path)
    ensures var signedIn := IsSignedIn(request);
            var plan := PlanFor(request, nonce, production);
            var wanted := signedIn || (request.secFetchDest == Some("document") && IsHexOf(nonce, 32));
            && (plan.Some? <==> request.httpMethod == "GET" && IsInvitation(path) && wanted)
            && (plan.Some? ==>
                  && plan.value.nonce == (if signedIn then None else Some(nonce))
                  && Split(plan.value.setCookie, ';')[0]
                     == "family-invite-return=" + (if signedIn then "" else nonce + "." + path)
                  && forall a :: HasAttribute(plan.value.setCookie, a) <==>
                       || a == "Path=/" || a == "SameSite=Lax" || a == "HttpOnly" || (a == "Secure" && production)
                       || a == (if signedIn then "Max-Age=" + Decimal(0) else "Max-Age=" + Decimal(120)))
  {
    hide IsPageShapedPath, HasSessionCookie, IsSignedIn, NormalisePathname, Names, Serialise, HasAttribute, Split,
      Decimal, IsInvitation, IsInvitePath, IsHex, IsHexOf, Trim;
    NormaliseExact(request.pathname, path);
    SignedInExact(request);
    InvitationExact(path);
    assert IsNonce(nonce) <==> IsHexOf(nonce, 32) by { HexExact(nonce, 32); }
    if IsInvitePath(path) {
      InviteIsNoWebsite(request.pathname);
      var signedIn := IsSignedIn(request);
      if !signedIn && IsNonce(nonce) {
        AddressIsPlain(nonce, path);
      }
      if signedIn || IsNonce(nonce) {
        var value, maxAge := if signedIn then "" else nonce + "." + path, if signedIn then 0 else 120;
        LineParts("family-invite-return", value, maxAge, true, production);
        AttributesExact("family-invite-return", value, maxAge, true, production);
      }
    }
  }

  /** An image outside the handlers' namespace in any case gets no directive and no cookie, whatever the request. */
  lemma ImagesAreLeftAlone(request: Request, stem: string, e: string, nonce: string, production: bool)
    requires Names(request.pathname, stem + "." + e) && IsImageExtension(e) && !LooksLikeHandlers(stem + "." + e)
    ensures PassThroughDirective(request) == None && PassThroughCookies(request, nonce, production) == []
  {
    hide IsImageExtension, LooksLikeHandlers, IsSignedIn, PassThroughDirective, PassThroughCookies, IsPageShapedPath,
      Names, NormalisePathname, IsPublicWebsitePath, HasSessionCookie;
    var path := stem + "." + e;
    assert path[|stem|] == '.' && path[|stem| + 1..] == e && |path| > 1 by { ExtensionIsLong(e); }
    DirectiveByAddress(request, path);
    NormaliseExact(request.pathname, path);
    DocumentExact(path);
    if PassThroughCookies(request, nonce, production) != [] {
      CookieOnlyOnPrivate(request, nonce, production);
    }
  }

  lemma ExtensionIsLong(e: string)
    requires IsImageExtension(e)
    ensures |e| >= 3
  {
  }

  /** The public website's territory: the root, and what lies outside the roots and files that are not the website's. */
  lemma WebsiteByAddress(pathname: string, path: string, root: string, rest: string)
    requires Names(pathname, path) && path == "/" + root + rest && '/' !in root && (rest == "" || rest[0] == '/')
    ensures IsPublicWebsitePath(pathname) <==>
              || path == "/"
              || (&& path != "/robots.txt" && path != "/sitemap.xml" && path != "/favicon.ico" && !IsImage(path)
                  && root !in NON_WEBSITE_ROOT_SEGMENTS && !(root != "" && root[0] == '_'))
  {
    hide NON_WEBSITE_ROOT_SEGMENTS, IsImage, IsAssetShaped, NormalisePathname, Names, RootSegment;
    NormaliseExact(pathname, path);
    ImageExact(path);
    assert rest != "" ==> path == "/" + root + "/" + rest[1..];
    RootSegmentOf(root, path);
  }

  /** Only the last dot matters: an address that ends in another extension is a document's, outside the handlers. */
  lemma OtherFilesAreDocuments(stem: string, e: string)
    requires '.' !in e && !IsImageExtension(e)
    ensures !IsImage(stem + "." + e) && (IsDocument(stem + "." + e) <==> !IsHandlers(stem + "." + e))
  {
    hide IsHandlers, LooksLikeHandlers;
    ExtensionsHaveNoDot();
    var path := stem + "." + e;
    forall dot | 0 <= dot < |path| && path[dot] == '.' ensures !IsImageExtension(path[dot + 1..]) {
      if dot == |stem| {
        assert path[dot + 1..] == e;
      } else {
        assert dot < |stem|;
        assert path[dot + 1..][|stem| - dot - 1] == '.';
      }
    }
  }

  lemma ExtensionsHaveNoDot()
    ensures forall e: string :: IsImageExtension(e) ==> '.' !in e
  {
  }

  /** An image, and the same under an odd-cased `/api`. */
  lemma ImageAddresses()
    ensures !IsDocument("/LOGO.PnG") && IsDocument("/API/LOGO.PnG")
  {
    hide IsImage, Spells;
    var logo, odd := "/LOGO.PnG", "/API/LOGO.PnG";
    LogoIsImage();
    assert odd == "/API" + logo && odd[1] == 'A';
    forall root: string, rest: string | logo == root + rest ensures !Spells(root, "/api") {
      NoHandlersHere(root, rest);
    }
  }

  lemma LogoIsImage()
    ensures IsImage("/LOGO.PnG") && Spells("/API", "/api")
  {
    assert "/LOGO.PnG"[5] == '.' && "/LOGO.PnG"[6..] == "PnG";
  }

  lemma NoHandlersHere(root: string, rest: string)
    requires "/LOGO.PnG" == root + rest
    ensures !Spells(root, "/api")
  {
    if |root| == 4 {
      assert root[1] == "/LOGO.PnG"[1];
    }
  }
}
