/**
 * The family invitation's return address: a cookie that carries a nonce and the invitation's path, and
 * is honoured only for the tab that presents the nonce.
 */
module FamilyInvite {
  import opened Outcomes
  import opened Text
  import opened SignedInHint
  import opened CookieLines

  const FAMILY_INVITE_RETURN_COOKIE: string := "family-invite-return"
  const FAMILY_INVITE_RETURN_MAX_AGE_SECONDS: nat := 2 * 60
  const FAMILY_INVITE_PREFIX: string := "/family-invite/"

  // ---------- nonces and paths ----------

  predicate IsHex(s: string) {
    forall i :: 0 <= i < |s| ==> '0' <= s[i] <= '9' || 'a' <= s[i] <= 'f'
  }

  predicate IsNonce(s: string) {
    |s| == 32 && IsHex(s)
  }

  predicate IsInvitePath(path: string) {
    FAMILY_INVITE_PREFIX <= path && |path| == |FAMILY_INVITE_PREFIX| + 64 && IsHex(path[|FAMILY_INVITE_PREFIX|..])
  }

  function GetFamilyInviteReturnNonce(candidate: Option<string>): Option<string> {
    if candidate.Some? && IsNonce(candidate.value) then candidate else None
  }

  function GetFamilyInviteReturnPath(candidate: Option<string>): Option<string> {
    if candidate.Some? && IsInvitePath(candidate.value) then candidate else None
  }

  // ---------- the cookie's value ----------

  function BuildFamilyInviteReturnCookieValue(nonce: string, returnPath: string): Option<string> {
    var safeNonce := GetFamilyInviteReturnNonce(Some(nonce));
    var safePath := GetFamilyInviteReturnPath(Some(returnPath));
    if safeNonce.None? || safePath.None? then None else Some(safeNonce.value + "." + safePath.value)
  }

  datatype ReturnAddress = ReturnAddress(nonce: string, path: string)

  function ParseFamilyInviteReturnCookie(value: Option<string>): Option<ReturnAddress> {
    if value.None? then None
    else
      var separator := IndexOf(value.value, '.');
      if separator < 0 then None
      else
        var nonce := GetFamilyInviteReturnNonce(Some(value.value[..separator]));
        var path := GetFamilyInviteReturnPath(Some(value.value[separator + 1..]));
        if nonce.None? || path.None? then None else Some(ReturnAddress(nonce.value, path.value))
  }

  /** Parsing undoes building and accepts nothing that was not built. */
  lemma ParseExact(value: string, nonce: string, path: string)
    ensures ParseFamilyInviteReturnCookie(Some(value)) == Some(ReturnAddress(nonce, path))
            <==> BuildFamilyInviteReturnCookieValue(nonce, path) == Some(value)
  {
    hide IsInvitePath, IndexOf;
    var separator := IndexOf(value, '.');
    if separator >= 0 {
      assert value == value[..separator] + "." + value[separator + 1..];
    }
    if IsNonce(nonce) {
      assert '.' !in nonce;
      IndexOfFirst(nonce, '.', path);
      var built := nonce + "." + path;
      assert built[..|nonce|] == nonce && built[|nonce| + 1..] == path;
    }
  }

  // ---------- the tab binding ----------

  /** JavaScript's `a ^ b` and `a | b` on character codes, bit by bit. */
  function Xor(a: nat, b: nat): nat {
    if a == 0 && b == 0 then 0 else 2 * Xor(a / 2, b / 2) + if a % 2 == b % 2 then 0 else 1
  }

  function Or(a: nat, b: nat): nat {
    if a == 0 && b == 0 then 0 else 2 * Or(a / 2, b / 2) + if a % 2 == 0 && b % 2 == 0 then 0 else 1
  }

  lemma {:induction false} XorOfEqual(a: nat, b: nat)
    ensures Xor(a, b) == 0 <==> a == b
  {
    if a > 0 || b > 0 {
      XorOfEqual(a / 2, b / 2);
    }
  }

  lemma {:induction false} OrOfZeros(a: nat, b: nat)
    ensures Or(a, b) == 0 <==> a == 0 && b == 0
  {
    if a > 0 || b > 0 {
      OrOfZeros(a / 2, b / 2);
    }
  }

  /** Compares two nonces, already known to be well-formed, without an early exit. */
  method NoncesMatch(expected: string, presented: string) returns (same: bool)
    requires IsNonce(expected) && IsNonce(presented)
    ensures same <==> expected == presented
  {
    hide Xor, Or, IsHex;
    if |expected| != |presented| {
      return false;
    }
    var difference: nat := 0;
    for index := 0 to |expected|
      invariant difference == 0 <==> expected[..index] == presented[..index]
    {
      var codes := Xor(expected[index] as int, presented[index] as int);
      XorOfEqual(expected[index] as int, presented[index] as int);
      OrOfZeros(difference, codes);
      difference := Or(difference, codes);
      assert expected[..index + 1] == expected[..index] + [expected[index]];
      assert presented[..index + 1] == presented[..index] + [presented[index]];
    }
    assert expected[..|expected|] == expected && presented[..|presented|] == presented;
    return difference == 0;
  }

  /**
   * The path a cookie authorises for the tab presenting a nonce: exactly when the cookie's value was
   * built from that very nonce and that path, both well-formed. Every other value or nonce gets none.
   */
  method MatchFamilyInviteReturnCookie(cookieValue: Option<string>, presentedNonce: Option<string>) returns (path: Option<string>)
    ensures forall p: string :: path == Some(p) <==>
              cookieValue.Some? && presentedNonce.Some?
              && BuildFamilyInviteReturnCookieValue(presentedNonce.value, p) == cookieValue
  {
    var parsed := ParseFamilyInviteReturnCookie(cookieValue);
    var nonce := GetFamilyInviteReturnNonce(presentedNonce);
    if parsed.None? || nonce.None? {
      path := None;
    } else {
      var same := NoncesMatch(parsed.value.nonce, nonce.value);
      path := if same then Some(parsed.value.path) else None;
    }
    forall p: string
      ensures path == Some(p) <==>
                cookieValue.Some? && presentedNonce.Some?
                && BuildFamilyInviteReturnCookieValue(presentedNonce.value, p) == cookieValue
    {
      if cookieValue.Some? && presentedNonce.Some? {
        ParseExact(cookieValue.value, presentedNonce.value, p);
      }
    }
  }

  // ---------- the plan ----------

  datatype InvitePlan = InvitePlan(setCookie: string, nonce: Option<string>)

  /** `serialiseFamilyInviteReturnCookie`. */
  function InviteLine(value: string, maxAge: nat, production: bool): string {
    Serialise(FAMILY_INVITE_RETURN_COOKIE, value, maxAge, true, production)
  }

  /** `nonce` is the one freshly minted, in case this response writes the address. */
  function PlanFamilyInviteReturnAddress(
    httpMethod: string, pageShapedPath: Option<string>, signedIn: bool, secFetchDest: Option<string>, nonce: string,
    production: bool
  ): Option<InvitePlan> {
    var returnPath := GetFamilyInviteReturnPath(pageShapedPath);
    if httpMethod != "GET" || returnPath.None? then None
    else if signedIn then Some(InvitePlan(InviteLine("", 0, production), None))
    else if secFetchDest != Some("document") then None
    else
      var cookieValue := BuildFamilyInviteReturnCookieValue(nonce, returnPath.value);
      if cookieValue.None? then None
      else Some(InvitePlan(InviteLine(cookieValue.value, FAMILY_INVITE_RETURN_MAX_AGE_SECONDS, production), Some(nonce)))
  }

  /**
   * A plan that mints a nonce writes a cookie a browser stores under its name, and that honours this
   * request's own path for the tab with this nonce, and nothing for any other nonce.
   */
  lemma MintedForOneTab(
    httpMethod: string, pageShapedPath: Option<string>, secFetchDest: Option<string>, nonce: string, production: bool
  )
    requires var plan := PlanFamilyInviteReturnAddress(httpMethod, pageShapedPath, false, secFetchDest, nonce, production);
             plan.Some?
    ensures var plan := PlanFamilyInviteReturnAddress(httpMethod, pageShapedPath, false, secFetchDest, nonce, production).value;
            var stored := FieldOf(Split(plan.setCookie, ';')[0]);
            && pageShapedPath.Some? && plan.nonce == Some(nonce)
            && stored.name == FAMILY_INVITE_RETURN_COOKIE && stored.value.Some?
            && forall presented, path ::
                 BuildFamilyInviteReturnCookieValue(presented, path) == stored.value
                 <==> presented == nonce && path == pageShapedPath.value
  {
    hide Split, FieldOf, Serialise, Trim, IndexOf;
    var path := pageShapedPath.value;
    var value := nonce + "." + path;
    AddressIsPlain(nonce, path);
    CookieNameIsTrimmed();
    SerialisedReads(FAMILY_INVITE_RETURN_COOKIE, value, FAMILY_INVITE_RETURN_MAX_AGE_SECONDS, true, production);
    forall presented, other ensures BuildFamilyInviteReturnCookieValue(presented, other) == Some(value)
                                    <==> presented == nonce && other == path
    {
      ParseExact(value, presented, other);
      ParseExact(value, nonce, path);
    }
  }

  lemma AddressIsPlain(nonce: string, path: string)
    requires IsNonce(nonce) && IsInvitePath(path)
    ensures var value := nonce + "." + path; ';' !in value && Trim(value) == value
  {
    hide Trim;
    var value := nonce + "." + path;
    var hex := path[|FAMILY_INVITE_PREFIX|..];
    assert path == FAMILY_INVITE_PREFIX + hex;
    assert ';' !in FAMILY_INVITE_PREFIX && ';' !in hex && ';' !in nonce;
    assert value[0] == nonce[0] && value[|value| - 1] == hex[63];
    TrimTrims(value);
  }

  lemma CookieNameIsTrimmed()
    ensures Trim(FAMILY_INVITE_RETURN_COOKIE) == FAMILY_INVITE_RETURN_COOKIE
  {
    TrimTrims(FAMILY_INVITE_RETURN_COOKIE);
  }
}
