/**
 * The sign-in marker over a whole visit: a browser that applies the cookies it is sent, and the proxy
 * that writes the marker only where it disagrees with the session it sees.
 */
module HintConvergence {
  import opened Outcomes
  import opened Text
  import opened CookieLines
  import opened SignedInHint
  import opened FamilyInvite
  import opened Proxy

  // ---------- the browser ----------

  /** A pair of some cookie other than the marker. */
  predicate IsOtherPair(pair: string) {
    ';' !in pair && FieldOf(pair).name != SIGNED_IN_HINT_COOKIE
  }

  /** The header a browser sends: the marker, if it holds one, anywhere among its other cookies. */
  ghost predicate Sends(header: Option<string>, hint: Option<string>) {
    exists before: seq<string>, after: seq<string> ::
      && (forall i :: 0 <= i < |before| ==> IsOtherPair(before[i]))
      && (forall i :: 0 <= i < |after| ==> IsOtherPair(after[i]))
      && header == HeaderOf(before, hint, after)
  }

  function HeaderOf(before: seq<string>, hint: Option<string>, after: seq<string>): Option<string> {
    var pairs := before + (if hint.Some? then [SIGNED_IN_HINT_COOKIE + "=" + hint.value] else []) + after;
    if pairs == [] then None else Some(Join(pairs, "; "))
  }

  /** The marker after one `Set-Cookie` line: a line of another cookie leaves it, `Max-Age=0` removes it. */
  function Applied(hint: Option<string>, line: string): Option<string> {
    var parts := Split(line, ';');
    var field := FieldOf(parts[0]);
    if field.name != SIGNED_IN_HINT_COOKIE || field.value.None? then hint
    else if HasAttribute(line, "Max-Age=0") then None
    else field.value
  }

  predicate Shows(hint: Option<string>) {
    hint == Some(SIGNED_IN_HINT_VALUE)
  }

  /** A value a browser can hold and send back unchanged. */
  predicate IsSendable(hint: Option<string>) {
    hint.Some? ==> ';' !in hint.value && Trim(hint.value) == hint.value
  }

  lemma ReadOwn(before: seq<string>, own: seq<string>, after: seq<string>)
    requires forall i :: 0 <= i < |before| ==> IsOtherPair(before[i])
    requires forall i :: 0 <= i < |after| ==> IsOtherPair(after[i])
    requires |own| <= 1
    requires own != [] ==> FieldOf(own[0]).name == SIGNED_IN_HINT_COOKIE && FieldOf(own[0]).value.Some?
    ensures ReadPairs(before + own + after, SIGNED_IN_HINT_COOKIE) == if own == [] then None else FieldOf(own[0]).value
  {
    hide FieldOf, ReadPairs;
    var pairs := before + own + after;
    OthersGiveNothing(before);
    if own == [] {
      OthersGiveNothing(after);
      assert pairs == before + after;
      FirstPairWins(pairs, SIGNED_IN_HINT_COOKIE, |pairs|);
    } else {
      assert pairs[|before|] == own[0];
      FirstPairWins(pairs, SIGNED_IN_HINT_COOKIE, |before|);
    }
  }

  lemma OthersGiveNothing(pairs: seq<string>)
    requires forall i :: 0 <= i < |pairs| ==> IsOtherPair(pairs[i])
    ensures forall i :: 0 <= i < |pairs| ==> !Gives(pairs[i], SIGNED_IN_HINT_COOKIE)
  {
    hide FieldOf;
  }

  /** What a browser sends shows the marker exactly when the browser holds it with its one value. */
  lemma SentHint(header: Option<string>, hint: Option<string>)
    requires Sends(header, hint) && IsSendable(hint)
    ensures HasSignedInHint(header) <==> Shows(hint)
  {
    hide FieldOf, Split, Join, Trim, IsOtherPair;
    var before: seq<string>, after: seq<string> :|
      && (forall i :: 0 <= i < |before| ==> IsOtherPair(before[i]))
      && (forall i :: 0 <= i < |after| ==> IsOtherPair(after[i]))
      && header == HeaderOf(before, hint, after);
    var own := if hint.Some? then [SIGNED_IN_HINT_COOKIE + "=" + hint.value] else [];
    if hint.Some? {
      HintField(hint.value);
    }
    ReadOwn(before, own, after);
    ReadHeader(before, own, after);
  }

  lemma ReadHeader(before: seq<string>, own: seq<string>, after: seq<string>)
    requires forall i :: 0 <= i < |before| ==> IsOtherPair(before[i])
    requires forall i :: 0 <= i < |after| ==> IsOtherPair(after[i])
    requires forall i :: 0 <= i < |own| ==> ';' !in own[i]
    ensures var pairs := before + own + after;
            ReadCookie(if pairs == [] then None else Some(Join(pairs, "; ")), SIGNED_IN_HINT_COOKIE)
            == ReadPairs(pairs, SIGNED_IN_HINT_COOKIE)
  {
    hide FieldOf, Split, Join;
    var pairs := before + own + after;
    if pairs != [] {
      ReadOfJoin(pairs, SIGNED_IN_HINT_COOKIE);
      EmptyReadsNothing();
    }
  }

  lemma HintField(value: string)
    ensures FieldOf(SIGNED_IN_HINT_COOKIE + "=" + value) == Field(SIGNED_IN_HINT_COOKIE, Some(Trim(value)))
    ensures ';' !in value ==> ';' !in SIGNED_IN_HINT_COOKIE + "=" + value
  {
    hide FieldOf, Trim;
    FieldOfPair(SIGNED_IN_HINT_COOKIE, value);
    HintNameIsTrimmed();
  }

  lemma HintNameIsTrimmed()
    ensures Trim(SIGNED_IN_HINT_COOKIE) == SIGNED_IN_HINT_COOKIE
  {
    TrimTrims(SIGNED_IN_HINT_COOKIE);
  }

  lemma EmptyReadsNothing()
    ensures ReadPairs(Split("", ';'), SIGNED_IN_HINT_COOKIE) == None
  {
    assert FieldOf("").value == None;
  }

  // ---------- one response ----------

  /** What the lines of a response do to the marker, in order. */
  function AppliedAll(hint: Option<string>, lines: seq<string>): Option<string> {
    if lines == [] then hint else Applied(AppliedAll(hint, lines[..|lines| - 1]), lines[|lines| - 1])
  }

  /** One response's cookies leave the marker as the session says, if it was a page, and else alone. */
  lemma ResponseSetsHint(request: Request, hint: Option<string>, nonce: string, production: bool)
    requires HasSignedInHint(request.cookieHeader) <==> Shows(hint)
    ensures var after := AppliedAll(hint, PassThroughCookies(request, nonce, production));
            && (HintWrite(request, production) == None ==> after == hint)
            && (HintWrite(request, production).Some? ==>
                  after == if HasSessionCookie(request) then Some(SIGNED_IN_HINT_VALUE) else None)
            && (IsPageGet(request) ==> (Shows(after) <==> HasSessionCookie(request)))
            && (!IsPageGet(request) ==> after == hint)
  {
    hide Applied, HasSessionCookie, IsPageShapedPath, HasSignedInHint, Serialise, IsInvitePath;
    var write, plan := HintWrite(request, production), PlanFor(request, nonce, production);
    var lines := PassThroughCookies(request, nonce, production);
    var first := if write.Some? then Applied(hint, write.value) else hint;
    if write.Some? {
      HintLine(hint, HasSessionCookie(request), production);
    }
    if plan.Some? {
      InviteLeavesHint(first, request, nonce, production);
      assert lines[..|lines| - 1] == if write.Some? then [write.value] else [];
    }
    assert AppliedAll(hint, []) == hint;
    assert write.Some? ==> AppliedAll(hint, [write.value]) == first by { OneLine(hint, write); }
    assert AppliedAll(hint, lines) == first;
  }

  lemma OneLine(hint: Option<string>, write: Option<string>)
    ensures write.Some? ==> AppliedAll(hint, [write.value]) == Applied(hint, write.value)
  {
    hide Applied;
    if write.Some? {
      assert [write.value][..0] == [];
    }
  }

  lemma HintLine(hint: Option<string>, signedIn: bool, production: bool)
    ensures Applied(hint, Serialise(SIGNED_IN_HINT_COOKIE, if signedIn then SIGNED_IN_HINT_VALUE else "",
                                    if signedIn then SIGNED_IN_HINT_MAX_AGE_SECONDS else 0, false, production))
            == if signedIn then Some(SIGNED_IN_HINT_VALUE) else None
  {
    hide Split, FieldOf, Serialise, Trim;
    var value, maxAge := if signedIn then SIGNED_IN_HINT_VALUE else "", if signedIn then SIGNED_IN_HINT_MAX_AGE_SECONDS else 0;
    SerialisedReads(SIGNED_IN_HINT_COOKIE, value, maxAge, false, production);
    HintNameIsTrimmed();
    ValueIsTrimmed();
  }

  lemma ValueIsTrimmed()
    ensures Trim(SIGNED_IN_HINT_VALUE) == SIGNED_IN_HINT_VALUE
  {
    TrimTrims(SIGNED_IN_HINT_VALUE);
  }

  /** The invitation's cookie is another cookie. */
  lemma InviteLeavesHint(hint: Option<string>, request: Request, nonce: string, production: bool)
    requires PlanFor(request, nonce, production).Some?
    ensures Applied(hint, PlanFor(request, nonce, production).value.setCookie) == hint
  {
    hide Split, FieldOf, Serialise, Trim, HasSessionCookie, IsPageShapedPath, NormalisePathname, IsHex, IsInvitePath;
    var path := NormalisePathname(request.pathname);
    var signedIn := HasSessionCookie(request);
    var value, maxAge :=
      if signedIn then "" else nonce + "." + path, if signedIn then 0 else FAMILY_INVITE_RETURN_MAX_AGE_SECONDS;
    if !signedIn {
      AddressIsPlain(nonce, path);
    }
    SerialisedReads(FAMILY_INVITE_RETURN_COOKIE, value, maxAge, true, production);
    CookieNameIsTrimmed();
  }

  // ---------- a whole visit ----------

  /** One request, whether a gate answered it, and the nonce minted for it. */
  datatype Exchange = Exchange(request: Request, passedThrough: bool, nonce: string)

  predicate Syncs(e: Exchange) {
    e.passedThrough && IsPageGet(e.request)
  }

  function LinesOf(e: Exchange, production: bool): seq<string> {
    if e.passedThrough then PassThroughCookies(e.request, e.nonce, production) else []
  }

  /** The marker the browser holds after a visit that it began with `hint`. */
  function HintAfter(hint: Option<string>, visit: seq<Exchange>, production: bool): Option<string> {
    if visit == [] then hint
    else
      var last := visit[|visit| - 1];
      AppliedAll(HintAfter(hint, visit[..|visit| - 1], production), LinesOf(last, production))
  }

  /** Each request carries the marker the browser held at that moment. */
  ghost predicate IsVisit(hint: Option<string>, visit: seq<Exchange>, production: bool) {
    forall i :: 0 <= i < |visit| ==> Sends(visit[i].request.cookieHeader, HintAfter(hint, visit[..i], production))
  }

  /** The marker's writes along a visit. */
  function WriteCount(visit: seq<Exchange>, production: bool): nat {
    if visit == [] then 0
    else
      var last := visit[|visit| - 1];
      WriteCount(visit[..|visit| - 1], production)
      + if last.passedThrough && HintWrite(last.request, production).Some? then 1 else 0
  }

  /** The session states the synchronising requests carried, in order. */
  function Seen(visit: seq<Exchange>): seq<bool> {
    if visit == [] then []
    else
      var last := visit[|visit| - 1];
      Seen(visit[..|visit| - 1]) + if Syncs(last) then [HasSessionCookie(last.request)] else []
  }

  /** How often a sequence of states differs from the one before it, the first from `start`. */
  function Switches(start: bool, states: seq<bool>): nat {
    if states == [] then 0
    else
      var n := |states|;
      Switches(start, states[..n - 1]) + if states[n - 1] != Latest(start, states[..n - 1]) then 1 else 0
  }

  function Latest(start: bool, states: seq<bool>): bool {
    if states == [] then start else states[|states| - 1]
  }

  /**
   * Along every visit, the marker after each response is the session state of the latest page GET that
   * was passed through, and it has been written exactly as often as that state changed: once more at
   * most for a marker that was wrong to begin with.
   */
  lemma {:induction false} HintFollowsSession(hint: Option<string>, visit: seq<Exchange>, production: bool)
    requires IsVisit(hint, visit, production) && IsSendable(hint)
    ensures Shows(HintAfter(hint, visit, production)) <==> Latest(Shows(hint), Seen(visit))
    ensures WriteCount(visit, production) == Switches(Shows(hint), Seen(visit))
    ensures IsSendable(HintAfter(hint, visit, production))
  {
    hide Sends, LinesOf, AppliedAll, HintWrite, HasSessionCookie, Syncs, IsSendable, Switches, Shows;
    if visit == [] {
      NoSwitches(Shows(hint));
    } else {
      var n := |visit| - 1;
      var front, last := visit[..n], visit[n];
      assert IsVisit(hint, front, production) by {
        assert forall i :: 0 <= i < n ==> front[..i] == visit[..i];
      }
      HintFollowsSession(hint, front, production);
      VisitStep(HintAfter(hint, front, production), last, production);
      SwitchesStep(Shows(hint), Seen(front), HasSessionCookie(last.request));
      assert Seen(front) + [] == Seen(front);
    }
  }

  lemma NoSwitches(start: bool)
    ensures Switches(start, []) == 0
  {
  }

  lemma SwitchesStep(start: bool, states: seq<bool>, next: bool)
    ensures Switches(start, states + [next]) == Switches(start, states) + if next != Latest(start, states) then 1 else 0
    ensures Latest(start, states + [next]) == next
  {
    assert (states + [next])[..|states|] == states;
  }

  lemma VisitStep(hint: Option<string>, e: Exchange, production: bool)
    requires Sends(e.request.cookieHeader, hint) && IsSendable(hint)
    ensures var after := AppliedAll(hint, LinesOf(e, production));
            && IsSendable(after)
            && (Syncs(e) ==> (Shows(after) <==> HasSessionCookie(e.request)))
            && (!Syncs(e) ==> after == hint)
            && (e.passedThrough && HintWrite(e.request, production).Some? <==>
                  Syncs(e) && Shows(hint) != HasSessionCookie(e.request))
  {
    hide Sends, HasSessionCookie, IsPageGet, Trim, Serialise, PassThroughCookies;
    SentHint(e.request.cookieHeader, hint);
    ValueIsTrimmed();
    if e.passedThrough {
      ResponseSetsHint(e.request, hint, e.nonce, production);
    }
  }

  /** The states switch once more from another start than from their own first. */
  lemma {:induction false} SwitchesFrom(start: bool, states: seq<bool>)
    requires states != []
    ensures Switches(start, states) == Switches(states[0], states) + if start != states[0] then 1 else 0
  {
    var front := states[..|states| - 1];
    if front != [] {
      SwitchesFrom(start, front);
    }
  }

  lemma {:induction false} SeenOfPages(visit: seq<Exchange>)
    requires forall k :: 0 <= k < |visit| ==> Syncs(visit[k])
    ensures |Seen(visit)| == |visit| && forall k :: 0 <= k < |visit| ==> Seen(visit)[k] == HasSessionCookie(visit[k].request)
  {
    hide HasSessionCookie, Syncs;
    if visit != [] {
      SeenOfPages(visit[..|visit| - 1]);
    }
  }

  /**
   * A visit of page GETs alone: the last response leaves the marker at the session state its request
   * carried, and the writes are the changes of that state, plus one if the marker began wrong.
   */
  lemma PagesConverge(hint: Option<string>, visit: seq<Exchange>, production: bool)
    requires IsVisit(hint, visit, production) && IsSendable(hint)
    requires visit != [] && forall k :: 0 <= k < |visit| ==> Syncs(visit[k])
    ensures Shows(HintAfter(hint, visit, production)) <==> HasSessionCookie(visit[|visit| - 1].request)
    ensures WriteCount(visit, production)
            == Switches(HasSessionCookie(visit[0].request), Seen(visit))
               + if Shows(hint) != HasSessionCookie(visit[0].request) then 1 else 0
    ensures Seen(visit) == seq(|visit|, k requires 0 <= k < |visit| => HasSessionCookie(visit[k].request))
  {
    hide HintAfter, WriteCount, Seen, Switches, HasSessionCookie, Syncs, IsVisit, IsSendable, Shows;
    HintFollowsSession(hint, visit, production);
    SeenOfPages(visit);
    SwitchesFrom(Shows(hint), Seen(visit));
  }
}
