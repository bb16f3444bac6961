/**
 * The sign-in marker cookie in a `Cookie` header: reading it, and taking it out of the header that is
 * forwarded to the render.
 */
module SignedInHint {
  import opened Outcomes
  import opened Text

  const SIGNED_IN_HINT_COOKIE: string := "signed-in-hint"
  const SIGNED_IN_HINT_VALUE: string := "1"

  /** A cookie pair: the trimmed name, and the trimmed value unless there is no `=`. */
  datatype Field = Field(name: string, value: Option<string>)

  function FieldOf(pair: string): Field {
    var separator := IndexOf(pair, '=');
    if separator == -1 then Field(Trim(pair), None)
    else Field(Trim(pair[..separator]), Some(Trim(pair[separator + 1..])))
  }

  /** The value of the first pair that names the cookie and has one. */
  function ReadPairs(pairs: seq<string>, name: string): Option<string> {
    if pairs == [] then None
    else
      var field := FieldOf(pairs[0]);
      if field.name == name && field.value.Some? then field.value else ReadPairs(pairs[1..], name)
  }

  predicate Gives(pair: string, name: string) {
    FieldOf(pair).name == name && FieldOf(pair).value.Some?
  }

  /** The first pair that gives a name a value decides; if none does, the name has no value. */
  lemma {:induction false} FirstPairWins(pairs: seq<string>, name: string, k: nat)
    requires k <= |pairs| && forall i :: 0 <= i < k ==> !Gives(pairs[i], name)
    ensures k < |pairs| && Gives(pairs[k], name) ==> ReadPairs(pairs, name) == FieldOf(pairs[k]).value
    ensures k == |pairs| ==> ReadPairs(pairs, name) == None
  {
    hide FieldOf;
    if k > 0 {
      FirstPairWins(pairs[1..], name, k - 1);
    }
  }

  /** A null header and an empty one carry no cookie. */
  function ReadCookie(header: Option<string>, name: string): Option<string> {
    if header.None? || header.value == "" then None else ReadPairs(Split(header.value, ';'), name)
  }

  function HasSignedInHint(cookies: Option<string>): bool {
    ReadCookie(cookies, SIGNED_IN_HINT_COOKIE) == Some(SIGNED_IN_HINT_VALUE)
  }

  predicate Survives(pair: string) {
    FieldOf(pair).name != SIGNED_IN_HINT_COOKIE && Trim(pair) != ""
  }

  /** Filtered by name, trimmed, and filtered of what is then empty. */
  function Kept(pairs: seq<string>): seq<string> {
    if pairs == [] then []
    else (if Survives(pairs[0]) then [Trim(pairs[0])] else []) + Kept(pairs[1..])
  }

  function StripSignedInHint(cookieHeader: Option<string>): Option<string> {
    if cookieHeader.None? || cookieHeader.value == "" then None
    else
      var kept := Kept(Split(cookieHeader.value, ';'));
      if kept == [] then None else Some(Join(kept, "; "))
  }

  // ---------- trimming a pair keeps what it says ----------

  lemma FieldOfPair(name: string, value: string)
    requires '=' !in name
    ensures FieldOf(name + ['='] + value) == Field(Trim(name), Some(Trim(value)))
  {
    hide Trim, IndexOf;
    var pair := name + ['='] + value;
    IndexOfFirst(name, '=', value);
    assert pair[..|name|] == name && pair[|name| + 1..] == value;
  }

  lemma TrimOfPair(name: string, value: string)
    ensures Trim(name + ['='] + value) == TrimStart(name) + ['='] + TrimEnd(value)
  {
    hide TrimStart, TrimEnd;
    TrimStartStops(name, '=', value);
    TrimEndStops(TrimStart(name), '=', value);
  }

  lemma FieldOfTrimmed(pair: string)
    ensures FieldOf(Trim(pair)) == FieldOf(pair)
    ensures Trim(Trim(pair)) == Trim(pair)
    ensures FieldOf(pair).value.Some? ==> Trim(pair) != ""
  {
    hide TrimStart, TrimEnd, IsSpace, IndexOf, FieldOf;
    TrimTrims(pair);
    assert Trim(Trim(pair)) == Trim(pair) by { TrimTrims(Trim(pair)); }
    if '=' in pair {
      var i := IndexOf(pair, '=');
      var n, v := pair[..i], pair[i + 1..];
      assert pair == n + ['='] + v;
      TrimOfPair(n, v);
      TrimStartDropsHead(n);
      assert '=' !in TrimStart(n);
      FieldOfPair(n, v);
      FieldOfPair(TrimStart(n), TrimEnd(v));
      TrimStartTwice(n);
      TrimAfterTrimEnd(v);
      assert Trim(pair)[|TrimStart(n)|] == '=';
    } else {
      BareField(pair);
      BareField(Trim(pair));
    }
  }

  lemma BareField(pair: string)
    requires '=' !in pair
    ensures FieldOf(pair) == Field(Trim(pair), None)
  {
    hide Trim;
  }

  lemma FieldOfSpaced(pair: string)
    ensures Trim([' '] + pair) == Trim(pair)
    ensures FieldOf([' '] + pair) == FieldOf(pair)
  {
    hide TrimEnd, IndexOf;
    assert ([' '] + pair)[1..] == pair;
    FieldOfTrimmed(pair);
    FieldOfTrimmed([' '] + pair);
  }

  // ---------- what is kept ----------

  /** Pairs as the header is glued from: trimmed, not empty, and none of them the marker. */
  predicate IsClean(pairs: seq<string>) {
    forall i :: 0 <= i < |pairs| ==> Survives(pairs[i]) && Trim(pairs[i]) == pairs[i] && ';' !in pairs[i]
  }

  lemma {:induction false} KeptIsClean(pairs: seq<string>)
    requires forall i :: 0 <= i < |pairs| ==> ';' !in pairs[i]
    ensures IsClean(Kept(pairs))
  {
    hide Trim, FieldOf;
    if pairs != [] {
      KeptIsClean(pairs[1..]);
      FieldOfTrimmed(pairs[0]);
      TrimTrims(pairs[0]);
    }
  }

  lemma {:induction false} KeptOfSpaced(pairs: seq<string>)
    requires IsClean(pairs)
    ensures Kept(Spaced(pairs)) == pairs
  {
    hide Trim, FieldOf;
    if pairs != [] {
      FieldOfSpaced(pairs[0]);
      KeptOfSpaced(pairs[1..]);
      assert pairs == [pairs[0]] + pairs[1..];
    }
  }

  /** Cutting up what was glued from clean pairs keeps exactly those pairs. */
  lemma KeptOfJoin(pairs: seq<string>)
    requires IsClean(pairs) && pairs != []
    ensures Join(pairs, "; ") != ""
    ensures Split(Join(pairs, "; "), ';') == [pairs[0]] + Spaced(pairs[1..])
    ensures Kept(Split(Join(pairs, "; "), ';')) == pairs
  {
    hide Trim, FieldOf, Split, Spaced;
    SplitOfSpacedJoin(pairs, ';');
    KeptOfSpaced(pairs[1..]);
    assert Join(pairs, "; ") != "" by { EmptyIsNoPair(); }
    var glued := [pairs[0]] + Spaced(pairs[1..]);
    assert glued[1..] == Spaced(pairs[1..]);
    assert pairs == [pairs[0]] + pairs[1..];
  }

  lemma EmptyIsNoPair()
    ensures !Survives("")
  {
  }

  // ---------- what the strip promises ----------

  /** The places from `start` on that survive, in order. */
  predicate IsSurvivors(at: seq<nat>, pairs: seq<string>, start: nat) {
    && (forall j, k :: 0 <= j < k < |at| ==> at[j] < at[k])
    && (forall k :: 0 <= k < |at| ==> start <= at[k] < |pairs|)
    && (forall i :: start <= i < |pairs| ==> (i in at <==> Survives(pairs[i])))
  }

  lemma SurvivorsStep(rest: seq<nat>, pairs: seq<string>, start: nat)
    requires start < |pairs| && IsSurvivors(rest, pairs, start + 1)
    ensures IsSurvivors(if Survives(pairs[start]) then [start] + rest else rest, pairs, start)
  {
    hide Survives;
    assert start !in rest;
    forall i | start < i < |pairs| ensures i in [start] + rest <==> i in rest {
    }
  }

  lemma {:induction false} KeptFrom(pairs: seq<string>, start: nat) returns (at: seq<nat>)
    requires start <= |pairs|
    ensures IsSurvivors(at, pairs, start)
    ensures |Kept(pairs[start..])| == |at|
    ensures forall k :: 0 <= k < |at| ==> Kept(pairs[start..])[k] == Trim(pairs[at[k]])
    decreases |pairs| - start
  {
    hide Survives, Trim, Kept;
    KeptStep(pairs, start);
    if start == |pairs| {
      at := [];
    } else {
      var rest := KeptFrom(pairs, start + 1);
      SurvivorsStep(rest, pairs, start);
      at := if Survives(pairs[start]) then [start] + rest else rest;
    }
  }

  lemma KeptStep(pairs: seq<string>, start: nat)
    requires start <= |pairs|
    ensures Kept(pairs[start..])
            == if start == |pairs| then []
               else (if Survives(pairs[start]) then [Trim(pairs[start])] else []) + Kept(pairs[start + 1..])
  {
    hide Survives, Trim;
    if start < |pairs| {
      assert pairs[start..][0] == pairs[start] && pairs[start..][1..] == pairs[start + 1..];
    }
  }

  /**
   * The forwarded header holds exactly the pairs that are neither the marker nor blank, each trimmed,
   * in their order; it is null exactly when there are none.
   */
  lemma StripKeepsTheRest(header: string) returns (at: seq<nat>)
    requires header != ""
    ensures IsSurvivors(at, Split(header, ';'), 0)
    ensures StripSignedInHint(Some(header)) == None <==> at == []
    ensures at != [] ==>
              var kept := Split(StripSignedInHint(Some(header)).value, ';');
              && |kept| == |at|
              && forall k :: 0 <= k < |at| ==>
                   kept[k] == (if k == 0 then "" else " ") + Trim(Split(header, ';')[at[k]])
  {
    hide Survives, Trim, Split, Spaced;
    var pairs := Split(header, ';');
    at := KeptFrom(pairs, 0);
    assert pairs[0..] == pairs;
    KeptIsClean(pairs);
    if at != [] {
      KeptOfJoin(Kept(pairs));
    }
  }

  /** Stripping what was stripped changes nothing. */
  lemma StripTwice(header: Option<string>)
    ensures StripSignedInHint(StripSignedInHint(header)) == StripSignedInHint(header)
  {
    hide Survives, Trim, Split;
    if header.Some? && header.value != "" {
      KeptIsClean(Split(header.value, ';'));
      if Kept(Split(header.value, ';')) != [] {
        KeptOfJoin(Kept(Split(header.value, ';')));
      }
    }
  }

  lemma {:induction false} ReadOfKept(pairs: seq<string>, name: string)
    ensures ReadPairs(Kept(pairs), name) == if name == SIGNED_IN_HINT_COOKIE then None else ReadPairs(pairs, name)
  {
    hide Trim, FieldOf;
    if pairs != [] {
      ReadOfKept(pairs[1..], name);
      FieldOfTrimmed(pairs[0]);
      if Survives(pairs[0]) {
        assert Kept(pairs)[1..] == Kept(pairs[1..]);
      } else {
        assert Kept(pairs) == Kept(pairs[1..]);
      }
    }
  }

  lemma {:induction false} ReadOfSpaced(pairs: seq<string>, name: string)
    ensures ReadPairs(Spaced(pairs), name) == ReadPairs(pairs, name)
  {
    hide Trim, FieldOf;
    if pairs != [] {
      FieldOfSpaced(pairs[0]);
      ReadOfSpaced(pairs[1..], name);
    }
  }

  /** What a header glued from clean pairs says of a cookie is what the pairs say. */
  lemma ReadOfJoin(pairs: seq<string>, name: string)
    requires pairs != [] && forall i :: 0 <= i < |pairs| ==> ';' !in pairs[i]
    ensures ReadPairs(Split(Join(pairs, "; "), ';'), name) == ReadPairs(pairs, name)
  {
    hide Trim, FieldOf, Split, Join, Spaced;
    SplitOfSpacedJoin(pairs, ';');
    ReadOfSpaced(pairs[1..], name);
    var glued := [pairs[0]] + Spaced(pairs[1..]);
    assert glued[1..] == Spaced(pairs[1..]);
  }

  /** The render never sees the marker, and reads every other cookie as the browser sent it. */
  lemma StripReadsTheSame(header: Option<string>, name: string)
    ensures !HasSignedInHint(StripSignedInHint(header))
    ensures ReadCookie(StripSignedInHint(header), name)
            == if name == SIGNED_IN_HINT_COOKIE then None else ReadCookie(header, name)
  {
    hide Survives, Trim, Split, FieldOf, Join;
    if header.Some? && header.value != "" {
      var pairs := Split(header.value, ';');
      KeptIsClean(pairs);
      ReadOfKept(pairs, name);
      ReadOfKept(pairs, SIGNED_IN_HINT_COOKIE);
      if Kept(pairs) != [] {
        KeptOfJoin(Kept(pairs));
        ReadOfJoin(Kept(pairs), name);
        ReadOfJoin(Kept(pairs), SIGNED_IN_HINT_COOKIE);
      }
    }
  }
}
