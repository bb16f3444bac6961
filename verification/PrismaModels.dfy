/** The brace-matching reader of a Prisma schema's model blocks. */
module PrismaModels {
  import opened Outcomes
  import opened Text

  // ---------- model headers ----------

  predicate IsIdentifierStart(c: char) {
    'A' <= c <= 'Z' || 'a' <= c <= 'z' || c == '_'
  }

  predicate IsIdentifierPart(c: char) {
    IsIdentifierStart(c) || IsDigit(c)
  }

  /** The first place from `i` on that holds no white space. */
  function SkipSpaces(s: string, i: nat): (j: nat)
    requires i <= |s|
    ensures i <= j <= |s| && (j == |s| || !IsSpace(s[j]))
    ensures forall k :: i <= k < j ==> IsSpace(s[k])
    decreases |s| - i
  {
    if i < |s| && IsSpace(s[i]) then SkipSpaces(s, i + 1) else i
  }

  function SkipParts(s: string, i: nat): (j: nat)
    requires i <= |s|
    ensures i <= j <= |s| && (j == |s| || !IsIdentifierPart(s[j]))
    ensures forall k :: i <= k < j ==> IsIdentifierPart(s[k])
    decreases |s| - i
  {
    if i < |s| && IsIdentifierPart(s[i]) then SkipParts(s, i + 1) else i
  }

  /** Where the identifier that starts at `i` ends; `i` itself if none does. */
  function SkipIdentifier(s: string, i: nat): (j: nat)
    requires i <= |s|
    ensures i <= j <= |s|
    ensures forall k :: i <= k < j ==> IsIdentifierPart(s[k])
  {
    if i < |s| && IsIdentifierStart(s[i]) then SkipParts(s, i) else i
  }

  predicate AtLineStart(s: string, i: nat)
    requires i <= |s|
  {
    i == 0 || s[i - 1] in {'\n', '\r', '\U{2028}', '\U{2029}'}
  }

  /** `model Name {`, from the `m` to the opening brace. */
  datatype Header = Header(name: string, start: nat, open: nat)

  predicate IsHeader(s: string, h: Header) {
    && h.start + 5 < h.open < |s| && s[h.open] == '{'
    && s[h.start..h.start + 5] == "model"
    && forall k :: h.start + 5 <= k < h.open ==> IsSpace(s[k]) || IsIdentifierPart(s[k])
  }

  function HeaderAt(s: string, i: nat): (h: Option<Header>)
    requires i <= |s|
    ensures h.Some? ==> h.value.start == i && IsHeader(s, h.value)
  {
    if !AtLineStart(s, i) || i + 5 > |s| || s[i..i + 5] != "model" then None
    else
      var a := SkipSpaces(s, i + 5);
      var b := SkipIdentifier(s, a);
      var c := SkipSpaces(s, b);
      if a == i + 5 || b == a || c == |s| || s[c] != '{' then None else Some(Header(s[a..b], i, c))
  }

  /** The matches of the header pattern from `i` on: each is looked for after the end of the one before it. */
  function Headers(s: string, i: nat): (hs: seq<Header>)
    requires i <= |s|
    ensures forall k :: 0 <= k < |hs| ==> i <= hs[k].start <= |s| && HeaderAt(s, hs[k].start) == Some(hs[k])
    ensures forall j, k :: 0 <= j < k < |hs| ==> hs[j].open < hs[k].start
    decreases |s| - i
  {
    if i == |s| then []
    else
      match HeaderAt(s, i)
      case Some(h) => [h] + Headers(s, h.open + 1)
      case None => Headers(s, i + 1)
  }

  // ---------- what the patterns mean ----------

  /** `[A-Za-z_][A-Za-z0-9_]*`, whole: letters, digits and underscores, no digit first. */
  predicate IsName(s: string) {
    && s != "" && !('0' <= s[0] <= '9')
    && forall i :: 0 <= i < |s| ==> IsNameCharacter(s[i])
  }

  predicate IsNameCharacter(c: char) {
    'a' <= c <= 'z' || 'A' <= c <= 'Z' || '0' <= c <= '9' || c == '_'
  }

  predicate AllSpaces(s: string) {
    forall i :: 0 <= i < |s| ==> IsSpace(s[i])
  }

  /** The identifier scan stops at `b` exactly when a whole name stands there and no longer one does. */
  lemma IdentifierEnds(s: string, a: nat, b: nat)
    requires a < b <= |s|
    ensures SkipIdentifier(s, a) == b <==> IsName(s[a..b]) && (b == |s| || !IsNameCharacter(s[b]))
  {
    assert forall c: char :: IsIdentifierPart(c) <==> IsNameCharacter(c);
    assert forall c: char :: IsIdentifierStart(c) <==> IsNameCharacter(c) && !('0' <= c <= '9');
    assert s[a..b][0] == s[a];
    assert forall k :: a <= k < b ==> s[a..b][k - a] == s[k];
  }

  lemma SpacesEnd(s: string, a: nat, b: nat)
    requires a <= b <= |s|
    ensures SkipSpaces(s, a) == b <==> AllSpaces(s[a..b]) && (b == |s| || !IsSpace(s[b]))
  {
    hide IsSpace;
    assert forall k :: a <= k < b ==> s[a..b][k - a] == s[k];
  }

  lemma NamesAreNoSpace()
    ensures forall c: char :: IsNameCharacter(c) ==> !IsSpace(c) && c != '{'
    ensures !IsSpace('{') && !IsNameCharacter('{')
  {
  }

  /** The header pattern: at a line start `model`, white space, a name from `a` to `b`, white space or none, a brace at `c`. */
  predicate ReadsAsHeader(s: string, i: nat, a: nat, b: nat, c: nat) {
    && i + 5 < a < b <= c < |s| && s[c] == '{'
    && (i == 0 || s[i - 1] == '\n' || s[i - 1] == '\r' || s[i - 1] == '\U{2028}' || s[i - 1] == '\U{2029}')
    && s[i..i + 5] == "model" && AllSpaces(s[i + 5..a]) && IsName(s[a..b]) && AllSpaces(s[b..c])
  }

  /** A header is found exactly where the text reads as one, and in one way only. */
  lemma HeaderAtExact(s: string, i: nat, a: nat, b: nat, c: nat)
    requires i <= |s|
    ensures ReadsAsHeader(s, i, a, b, c) ==> HeaderAt(s, i) == Some(Header(s[a..b], i, c))
    ensures HeaderAt(s, i).Some? ==>
              var a, c := SkipSpaces(s, i + 5), HeaderAt(s, i).value.open;
              var b := SkipIdentifier(s, a);
              ReadsAsHeader(s, i, a, b, c) && HeaderAt(s, i).value.name == s[a..b]
  {
    hide IsSpace, IsName, AllSpaces, SkipSpaces, SkipIdentifier, IsNameCharacter;
    if ReadsAsHeader(s, i, a, b, c) {
      HeaderScans(s, i, a, b, c);
    }
    if HeaderAt(s, i).Some? {
      var x := SkipSpaces(s, i + 5);
      var y := SkipIdentifier(s, x);
      SpacesEnd(s, i + 5, x);
      IdentifierEnds(s, x, y);
      SpacesEnd(s, y, HeaderAt(s, i).value.open);
    }
  }

  lemma HeaderScans(s: string, i: nat, a: nat, b: nat, c: nat)
    requires ReadsAsHeader(s, i, a, b, c)
    ensures SkipSpaces(s, i + 5) == a && SkipIdentifier(s, a) == b && SkipSpaces(s, b) == c
  {
    hide IsSpace, SkipSpaces, SkipIdentifier, IsNameCharacter;
    NamesAreNoSpace();
    assert s[a..b][0] == s[a] && IsNameCharacter(s[a]);
    assert !IsNameCharacter(s[b]) by {
      if b < c {
        assert s[b..c][0] == s[b];
      }
    }
    SpacesEnd(s, i + 5, a);
    IdentifierEnds(s, a, b);
    SpacesEnd(s, b, c);
  }

  predicate Covers(hs: seq<Header>, at: nat) {
    exists k :: 0 <= k < |hs| && hs[k].start <= at <= hs[k].open
  }

  lemma HeaderSpan(s: string, i: nat)
    requires i <= |s| && HeaderAt(s, i).Some?
    ensures HeaderAt(s, i).value.start == i < HeaderAt(s, i).value.open < |s|
  {
  }

  /** No header is missed but one that begins inside another. */
  lemma {:induction false} NoHeaderMissed(s: string, i: nat, at: nat)
    requires i <= at < |s| && HeaderAt(s, at).Some?
    ensures Covers(Headers(s, i), at)
    decreases |s| - i
  {
    hide HeaderAt, IsHeader;
    if HeaderAt(s, i).Some? {
      var h := HeaderAt(s, i).value;
      HeaderSpan(s, i);
      if at > h.open {
        NoHeaderMissed(s, h.open + 1, at);
        CoveredLater(h, Headers(s, h.open + 1), at);
      } else {
        assert Headers(s, i)[0] == h;
      }
    } else {
      NoHeaderMissed(s, i + 1, at);
    }
  }

  lemma CoveredLater(h: Header, rest: seq<Header>, at: nat)
    requires Covers(rest, at)
    ensures Covers([h] + rest, at)
  {
    var k :| 0 <= k < |rest| && rest[k].start <= at <= rest[k].open;
    assert ([h] + rest)[k + 1] == rest[k];
  }

  // ---------- braces ----------

  /** How many braces opened between two places are still open at the second. */
  function Depth(s: string, start: nat, stop: nat): int
    requires start <= stop <= |s|
    decreases stop
  {
    if stop == start then 0
    else Depth(s, start, stop - 1) + (if s[stop - 1] == '{' then 1 else if s[stop - 1] == '}' then -1 else 0)
  }

  /** The header's braces balance at `end` for the first time. */
  predicate ClosesAt(s: string, h: Header, end: nat) {
    && h.start <= h.open < end <= |s|
    && Depth(s, h.start, end) == 0
    && forall k :: h.open < k < end ==> Depth(s, h.start, k) > 0
  }

  predicate NeverCloses(s: string, h: Header) {
    h.start <= h.open && forall k :: h.open < k <= |s| ==> Depth(s, h.start, k) > 0
  }

  lemma {:induction false} NoBraceYet(s: string, h: Header, k: nat)
    requires IsHeader(s, h) && h.start <= k <= h.open
    ensures Depth(s, h.start, k) == 0
    decreases k
  {
    if k > h.start {
      NoBraceYet(s, h, k - 1);
      if k - 1 < h.start + 5 {
        assert s[k - 1] == s[h.start..h.start + 5][k - 1 - h.start];
      }
    }
  }

  lemma ClosesOnce(s: string, h: Header, end: nat, other: nat)
    requires IsHeader(s, h) && ClosesAt(s, h, end)
    ensures !NeverCloses(s, h)
    ensures ClosesAt(s, h, other) ==> other == end
    ensures s[end - 1] == '}'
  {
    assert Depth(s, h.start, end) <= 0;
    if end - 1 > h.open {
      assert Depth(s, h.start, end - 1) > 0;
    } else {
      NoBraceYet(s, h, h.open);
    }
  }

  method FindBlockEnd(s: string, h: Header) returns (end: Option<nat>)
    requires IsHeader(s, h)
    ensures end == None <==> NeverCloses(s, h)
    ensures end.Some? ==> ClosesAt(s, h, end.value)
  {
    hide IsHeader;
    var cursor, depth, seenOpening := h.start, 0, false;
    assert h.start <= h.open < |s| && s[h.open] == '{' by { HeaderShape(s, h); }
    while cursor < |s|
      invariant h.start <= cursor <= |s|
      invariant depth == Depth(s, h.start, cursor)
      invariant seenOpening <==> cursor > h.open
      invariant forall k :: h.open < k <= cursor ==> Depth(s, h.start, k) > 0
    {
      if cursor <= h.open {
        NoBraceYet(s, h, cursor);
        if cursor < h.open {
          NoBraceYet(s, h, cursor + 1);
        }
      }
      if s[cursor] == '{' {
        depth := depth + 1;
        seenOpening := true;
      } else if s[cursor] == '}' {
        depth := depth - 1;
        if seenOpening && depth == 0 {
          assert ClosesAt(s, h, cursor + 1);
          ClosesOnce(s, h, cursor + 1, cursor + 1);
          return Some(cursor + 1);
        }
      }
      cursor := cursor + 1;
    }
    return None;
  }

  lemma HeaderShape(s: string, h: Header)
    requires IsHeader(s, h)
    ensures h.start <= h.open < |s| && s[h.open] == '{' && s[h.start] == 'm'
  {
    assert s[h.start] == s[h.start..h.start + 5][0];
  }

  // ---------- models ----------

  datatype PrismaModel = PrismaModel(name: string, block: string, fieldCount: nat, relations: set<string>)

  /** The lines between a block's first and last. */
  function InnerLines(block: string): seq<string> {
    var lines := SplitLines(block);
    if |lines| <= 2 then [] else lines[1..|lines| - 1]
  }

  predicate IsField(line: string) {
    var field := Trim(line);
    var b := SkipIdentifier(field, 0);
    0 < b < |field| && IsSpace(field[b])
  }

  /** The type a field line names, if it names one. */
  function TypeNameOf(line: string): Option<string> {
    var field := Trim(line);
    var b := SkipIdentifier(field, 0);
    var a := SkipSpaces(field, b);
    var c := SkipIdentifier(field, a);
    if b == 0 || a == b || c == a then None else Some(field[a..c])
  }

  /** A field line: a name, then white space. */
  predicate ReadsAsField(field: string, b: nat) {
    0 < b < |field| && IsName(field[..b]) && IsSpace(field[b])
  }

  lemma FieldExact(line: string)
    ensures IsField(line) <==> exists b :: 0 <= b <= |Trim(line)| && ReadsAsField(Trim(line), b)
  {
    hide IsSpace, Trim, IsName, SkipIdentifier, IsNameCharacter;
    NamesAreNoSpace();
    var field := Trim(line);
    var b := SkipIdentifier(field, 0);
    if IsField(line) {
      IdentifierEnds(field, 0, b);
      assert field[0..b] == field[..b];
      assert ReadsAsField(field, b);
    }
    if k :| 0 <= k <= |field| && ReadsAsField(field, k) {
      assert !IsNameCharacter(field[k]);
      assert field[0..k] == field[..k];
      IdentifierEnds(field, 0, k);
    }
  }

  /** A typed field: a name up to `b`, white space up to `a`, and from there to `c` a name that goes on no further. */
  predicate ReadsAsTyped(field: string, b: nat, a: nat, c: nat) {
    && 0 < b < a < c <= |field| && IsName(field[..b]) && AllSpaces(field[b..a])
    && IsName(field[a..c]) && (c == |field| || !IsNameCharacter(field[c]))
  }

  /** A line names a type exactly when, trimmed, it reads as a typed field, and then its second name. */
  lemma TypeNameExact(line: string, typeName: string)
    ensures TypeNameOf(line) == Some(typeName)
            <==> exists b, a, c :: 0 <= b <= a <= c <= |Trim(line)| && ReadsAsTyped(Trim(line), b, a, c) && Trim(line)[a..c] == typeName
  {
    hide IsSpace, Trim, IsName, SkipIdentifier, SkipSpaces, AllSpaces, IsNameCharacter;
    var field := Trim(line);
    if TypeNameOf(line) == Some(typeName) {
      var b := SkipIdentifier(field, 0);
      var a := SkipSpaces(field, b);
      var c := SkipIdentifier(field, a);
      IdentifierEnds(field, 0, b);
      SpacesEnd(field, b, a);
      IdentifierEnds(field, a, c);
      assert field[0..b] == field[..b];
      assert ReadsAsTyped(field, b, a, c);
    }
    if b, a, c :| 0 <= b <= a <= c <= |field| && ReadsAsTyped(field, b, a, c) && field[a..c] == typeName {
      TypedScans(field, b, a, c);
    }
  }

  lemma TypedScans(field: string, b: nat, a: nat, c: nat)
    requires ReadsAsTyped(field, b, a, c)
    ensures SkipIdentifier(field, 0) == b && SkipSpaces(field, b) == a && SkipIdentifier(field, a) == c
  {
    hide IsSpace, SkipIdentifier, SkipSpaces, IsNameCharacter;
    NamesAreNoSpace();
    assert field[b..a][0] == field[b] && field[a..c][0] == field[a];
    assert field[0..b] == field[..b];
    IdentifierEnds(field, 0, b);
    SpacesEnd(field, b, a);
    IdentifierEnds(field, a, c);
  }

  /** The inner lines of a block are those between its first and its last. */
  lemma InnerLinesExact(first: string, inner: seq<string>, last: string)
    requires IsPlainLine(first) && IsPlainLine(last) && forall i :: 0 <= i < |inner| ==> IsPlainLine(inner[i])
    ensures InnerLines(Join([first] + inner + [last], "\n")) == inner
  {
    hide SplitLines, Join, IsPlainLine;
    var lines := [first] + inner + [last];
    forall i | 0 <= i < |lines| ensures IsPlainLine(lines[i]) {
      assert 0 < i <= |inner| ==> lines[i] == inner[i - 1];
    }
    SplitLinesOfJoin(lines);
    assert lines[1..|lines| - 1] == inner;
  }

  function FieldCount(lines: seq<string>): nat {
    if lines == [] then 0 else FieldCount(lines[..|lines| - 1]) + if IsField(lines[|lines| - 1]) then 1 else 0
  }

  lemma {:induction false} FieldCountExact(lines: seq<string>)
    ensures FieldCount(lines) == |set i | 0 <= i < |lines| && IsField(lines[i])|
  {
    hide IsField;
    var fields := set i | 0 <= i < |lines| && IsField(lines[i]);
    if lines != [] {
      var front := lines[..|lines| - 1];
      FieldCountExact(front);
      var frontFields := set i | 0 <= i < |front| && IsField(front[i]);
      assert forall i :: 0 <= i < |front| ==> front[i] == lines[i];
      if IsField(lines[|lines| - 1]) {
        assert fields == frontFields + {|lines| - 1};
      } else {
        assert fields == frontFields;
      }
    }
  }

  predicate Names(lines: seq<string>, typeName: string) {
    exists i :: 0 <= i < |lines| && TypeNameOf(lines[i]) == Some(typeName)
  }

  /** The other parsed models a model's fields name. */
  function RelationsOf(model: PrismaModel, names: set<string>): set<string> {
    set t | t in names && t != model.name && Names(InnerLines(model.block), t)
  }

  /** Of several headers with one name, the last one of the first `count`. */
  predicate IsLastOfName(hs: seq<Header>, count: nat, k: nat)
    requires count <= |hs|
  {
    k < count && forall j :: k < j < count ==> hs[j].name != hs[k].name
  }

  /** What is known of a parsed model before its relations are. */
  predicate IsModelOf(s: string, h: Header, model: PrismaModel) {
    && model.name == h.name
    && (exists end :: h.open < end <= |s| && ClosesAt(s, h, end) && model.block == s[h.start..end])
    && model.fieldCount == FieldCount(InnerLines(model.block))
  }

  /** Every name among the first `count` headers is parsed, from its last header, and no other name is. */
  ghost predicate AreModelsOf(s: string, hs: seq<Header>, count: nat, models: map<string, PrismaModel>)
    requires count <= |hs|
  {
    && (forall name :: name in models ==> exists k :: 0 <= k < count && hs[k].name == name)
    && (forall k :: 0 <= k < count ==> hs[k].name in models)
    && (forall k :: 0 <= k < count && IsLastOfName(hs, count, k) ==> IsModelOf(s, hs[k], models[hs[k].name]))
  }

  /** A model of the result: only its relations were filled in. */
  predicate SameButRelations(before: PrismaModel, after: PrismaModel) {
    after == before.(relations := after.relations)
  }

  lemma HeadersAreHeaders(s: string, k: nat)
    requires k < |Headers(s, 0)|
    ensures IsHeader(s, Headers(s, 0)[k])
  {
    hide IsHeader, HeaderAt;
    assert HeaderAt(s, Headers(s, 0)[k].start) == Some(Headers(s, 0)[k]);
  }

  /** A block begins with its keyword and ends with a brace: trimming it changes nothing. */
  lemma BlockIsTrimmed(s: string, h: Header, end: nat)
    requires IsHeader(s, h) && ClosesAt(s, h, end)
    ensures h.start <= h.open < end <= |s| && Trim(s[h.start..end]) == s[h.start..end]
  {
    hide Trim, Depth, IsHeader;
    var block := s[h.start..end];
    ClosesOnce(s, h, end, end);
    HeaderShape(s, h);
    assert block[|block| - 1] == '}' && block[0] == 'm';
    TrimTrims(block);
  }

  lemma AddModel(s: string, hs: seq<Header>, i: nat, models: map<string, PrismaModel>, model: PrismaModel)
    requires i < |hs| && AreModelsOf(s, hs, i, models) && IsModelOf(s, hs[i], model)
    ensures AreModelsOf(s, hs, i + 1, models[hs[i].name := model])
  {
    hide IsModelOf, IsLastOfName;
    var more := models[hs[i].name := model];
    forall k | 0 <= k < i + 1 && IsLastOfName(hs, i + 1, k) ensures IsModelOf(s, hs[k], more[hs[k].name]) {
      if k < i {
        StillLast(hs, i, k);
      }
    }
    forall name | name in more ensures exists k :: 0 <= k < i + 1 && hs[k].name == name {
      if name == hs[i].name {
        assert hs[i].name == name;
      } else {
        var k :| 0 <= k < i && hs[k].name == name;
      }
    }
  }

  lemma StillLast(hs: seq<Header>, i: nat, k: nat)
    requires k < i < |hs| && IsLastOfName(hs, i + 1, k)
    ensures IsLastOfName(hs, i, k) && hs[k].name != hs[i].name
  {
  }

  method ParsePrismaModels(s: string) returns (parsed: Outcome<map<string, PrismaModel>>)
    ensures parsed.IsFailure() <==> exists k :: 0 <= k < |Headers(s, 0)| && NeverCloses(s, Headers(s, 0)[k])
    ensures parsed.IsFailure() ==> parsed == Throw(UnclosedModel)
    ensures parsed.Ok? ==> AreModelsOf(s, Headers(s, 0), |Headers(s, 0)|, parsed.value)
    ensures parsed.Ok? ==>
              forall name :: name in parsed.value ==>
                parsed.value[name].name == name
                && parsed.value[name].relations == RelationsOf(parsed.value[name], parsed.value.Keys)
  {
    hide NeverCloses, ClosesAt, InnerLines, FieldCount, Headers, HeaderAt, IsHeader, AreModelsOf, Trim;
    var headers := Headers(s, 0);
    var models: map<string, PrismaModel> := map[];
    assert AreModelsOf(s, headers, 0, models) by { NoModels(s, headers); }
    for i := 0 to |headers|
      invariant forall k :: 0 <= k < i ==> !NeverCloses(s, headers[k])
      invariant AreModelsOf(s, headers, i, models)
      invariant forall name :: name in models ==> models[name].name == name && models[name].relations == {}
    {
      var h := headers[i];
      HeadersAreHeaders(s, i);
      var end := FindBlockEnd(s, h);
      if end == None {
        return Throw(UnclosedModel);
      }
      ClosesOnce(s, h, end.value, end.value);
      BlockIsTrimmed(s, h, end.value);
      var block := Trim(s[h.start..end.value]);
      var model := PrismaModel(h.name, block, FieldCount(InnerLines(block)), {});
      AddModel(s, headers, i, models, model);
      models := models[h.name := model];
    }
    models := AddRelations(s, headers, models);
    return Ok(models);
  }

  lemma NoModels(s: string, hs: seq<Header>)
    ensures AreModelsOf(s, hs, 0, map[])
  {
  }

  /** The second pass: each model's relations, once every model is known. */
  method AddRelations(s: string, hs: seq<Header>, models: map<string, PrismaModel>) returns (related: map<string, PrismaModel>)
    requires AreModelsOf(s, hs, |hs|, models)
    requires forall name :: name in models ==> models[name].name == name && models[name].relations == {}
    ensures AreModelsOf(s, hs, |hs|, related)
    ensures forall name :: name in related ==>
              related[name].name == name && related[name].relations == RelationsOf(related[name], related.Keys)
  {
    hide AreModelsOf, InnerLines, RelationsOf;
    related := models;
    var pending := models.Keys;
    while pending != {}
      invariant related.Keys == models.Keys && pending <= models.Keys
      invariant forall name :: name in models ==> SameButRelations(models[name], related[name])
      invariant forall name :: name in models && name !in pending ==>
                  related[name].relations == RelationsOf(related[name], models.Keys)
      decreases pending
    {
      var name :| name in pending;
      var relations := FindRelations(models[name], models.Keys);
      related := related[name := models[name].(relations := relations)];
      assert RelationsOf(related[name], models.Keys) == RelationsOf(models[name], models.Keys) by {
        SameRelations(models[name], related[name], models.Keys);
      }
      pending := pending - {name};
    }
    RelatedAreModels(s, hs, models, related);
  }

  lemma SameRelations(before: PrismaModel, after: PrismaModel, names: set<string>)
    requires SameButRelations(before, after)
    ensures RelationsOf(after, names) == RelationsOf(before, names)
  {
  }

  lemma RelatedAreModels(s: string, hs: seq<Header>, models: map<string, PrismaModel>, related: map<string, PrismaModel>)
    requires AreModelsOf(s, hs, |hs|, models) && related.Keys == models.Keys
    requires forall name :: name in models ==> SameButRelations(models[name], related[name])
    ensures AreModelsOf(s, hs, |hs|, related)
  {
    hide InnerLines, ClosesAt, FieldCount;
  }

  method FindRelations(model: PrismaModel, names: set<string>) returns (relations: set<string>)
    ensures relations == RelationsOf(model, names)
  {
    hide TypeNameOf, InnerLines;
    relations := {};
    var lines := InnerLines(model.block);
    for i := 0 to |lines|
      invariant relations == set t | t in names && t != model.name && Names(lines[..i], t)
    {
      var typeName := TypeNameOf(lines[i]);
      NamesOneMore(lines, i);
      if typeName.Some? && typeName.value != model.name && typeName.value in names {
        relations := relations + {typeName.value};
      }
    }
    assert lines[..|lines|] == lines;
  }

  lemma NamesOneMore(lines: seq<string>, i: nat)
    requires i < |lines|
    ensures forall t :: Names(lines[..i + 1], t) <==> Names(lines[..i], t) || TypeNameOf(lines[i]) == Some(t)
  {
    hide TypeNameOf;
    forall t ensures Names(lines[..i + 1], t) <==> Names(lines[..i], t) || TypeNameOf(lines[i]) == Some(t) {
      if Names(lines[..i], t) {
        var k :| 0 <= k < i && TypeNameOf(lines[..i][k]) == Some(t);
        assert lines[..i + 1][k] == lines[..i][k];
      }
      if Names(lines[..i + 1], t) {
        var k :| 0 <= k < i + 1 && TypeNameOf(lines[..i + 1][k]) == Some(t);
        if k < i {
          assert lines[..i][k] == lines[k];
        }
      }
      assert lines[..i + 1][i] == lines[i];
    }
  }

  /** In `owner Member` the type is the second name, whatever stands before and after on the line. */
  lemma TypeOfOwner()
    ensures TypeNameOf("  owner Member") == Some("Member") && IsField("  owner Member")
  {
    hide IsSpace, Trim, IsNameCharacter, TypeNameOf, IsField;
    var field := "owner Member";
    assert Trim("  owner Member") == field by { OwnerIsTrimmed(); }
    assert field[..5] == "owner" && field[5..6] == " " && field[6..12] == "Member";
    OwnerNames();
    assert ReadsAsTyped(field, 5, 6, 12);
    TypeNameExact("  owner Member", "Member");
    assert ReadsAsField(field, 5);
    FieldExact("  owner Member");
  }

  lemma OwnerNames()
    ensures IsName("owner") && IsName("Member") && IsSpace(' ')
  {
  }

  lemma OwnerIsTrimmed()
    ensures Trim("  owner Member") == "owner Member"
  {
    hide TrimEnd;
    var field := "owner Member";
    assert "  owner Member"[1..][1..] == field;
    assert TrimStart(field) == field;
    TrimEndKeepsAll(field);
  }

  lemma TrimEndKeepsAll(field: string)
    requires IsTrimmed(field) && field != ""
    ensures TrimEnd(field) == field
  {
  }
}
