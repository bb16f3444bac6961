/**
 * The bounded neighbourhood of the import graph: files, what each imports, what imports each, and
 * the nodes within so many hops of the chosen entries.
 */
module ImportGraph {
  import opened Outcomes

  datatype Graph = Graph(imports: map<string, set<string>>, importers: map<string, set<string>>)

  function EdgesOf(edges: map<string, set<string>>, node: string): set<string> {
    if node in edges then edges[node] else {}
  }

  predicate HasEdge(edges: map<string, set<string>>, from: string, to: string) {
    from in edges && to in edges[from]
  }

  /** `importers` is the exact converse of `imports`. */
  ghost predicate Converse(graph: Graph) {
    forall file, dependency :: HasEdge(graph.importers, dependency, file) <==> HasEdge(graph.imports, file, dependency)
  }

  /** The files a list of resolution outcomes names. */
  function Resolved(outcomes: seq<Option<string>>): set<string> {
    set o | o in outcomes && o.Some? :: o.value
  }

  lemma ResolvedMore(outcomes: seq<Option<string>>, outcome: Option<string>)
    ensures Resolved(outcomes + [outcome]) == Resolved(outcomes) + (if outcome.Some? then {outcome.value} else {})
  {
  }

  lemma ResolvedNames(outcomes: seq<Option<string>>, dependency: string)
    ensures dependency in Resolved(outcomes) <==> Some(dependency) in outcomes
  {
    if Some(dependency) in outcomes {
      assert Some(dependency).value == dependency;
    }
  }

  ghost predicate GrownBy(importers: map<string, set<string>>, before: map<string, set<string>>, file: string, resolved: set<string>) {
    forall dependency ::
      EdgesOf(importers, dependency) == EdgesOf(before, dependency) + (if dependency in resolved then {file} else {})
  }

  lemma ConverseGrown(imports: map<string, set<string>>, before: map<string, set<string>>,
                      file: string, resolved: set<string>, importers: map<string, set<string>>)
    requires Converse(Graph(imports, before)) && EdgesOf(imports, file) <= resolved && GrownBy(importers, before, file, resolved)
    ensures Converse(Graph(imports[file := resolved], importers))
  {
    var graph, was := Graph(imports[file := resolved], importers), Graph(imports, before);
    forall f, dependency
      ensures HasEdge(graph.importers, dependency, f) <==> HasEdge(graph.imports, f, dependency)
    {
      assert HasEdge(was.importers, dependency, f) <==> HasEdge(was.imports, f, dependency);
      assert f in EdgesOf(importers, dependency) <==> f in EdgesOf(before, dependency) + (if dependency in resolved then {file} else {});
    }
  }

  /**
   * Builds both directions at once. `outcomes` holds, for every TypeScript file, what each of its
   * static specifiers resolved to; one that resolves to no tracked file is skipped.
   */
  method BuildTypeScriptGraph(files: seq<string>, outcomes: map<string, seq<Option<string>>>) returns (graph: Graph)
    requires forall file :: file in files ==> file in outcomes
    ensures forall file :: file in graph.imports <==> file in files
    ensures forall file, dependency :: file in files ==>
              (dependency in graph.imports[file] <==> Some(dependency) in outcomes[file])
    ensures Converse(graph)
    ensures forall dependency :: dependency in graph.importers ==> graph.importers[dependency] != {}
  {
    hide Converse, Resolved, GrownBy;
    var imports: map<string, set<string>> := map[];
    var importers: map<string, set<string>> := map[];
    assert Converse(Graph(map[], map[])) by { ConverseEmpty(); }
    for i := 0 to |files|
      invariant forall file :: file in imports <==> file in files[..i]
      invariant forall file :: file in imports ==> file in outcomes && imports[file] == Resolved(outcomes[file])
      invariant Converse(Graph(imports, importers))
      invariant forall dependency :: dependency in importers ==> importers[dependency] != {}
    {
      var file := files[i];
      var resolved: set<string> := {};
      ghost var before := importers;
      assert GrownBy(importers, before, file, {}) by { GrownStart(importers, file); }
      assert Resolved([]) == {} by { ResolvedEmpty(); }
      for j := 0 to |outcomes[file]|
        invariant resolved == Resolved(outcomes[file][..j])
        invariant GrownBy(importers, before, file, resolved)
        invariant forall dependency :: dependency in importers ==> importers[dependency] != {}
      {
        var outcome := outcomes[file][j];
        assert outcomes[file][..j + 1] == outcomes[file][..j] + [outcome];
        ResolvedMore(outcomes[file][..j], outcome);
        if outcome.Some? {
          GrownMore(importers, before, file, resolved, outcome.value);
          resolved := resolved + {outcome.value};
          importers := importers[outcome.value := EdgesOf(importers, outcome.value) + {file}];
        }
      }
      assert outcomes[file][..|outcomes[file]|] == outcomes[file];
      assert files[..i + 1] == files[..i] + [file];
      ConverseGrown(imports, before, file, resolved, importers);
      imports := imports[file := resolved];
    }
    assert files[..|files|] == files;
    graph := Graph(imports, importers);
    forall file, dependency | file in files
      ensures dependency in graph.imports[file] <==> Some(dependency) in outcomes[file]
    {
      ResolvedNames(outcomes[file], dependency);
    }
  }

  lemma ConverseEmpty()
    ensures Converse(Graph(map[], map[]))
  {
  }

  lemma ResolvedEmpty()
    ensures Resolved([]) == {}
  {
  }

  lemma GrownStart(importers: map<string, set<string>>, file: string)
    ensures GrownBy(importers, importers, file, {})
  {
  }

  lemma GrownMore(importers: map<string, set<string>>, before: map<string, set<string>>, file: string, resolved: set<string>, dependency: string)
    requires GrownBy(importers, before, file, resolved)
    ensures GrownBy(importers[dependency := EdgesOf(importers, dependency) + {file}], before, file, resolved + {dependency})
  {
  }

  // ---------- distance ----------

  ghost predicate Adjacent(graph: Graph, a: string, b: string) {
    HasEdge(graph.imports, a, b) || HasEdge(graph.importers, a, b)
  }

  /** A walk along import edges, either way. */
  ghost predicate IsWalk(graph: Graph, walk: seq<string>) {
    |walk| >= 1 && forall i :: 0 <= i < |walk| - 1 ==> Adjacent(graph, walk[i], walk[i + 1])
  }

  ghost predicate IsWalkTo(graph: Graph, roots: set<string>, node: string, hops: nat, walk: seq<string>) {
    |walk| == hops + 1 && IsWalk(graph, walk) && walk[0] in roots && walk[hops] == node
  }

  ghost predicate Reaches(graph: Graph, roots: set<string>, node: string, hops: nat) {
    exists walk :: IsWalkTo(graph, roots, node, hops, walk)
  }

  /** The shortest walk from a root to `node` takes `hops` hops. */
  ghost predicate IsDistance(graph: Graph, roots: set<string>, node: string, hops: nat) {
    Reaches(graph, roots, node, hops) && forall fewer: nat :: fewer < hops ==> !Reaches(graph, roots, node, fewer)
  }

  lemma ReachesNext(graph: Graph, roots: set<string>, a: string, b: string, hops: nat)
    requires Reaches(graph, roots, a, hops) && Adjacent(graph, a, b)
    ensures Reaches(graph, roots, b, hops + 1)
  {
    var walk :| IsWalkTo(graph, roots, a, hops, walk);
    assert IsWalkTo(graph, roots, b, hops + 1, walk + [b]);
  }

  lemma ReachesRoot(graph: Graph, roots: set<string>, node: string)
    ensures Reaches(graph, roots, node, 0) <==> node in roots
  {
    if node in roots {
      assert IsWalkTo(graph, roots, node, 0, [node]);
    }
  }

  /** A reached node has a distance, no greater than the hops it was reached in. */
  lemma {:induction false} DistanceExists(graph: Graph, roots: set<string>, node: string, hops: nat) returns (distance: nat)
    requires Reaches(graph, roots, node, hops)
    ensures distance <= hops && IsDistance(graph, roots, node, distance)
  {
    if fewer: nat :| fewer < hops && Reaches(graph, roots, node, fewer) {
      distance := DistanceExists(graph, roots, node, fewer);
    } else {
      distance := hops;
    }
  }

  /** The node before the end of a shortest walk is one hop nearer. */
  lemma DistancePredecessor(graph: Graph, roots: set<string>, node: string, hops: nat) returns (previous: string)
    requires hops >= 1 && IsDistance(graph, roots, node, hops)
    ensures IsDistance(graph, roots, previous, hops - 1) && Adjacent(graph, previous, node)
  {
    var walk :| IsWalkTo(graph, roots, node, hops, walk);
    previous := walk[hops - 1];
    assert IsWalkTo(graph, roots, previous, hops - 1, walk[..hops]);
    forall fewer: nat | fewer < hops - 1 ensures !Reaches(graph, roots, previous, fewer) {
      if Reaches(graph, roots, previous, fewer) {
        ReachesNext(graph, roots, previous, node, fewer);
      }
    }
  }

  // ---------- selecting ----------

  predicate EndsWith(s: string, suffix: string) {
    |suffix| <= |s| && s[|s| - |suffix|..] == suffix
  }

  predicate IsTypeScriptPath(path: string) {
    EndsWith(path, ".ts") || EndsWith(path, ".tsx") || EndsWith(path, ".mts") || EndsWith(path, ".cts")
  }

  /** A file name with one of the four TypeScript extensions. */
  ghost predicate IsTypeScriptFile(path: string) {
    exists stem: string :: path == stem + ".ts" || path == stem + ".tsx" || path == stem + ".mts" || path == stem + ".cts"
  }

  lemma TypeScriptExact(path: string)
    ensures IsTypeScriptPath(path) <==> IsTypeScriptFile(path)
  {
    EndsExactly(path, ".ts");
    EndsExactly(path, ".tsx");
    EndsExactly(path, ".mts");
    EndsExactly(path, ".cts");
  }

  lemma EndsExactly(path: string, suffix: string)
    ensures EndsWith(path, suffix) <==> exists stem: string :: path == stem + suffix
  {
    if EndsWith(path, suffix) {
      assert path == path[..|path| - |suffix|] + suffix;
    }
  }

  /** The entries a selection starts from. */
  ghost function Roots(entries: seq<string>): set<string> {
    set entry | entry in entries && IsTypeScriptFile(entry)
  }

  /** `selected` gives exactly the nodes nearer than `bound` hops, each with its distance. */
  ghost predicate SelectedBelow(graph: Graph, roots: set<string>, selected: map<string, nat>, bound: nat) {
    && (forall node :: node in selected ==> selected[node] < bound && IsDistance(graph, roots, node, selected[node]))
    && (forall node, hops: nat :: hops < bound && IsDistance(graph, roots, node, hops) ==> node in selected)
  }

  /** A node first found next to one at distance `hop - 1` is at distance `hop`. */
  lemma FoundAtDistance(graph: Graph, roots: set<string>, selected: map<string, nat>, hop: nat, from: string, node: string)
    requires hop >= 1 && SelectedBelow(graph, roots, selected, hop)
    requires IsDistance(graph, roots, from, hop - 1) && Adjacent(graph, from, node) && node !in selected
    ensures IsDistance(graph, roots, node, hop)
  {
    ReachesNext(graph, roots, from, node, hop - 1);
    var distance := DistanceExists(graph, roots, node, hop);
    if distance < hop {
      assert false;
    }
  }

  /** Part of hop `hop`: `next` are the nodes selected in it so far, each at that distance. */
  ghost predicate HopSoFar(graph: Graph, roots: set<string>, before: map<string, nat>, selected: map<string, nat>, next: seq<string>, hop: nat) {
    && before.Keys <= selected.Keys
    && (forall node :: node in before ==> selected[node] == before[node])
    && (forall node :: node in next <==> node in selected && node !in before)
    && (forall node :: node in next ==> selected[node] == hop && IsDistance(graph, roots, node, hop))
  }

  /** Every neighbour of the first `count` frontier nodes is selected. */
  ghost predicate Covered(graph: Graph, frontier: seq<string>, count: nat, selected: map<string, nat>) {
    forall k, node :: 0 <= k < count && k < |frontier| && Adjacent(graph, frontier[k], node) ==> node in selected
  }

  lemma HopStart(graph: Graph, roots: set<string>, selected: map<string, nat>, frontier: seq<string>, hop: nat)
    ensures HopSoFar(graph, roots, selected, selected, [], hop) && Covered(graph, frontier, 0, selected)
  {
  }

  lemma HopAdd(graph: Graph, roots: set<string>, before: map<string, nat>, selected: map<string, nat>, next: seq<string>, hop: nat,
               from: string, node: string, frontier: seq<string>, count: nat)
    requires hop >= 1 && SelectedBelow(graph, roots, before, hop) && HopSoFar(graph, roots, before, selected, next, hop)
    requires from in before && before[from] == hop - 1 && Adjacent(graph, from, node) && node !in selected
    requires Covered(graph, frontier, count, selected)
    ensures HopSoFar(graph, roots, before, selected[node := hop], next + [node], hop)
    ensures Covered(graph, frontier, count, selected[node := hop])
  {
    hide Adjacent, IsDistance;
    FoundAtDistance(graph, roots, before, hop, from, node);
  }

  lemma CoveredMore(graph: Graph, frontier: seq<string>, count: nat, selected: map<string, nat>, neighbours: set<string>)
    requires Covered(graph, frontier, count, selected) && count < |frontier|
    requires neighbours == EdgesOf(graph.imports, frontier[count]) + EdgesOf(graph.importers, frontier[count])
    requires neighbours <= selected.Keys
    ensures Covered(graph, frontier, count + 1, selected)
  {
  }

  /**
   * Maps a node to h exactly when its shortest undirected import distance from a TypeScript entry is
   * h and h is within the depth, for any graph.
   */
  method SelectGraphNodes(graph: Graph, entries: seq<string>, depth: int) returns (selected: map<string, nat>)
    ensures forall node, hops: nat ::
              (node in selected && selected[node] == hops)
              <==> IsDistance(graph, Roots(entries), node, hops) && (hops == 0 || hops <= depth)
  {
    hide IsDistance, HopSoFar, Covered, SelectedBelow, IsTypeScriptPath, IsTypeScriptFile;
    ghost var roots := Roots(entries);
    selected := map[];
    var frontier: seq<string> := [];
    for i := 0 to |entries|
      invariant forall node :: node in frontier <==> node in entries[..i] && IsTypeScriptFile(node)
      invariant forall node :: node in selected <==> node in frontier
      invariant forall node :: node in selected ==> selected[node] == 0
    {
      assert entries[..i + 1] == entries[..i] + [entries[i]];
      TypeScriptExact(entries[i]);
      if IsTypeScriptPath(entries[i]) {
        frontier := frontier + [entries[i]];
        selected := selected[entries[i] := 0];
      }
    }
    assert entries[..|entries|] == entries;
    RootsSelected(graph, roots, selected);
    var hop := 1;
    while hop <= depth
      invariant 1 <= hop && (hop <= depth + 1 || hop == 1)
      invariant SelectedBelow(graph, roots, selected, hop)
      invariant forall node :: node in frontier <==> node in selected && selected[node] == hop - 1
      decreases depth - hop
    {
      var next: seq<string> := [];
      ghost var before := selected;
      HopStart(graph, roots, selected, frontier, hop);
      for i := 0 to |frontier|
        invariant HopSoFar(graph, roots, before, selected, next, hop) && Covered(graph, frontier, i, selected)
      {
        var from := frontier[i];
        assert from in frontier;
        var neighbours := EdgesOf(graph.imports, from) + EdgesOf(graph.importers, from);
        var left := neighbours;
        while left != {}
          invariant left <= neighbours <= selected.Keys + left
          invariant HopSoFar(graph, roots, before, selected, next, hop) && Covered(graph, frontier, i, selected)
          decreases left
        {
          var neighbour :| neighbour in left;
          left := left - {neighbour};
          if neighbour !in selected {
            HopAdd(graph, roots, before, selected, next, hop, from, neighbour, frontier, i);
            selected := selected[neighbour := hop];
            next := next + [neighbour];
          }
        }
        CoveredMore(graph, frontier, i, selected, neighbours);
      }
      HopComplete(graph, roots, before, selected, next, frontier, hop);
      frontier := next;
      hop := hop + 1;
    }
    SelectionExact(graph, roots, selected, hop, depth);
  }

  lemma RootsSelected(graph: Graph, roots: set<string>, selected: map<string, nat>)
    requires selected.Keys == roots && forall node :: node in selected ==> selected[node] == 0
    ensures SelectedBelow(graph, roots, selected, 1)
  {
    forall node ensures IsDistance(graph, roots, node, 0) <==> node in roots {
      ReachesRoot(graph, roots, node);
    }
  }

  /** A whole hop selects exactly the nodes at its distance. */
  lemma HopComplete(graph: Graph, roots: set<string>, before: map<string, nat>, selected: map<string, nat>, next: seq<string>,
                    frontier: seq<string>, hop: nat)
    requires hop >= 1 && SelectedBelow(graph, roots, before, hop) && HopSoFar(graph, roots, before, selected, next, hop)
    requires forall node :: node in frontier <==> node in before && before[node] == hop - 1
    requires Covered(graph, frontier, |frontier|, selected)
    ensures SelectedBelow(graph, roots, selected, hop + 1)
    ensures forall node :: node in next <==> node in selected && selected[node] == hop
  {
    hide Adjacent, IsDistance;
    forall node, hops: nat | hops < hop + 1 && IsDistance(graph, roots, node, hops) ensures node in selected {
      if hops == hop {
        var previous := DistancePredecessor(graph, roots, node, hop);
        assert previous in before;
        DistanceUnique(graph, roots, previous, hop - 1, before[previous]);
        assert previous in frontier;
      }
    }
    forall node | node in selected && node !in next ensures selected[node] != hop {
      assert node in before && before[node] < hop;
    }
  }

  lemma DistanceUnique(graph: Graph, roots: set<string>, node: string, a: nat, b: nat)
    requires IsDistance(graph, roots, node, a) && IsDistance(graph, roots, node, b)
    ensures a == b
  {
  }

  lemma SelectionExact(graph: Graph, roots: set<string>, selected: map<string, nat>, bound: nat, depth: int)
    requires SelectedBelow(graph, roots, selected, bound) && bound == (if depth > 0 then depth + 1 else 1)
    ensures forall node, hops: nat ::
              (node in selected && selected[node] == hops)
              <==> IsDistance(graph, roots, node, hops) && (hops == 0 || hops <= depth)
  {
    hide IsDistance;
    forall node, hops: nat
      ensures (node in selected && selected[node] == hops)
              <==> IsDistance(graph, roots, node, hops) && (hops == 0 || hops <= depth)
    {
      if IsDistance(graph, roots, node, hops) && hops < bound {
        DistanceUnique(graph, roots, node, hops, selected[node]);
      }
    }
  }

  // ---------- distance runs both ways ----------

  lemma AdjacentSymmetric(graph: Graph, a: string, b: string)
    requires Converse(graph)
    ensures Adjacent(graph, a, b) <==> Adjacent(graph, b, a)
  {
  }

  lemma ReachesBack(graph: Graph, a: string, b: string, hops: nat)
    requires Converse(graph) && Reaches(graph, {a}, b, hops)
    ensures Reaches(graph, {b}, a, hops)
  {
    hide Converse, Adjacent;
    var walk :| IsWalkTo(graph, {a}, b, hops, walk);
    var back := seq(hops + 1, i requires 0 <= i <= hops => walk[hops - i]);
    forall i | 0 <= i < |back| - 1 ensures Adjacent(graph, back[i], back[i + 1]) {
      var k := hops - i - 1;
      assert Adjacent(graph, walk[k], walk[k + 1]);
      AdjacentSymmetric(graph, walk[k], walk[k + 1]);
    }
    assert IsWalkTo(graph, {b}, a, hops, back);
  }

  /** In a built graph two files are as far from each other whichever of them is the entry. */
  lemma DistanceSymmetric(graph: Graph, a: string, b: string, hops: nat)
    requires Converse(graph)
    ensures IsDistance(graph, {a}, b, hops) <==> IsDistance(graph, {b}, a, hops)
  {
    hide Converse, Reaches;
    forall n: nat ensures Reaches(graph, {a}, b, n) <==> Reaches(graph, {b}, a, n) {
      if Reaches(graph, {a}, b, n) {
        ReachesBack(graph, a, b, n);
      }
      if Reaches(graph, {b}, a, n) {
        ReachesBack(graph, b, a, n);
      }
    }
  }
}
