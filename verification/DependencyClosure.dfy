/**
  The dependency closures behind the release SBOM and the third-party notices, and the dependency
  graph that is rendered from them. Lists that the source sorts are produced here in an
  arbitrary order without repetition, so that nothing proved depends on the order.
*/
module DependencyClosure {
  import opened Prelude

  type Id = string
  type Ref = string

  datatype Kind = Normal | Build | Dev

  datatype Dependency = Dependency(pkg: Id, kinds: set<Kind>)
  datatype Node = Node(id: Id, deps: seq<Dependency>)
  datatype Package = Package(id: Id, name: string, version: string, source: Option<string>)
  datatype Metadata = Metadata(packages: seq<Package>, nodes: seq<Node>)

  datatype Failure = NotOneRoot | Unknown(id: Id) | RefsNotUnique | PurlsNotUnique

  const ROOT_PACKAGE := "requests-native-python"

  // ----- the graph -----

  /** `{package["id"]: package for …}`: the last package of an id wins. */
  function PackagesById(packages: seq<Package>): (m: map<Id, Package>)
    ensures forall id :: id in m ==> m[id].id == id
  {
    if packages == [] then map[]
    else var n := |packages| - 1; PackagesById(packages[..n])[packages[n].id := packages[n]]
  }

  function NodesById(nodes: seq<Node>): map<Id, Node> {
    if nodes == [] then map[]
    else var n := |nodes| - 1; NodesById(nodes[..n])[nodes[n].id := nodes[n]]
  }

  function Roots(packages: seq<Package>): seq<Id> {
    if packages == [] then []
    else
      var n := |packages| - 1;
      Roots(packages[..n])
      + if packages[n].name == ROOT_PACKAGE && packages[n].source.None? then [packages[n].id] else []
  }

  /** The dictionaries of the metadata hold the last record of every id. */
  lemma {:induction false} PackagesMeaning(packages: seq<Package>, id: Id)
    ensures var m := PackagesById(packages);
            id in m <==> exists i :: 0 <= i < |packages| && packages[i].id == id
    ensures var m := PackagesById(packages);
            id in m ==> exists i :: 0 <= i < |packages| && packages[i] == m[id] && forall j :: i < j < |packages| ==>
              packages[j].id != id
  {
    if packages != [] {
      var n := |packages| - 1;
      PackagesMeaning(packages[..n], id);
      assert forall i :: 0 <= i < n ==> packages[..n][i] == packages[i];
    }
  }

  lemma {:induction false} NodesMeaning(nodes: seq<Node>, id: Id)
    ensures var m := NodesById(nodes);
            id in m <==> exists i :: 0 <= i < |nodes| && nodes[i].id == id
    ensures var m := NodesById(nodes);
            id in m ==> exists i :: 0 <= i < |nodes| && nodes[i] == m[id] && forall j :: i < j < |nodes| ==>
              nodes[j].id != id
  {
    if nodes != [] {
      var n := |nodes| - 1;
      NodesMeaning(nodes[..n], id);
      assert forall i :: 0 <= i < n ==> nodes[..n][i] == nodes[i];
    }
  }

  ghost predicate IsRoot(p: Package, id: Id) {
    p.id == id && p.name == "requests-native-python" && p.source == None
  }

  ghost function RootPlaces(packages: seq<Package>, id: Id): set<int> {
    set i | 0 <= i < |packages| && IsRoot(packages[i], id)
  }

  lemma PlacesExtended(packages: seq<Package>, id: Id)
    requires packages != []
    ensures var n := |packages| - 1;
            RootPlaces(packages, id) == RootPlaces(packages[..n], id) + if IsRoot(packages[n], id) then {n} else {}
  {
    hide IsRoot;
    var n := |packages| - 1;
    assert forall i :: 0 <= i < n ==> packages[..n][i] == packages[i];
  }

  /** The roots are the packages of the project's own name that have no source, one for each record. */
  lemma {:induction false} RootsMeaning(packages: seq<Package>, id: Id)
    ensures multiset(Roots(packages))[id] == |RootPlaces(packages, id)|
  {
    if packages == [] {
      assert RootPlaces(packages, id) == {};
    } else {
      var n := |packages| - 1;
      RootsMeaning(packages[..n], id);
      RootAppended(packages, id);
      PlacesExtended(packages, id);
      assert n !in RootPlaces(packages[..n], id);
      hide Roots, RootPlaces, IsRoot;
    }
  }

  lemma RootAppended(packages: seq<Package>, id: Id)
    requires packages != []
    ensures var n := |packages| - 1;
            multiset(Roots(packages))[id] == multiset(Roots(packages[..n]))[id] + if IsRoot(packages[n], id) then 1
              else 0
  {
  }

  datatype Graph = Graph(packages: map<Id, Package>, nodes: map<Id, Node>)

  function GraphOf(metadata: Metadata): Graph {
    Graph(PackagesById(metadata.packages), NodesById(metadata.nodes))
  }

  predicate Known(g: Graph, id: Id) { id in g.packages && id in g.nodes }

  /** The dependencies of a package along edges of one of the kinds. */
  function Targets(g: Graph, kinds: set<Kind>, id: Id): set<Id> {
    if id in g.nodes then set d | d in g.nodes[id].deps && d.kinds * kinds != {} :: d.pkg else {}
  }

  /** What is followed for the release: normal and build dependencies; at run time normal ones only. */
  lemma TargetsMeaning(g: Graph, id: Id, d: Id)
    ensures d in Targets(g, RELEASE, id) <==>
              id in g.nodes
              && exists e :: e in g.nodes[id].deps && e.pkg == d && (Normal in e.kinds || Build in e.kinds)
    ensures d in Targets(g, RUNTIME, id) <==>
              id in g.nodes && exists e :: e in g.nodes[id].deps && e.pkg == d && Normal in e.kinds
  {
    if id in g.nodes {
      forall e | e in g.nodes[id].deps
        ensures e.kinds * RELEASE != {} <==> Normal in e.kinds || Build in e.kinds
        ensures e.kinds * RUNTIME != {} <==> Normal in e.kinds
      {
        assert Normal in e.kinds ==> Normal in e.kinds * RELEASE && Normal in e.kinds * RUNTIME;
        assert Build in e.kinds ==> Build in e.kinds * RELEASE;
        if e.kinds * RELEASE != {} { assert exists k :: k in e.kinds * RELEASE; }
        if e.kinds * RUNTIME != {} { assert exists k :: k in e.kinds * RUNTIME; }
      }
    }
  }

  ghost predicate IsPath(g: Graph, kinds: set<Kind>, path: seq<Id>) {
    path != [] && forall i :: 0 <= i < |path| - 1 ==> path[i + 1] in Targets(g, kinds, path[i])
  }

  ghost predicate Joins(g: Graph, kinds: set<Kind>, path: seq<Id>, root: Id, id: Id) {
    IsPath(g, kinds, path) && path[0] == root && path[|path| - 1] == id
  }

  /** There is a path of dependencies from the root. */
  ghost predicate Reachable(g: Graph, kinds: set<Kind>, root: Id, id: Id) {
    exists path :: Joins(g, kinds, path, root, id)
  }

  lemma ReachesItself(g: Graph, kinds: set<Kind>, root: Id)
    ensures Reachable(g, kinds, root, root)
  {
    assert Joins(g, kinds, [root], root, root);
  }

  lemma ReachesTargets(g: Graph, kinds: set<Kind>, root: Id, id: Id)
    requires Reachable(g, kinds, root, id)
    ensures forall d :: d in Targets(g, kinds, id) ==> Reachable(g, kinds, root, d)
  {
    var path :| Joins(g, kinds, path, root, id);
    forall d | d in Targets(g, kinds, id) ensures Reachable(g, kinds, root, d) {
      assert Joins(g, kinds, path + [d], root, d);
    }
  }

  /** A set that contains the root and the targets of its members contains everything reachable. */
  lemma ClosedContainsReachable(g: Graph, kinds: set<Kind>, root: Id, s: set<Id>, id: Id)
    requires root in s && forall x :: x in s ==> Targets(g, kinds, x) <= s
    requires Reachable(g, kinds, root, id)
    ensures id in s
  {
    var path :| Joins(g, kinds, path, root, id);
    PathStays(g, kinds, s, path, |path| - 1);
  }

  lemma {:induction false} PathStays(g: Graph, kinds: set<Kind>, s: set<Id>, path: seq<Id>, i: nat)
    requires forall x :: x in s ==> Targets(g, kinds, x) <= s
    requires IsPath(g, kinds, path) && path[0] in s && i < |path|
    ensures path[i] in s
  {
    if i > 0 {
      PathStays(g, kinds, s, path, i - 1);
      assert path[i - 1 + 1] in Targets(g, kinds, path[i - 1]);
    }
  }

  /** More kinds of edges reach more. */
  lemma ReachableMonotone(g: Graph, few: set<Kind>, many: set<Kind>, root: Id, id: Id)
    requires few <= many && Reachable(g, few, root, id)
    ensures Reachable(g, many, root, id)
  {
    var path :| Joins(g, few, path, root, id);
    forall i | 0 <= i < |path| - 1 ensures path[i + 1] in Targets(g, many, path[i]) {
      assert path[i + 1] in Targets(g, few, path[i]);
      var d :| d in g.nodes[path[i]].deps && d.kinds * few != {} && d.pkg == path[i + 1];
      assert d.kinds * few <= d.kinds * many;
      assert (forall k :: k !in d.kinds * many) ==> d.kinds * many == {};
    }
    assert Joins(g, many, path, root, id);
  }

  // ----- the worklist -----

  method Listing(s: set<Id>) returns (q: seq<Id>)
    ensures (forall x :: x in q <==> x in s) && NoRepeats(q)
  {
    q := [];
    var left := s;
    while left != {}
      invariant left <= s && NoRepeats(q) && forall x :: x in q <==> x in s - left
      decreases left
    {
      assert (forall y :: y !in left) ==> left == {};
      var x :| x in left;
      assert x !in q;
      left := left - {x};
      q := q + [x];
    }
  }

  /** What both worklists keep: nothing unreachable is queued, and no dependency of a visited package is forgotten. */
  ghost predicate Working(g: Graph, kinds: set<Kind>, root: Id, queue: seq<Id>, visited: set<Id>) {
    && (root in visited || root in queue)
    && (forall x :: x in queue || x in visited ==> Reachable(g, kinds, root, x))
    && (forall x, d :: x in visited && d in Targets(g, kinds, x) ==> d in visited || d in queue)
  }

  ghost predicate IsClosure(g: Graph, kinds: set<Kind>, root: Id, visited: set<Id>) {
    forall id :: id in visited <==> Reachable(g, kinds, root, id)
  }

  lemma WorkedOff(g: Graph, kinds: set<Kind>, root: Id, visited: set<Id>)
    requires Working(g, kinds, root, [], visited)
    ensures IsClosure(g, kinds, root, visited)
    ensures forall x :: x in visited ==> Targets(g, kinds, x) <= visited
  {
    hide Reachable, Targets;
    forall id | Reachable(g, kinds, root, id) ensures id in visited {
      ClosedContainsReachable(g, kinds, root, visited, id);
    }
  }

  lemma Visit(g: Graph, kinds: set<Kind>, root: Id, queue: seq<Id>, visited: set<Id>, more: seq<Id>)
    requires queue != [] && Working(g, kinds, root, queue, visited)
    requires if queue[0] in visited then more == [] else forall d :: d in more <==> d in Targets(g, kinds, queue[0])
    ensures Working(g, kinds, root, queue[1..] + more, visited + {queue[0]})
  {
    hide Targets, Reachable;
    var id, rest := queue[0], queue[1..];
    assert queue == [id] + rest;
    ReachesTargets(g, kinds, root, id);
  }

  /** `closure`: exactly the reachable packages with exactly their edges, or a reachable package that is unknown. */
  method Closure(g: Graph, root: Id, kinds: set<Kind>) returns (r: Result<(set<Id>, map<Id, set<Id>>), Failure>)
    ensures r.Err? ==> r.error.Unknown? && Reachable(g, kinds, root, r.error.id) && !Known(g, r.error.id)
    ensures r.Ok? ==>
              var (visited, edges) := r.value;
              && IsClosure(g, kinds, root, visited)
              && edges.Keys == visited
              && forall id :: id in visited ==>
                Known(g, id) && edges[id] == Targets(g, kinds, id) && edges[id] <= visited
  {
    var queue := [root];
    var visited: set<Id> := {};
    var edges: map<Id, set<Id>> := map[];
    ReachesItself(g, kinds, root);
    hide Targets, Reachable;
    while queue != []
      invariant Working(g, kinds, root, queue, visited) && edges.Keys == visited
      invariant forall id :: id in visited ==> Known(g, id) && edges[id] == Targets(g, kinds, id)
      decreases g.packages.Keys - visited, |queue|
    {
      var id := queue[0];
      if id in visited {
        Visit(g, kinds, root, queue, visited, []);
        assert visited + {id} == visited && queue[1..] + [] == queue[1..];
        queue := queue[1..];
        continue;
      }
      if !Known(g, id) { return Err(Unknown(id)); }
      var dependencies := Targets(g, kinds, id);
      var more := Listing(dependencies);
      Visit(g, kinds, root, queue, visited, more);
      visited := visited + {id};
      edges := edges[id := dependencies];
      queue := queue[1..] + more;
    }
    WorkedOff(g, kinds, root, visited);
    r := Ok((visited, edges));
  }

  // ----- release_graph -----

  datatype Release = Release(root: Id, included: set<Id>, required: set<Id>, edges: map<Id, set<Id>>)

  const RUNTIME := {Normal}
  const RELEASE := {Normal, Build}

  /** What `release_graph` promises of its result. */
  ghost predicate IsRelease(g: Graph, release: Release) {
    && IsClosure(g, RELEASE, release.root, release.included)
    && IsClosure(g, RUNTIME, release.root, release.required)
    && release.required <= release.included && release.root in release.required
    && release.edges.Keys == release.included
    && forall id :: id in release.included ==>
         Known(g, id) && release.edges[id] == Targets(g, RELEASE, id) && release.edges[id] <= release.included
  }

  /** The graph is complete: one root, and everything reachable from it is described. */
  ghost predicate Complete(metadata: Metadata, kinds: set<Kind>) {
    var g, roots := GraphOf(metadata), Roots(metadata.packages);
    |roots| == 1 && forall id :: Reachable(g, kinds, roots[0], id) ==> Known(g, id)
  }

  method ReleaseGraph(metadata: Metadata) returns (r: Result<Release, Failure>)
    ensures r.Ok? <==> Complete(metadata, RELEASE)
    ensures r.Ok? ==> r.value.root == Roots(metadata.packages)[0] && IsRelease(GraphOf(metadata), r.value)
  {
    var g := GraphOf(metadata);
    var roots := Roots(metadata.packages);
    if |roots| != 1 { return Err(NotOneRoot); }
    hide Targets, Reachable, GraphOf, Roots;
    var runtime := Closure(g, roots[0], RUNTIME);
    if runtime.Err? {
      ReachableMonotone(g, RUNTIME, RELEASE, roots[0], runtime.error.id);
      return Err(runtime.error);
    }
    var all := Closure(g, roots[0], RELEASE);
    if all.Err? { return Err(all.error); }
    var required := runtime.value.0;
    forall id | id in required ensures id in all.value.0 { ReachableMonotone(g, RUNTIME, RELEASE, roots[0], id); }
    ReachesItself(g, RUNTIME, roots[0]);
    r := Ok(Release(roots[0], all.value.0, required, all.value.1));
  }

  // ----- runtime_packages -----

  /** A package with a source that is not empty. */
  predicate HasSource(p: Package) { p.source.Some? && p.source.value != "" }

  /** The second worklist queues the targets one dependency at a time, with repetitions. */
  method QueueTargets(node: Node, kinds: set<Kind>) returns (more: seq<Id>)
    ensures forall d :: d in more <==>
              exists i :: 0 <= i < |node.deps| && node.deps[i].kinds * kinds != {} && node.deps[i].pkg == d
  {
    more := [];
    for k := 0 to |node.deps|
      invariant forall d :: d in more <==>
                exists i :: 0 <= i < k && node.deps[i].kinds * kinds != {} && node.deps[i].pkg == d
    {
      if node.deps[k].kinds * kinds != {} { more := more + [node.deps[k].pkg]; }
    }
  }

  /** The second closure, over runtime edges only; a missing node is a KeyError. */
  method RuntimeClosure(g: Graph, root: Id) returns (r: Result<set<Id>, Failure>)
    ensures r.Err? ==> r.error.Unknown? && Reachable(g, RUNTIME, root, r.error.id) && !Known(g, r.error.id)
    ensures r.Ok? ==> IsClosure(g, RUNTIME, root, r.value) && forall id :: id in r.value ==> id in g.nodes
  {
    var queue := [root];
    var visited: set<Id> := {};
    ReachesItself(g, RUNTIME, root);
    hide Reachable;
    while queue != []
      invariant Working(g, RUNTIME, root, queue, visited)
      invariant forall id :: id in visited ==> id in g.nodes
      decreases g.nodes.Keys - visited, |queue|
    {
      var id := queue[0];
      if id in visited {
        Visit(g, RUNTIME, root, queue, visited, []);
        assert visited + {id} == visited && queue[1..] + [] == queue[1..];
        queue := queue[1..];
        continue;
      }
      if id !in g.nodes { return Err(Unknown(id)); }
      var more := QueueTargets(g.nodes[id], RUNTIME);
      assert forall d :: d in more <==> d in Targets(g, RUNTIME, id);
      Visit(g, RUNTIME, root, queue, visited, more);
      visited := visited + {id};
      queue := queue[1..] + more;
    }
    WorkedOff(g, RUNTIME, root, visited);
    r := Ok(visited);
  }

  /**
    `runtime_packages`: on complete metadata, exactly the packages with a source among those reachable
    along runtime edges, each once.
  */
  method RuntimePackages(metadata: Metadata) returns (r: Result<seq<Package>, Failure>)
    ensures r.Ok? <==> Complete(metadata, RUNTIME)
    ensures r.Ok? ==>
              var g, root := GraphOf(metadata), Roots(metadata.packages)[0];
              && NoRepeats(r.value)
              && forall p :: p in r.value <==>
                   Reachable(g, RUNTIME, root, p.id) && p.id in g.packages && g.packages[p.id] == p
                   && p.source.Some? && p.source.value != ""
  {
    var g := GraphOf(metadata);
    var roots := Roots(metadata.packages);
    if |roots| != 1 { return Err(NotOneRoot); }
    hide Reachable, Roots, Targets;
    var closure := RuntimeClosure(g, roots[0]);
    if closure.Err? { return Err(closure.error); }
    var ids := Listing(closure.value);
    var result: seq<Package> := [];
    for i := 0 to |ids|
      invariant forall k :: 0 <= k < i ==> Known(g, ids[k])
      invariant NoRepeats(result)
      invariant forall p :: p in result <==>
                p.id in ids[..i] && p.id in g.packages && g.packages[p.id] == p && HasSource(p)
    {
      var id := ids[i];
      assert id in ids && ids[..i + 1] == ids[..i] + [id];
      if id !in g.packages { return Err(Unknown(id)); }
      assert id !in ids[..i];
      if HasSource(g.packages[id]) { result := result + [g.packages[id]]; }
    }
    assert ids[..|ids|] == ids;
    r := Ok(result);
  }

  /** The two scripts agree: the notices list exactly the packages the SBOM marks required that have a source. */
  method ScriptsAgree(metadata: Metadata)
    returns (release: Result<Release, Failure>, notices: Result<seq<Package>, Failure>)
    ensures release.Ok? ==> notices.Ok?
    ensures release.Ok? ==>
              var g := GraphOf(metadata);
              forall p :: p in notices.value <==>
                p.id in release.value.required && p.id in g.packages && g.packages[p.id] == p
                   && p.source.Some? && p.source.value != ""
  {
    release := ReleaseGraph(metadata);
    notices := RuntimePackages(metadata);
    if Complete(metadata, RELEASE) {
      var g, root := GraphOf(metadata), Roots(metadata.packages)[0];
      forall id | Reachable(g, RUNTIME, root, id) ensures Known(g, id) {
        ReachableMonotone(g, RUNTIME, RELEASE, root, id);
      }
    }
  }

  // ----- the rendered graph -----

  datatype Line = Line(ref: Ref, dependsOn: seq<Ref>)

  /** The references and the purls of the components, the root component first, and the dependency lines. */
  datatype Document = Document(components: seq<Ref>, purls: seq<string>, dependencies: seq<Line>)

  /** The graph checks of `validate_sbom`. */
  ghost predicate GraphChecks(d: Document) {
    && NoRepeats(d.components) && NoRepeats(d.purls) && |d.purls| == |d.components|
    && (forall i, j :: 0 <= i < j < |d.dependencies| ==> d.dependencies[i].ref != d.dependencies[j].ref)
    && (forall ref :: ref in d.components <==> exists i :: 0 <= i < |d.dependencies| && d.dependencies[i].ref == ref)
    && (forall i :: 0 <= i < |d.dependencies| ==> NoRepeats(d.dependencies[i].dependsOn))
    && (forall i, ref :: 0 <= i < |d.dependencies| && ref in d.dependencies[i].dependsOn ==> ref in d.components)
  }

  /** `package_ref`: the id, or for a package without a source its purl. */
  function RefOf(p: Package, purl: Package -> string): Ref {
    if p.source.Some? then p.id else purl(p)
  }

  ghost predicate RefsUnique(refs: map<Id, Ref>) {
    forall a, b :: a in refs && b in refs && refs[a] == refs[b] ==> a == b
  }

  lemma OneMore(rest: map<Id, Ref>, id: Id, refs: map<Id, Ref>)
    requires id in refs && rest == refs - {id}
    ensures RefsUnique(refs) <==> RefsUnique(rest) && refs[id] !in rest.Values
  {
    assert forall x :: x in rest ==> rest[x] == refs[x] && rest[x] in rest.Values;
  }

  lemma {:induction false} ValuesCounted(refs: map<Id, Ref>)
    ensures |refs.Values| <= |refs|
    ensures RefsUnique(refs) <==> |refs.Values| == |refs|
    decreases |refs|
  {
    if refs != map[] {
      assert (forall y :: y !in refs) ==> refs == map[];
      var id :| id in refs;
      var rest := refs - {id};
      assert rest.Keys == refs.Keys - {id};
      assert |rest| == |refs| - 1;
      ValuesCounted(rest);
      assert refs.Values == rest.Values + {refs[id]} by {
        assert forall x :: x in refs ==> x == id || (x in rest && rest[x] == refs[x]);
      }
      OneMore(rest, id, refs);
    }
  }

  /** The references of some ids, which are different when the ids are. */
  function RefsAt(refs: map<Id, Ref>, ids: seq<Id>): (r: seq<Ref>)
    requires forall id :: id in ids ==> id in refs
    ensures |r| == |ids| && forall i :: 0 <= i < |ids| ==> r[i] == refs[ids[i]]
  {
    seq(|ids|, i requires 0 <= i < |ids| => assert ids[i] in ids; refs[ids[i]])
  }

  lemma RefsAtUnique(refs: map<Id, Ref>, ids: seq<Id>)
    requires RefsUnique(refs) && NoRepeats(ids) && forall id :: id in ids ==> id in refs
    ensures NoRepeats(RefsAt(refs, ids))
    ensures forall id :: id in refs ==> (refs[id] in RefsAt(refs, ids) <==> id in ids)
  {
    var r := RefsAt(refs, ids);
    forall i, j | 0 <= i < j < |r| ensures r[i] != r[j] {
      assert ids[i] in ids && ids[j] in ids && ids[i] != ids[j];
    }
    forall id | id in refs ensures refs[id] in r <==> id in ids {
      if id in ids {
        var i :| 0 <= i < |ids| && ids[i] == id;
        assert r[i] == refs[id];
      }
      if refs[id] in r {
        var i :| 0 <= i < |r| && r[i] == refs[id];
        assert ids[i] in ids;
      }
    }
  }

  /** The lines list, for each included package, exactly the references of its dependencies. */
  ghost predicate Faithful(g: Graph, refs: map<Id, Ref>, line: Line) {
    exists id :: id in refs && line.ref == refs[id]
                 && forall x :: x in refs ==> (refs[x] in line.dependsOn <==> x in Targets(g, RELEASE, id))
  }

  /** One dependency line of `render_sbom`. */
  method RenderLine(g: Graph, release: Release, refs: map<Id, Ref>, id: Id) returns (line: Line)
    requires IsRelease(g, release) && refs.Keys == release.included && RefsUnique(refs) && id in release.included
    ensures line.ref == refs[id] && NoRepeats(line.dependsOn) && Faithful(g, refs, line)
    ensures forall ref :: ref in line.dependsOn ==> ref in refs.Values
  {
    var targets := Listing(release.edges[id] * release.included);
    RefsAtUnique(refs, targets);
    line := Line(refs[id], RefsAt(refs, targets));
    forall ref | ref in line.dependsOn ensures ref in refs.Values {
      var i :| 0 <= i < |targets| && line.dependsOn[i] == ref;
      assert targets[i] in refs;
    }
  }

  lemma ComponentsComplete(refs: map<Id, Ref>, ids: seq<Id>)
    requires forall id :: id in ids <==> id in refs
    ensures forall ref :: ref in RefsAt(refs, ids) <==> ref in refs.Values
  {
    var r := RefsAt(refs, ids);
    forall ref ensures ref in r <==> ref in refs.Values {
      if ref in r {
        var i :| 0 <= i < |r| && r[i] == ref;
        assert ids[i] in refs;
      }
      if ref in refs.Values {
        var id :| id in refs && refs[id] == ref;
        var i :| 0 <= i < |ids| && ids[i] == id;
        assert r[i] == ref;
      }
    }
  }

  /** The document describes the graph: all components, the root first, and a faithful line for each. */
  ghost predicate Renders(g: Graph, root: Id, refs: map<Id, Ref>, purls: map<Id, string>, d: Document) {
    && root in refs && d.components != [] && d.components[0] == refs[root]
    && (forall ref :: ref in d.components <==> ref in refs.Values)
    && (forall i :: 0 <= i < |d.components| ==> Describes(refs, purls, d, i))
    && forall i :: 0 <= i < |d.dependencies| ==> Faithful(g, refs, d.dependencies[i])
  }

  /** Component number `i` is a package with its reference and its purl. */
  ghost predicate Describes(refs: map<Id, Ref>, purls: map<Id, string>, d: Document, i: nat)
    requires i < |d.components|
  {
    i < |d.purls| && exists id :: id in refs && id in purls && d.components[i] == refs[id] && d.purls[i] == purls[id]
  }

  method RenderLines(g: Graph, release: Release, refs: map<Id, Ref>, order: seq<Id>) returns (lines: seq<Line>)
    requires IsRelease(g, release) && refs.Keys == release.included && RefsUnique(refs)
    requires forall id :: id in order ==> id in refs
    ensures |lines| == |order| && forall k :: 0 <= k < |order| ==> lines[k].ref == RefsAt(refs, order)[k]
    ensures forall k :: 0 <= k < |order| ==> NoRepeats(lines[k].dependsOn) && Faithful(g, refs, lines[k])
    ensures forall k, ref :: 0 <= k < |order| && ref in lines[k].dependsOn ==> ref in refs.Values
  {
    hide IsRelease, RefsUnique, Faithful, NoRepeats;
    lines := [];
    for i := 0 to |order|
      invariant |lines| == i && forall k :: 0 <= k < i ==> lines[k].ref == RefsAt(refs, order)[k]
      invariant forall k :: 0 <= k < i ==> NoRepeats(lines[k].dependsOn) && Faithful(g, refs, lines[k])
      invariant forall k, ref :: 0 <= k < i && ref in lines[k].dependsOn ==> ref in refs.Values
    {
      assert order[i] in order;
      var line := RenderLine(g, release, refs, order[i]);
      lines := lines + [line];
    }
  }

  method RenderDocument(g: Graph, release: Release, refs: map<Id, Ref>, purls: map<Id, string>) returns (d: Document)
    requires IsRelease(g, release) && refs.Keys == purls.Keys == release.included && RefsUnique(refs)
             && RefsUnique(purls)
    ensures GraphChecks(d) && Renders(g, release.root, refs, purls, d)
  {
    hide IsRelease, Faithful, RefsUnique, NoRepeats, GraphChecks;
    assert release.root in release.included by { RootIncluded(g, release); }
    var others := Listing(release.included - {release.root});
    var order := Listing(release.included);
    var lines := RenderLines(g, release, refs, order);
    var ids := [release.root] + others;
    RootFirst(release.root, others, ids);
    d := Document(RefsAt(refs, ids), RefsAt(purls, ids), lines);
    ChecksPass(refs, purls, ids, order, d);
    ComponentsComplete(refs, ids);
    forall i | 0 <= i < |ids| ensures Describes(refs, purls, d, i) { assert ids[i] in ids && ids[i] in refs; }
  }

  lemma RootIncluded(g: Graph, release: Release)
    requires IsRelease(g, release)
    ensures release.root in release.included
  {
  }

  lemma RootFirst(root: Id, others: seq<Id>, ids: seq<Id>)
    requires ids == [root] + others && root !in others && NoRepeats(others)
    ensures NoRepeats(ids) && forall id :: id in ids <==> id == root || id in others
  {
  }

  lemma ChecksPass(refs: map<Id, Ref>, purls: map<Id, string>, ids: seq<Id>, order: seq<Id>, d: Document)
    requires RefsUnique(refs) && RefsUnique(purls) && refs.Keys == purls.Keys && NoRepeats(ids) && NoRepeats(order)
    requires (forall id :: id in ids <==> id in refs) && (forall id :: id in order <==> id in refs)
    requires d.components == RefsAt(refs, ids) && d.purls == RefsAt(purls, ids) && |d.dependencies| == |order|
    requires forall k :: 0 <= k < |order| ==> d.dependencies[k].ref == RefsAt(refs, order)[k]
    requires forall k :: 0 <= k < |order| ==> NoRepeats(d.dependencies[k].dependsOn)
    requires forall k, ref :: 0 <= k < |order| && ref in d.dependencies[k].dependsOn ==> ref in refs.Values
    ensures GraphChecks(d)
  {
    RefsAtUnique(refs, ids);
    RefsAtUnique(purls, ids);
    RefsAtUnique(refs, order);
    ComponentsComplete(refs, ids);
    ComponentsComplete(refs, order);
    hide RefsUnique, NoRepeats, RefsAt;
    LinesCover(d, RefsAt(refs, order));
  }

  /** No two packages of the release share a name, for names given by reference or by purl. */
  ghost predicate Distinct(metadata: Metadata, name: Package -> string)
    requires Complete(metadata, RELEASE)
  {
    var g, root := GraphOf(metadata), Roots(metadata.packages)[0];
    forall a, b | Reachable(g, RELEASE, root, a) && Reachable(g, RELEASE, root, b) ::
      name(g.packages[a]) == name(g.packages[b]) ==> a == b
  }

  /** The name of every package of the release. */
  ghost predicate AreNames(g: Graph, root: Id, name: Package -> string, names: map<Id, string>) {
    && (forall id :: id in names <==> Reachable(g, RELEASE, root, id))
    && (forall id :: id in names ==> id in g.packages && names[id] == name(g.packages[id]))
  }

  /** Counting the names and the packages finds out whether two packages share one. */
  lemma CountedDistinct(metadata: Metadata, name: Package -> string, names: map<Id, string>)
    requires Complete(metadata, RELEASE) && AreNames(GraphOf(metadata), Roots(metadata.packages)[0], name, names)
    ensures |names.Values| == |names| <==> Distinct(metadata, name)
    ensures |names.Values| == |names| <==> RefsUnique(names)
  {
    hide Reachable, GraphOf, Roots;
    ValuesCounted(names);
    if !RefsUnique(names) {
      var a, b :| a in names && b in names && names[a] == names[b] && a != b;
      assert Reachable(GraphOf(metadata), RELEASE, Roots(metadata.packages)[0], a);
    }
  }

  /**
    The graph part of `render_sbom`: it is refused exactly when the metadata is incomplete or two packages
    of the release share a reference or a purl; otherwise the graph checks of `validate_sbom` pass, every package of the
    release is a component, and each line lists all dependencies of its package.
  */
  method RenderGraph(metadata: Metadata, purl: Package -> string) returns (r: Result<Document, Failure>)
    ensures r.Ok? <==>
              Complete(metadata, RELEASE)
                && Distinct(metadata, (p: Package) => if p.source.Some? then p.id else purl(p))
                  && Distinct(metadata, purl)
    ensures r.Ok? ==>
              && GraphChecks(r.value)
              && exists refs, purls ::
                   && AreNames(GraphOf(metadata), Roots(metadata.packages)[0],
                     (p: Package) => if p.source.Some? then p.id else purl(p), refs)
                   && AreNames(GraphOf(metadata), Roots(metadata.packages)[0], purl, purls)
                   && Renders(GraphOf(metadata), Roots(metadata.packages)[0], refs, purls, r.value)
  {
    hide Targets, Reachable, GraphOf, Roots, GraphChecks, Renders, Distinct, RefsUnique;
    var release := ReleaseGraph(metadata);
    if release.Err? { return Err(release.error); }
    var g, visited := GraphOf(metadata), release.value.included;
    var references := map id | id in visited :: RefOf(g.packages[id], purl);
    var purls := map id | id in visited :: purl(g.packages[id]);
    var refName := (p: Package) => if p.source.Some? then p.id else purl(p);
    assert AreNames(g, release.value.root, refName, references) && AreNames(g, release.value.root, purl, purls);
    hide AreNames, IsRelease, Complete;
    CountedDistinct(metadata, refName, references);
    CountedDistinct(metadata, purl, purls);
    if |references.Values| != |references| { return Err(RefsNotUnique); }
    if |purls.Values| != |purls| { return Err(PurlsNotUnique); }
    var document := RenderDocument(g, release.value, references, purls);
    r := Ok(document);
  }

  lemma LinesCover(d: Document, refs: seq<Ref>)
    requires NoRepeats(refs) && |refs| == |d.dependencies|
    requires forall i :: 0 <= i < |refs| ==> d.dependencies[i].ref == refs[i]
    ensures forall i, j :: 0 <= i < j < |d.dependencies| ==> d.dependencies[i].ref != d.dependencies[j].ref
    ensures forall ref :: ref in refs <==> exists i :: 0 <= i < |d.dependencies| && d.dependencies[i].ref == ref
  {
    forall ref | ref in refs ensures exists i :: 0 <= i < |d.dependencies| && d.dependencies[i].ref == ref {
      var i :| 0 <= i < |refs| && refs[i] == ref;
      assert d.dependencies[i].ref == ref;
    }
  }
}
