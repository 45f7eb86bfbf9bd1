/** The closure of relative imports (scripts/load-channel-config-surface.ts). */
module ImportGraph {
  import opened JsText
  import opened ImportPaths
  import opened Sequences

  /** The regular files, each with the specifiers its import statements mention. */
  type FileSystem = map<Path, seq<Specifier>>

  predicate IsRelative(spec: Specifier) {
    spec != [] && spec[0] != "" && spec[0][0] == '.'
  }

  /** The files that `from` imports. */
  function Imports(fs: FileSystem, from: Path): set<Path>
    requires from in fs
  {
    set spec | spec in fs[from] && Leads(fs, from, spec) :: Target(fs, from, spec)
  }

  /** The closure follows a specifier when it is relative and resolves to a file. */
  predicate Leads(fs: FileSystem, from: Path, spec: Specifier) {
    IsRelative(spec) && Resolve(fs.Keys, from, spec).Some?
  }

  function Target(fs: FileSystem, from: Path, spec: Specifier): (f: Path)
    requires Leads(fs, from, spec)
    ensures f in fs
  {
    Resolve(fs.Keys, from, spec).value
  }

  /** What a file imports: the files its specifiers with a leading dot resolve to. */
  lemma ImportsExactly(fs: FileSystem, from: Path, g: Path)
    requires from in fs
    ensures g in Imports(fs, from)
       <==> exists spec :: spec in fs[from] && spec != [] && spec[0] != "" && spec[0][0] == '.'
              && Resolve(fs.Keys, from, spec) == Some(g)
  {
    hide Resolve;
    if spec :|
      spec in fs[from] && spec != [] && spec[0] != "" && spec[0][0] == '.' && Resolve(fs.Keys, from, spec) == Some(g)
    {
      assert Leads(fs, from, spec) && Target(fs, from, spec) == g;
    }
  }

  /** A route of imports, last hop first. */
  datatype Route = Here | Via(importer: Path, before: Route)

  ghost predicate RouteLeads(fs: FileSystem, from: Path, route: Route, to: Path)
    decreases route
  {
    match route
    case Here => from == to && from in fs
    case Via(f, before) => f in fs && to in Imports(fs, f) && RouteLeads(fs, from, before, f)
  }

  ghost predicate Reachable(fs: FileSystem, from: Path, to: Path) {
    exists route :: RouteLeads(fs, from, route, to)
  }

  ghost predicate Closed(fs: FileSystem, found: set<Path>) {
    found <= fs.Keys && forall f :: f in found ==> Imports(fs, f) <= found
  }

  lemma ReachableSelf(fs: FileSystem, f: Path)
    requires f in fs
    ensures Reachable(fs, f, f)
  {
    assert RouteLeads(fs, f, Here, f);
  }

  lemma ImportsAreFiles(fs: FileSystem, f: Path, g: Path)
    requires f in fs && g in Imports(fs, f)
    ensures g in fs
  {
  }

  lemma ReachableStep(fs: FileSystem, from: Path, f: Path, g: Path)
    requires Reachable(fs, from, f) && f in fs && g in Imports(fs, f)
    ensures Reachable(fs, from, g)
  {
    hide Imports;
    var route :| RouteLeads(fs, from, route, f);
    assert RouteLeads(fs, from, Via(f, route), g);
  }

  lemma {:induction false} RouteStaysIn(fs: FileSystem, from: Path, route: Route, to: Path, found: set<Path>)
    requires RouteLeads(fs, from, route, to) && Closed(fs, found) && from in found
    ensures to in found
    decreases route
  {
    hide Imports;
    if route.Via? {
      RouteStaysIn(fs, from, route.before, route.importer, found);
    }
  }

  /** A closed set of reachable files that holds the entry is the reachable set. */
  lemma ClosedIsReachable(fs: FileSystem, entry: Path, found: set<Path>)
    requires Closed(fs, found) && entry in found
    requires forall f :: f in found ==> Reachable(fs, entry, f)
    ensures forall f :: f in found <==> Reachable(fs, entry, f)
  {
    hide Imports;
    forall f | Reachable(fs, entry, f) ensures f in found {
      var route :| RouteLeads(fs, entry, route, f);
      RouteStaysIn(fs, entry, route, f, found);
    }
  }

  // ---- collectRelativeImportGraph ------------------------------------------------------------

  datatype Result<+T> = Ok(value: T) | MissingFile(path: Path) | NoPackageRoot

  function Elements(s: seq<Path>): set<Path> { set p | p in s }

  lemma DistinctExtended(s: seq<Path>, p: Path)
    requires Distinct(s) && p !in s
    ensures Distinct(s + [p]) && Elements(s + [p]) == Elements(s) + {p}
  {
  }

  /** The worklist invariant: what is found or queued is reachable, the entry is among it, and every
      import of a found file is. */
  ghost predicate Exploring(fs: FileSystem, entry: Path, found: set<Path>, queue: seq<Path>) {
    && (forall f :: f in found || f in queue ==> f in fs && Reachable(fs, entry, f))
    && (entry in found || entry in queue)
    && forall f, g :: f in found && g in Imports(fs, f) ==> g in found || g in queue
  }

  lemma ExploringStart(fs: FileSystem, entry: Path)
    requires entry in fs
    ensures Exploring(fs, entry, {}, [entry])
  {
    ReachableSelf(fs, entry);
  }

  /** A file that was found before is dropped from the queue. */
  lemma ExploringSkip(fs: FileSystem, entry: Path, found: set<Path>, queue: seq<Path>, f: Path)
    requires Exploring(fs, entry, found, queue + [f]) && f in found
    ensures Exploring(fs, entry, found, queue)
  {
    hide Imports, Reachable;
    assert forall p :: p in queue + [f] <==> p in queue || p == f;
  }

  /** A new file is found and its imports are queued. */
  lemma ExploringVisit(fs: FileSystem, entry: Path, found: set<Path>, queue: seq<Path>, f: Path, longer: seq<Path>)
    requires Exploring(fs, entry, found, queue + [f]) && f in fs
    requires forall p :: p in longer <==> p in queue || p in Imports(fs, f)
    ensures Exploring(fs, entry, found + {f}, longer)
  {
    assert forall p :: p in queue + [f] <==> p in queue || p == f;
    forall g | g in Imports(fs, f) ensures g in fs && Reachable(fs, entry, g) {
      ImportsAreFiles(fs, f, g);
      ReachableStep(fs, entry, f, g);
    }
  }

  /** The inner loop: queues what the current file imports. */
  method QueueImports(fs: FileSystem, currentPath: Path, queue: seq<Path>) returns (longer: seq<Path>)
    requires currentPath in fs
    ensures forall f :: f in longer <==> f in queue || f in Imports(fs, currentPath)
  {
    hide Resolve, SourceFileExtensions;
    var specifiers := fs[currentPath];
    longer := queue;
    for i := 0 to |specifiers|
      invariant forall f :: f in longer ==> f in queue || f in Imports(fs, currentPath)
      invariant forall f :: f in queue ==> f in longer
      invariant forall spec :: spec in specifiers[..i] && Leads(fs, currentPath, spec) ==>
                  Target(fs, currentPath, spec) in longer
    {
      var specifier := specifiers[i];
      assert specifiers[..i + 1] == specifiers[..i] + [specifier];
      if IsRelative(specifier) {
        var resolved := ResolveRelativeImportPath(fs.Keys, currentPath, specifier);
        if resolved.Some? {
          assert resolved.value == Target(fs, currentPath, specifier);
          longer := longer + [resolved.value];
        }
      }
    }
    assert specifiers[..|specifiers|] == specifiers;
  }

  /** The discovered set, in insertion order: exactly the files reachable from the entry. */
  method CollectRelativeImportGraph(fs: FileSystem, entry: Path) returns (r: Result<seq<Path>>)
    ensures entry !in fs ==> r == MissingFile(entry)
    ensures entry in fs ==> r.Ok? && Distinct(r.value) && entry in r.value
    ensures r.Ok? ==> forall f :: f in r.value <==> Reachable(fs, entry, f)
  {
    var discovered: seq<Path> := [];
    var queue := [entry];
    if entry in fs { ExploringStart(fs, entry); }
    hide Imports, Reachable;
    while |queue| > 0
      invariant entry !in fs ==> queue == [entry] && discovered == []
      invariant entry in fs ==> Exploring(fs, entry, Elements(discovered), queue)
      invariant Distinct(discovered)
      decreases fs.Keys - Elements(discovered), |queue|
    {
      var currentPath := queue[|queue| - 1];
      assert queue == queue[..|queue| - 1] + [currentPath];
      queue := queue[..|queue| - 1];
      if currentPath !in discovered {
        if currentPath !in fs {
          return MissingFile(currentPath);
        }
        var longer := QueueImports(fs, currentPath, queue);
        ExploringVisit(fs, entry, Elements(discovered), queue, currentPath, longer);
        DistinctExtended(discovered, currentPath);
        discovered := discovered + [currentPath];
        queue := longer;
      } else {
        ExploringSkip(fs, entry, Elements(discovered), queue, currentPath);
      }
    }
    ClosedIsReachable(fs, entry, Elements(discovered));
    return Ok(discovered);
  }
}
