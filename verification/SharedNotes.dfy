// `shared_note_inputs` of scripts/desktop_release_version.py: the source files outside the desktop
// app that its own sources import, directly or through each other.
module SharedNotes {
  import opened Git
  import opened Closure
  import opened Dependencies

  // For every file of the revision, the files its import statements resolve to.
  type Imports = map<Path, seq<Path>>

  function ImportGraph(imports: Imports): map<Path, set<Path>> {
    map p | p in imports :: Elements(imports[p])
  }

  ghost function Shared(imports: Imports, seeds: set<Path>): set<Path> {
    Reach(ImportGraph(imports), seeds) * imports.Keys
  }

  ghost predicate Scanning(imports: Imports, seeds: set<Path>, reachable: set<Path>, pending: set<Path>) {
    && reachable + pending <= Reach(ImportGraph(imports), seeds)
    && reachable <= imports.Keys
    && seeds * imports.Keys <= reachable + pending
    && forall p :: p in reachable ==> ImportGraph(imports)[p] * imports.Keys <= reachable + pending
  }

  lemma ScanOn(imports: Imports, seeds: set<Path>, reachable: set<Path>, pending: set<Path>, path: Path)
    requires Scanning(imports, seeds, reachable, pending + {path}) && path in imports
    ensures Scanning(imports, seeds, reachable + {path}, pending + Elements(imports[path]))
  {
    ReachIsLeastClosed(ImportGraph(imports), seeds);
    assert ImportGraph(imports)[path] == Elements(imports[path]);
  }

  lemma Scanned(imports: Imports, seeds: set<Path>, reachable: set<Path>)
    requires Scanning(imports, seeds, reachable, {})
    ensures reachable == Shared(imports, seeds)
  {
    var graph := ImportGraph(imports);
    ReachIsLeastClosed(graph, seeds);
    var outside := Reach(graph, seeds) - imports.Keys;
    assert Closed(graph, seeds, reachable + outside);
  }

  lemma ElementsOfAppend(a: seq<Path>, b: seq<Path>)
    ensures Elements(a + b) == Elements(a) + Elements(b)
  {
  }

  method SharedNoteInputs(imports: Imports, seeds: seq<Path>) returns (reachable: set<Path>)
    ensures reachable == Shared(imports, Elements(seeds))
  {
    reachable := {};
    var pending := seeds;
    ReachIsLeastClosed(ImportGraph(imports), Elements(seeds));
    while pending != []
      invariant Scanning(imports, Elements(seeds), reachable, Elements(pending))
      decreases imports.Keys - reachable, |pending|
    {
      var path := pending[|pending| - 1];
      ElementsOfPop(pending);
      pending := pending[..|pending| - 1];
      if path in reachable || path !in imports { continue; }
      ScanOn(imports, Elements(seeds), reachable, Elements(pending), path);
      ElementsOfAppend(pending, imports[path]);
      reachable := reachable + {path};
      pending := pending + imports[path];
    }
    assert Elements(pending) == {};
    Scanned(imports, Elements(seeds), reachable);
  }

  // A file is listed exactly when a chain of imports leads to it from the desktop sources.
  lemma SharedIsImported(imports: Imports, seeds: set<Path>, path: Path)
    ensures path in Shared(imports, seeds) <==> path in imports && Walkable(ImportGraph(imports), seeds, path)
  {
    ReachIsWalks(ImportGraph(imports), seeds, path);
  }
}
