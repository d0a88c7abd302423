// scripts/desktop_affected.py, `dependency_inputs`: everything outside the source folders that a
// desktop build depends on at one revision. Two worklists find it: the first follows workspace
// packages from the desktop manifest, the second follows resolved packages through the lockfile.
module Dependencies {
  import opened Text
  import opened Git
  import opened Closure

  // Parsed JSON or YAML. Numbers and lists carry the text Python's str() gives them.
  datatype Json =
    | Null
    | Bool(b: bool)
    | Num(repr: string)
    | Str(s: string)
    | Arr(repr: string)
    | Obj(fields: map<string, Json>)

  type Fields = map<string, Json>

  // The JSON and YAML readers; None when the text does not parse.
  datatype Readers = Readers(json: string -> Option<Json>, yaml: string -> Option<Json>)

  const TOOLS: set<string> := {"turbo", "typescript", "esbuild", "@types/node", "@typescript/native-preview",
                               "@tsconfig/node24", "vitest", "husky"}
  const GROUPS: seq<string> := ["dependencies", "devDependencies", "optionalDependencies"]
  const MANIFEST_GROUPS: seq<string> := GROUPS + ["peerDependencies"]
  const SNAPSHOT_GROUPS: seq<string> := ["dependencies", "optionalDependencies"]
  const DESKTOP := "@bike4mind/desktop"
  const DESKTOP_FOLDER := "apps/desktop"
  const MANIFEST := "/package.json"

  // Python's str(). A mapping prints with a leading brace, which is all that is ever looked at.
  function PyStr(v: Json): string {
    match v
    case Null => "None"
    case Bool(b) => if b then "True" else "False"
    case Num(repr) => repr
    case Str(s) => s
    case Arr(repr) => repr
    case Obj(_) => "{"
  }

  // `fields.get(key)`
  function Get(fields: Fields, key: string): Json {
    if key in fields then fields[key] else Null
  }

  // `owner.get(group, {})`; an owner that is no mapping cannot be asked.
  function GroupOf(owner: Json, group: string): Json {
    if !owner.Obj? then Null
    else if group in owner.fields then owner.fields[group]
    else Obj(map[])
  }

  function Document(readers: Readers, tree: Tree, path: Path): Option<Fields> {
    if path !in tree then None
    else
      match (if EndsWith(path, ".yaml") then readers.yaml(tree[path]) else readers.json(tree[path]))
      case Some(Obj(fields)) => Some(fields)
      case _ => None
  }

  // Workspace manifests

  datatype Member = Member(folder: string, manifest: Json)

  predicate IsManifestPath(path: Path) {
    && EndsWith(path, MANIFEST)
    && Count(path, '/') == 2
    && (StartsWith(path, "apps/") || StartsWith(path, "packages/") || StartsWith(path, "b4m-core/"))
  }

  function Folder(path: Path): string
    requires IsManifestPath(path)
  {
    path[..|path| - |MANIFEST|]
  }

  function NameOf(manifest: Fields, path: Path): Json {
    if "name" in manifest then manifest["name"] else Str(path)
  }

  // The packages of the workspace by name; of two that share one, the later path has it.
  function Members(readers: Readers, tree: Tree, paths: seq<Path>): Option<map<string, Member>> {
    if paths == [] then Some(map[])
    else
      var before :- Members(readers, tree, paths[..|paths| - 1]);
      var path := paths[|paths| - 1];
      if !IsManifestPath(path) then Some(before)
      else
        var manifest :- Document(readers, tree, path);
        match NameOf(manifest, path)
        case Str(name) => Some(before[name := Member(Folder(path), Obj(manifest))])
        case Arr(_) => None // a list or a mapping cannot be a key
        case Obj(_) => None
        case _ => Some(before) // a key no package name equals
  }

  ghost predicate DistinctFolders(members: map<string, Member>) {
    forall m, n :: m in members && n in members && members[m].folder == members[n].folder ==> m == n
  }

  ghost predicate ComesFrom(readers: Readers, tree: Tree, name: string, member: Member, path: Path) {
    && IsManifestPath(path)
    && member.folder == Folder(path)
    && Document(readers, tree, path).Some?
    && NameOf(Document(readers, tree, path).value, path) == Str(name)
  }

  lemma {:induction false} MembersComeFromManifests(readers: Readers, tree: Tree, paths: seq<Path>)
    requires Members(readers, tree, paths).Some?
    ensures var members := Members(readers, tree, paths).value;
            forall n :: n in members ==> exists path :: ComesFrom(readers, tree, n, members[n], path)
  {
    if paths != [] {
      var path := paths[|paths| - 1];
      MembersComeFromManifests(readers, tree, paths[..|paths| - 1]);
      var before := Members(readers, tree, paths[..|paths| - 1]).value;
      var members := Members(readers, tree, paths).value;
      forall n | n in members ensures exists path :: ComesFrom(readers, tree, n, members[n], path) {
        if n !in before || members[n] != before[n] {
          assert ComesFrom(readers, tree, n, members[n], path);
        }
      }
    }
  }

  lemma SameFolderSamePath(a: Path, b: Path)
    requires IsManifestPath(a) && IsManifestPath(b) && Folder(a) == Folder(b)
    ensures a == b
  {
    assert a == Folder(a) + MANIFEST;
    assert b == Folder(b) + MANIFEST;
  }

  // Marking folders as visited is as good as marking names.
  lemma MembersHaveDistinctFolders(readers: Readers, tree: Tree, paths: seq<Path>)
    requires Members(readers, tree, paths).Some?
    ensures DistinctFolders(Members(readers, tree, paths).value)
  {
    var members := Members(readers, tree, paths).value;
    MembersComeFromManifests(readers, tree, paths);
    forall m, n | m in members && n in members && members[m].folder == members[n].folder ensures m == n {
      var p :| ComesFrom(readers, tree, m, members[m], p);
      var q :| ComesFrom(readers, tree, n, members[n], q);
      SameFolderSamePath(p, q);
    }
  }

  lemma FolderIsNoDot(path: Path)
    requires IsManifestPath(path)
    ensures Folder(path) != "."
  {
    assert path[0] != '.';
    assert Folder(path) != "" ==> path[0] == Folder(path)[0];
  }

  lemma MemberFoldersAreNoDot(readers: Readers, tree: Tree, paths: seq<Path>)
    requires Members(readers, tree, paths).Some?
    ensures forall n :: n in Members(readers, tree, paths).value ==> Members(readers, tree, paths).value[n].folder != "."
  {
    var members := Members(readers, tree, paths).value;
    MembersComeFromManifests(readers, tree, paths);
    forall n | n in members ensures members[n].folder != "." {
      var path :| ComesFrom(readers, tree, n, members[n], path);
      FolderIsNoDot(path);
    }
  }

  predicate IsLocalVersion(version: string) {
    StartsWith(version, "workspace:") || StartsWith(version, "link:")
  }

  // What the dependency groups of one manifest add to the worklist.
  function WorkspaceDeps(members: map<string, Member>, manifest: Json, groups: seq<string>): set<string> {
    set g, dep | g in groups && GroupOf(manifest, g).Obj? && dep in GroupOf(manifest, g).fields && dep in members :: dep
  }

  predicate ResolvesLocally(members: map<string, Member>, deps: Json) {
    deps.Obj? && forall dep :: dep in deps.fields && dep !in members ==> !IsLocalVersion(PyStr(deps.fields[dep]))
  }

  predicate ManifestResolves(members: map<string, Member>, manifest: Json, groups: seq<string>) {
    forall g :: g in groups ==> ResolvesLocally(members, GroupOf(manifest, g))
  }

  ghost function WorkspaceGraph(members: map<string, Member>): map<string, set<string>> {
    map n | n in members :: WorkspaceDeps(members, members[n].manifest, MANIFEST_GROUPS)
  }

  ghost function DesktopMembers(members: map<string, Member>): set<string> {
    Reach(WorkspaceGraph(members), {DESKTOP}) * members.Keys
  }

  // The folders of the packages the desktop manifest leads to; None if one of them asks for a
  // workspace package that is not there.
  ghost function Roots(members: map<string, Member>): Option<set<string>> {
    var names := DesktopMembers(members);
    if forall n :: n in names ==> ManifestResolves(members, members[n].manifest, MANIFEST_GROUPS) then
      Some(FoldersOf(members, names))
    else None
  }

  function FoldersOf(members: map<string, Member>, names: set<string>): set<string>
    requires names <= members.Keys
  {
    set n | n in names :: members[n].folder
  }

  lemma VisitedByFolder(members: map<string, Member>, names: set<string>, name: string)
    requires DistinctFolders(members) && names <= members.Keys && name in members
    ensures members[name].folder in FoldersOf(members, names) <==> name in names
    ensures FoldersOf(members, names + {name}) == FoldersOf(members, names) + {members[name].folder}
  {
  }

  function Elements<T>(s: seq<T>): set<T> {
    set x | x in s
  }

  lemma ElementsOfPush<T>(s: seq<T>, x: T)
    ensures Elements(s + [x]) == Elements(s) + {x}
  {
  }

  lemma ElementsOfPop<T>(s: seq<T>)
    requires s != []
    ensures Elements(s) == Elements(s[..|s| - 1]) + {s[|s| - 1]}
  {
    ElementsOfPush(s[..|s| - 1], s[|s| - 1]);
    assert s[..|s| - 1] + [s[|s| - 1]] == s;
  }

  method PushWorkspaceDeps(members: map<string, Member>, manifest: Json, pending: seq<string>)
    returns (ok: bool, longer: seq<string>)
    ensures ok <==> ManifestResolves(members, manifest, MANIFEST_GROUPS)
    ensures ok ==> Elements(longer) == Elements(pending) + WorkspaceDeps(members, manifest, MANIFEST_GROUPS)
  {
    longer := pending;
    for i := 0 to |MANIFEST_GROUPS|
      invariant ManifestResolves(members, manifest, MANIFEST_GROUPS[..i])
      invariant Elements(longer) == Elements(pending) + WorkspaceDeps(members, manifest, MANIFEST_GROUPS[..i])
    {
      var group := MANIFEST_GROUPS[i];
      assert group in MANIFEST_GROUPS;
      assert MANIFEST_GROUPS[..i + 1] == MANIFEST_GROUPS[..i] + [group];
      ok, longer := PushGroup(members, GroupOf(manifest, group), longer);
      if !ok { return; }
    }
    assert MANIFEST_GROUPS[..|MANIFEST_GROUPS|] == MANIFEST_GROUPS;
    ok := true;
  }

  method PushGroup(members: map<string, Member>, deps: Json, pending: seq<string>) returns (ok: bool, longer: seq<string>)
    ensures ok <==> ResolvesLocally(members, deps)
    ensures ok ==> Elements(longer) == Elements(pending) + deps.fields.Keys * members.Keys
  {
    longer := pending;
    if !deps.Obj? { return false, longer; }
    var rest := deps.fields.Keys;
    while rest != {}
      invariant rest <= deps.fields.Keys
      invariant forall dep :: dep in deps.fields && dep !in rest && dep !in members
                              ==> !IsLocalVersion(PyStr(deps.fields[dep]))
      invariant Elements(longer) == Elements(pending) + (deps.fields.Keys - rest) * members.Keys
    {
      var dep :| dep in rest;
      rest := rest - {dep};
      if dep in members {
        ElementsOfPush(longer, dep);
        longer := longer + [dep];
      } else if IsLocalVersion(PyStr(deps.fields[dep])) {
        return false, longer;
      }
    }
    ok := true;
  }

  // The worklist between two turns: `names` are done with, `pending` still to come.
  ghost predicate Following(members: map<string, Member>, names: set<string>, pending: set<string>) {
    && names + pending <= Reach(WorkspaceGraph(members), {DESKTOP})
    && names <= members.Keys
    && (DESKTOP in members ==> DESKTOP in names + pending)
    && (forall n :: n in names ==> ManifestResolves(members, members[n].manifest, MANIFEST_GROUPS))
    && (forall n :: n in names ==> WorkspaceGraph(members)[n] <= names + pending)
  }

  lemma FollowOn(members: map<string, Member>, names: set<string>, pending: set<string>, name: string)
    requires Following(members, names, pending + {name}) && name in members
    requires ManifestResolves(members, members[name].manifest, MANIFEST_GROUPS)
    ensures Following(members, names + {name},
                      pending + WorkspaceDeps(members, members[name].manifest, MANIFEST_GROUPS))
  {
    DepsAreReached(members, name);
    var graph, deps := WorkspaceGraph(members), WorkspaceDeps(members, members[name].manifest, MANIFEST_GROUPS);
    var all := names + {name} + (pending + deps);
    forall n | n in names + {name} ensures graph[n] <= all {
      if n != name { assert graph[n] <= names + (pending + {name}) <= all; }
    }
  }

  // A name with nothing more to it.
  lemma SkipOn(members: map<string, Member>, names: set<string>, pending: set<string>, name: string)
    requires Following(members, names, pending + {name}) && (name !in members || name in names)
    ensures Following(members, names, pending)
  {
  }

  lemma DepsAreReached(members: map<string, Member>, name: string)
    requires name in members && name in Reach(WorkspaceGraph(members), {DESKTOP})
    ensures var deps := WorkspaceDeps(members, members[name].manifest, MANIFEST_GROUPS);
            WorkspaceGraph(members)[name] == deps && deps <= Reach(WorkspaceGraph(members), {DESKTOP})
  {
    ReachIsLeastClosed(WorkspaceGraph(members), {DESKTOP});
  }

  lemma FollowedAll(members: map<string, Member>, names: set<string>)
    requires Following(members, names, {})
    ensures names == DesktopMembers(members)
  {
    var graph := WorkspaceGraph(members);
    ReachIsLeastClosed(graph, {DESKTOP});
    assert Closed(graph, {DESKTOP}, names + {DESKTOP});
  }

  lemma SeedIsReached(members: map<string, Member>)
    ensures Following(members, {}, {DESKTOP})
  {
    ReachIsLeastClosed(WorkspaceGraph(members), {DESKTOP});
  }

  method FollowWorkspace(members: map<string, Member>) returns (roots: Option<set<string>>)
    requires DistinctFolders(members)
    ensures roots == Roots(members)
  {
    SeedIsReached(members);
    var found: set<string> := {};
    ghost var names: set<string> := {};
    var pending := [DESKTOP];
    assert Elements(pending) == {DESKTOP};
    while pending != []
      invariant Following(members, names, Elements(pending))
      invariant found == FoldersOf(members, names)
      decreases members.Keys - names, |pending|
    {
      var name := pending[|pending| - 1];
      ElementsOfPop(pending);
      pending := pending[..|pending| - 1];
      if name !in members {
        SkipOn(members, names, Elements(pending), name);
        continue;
      }
      var folder := members[name].folder;
      VisitedByFolder(members, names, name);
      if folder in found {
        SkipOn(members, names, Elements(pending), name);
        continue;
      }
      found := found + {folder};
      var ok, longer := PushWorkspaceDeps(members, members[name].manifest, pending);
      if !ok { return None; }
      FollowOn(members, names, Elements(pending), name);
      names := names + {name};
      pending := longer;
    }
    FollowedAll(members, names);
    roots := Some(found);
  }

  // The lockfile

  datatype Dep = Unreadable | InWorkspace | Package(key: string)

  // Where one entry of a lockfile dependency mapping leads.
  function DepOf(name: string, value: Json): Dep {
    var version := match value
      case Obj(fields) => if "version" in fields then fields["version"] else Str("")
      case _ => Str(PyStr(value));
    if !version.Str? || version.s == "" then Unreadable
    else if IsLocalVersion(version.s) then InWorkspace
    else if StartsWith(version.s, "npm:") then Package(version.s[4..])
    else Package(name + "@" + version.s)
  }

  predicate DepsReadable(deps: Json) {
    deps.Obj? && forall n :: n in deps.fields ==> !DepOf(n, deps.fields[n]).Unreadable?
  }

  function DepKeys(deps: Json): set<string> {
    if deps.Obj? then KeysOf(deps.fields, deps.fields.Keys) else {}
  }

  function KeysOf(fields: Fields, names: set<string>): set<string>
    requires names <= fields.Keys
  {
    set n | n in names && DepOf(n, fields[n]).Package? :: DepOf(n, fields[n]).key
  }

  lemma KeysOfOneMore(fields: Fields, names: set<string>, n: string)
    requires names <= fields.Keys && n in fields
    ensures KeysOf(fields, names + {n})
         == KeysOf(fields, names) + match DepOf(n, fields[n]) { case Package(key) => {key} case _ => {} }
  {
  }

  predicate GroupsReadable(owner: Json, groups: seq<string>) {
    forall g :: g in groups ==> DepsReadable(GroupOf(owner, g))
  }

  function GroupKeys(owner: Json, groups: seq<string>): set<string> {
    set g, k | g in groups && k in DepKeys(GroupOf(owner, g)) :: k
  }

  // A resolved key without its peer suffix.
  function Base(key: string): string {
    key[..Find(key, '(')]
  }

  predicate Resolves(snapshots: Fields, packages: Fields, key: string) {
    key in snapshots && Base(key) in packages && GroupsReadable(snapshots[key], SNAPSHOT_GROUPS)
  }

  function LockGraph(snapshots: Fields): map<string, set<string>> {
    map key | key in snapshots :: GroupKeys(snapshots[key], SNAPSHOT_GROUPS)
  }

  function Direct(importers: Fields): set<string> {
    set i, k | i in importers && k in GroupKeys(importers[i], GROUPS) :: k
  }

  // The resolved packages the importers lead to; None if anything on the way is missing or unreadable.
  ghost function Resolved(importers: Fields, snapshots: Fields, packages: Fields): Option<set<string>> {
    var reach := Reach(LockGraph(snapshots), Direct(importers));
    if && (forall i :: i in importers ==> GroupsReadable(importers[i], GROUPS))
       && (forall key :: key in reach ==> Resolves(snapshots, packages, key))
    then Some(reach) else None
  }

  method Enqueue(deps: Json, queue: seq<string>) returns (ok: bool, longer: seq<string>)
    ensures ok <==> DepsReadable(deps)
    ensures ok ==> Elements(longer) == Elements(queue) + DepKeys(deps)
  {
    longer := queue;
    if !deps.Obj? { return false, queue; }
    var rest := deps.fields.Keys;
    while rest != {}
      invariant rest <= deps.fields.Keys
      invariant forall n :: n in deps.fields && n !in rest ==> !DepOf(n, deps.fields[n]).Unreadable?
      invariant Elements(longer) == Elements(queue) + KeysOf(deps.fields, deps.fields.Keys - rest)
    {
      var n :| n in rest;
      assert deps.fields.Keys - (rest - {n}) == deps.fields.Keys - rest + {n};
      KeysOfOneMore(deps.fields, deps.fields.Keys - rest, n);
      rest := rest - {n};
      var dep := DepOf(n, deps.fields[n]);
      match dep {
        case Unreadable => return false, longer;
        case InWorkspace =>
        case Package(key) =>
          ElementsOfPush(longer, key);
          longer := longer + [key];
      }
    }
    ok := true;
  }

  method EnqueueGroups(owner: Json, groups: seq<string>, queue: seq<string>) returns (ok: bool, longer: seq<string>)
    ensures ok <==> GroupsReadable(owner, groups)
    ensures ok ==> Elements(longer) == Elements(queue) + GroupKeys(owner, groups)
  {
    longer := queue;
    for i := 0 to |groups|
      invariant GroupsReadable(owner, groups[..i])
      invariant Elements(longer) == Elements(queue) + GroupKeys(owner, groups[..i])
    {
      assert groups[..i + 1] == groups[..i] + [groups[i]];
      ok, longer := Enqueue(GroupOf(owner, groups[i]), longer);
      if !ok { return; }
    }
    assert groups[..|groups|] == groups;
    ok := true;
  }

  ghost predicate Draining(importers: Fields, snapshots: Fields, packages: Fields,
                           reachable: set<string>, queue: set<string>)
  {
    var graph, seeds := LockGraph(snapshots), Direct(importers);
    && reachable + queue <= Reach(graph, seeds)
    && seeds <= reachable + queue
    && forall key :: key in reachable ==> Resolves(snapshots, packages, key) && graph[key] <= reachable + queue
  }

  lemma DrainOn(importers: Fields, snapshots: Fields, packages: Fields,
                reachable: set<string>, queue: set<string>, key: string)
    requires Draining(importers, snapshots, packages, reachable, queue + {key})
    requires Resolves(snapshots, packages, key)
    ensures Draining(importers, snapshots, packages, reachable + {key},
                     queue + GroupKeys(snapshots[key], SNAPSHOT_GROUPS))
  {
    ReachIsLeastClosed(LockGraph(snapshots), Direct(importers));
    assert LockGraph(snapshots)[key] == GroupKeys(snapshots[key], SNAPSHOT_GROUPS);
  }

  method EnqueueImporters(importers: Fields) returns (ok: bool, queue: seq<string>)
    ensures ok <==> forall i :: i in importers ==> GroupsReadable(importers[i], GROUPS)
    ensures ok ==> Elements(queue) == Direct(importers)
  {
    queue := [];
    var rest := importers.Keys;
    while rest != {}
      invariant rest <= importers.Keys
      invariant forall i :: i in importers && i !in rest ==> GroupsReadable(importers[i], GROUPS)
      invariant forall k :: k in Elements(queue) <==>
                              exists i :: i in importers.Keys - rest && k in GroupKeys(importers[i], GROUPS)
    {
      var i :| i in rest;
      rest := rest - {i};
      ok, queue := EnqueueGroups(importers[i], GROUPS, queue);
      if !ok { return; }
    }
    ok := true;
  }

  method FollowLockfile(importers: Fields, snapshots: Fields, packages: Fields) returns (found: Option<set<string>>)
    ensures found == Resolved(importers, snapshots, packages)
  {
    ghost var graph, seeds := LockGraph(snapshots), Direct(importers);
    ReachIsLeastClosed(graph, seeds);
    var ok, queue := EnqueueImporters(importers);
    if !ok { return None; }
    var reachable: set<string> := {};
    while queue != []
      invariant Draining(importers, snapshots, packages, reachable, Elements(queue))
      decreases Reach(graph, seeds) - reachable, |queue|
    {
      var key := queue[|queue| - 1];
      ElementsOfPop(queue);
      queue := queue[..|queue| - 1];
      if key in reachable { continue; }
      assert key in Reach(graph, seeds);
      if key !in snapshots || Base(key) !in packages { return None; }
      var longer;
      ok, longer := EnqueueGroups(snapshots[key], SNAPSHOT_GROUPS, queue);
      if !ok { return None; }
      DrainOn(importers, snapshots, packages, reachable, Elements(queue), key);
      reachable := reachable + {key};
      queue := longer;
    }
    assert Elements(queue) == {};
    DrainedWorklist(graph, seeds, reachable);
    found := Some(reachable);
  }

  // Two lockfiles that agree on everything one of them reaches resolve to the same packages.
  lemma ResolvedIsLocal(importers: Fields, snapshots: Fields, packages: Fields, snapshots': Fields, packages': Fields)
    requires var reach := Resolved(importers, snapshots, packages);
             && reach.Some?
             && (forall key :: key in reach.value ==> key in snapshots' && snapshots'[key] == snapshots[key])
             && (forall key :: key in reach.value ==> Base(key) in packages')
    ensures Resolved(importers, snapshots', packages') == Resolved(importers, snapshots, packages)
  {
    var reach := Resolved(importers, snapshots, packages).value;
    forall key | key in reach
      ensures key in LockGraph(snapshots) && key in LockGraph(snapshots')
      ensures LockGraph(snapshots)[key] == LockGraph(snapshots')[key]
      ensures Resolves(snapshots', packages', key)
    {
      assert Resolves(snapshots, packages, key);
    }
    ReachIsLocal(LockGraph(snapshots), LockGraph(snapshots'), Direct(importers));
  }
}
