// The workspace packages of a revision and the folders a desktop build takes its sources from, said in
// terms of the files and of chains of dependencies alone.
module WorkspaceChains {
  import opened Text
  import opened Git
  import opened Closure
  import opened Dependencies

  // Manifest files

  // The manifest of a package that lies directly under apps, packages or b4m-core.
  ghost predicate IsPackageFile(path: Path, folder: string) {
    && path == folder + "/package.json"
    && exists name :: '/' !in name && (folder == "apps/" + name || folder == "packages/" + name || folder == "b4m-core/" + name)
  }

  lemma EndsExactly(s: string, suffix: string)
    ensures EndsWith(s, suffix) <==> exists stem :: s == stem + suffix
  {
    if EndsWith(s, suffix) { assert s == s[..|s| - |suffix|] + suffix; }
  }

  lemma StartsExactly(s: string, prefix: string)
    ensures StartsWith(s, prefix) <==> exists rest :: s == prefix + rest
  {
    if StartsWith(s, prefix) { assert s == prefix + s[|prefix|..]; }
  }

  lemma {:induction false} CountOfConcat(a: string, b: string, c: char)
    ensures Count(a + b, c) == Count(a, c) + Count(b, c)
  {
    if a == "" {
      assert a + b == b;
    } else {
      assert (a + b)[1..] == a[1..] + b;
      CountOfConcat(a[1..], b, c);
    }
  }

  lemma {:induction false} CountOfNone(s: string, c: char)
    ensures Count(s, c) == 0 <==> c !in s
  {
    if s != "" {
      CountOfNone(s[1..], c);
      assert s == [s[0]] + s[1..];
    }
  }

  lemma SlashesOf(folder: string, top: string, name: string)
    requires top in {"apps/", "packages/", "b4m-core/"} && folder == top + name
    ensures Count(folder + MANIFEST, '/') == 2 <==> '/' !in name
  {
    CountOfConcat(folder, MANIFEST, '/');
    CountOfConcat(top, name, '/');
    CountOfNone(name, '/');
    SlashesOfTop(top);
    SlashOfManifest();
  }

  lemma SlashAfter(word: string)
    requires '/' !in word
    ensures Count(word + "/", '/') == 1 && Count("/" + word, '/') == 1
  {
    CountOfNone(word, '/');
    OneSlash();
    CountOfConcat(word, "/", '/');
    CountOfConcat("/", word, '/');
  }

  // The three places packages lie under.
  lemma TopIs(top: string) returns (word: string)
    requires top in {"apps/", "packages/", "b4m-core/"}
    ensures '/' !in word && top == word + "/"
  {
    word := if top == "apps/" then "apps" else if top == "packages/" then "packages" else "b4m-core";
  }

  lemma SlashesOfTop(top: string)
    requires top in {"apps/", "packages/", "b4m-core/"}
    ensures Count(top, '/') == 1
  {
    var word := TopIs(top);
    SlashAfter(word);
  }

  lemma ManifestIsSpelt() returns (word: string)
    ensures MANIFEST == "/" + word && '/' !in word
  {
    word := "package.json";
  }

  lemma SlashOfManifest()
    ensures Count(MANIFEST, '/') == 1
  {
    var word := ManifestIsSpelt();
    SlashAfter(word);
  }

  lemma OneSlash()
    ensures Count("/", '/') == 1
  {
    assert "/"[1..] == "";
  }

  lemma ManifestPathExactly(path: Path, folder: string)
    ensures IsPackageFile(path, folder) <==> IsManifestPath(path) && Folder(path) == folder
  {
    if IsPackageFile(path, folder) { PackageFileIsManifest(path, folder); }
    if IsManifestPath(path) && Folder(path) == folder { ManifestIsPackageFile(path, folder); }
  }

  lemma PackageFileIsManifest(path: Path, folder: string)
    requires IsPackageFile(path, folder)
    ensures IsManifestPath(path) && Folder(path) == folder
  {
    var name :| '/' !in name && (folder == "apps/" + name || folder == "packages/" + name || folder == "b4m-core/" + name);
    if folder == "apps/" + name {
      ManifestUnder(path, folder, "apps/", name);
    } else if folder == "packages/" + name {
      ManifestUnder(path, folder, "packages/", name);
    } else {
      ManifestUnder(path, folder, "b4m-core/", name);
    }
  }

  lemma ManifestUnder(path: Path, folder: string, top: string, name: string)
    requires top in {"apps/", "packages/", "b4m-core/"} && '/' !in name && folder == top + name && path == folder + MANIFEST
    ensures IsManifestPath(path) && Folder(path) == folder
  {
    SlashesOf(folder, top, name);
    assert path[..|top|] == top && path[|folder|..] == MANIFEST && path[..|folder|] == folder;
  }

  lemma ManifestIsPackageFile(path: Path, folder: string)
    requires IsManifestPath(path) && Folder(path) == folder
    ensures IsPackageFile(path, folder)
  {
    if StartsWith(path, "apps/") {
      var _ := FolderUnder(path, folder, "apps/");
    } else if StartsWith(path, "packages/") {
      var _ := FolderUnder(path, folder, "packages/");
    } else {
      var _ := FolderUnder(path, folder, "b4m-core/");
    }
  }

  lemma FolderUnder(path: Path, folder: string, top: string) returns (name: string)
    requires top in {"apps/", "packages/", "b4m-core/"} && StartsWith(path, top)
    requires IsManifestPath(path) && Folder(path) == folder
    ensures folder == top + name && '/' !in name && path == folder + "/package.json"
  {
    assert path == folder + MANIFEST;
    TopIsInFolder(path, folder, top);
    name := folder[|top|..];
    assert folder == top + name;
    SlashesOf(folder, top, name);
  }

  // The folder takes in the first part of the path, slash included.
  lemma TopIsInFolder(path: Path, folder: string, top: string)
    requires top in {"apps/", "packages/", "b4m-core/"} && StartsWith(path, top)
    requires path == folder + MANIFEST && Count(path, '/') == 2
    ensures StartsWith(folder, top)
  {
    var word := TopIs(top);
    var k := SlashIn(path, folder, top);
    SlashNotBefore(path, word, k);
    assert folder[..|top|] == path[..|top|];
  }

  lemma SlashIn(path: Path, folder: string, top: string) returns (k: nat)
    requires top in {"apps/", "packages/", "b4m-core/"} && path == folder + MANIFEST && Count(path, '/') == 2
    ensures k < |folder| && path[k] == '/'
  {
    CountOfConcat(folder, MANIFEST, '/');
    SlashOfManifest();
    CountOfNone(folder, '/');
    k :| 0 <= k < |folder| && folder[k] == '/';
  }

  lemma SlashNotBefore(path: Path, word: string, k: nat)
    requires '/' !in word && StartsWith(path, word + "/") && k < |path| && path[k] == '/'
    ensures |word| <= k
  {
    assert path[..|word|] == word;
    assert forall i :: 0 <= i < |word| ==> path[i] == word[i];
  }

  // Packages

  // The manifest at the path is a mapping and gives the package this name; one without a name goes by its path.
  ghost predicate Declares(readers: Readers, tree: Tree, path: Path, name: string, fields: Fields) {
    && path in tree && readers.json(tree[path]) == Some(Obj(fields))
    && (if "name" in fields then fields["name"] == Str(name) else name == path)
  }

  // The package of that name: of several manifests that declare it, the last in Git's order.
  ghost predicate IsPackage(readers: Readers, tree: Tree, name: string, folder: string, fields: Fields) {
    && IsPackageFile(folder + "/package.json", folder)
    && Declares(readers, tree, folder + "/package.json", name, fields)
    && forall path :: IsDeclared(readers, tree, path, name) ==> path == folder + "/package.json" || Below(path, folder + "/package.json")
  }

  ghost predicate IsDeclared(readers: Readers, tree: Tree, path: Path, name: string) {
    exists folder, fields :: IsPackageFile(path, folder) && Declares(readers, tree, path, name, fields)
  }

  // The workspace, as the loop over all files reads it

  ghost predicate IsSorted(paths: seq<Path>) {
    forall i, j :: 0 <= i < j < |paths| ==> Below(paths[i], paths[j])
  }

  lemma {:induction false} ListingIsSorted(paths: set<Path>)
    ensures IsSorted(Listing(paths))
    decreases paths
  {
    var l := Listing(paths);
    if l != [] {
      LeastExists(paths);
      assert l == [l[0]] + Listing(paths - {l[0]}) && IsLeast(l[0], paths);
      ListingIsSorted(paths - {l[0]});
      forall i, j | 0 <= i < j < |l| ensures Below(l[i], l[j]) {
        assert l[j] in Listing(paths - {l[0]});
        assert i > 0 ==> l[i] == Listing(paths - {l[0]})[i - 1];
      }
    }
  }

  // The manifest at the path declares the name, however its folder is called.
  predicate Names(readers: Readers, tree: Tree, path: Path, name: string) {
    IsManifestPath(path) && Document(readers, tree, path).Some? && NameOf(Document(readers, tree, path).value, path) == Str(name)
  }

  ghost predicate IsLastNamed(readers: Readers, tree: Tree, paths: seq<Path>, i: nat, name: string) {
    && i < |paths| && Names(readers, tree, paths[i], name)
    && forall j :: i < j < |paths| ==> !Names(readers, tree, paths[j], name)
  }

  ghost predicate IsEntry(readers: Readers, tree: Tree, paths: seq<Path>, members: map<string, Member>, i: nat, name: string) {
    && IsLastNamed(readers, tree, paths, i, name)
    && name in members && members[name] == Member(Folder(paths[i]), Obj(Document(readers, tree, paths[i]).value))
  }

  lemma OneMoreMember(readers: Readers, tree: Tree, paths: seq<Path>)
    requires paths != [] && Members(readers, tree, paths).Some?
    ensures Members(readers, tree, paths[..|paths| - 1]).Some?
    ensures Adds(readers, tree, paths[|paths| - 1], Members(readers, tree, paths[..|paths| - 1]).value,
                 Members(readers, tree, paths).value)
  {
  }

  ghost predicate Adds(readers: Readers, tree: Tree, path: Path, before: map<string, Member>, after: map<string, Member>) {
    forall name ::
      if Names(readers, tree, path, name)
      then name in after && after[name] == Member(Folder(path), Obj(Document(readers, tree, path).value))
      else (name in after <==> name in before) && (name in before ==> after[name] == before[name])
  }

  ghost predicate HasEntry(readers: Readers, tree: Tree, paths: seq<Path>, members: map<string, Member>, name: string) {
    exists i: nat :: IsEntry(readers, tree, paths, members, i, name)
  }

  ghost predicate HoldsNamed(readers: Readers, tree: Tree, paths: seq<Path>, members: map<string, Member>) {
    && (forall name :: name in members ==> HasEntry(readers, tree, paths, members, name))
    && (forall i, name :: 0 <= i < |paths| && Names(readers, tree, paths[i], name) ==> name in members)
  }

  // Every member stands for the last manifest that declares it.
  lemma {:induction false} MembersAreLast(readers: Readers, tree: Tree, paths: seq<Path>)
    requires Members(readers, tree, paths).Some?
    ensures HoldsNamed(readers, tree, paths, Members(readers, tree, paths).value)
  {
    if paths != [] {
      var front := paths[..|paths| - 1];
      OneMoreMember(readers, tree, paths);
      MembersAreLast(readers, tree, front);
      LastMember(readers, tree, front, paths, Members(readers, tree, front).value, Members(readers, tree, paths).value);
    }
  }

  lemma LastMember(readers: Readers, tree: Tree, front: seq<Path>, paths: seq<Path>, before: map<string, Member>,
                   after: map<string, Member>)
    requires paths != [] && front == paths[..|paths| - 1] && HoldsNamed(readers, tree, front, before)
    requires Adds(readers, tree, paths[|paths| - 1], before, after)
    ensures HoldsNamed(readers, tree, paths, after)
  {
    var path := paths[|paths| - 1];
    forall name | name in after ensures HasEntry(readers, tree, paths, after, name) {
      if Names(readers, tree, path, name) {
        assert IsEntry(readers, tree, paths, after, |front|, name);
      } else {
        assert HasEntry(readers, tree, front, before, name);
        var i: nat :| IsEntry(readers, tree, front, before, i, name);
        StaysEntry(readers, tree, paths, before, after, i, name);
      }
    }
    forall i, name | 0 <= i < |paths| && Names(readers, tree, paths[i], name) ensures name in after {
      if i < |front| { assert front[i] == paths[i]; }
    }
  }

  lemma StaysEntry(readers: Readers, tree: Tree, paths: seq<Path>, before: map<string, Member>, after: map<string, Member>,
                   i: nat, name: string)
    requires paths != [] && IsEntry(readers, tree, paths[..|paths| - 1], before, i, name)
    requires !Names(readers, tree, paths[|paths| - 1], name) && name in after && after[name] == before[name]
    ensures IsEntry(readers, tree, paths, after, i, name)
  {
    var front := paths[..|paths| - 1];
    forall j | i < j < |paths| ensures !Names(readers, tree, paths[j], name) {
      if j < |front| { assert front[j] == paths[j]; }
    }
  }

  lemma BelowIsStrict(a: string, b: string)
    requires Below(a, b)
    ensures a != b && !Below(b, a)
  {
  }

  lemma NamesExactly(readers: Readers, tree: Tree, path: Path, name: string)
    ensures Names(readers, tree, path, name) <==> IsDeclared(readers, tree, path, name)
  {
    if Names(readers, tree, path, name) {
      ManifestPathExactly(path, Folder(path));
      DeclaresExactly(readers, tree, path, name, Document(readers, tree, path).value);
      assert IsPackageFile(path, Folder(path));
    }
    if IsDeclared(readers, tree, path, name) {
      var folder, fields :| IsPackageFile(path, folder) && Declares(readers, tree, path, name, fields);
      ManifestPathExactly(path, folder);
      DeclaresExactly(readers, tree, path, name, fields);
    }
  }

  lemma NoYaml(path: Path)
    requires IsManifestPath(path)
    ensures !EndsWith(path, ".yaml")
  {
    LastChar(path, MANIFEST);
    LastChar(path, ".yaml");
  }

  lemma LastChar(s: string, suffix: string)
    requires suffix != ""
    ensures EndsWith(s, suffix) ==> s != "" && s[|s| - 1] == suffix[|suffix| - 1]
  {
    if EndsWith(s, suffix) { assert s[|s| - |suffix|..][|suffix| - 1] == s[|s| - 1]; }
  }

  lemma DeclaresExactly(readers: Readers, tree: Tree, path: Path, name: string, fields: Fields)
    requires IsManifestPath(path)
    ensures Declares(readers, tree, path, name, fields)
            <==> Document(readers, tree, path) == Some(fields) && NameOf(fields, path) == Str(name)
  {
    NoYaml(path);
  }

  // What the workspace loop has in the end are the packages.
  lemma PackageExactly(readers: Readers, tree: Tree, name: string, folder: string, fields: Fields)
    requires Members(readers, tree, Listing(tree.Keys)).Some?
    ensures var members := Members(readers, tree, Listing(tree.Keys)).value;
            name in members && members[name] == Member(folder, Obj(fields)) <==> IsPackage(readers, tree, name, folder, fields)
  {
    var paths := Listing(tree.Keys);
    var members := Members(readers, tree, paths).value;
    ListingIsSorted(tree.Keys);
    MembersAreLast(readers, tree, paths);
    if name in members && members[name] == Member(folder, Obj(fields)) {
      assert HasEntry(readers, tree, paths, members, name);
      var i: nat :| IsEntry(readers, tree, paths, members, i, name);
      EntryIsPackage(readers, tree, paths, i, name, folder, fields);
    }
    if IsPackage(readers, tree, name, folder, fields) {
      PackageIsEntry(readers, tree, paths, members, name, folder, fields);
    }
  }

  lemma EntryIsPackage(readers: Readers, tree: Tree, paths: seq<Path>, i: nat, name: string, folder: string, fields: Fields)
    requires IsSorted(paths) && (forall path :: path in paths <==> path in tree) && IsLastNamed(readers, tree, paths, i, name)
    requires Folder(paths[i]) == folder && Document(readers, tree, paths[i]) == Some(fields)
    ensures IsPackage(readers, tree, name, folder, fields)
  {
    ManifestPathExactly(paths[i], folder);
    DeclaresExactly(readers, tree, paths[i], name, fields);
    assert paths[i] == folder + "/package.json";
    forall path | IsDeclared(readers, tree, path, name) ensures path == paths[i] || Below(path, paths[i]) {
      NamesExactly(readers, tree, path, name);
      assert path in tree;
      var j :| 0 <= j < |paths| && paths[j] == path;
    }
  }

  lemma PackageIsEntry(readers: Readers, tree: Tree, paths: seq<Path>, members: map<string, Member>, name: string,
                       folder: string, fields: Fields)
    requires IsSorted(paths) && (forall path :: path in paths <==> path in tree) && IsPackage(readers, tree, name, folder, fields)
    requires HoldsNamed(readers, tree, paths, members)
    ensures name in members && members[name] == Member(folder, Obj(fields))
  {
    var path := folder + "/package.json";
    ManifestPathExactly(path, folder);
    DeclaresExactly(readers, tree, path, name, fields);
    assert IsDeclared(readers, tree, path, name);
    var j :| 0 <= j < |paths| && paths[j] == path;
    assert Names(readers, tree, paths[j], name);
    assert HasEntry(readers, tree, paths, members, name);
    var i: nat :| IsEntry(readers, tree, paths, members, i, name);
    NamesExactly(readers, tree, paths[i], name);
    if j < i { BelowIsStrict(paths[j], paths[i]); }
    assert i == j;
  }

  // Chains of dependencies

  // The manifest lists the dependency in a group.
  ghost predicate DependsOn(fields: Fields, dep: string) {
    exists group :: group in {"dependencies", "devDependencies", "optionalDependencies", "peerDependencies"}
                    && group in fields && fields[group].Obj? && dep in fields[group].fields
  }

  ghost predicate IsLink(readers: Readers, tree: Tree, name: string, dep: string) {
    exists folder, fields :: IsPackage(readers, tree, name, folder, fields) && DependsOn(fields, dep)
  }

  // From the desktop package on, each package lists the next.
  ghost predicate IsChain(readers: Readers, tree: Tree, names: seq<string>) {
    && names != [] && names[0] == "@bike4mind/desktop"
    && forall i :: 0 < i < |names| ==> Linked(readers, tree, names, i)
  }

  ghost predicate Linked(readers: Readers, tree: Tree, names: seq<string>, i: int)
    requires 0 < i < |names|
  {
    IsLink(readers, tree, names[i - 1], names[i])
  }

  // The folder of a package such a chain ends at.
  ghost predicate IsNeeded(readers: Readers, tree: Tree, folder: string) {
    exists names, fields :: EndsAt(readers, tree, names, folder, fields)
  }

  ghost predicate EndsAt(readers: Readers, tree: Tree, names: seq<string>, folder: string, fields: Fields) {
    IsChain(readers, tree, names) && IsPackage(readers, tree, names[|names| - 1], folder, fields)
  }

  lemma DepsExactly(members: map<string, Member>, fields: Fields, dep: string)
    ensures dep in WorkspaceDeps(members, Obj(fields), MANIFEST_GROUPS) <==> dep in members && DependsOn(fields, dep)
  {
    FourGroups();
    if dep in members && DependsOn(fields, dep) {
      var group :| group in {"dependencies", "devDependencies", "optionalDependencies", "peerDependencies"}
                   && group in fields && fields[group].Obj? && dep in fields[group].fields;
      assert group in MANIFEST_GROUPS && GroupOf(Obj(fields), group) == fields[group];
    }
    if dep in WorkspaceDeps(members, Obj(fields), MANIFEST_GROUPS) {
      var group :| group in MANIFEST_GROUPS && GroupOf(Obj(fields), group).Obj? && dep in GroupOf(Obj(fields), group).fields;
      assert group in fields;
    }
  }

  lemma FourGroups()
    ensures forall group :: group in MANIFEST_GROUPS
                       <==> group in {"dependencies", "devDependencies", "optionalDependencies", "peerDependencies"}
  {
    assert MANIFEST_GROUPS == ["dependencies", "devDependencies", "optionalDependencies", "peerDependencies"];
  }

  lemma MemberFields(readers: Readers, tree: Tree, name: string) returns (folder: string, fields: Fields)
    requires Members(readers, tree, Listing(tree.Keys)).Some? && name in Members(readers, tree, Listing(tree.Keys)).value
    ensures Members(readers, tree, Listing(tree.Keys)).value[name] == Member(folder, Obj(fields))
    ensures IsPackage(readers, tree, name, folder, fields)
  {
    var paths := Listing(tree.Keys);
    var members := Members(readers, tree, paths).value;
    MembersAreLast(readers, tree, paths);
    assert HasEntry(readers, tree, paths, members, name);
    var i: nat :| IsEntry(readers, tree, paths, members, i, name);
    folder, fields := Folder(paths[i]), Document(readers, tree, paths[i]).value;
    PackageExactly(readers, tree, name, folder, fields);
  }

  // An edge of the graph the first worklist follows.
  lemma EdgeExactly(readers: Readers, tree: Tree, name: string, dep: string)
    requires Members(readers, tree, Listing(tree.Keys)).Some?
    ensures var members := Members(readers, tree, Listing(tree.Keys)).value;
            name in members && dep in WorkspaceGraph(members)[name] <==> dep in members && IsLink(readers, tree, name, dep)
  {
    var members := Members(readers, tree, Listing(tree.Keys)).value;
    if name in members {
      var folder, fields := MemberFields(readers, tree, name);
      DepsExactly(members, fields, dep);
      assert WorkspaceGraph(members)[name] == WorkspaceDeps(members, Obj(fields), MANIFEST_GROUPS);
    }
    if IsLink(readers, tree, name, dep) {
      var folder, fields :| IsPackage(readers, tree, name, folder, fields) && DependsOn(fields, dep);
      PackageExactly(readers, tree, name, folder, fields);
      DepsExactly(members, fields, dep);
      assert dep in members ==> dep in WorkspaceGraph(members)[name];
    }
  }

  lemma WalkExactly(readers: Readers, tree: Tree, names: seq<string>)
    requires Members(readers, tree, Listing(tree.Keys)).Some?
    requires names != [] && names[|names| - 1] in Members(readers, tree, Listing(tree.Keys)).value
    ensures IsWalk(WorkspaceGraph(Members(readers, tree, Listing(tree.Keys)).value), {DESKTOP}, names)
            <==> IsChain(readers, tree, names)
  {
    var members := Members(readers, tree, Listing(tree.Keys)).value;
    var graph := WorkspaceGraph(members);
    if IsWalk(graph, {DESKTOP}, names) {
      forall i | 0 < i < |names| ensures Linked(readers, tree, names, i) {
        assert IsStep(graph, names, i);
        EdgeExactly(readers, tree, names[i - 1], names[i]);
      }
    }
    if IsChain(readers, tree, names) {
      forall i | 0 < i < |names| ensures IsStep(graph, names, i) {
        ChainIsOfMembers(readers, tree, names, i);
        assert Linked(readers, tree, names, i);
        EdgeExactly(readers, tree, names[i - 1], names[i]);
      }
    }
  }

  lemma ChainIsOfMembers(readers: Readers, tree: Tree, names: seq<string>, i: nat)
    requires Members(readers, tree, Listing(tree.Keys)).Some? && IsChain(readers, tree, names) && i < |names|
    requires names[|names| - 1] in Members(readers, tree, Listing(tree.Keys)).value
    ensures names[i] in Members(readers, tree, Listing(tree.Keys)).value
  {
    if i < |names| - 1 {
      assert Linked(readers, tree, names, i + 1);
      var folder, fields :| IsPackage(readers, tree, names[i], folder, fields) && DependsOn(fields, names[i + 1]);
      PackageExactly(readers, tree, names[i], folder, fields);
    }
  }

  // The workspace folders a readable revision is built from are those of the packages a chain leads to.
  lemma RootsExactly(readers: Readers, tree: Tree, folder: string)
    requires Members(readers, tree, Listing(tree.Keys)).Some? && Roots(Members(readers, tree, Listing(tree.Keys)).value).Some?
    ensures folder in Roots(Members(readers, tree, Listing(tree.Keys)).value).value <==> IsNeeded(readers, tree, folder)
  {
    var members := Members(readers, tree, Listing(tree.Keys)).value;
    var graph := WorkspaceGraph(members);
    if folder in Roots(members).value {
      var name :| name in DesktopMembers(members) && members[name].folder == folder;
      ReachIsWalks(graph, {DESKTOP}, name);
      var walk :| IsWalk(graph, {DESKTOP}, walk) && walk[|walk| - 1] == name;
      WalkExactly(readers, tree, walk);
      var f, fields := MemberFields(readers, tree, name);
      assert EndsAt(readers, tree, walk, folder, fields);
    }
    if IsNeeded(readers, tree, folder) {
      var names, fields :| EndsAt(readers, tree, names, folder, fields);
      EndIsReached(readers, tree, names, folder, fields);
    }
  }

  lemma EndIsReached(readers: Readers, tree: Tree, names: seq<string>, folder: string, fields: Fields)
    requires Members(readers, tree, Listing(tree.Keys)).Some? && EndsAt(readers, tree, names, folder, fields)
    ensures var (members, name) := (Members(readers, tree, Listing(tree.Keys)).value, names[|names| - 1]);
            name in DesktopMembers(members) && members[name] == Member(folder, Obj(fields))
  {
    var members, name := Members(readers, tree, Listing(tree.Keys)).value, names[|names| - 1];
    PackageExactly(readers, tree, name, folder, fields);
    WalkExactly(readers, tree, names);
    assert Walkable(WorkspaceGraph(members), {DESKTOP}, name);
    ReachIsWalks(WorkspaceGraph(members), {DESKTOP}, name);
  }

  lemma ReachedIsEnd(readers: Readers, tree: Tree, name: string) returns (names: seq<string>, folder: string, fields: Fields)
    requires Members(readers, tree, Listing(tree.Keys)).Some?
    requires name in DesktopMembers(Members(readers, tree, Listing(tree.Keys)).value)
    ensures EndsAt(readers, tree, names, folder, fields) && names[|names| - 1] == name
    ensures Members(readers, tree, Listing(tree.Keys)).value[name] == Member(folder, Obj(fields))
  {
    var graph := WorkspaceGraph(Members(readers, tree, Listing(tree.Keys)).value);
    ReachIsWalks(graph, {DESKTOP}, name);
    names :| IsWalk(graph, {DESKTOP}, names) && names[|names| - 1] == name;
    WalkExactly(readers, tree, names);
    folder, fields := MemberFields(readers, tree, name);
  }

  // When it can be read

  // The manifest is a mapping, and its name, if it has one, is no list and no mapping.
  ghost predicate IsReadableManifest(readers: Readers, text: string) {
    match readers.json(text)
    case Some(Obj(fields)) => "name" in fields ==> !fields["name"].Arr? && !fields["name"].Obj?
    case _ => false
  }

  ghost predicate ManifestsAreReadable(readers: Readers, tree: Tree, paths: seq<Path>) {
    forall path, folder :: path in paths && IsPackageFile(path, folder) ==> path in tree && IsReadableManifest(readers, tree[path])
  }

  lemma ManifestReads(readers: Readers, tree: Tree, path: Path)
    requires IsManifestPath(path)
    ensures path in tree && IsReadableManifest(readers, tree[path])
            <==> Document(readers, tree, path).Some?
                 && !NameOf(Document(readers, tree, path).value, path).Arr? && !NameOf(Document(readers, tree, path).value, path).Obj?
  {
    NoYaml(path);
  }

  // The workspace can be listed exactly if every manifest in it can be read.
  lemma {:induction false} MembersReadExactly(readers: Readers, tree: Tree, paths: seq<Path>)
    ensures Members(readers, tree, paths).Some? <==> ManifestsAreReadable(readers, tree, paths)
  {
    if paths != [] {
      var front, path := paths[..|paths| - 1], paths[|paths| - 1];
      MembersReadExactly(readers, tree, front);
      assert paths == front + [path];
      if IsManifestPath(path) {
        ManifestPathExactly(path, Folder(path));
        ManifestReads(readers, tree, path);
      } else {
        forall folder ensures !IsPackageFile(path, folder) { ManifestPathExactly(path, folder); }
      }
      LastReads(readers, tree, front, path);
    }
  }

  lemma LastReads(readers: Readers, tree: Tree, front: seq<Path>, path: Path)
    ensures ManifestsAreReadable(readers, tree, front + [path])
            <==> ManifestsAreReadable(readers, tree, front)
                 && forall folder :: IsPackageFile(path, folder) ==> path in tree && IsReadableManifest(readers, tree[path])
  {
    var all := front + [path];
    assert forall p :: p in all <==> p in front || p == path;
  }

  // The text str() shows of a version.
  predicate Shows(value: Json, text: string) {
    match value
    case Str(s) => text == s
    case Num(repr) => text == repr
    case Arr(repr) => text == repr
    case Bool(b) => text == if b then "True" else "False"
    case Null => text == "None"
    case Obj(_) => text == "{"
  }

  lemma ShowsExactly(value: Json, text: string)
    ensures Shows(value, text) <==> text == PyStr(value)
  {
  }

  predicate IsLocalText(text: string) {
    "workspace:" <= text || "link:" <= text
  }

  ghost predicate GroupResolves(readers: Readers, tree: Tree, group: Json) {
    group.Obj? && forall dep, text :: dep in group.fields && Shows(group.fields[dep], text) && IsLocalText(text) ==>
      exists folder, fields :: IsPackage(readers, tree, dep, folder, fields)
  }

  // The groups of the manifest are mappings, and what they want from the workspace is there.
  ghost predicate FieldsResolve(readers: Readers, tree: Tree, fields: Fields) {
    forall group :: group in {"dependencies", "devDependencies", "optionalDependencies", "peerDependencies"} && group in fields ==>
      GroupResolves(readers, tree, fields[group])
  }

  lemma IsMemberExactly(readers: Readers, tree: Tree, name: string)
    requires Members(readers, tree, Listing(tree.Keys)).Some?
    ensures name in Members(readers, tree, Listing(tree.Keys)).value
            <==> exists folder, fields :: IsPackage(readers, tree, name, folder, fields)
  {
    if name in Members(readers, tree, Listing(tree.Keys)).value {
      var folder, fields := MemberFields(readers, tree, name);
    }
    if exists folder, fields :: IsPackage(readers, tree, name, folder, fields) {
      var folder, fields :| IsPackage(readers, tree, name, folder, fields);
      PackageExactly(readers, tree, name, folder, fields);
    }
  }

  lemma GroupResolvesExactly(readers: Readers, tree: Tree, group: Json)
    requires Members(readers, tree, Listing(tree.Keys)).Some?
    ensures GroupResolves(readers, tree, group) <==> ResolvesLocally(Members(readers, tree, Listing(tree.Keys)).value, group)
  {
    var members := Members(readers, tree, Listing(tree.Keys)).value;
    if group.Obj? {
      forall dep, text | dep in group.fields
        ensures Shows(group.fields[dep], text) <==> text == PyStr(group.fields[dep])
        ensures IsLocalText(text) <==> IsLocalVersion(text)
        ensures dep in members <==> exists folder, fields :: IsPackage(readers, tree, dep, folder, fields)
      {
        ShowsExactly(group.fields[dep], text);
        IsMemberExactly(readers, tree, dep);
      }
      assert forall dep :: dep in group.fields ==> Shows(group.fields[dep], PyStr(group.fields[dep]));
    }
  }

  lemma FieldsResolveExactly(readers: Readers, tree: Tree, fields: Fields)
    requires Members(readers, tree, Listing(tree.Keys)).Some?
    ensures FieldsResolve(readers, tree, fields)
            <==> ManifestResolves(Members(readers, tree, Listing(tree.Keys)).value, Obj(fields), MANIFEST_GROUPS)
  {
    FourGroups();
    forall group | group in MANIFEST_GROUPS
      ensures (group in fields ==> GroupResolves(readers, tree, fields[group]))
              <==> ResolvesLocally(Members(readers, tree, Listing(tree.Keys)).value, GroupOf(Obj(fields), group))
    {
      if group in fields { GroupResolvesExactly(readers, tree, fields[group]); }
    }
  }

  // The chains can be followed exactly if everything on them resolves.
  lemma RootsReadExactly(readers: Readers, tree: Tree)
    requires Members(readers, tree, Listing(tree.Keys)).Some?
    ensures Roots(Members(readers, tree, Listing(tree.Keys)).value).Some?
            <==> forall names, folder, fields :: EndsAt(readers, tree, names, folder, fields) ==> FieldsResolve(readers, tree, fields)
  {
    var members := Members(readers, tree, Listing(tree.Keys)).value;
    if Roots(members).Some? {
      forall names, folder, fields | EndsAt(readers, tree, names, folder, fields) ensures FieldsResolve(readers, tree, fields) {
        EndIsReached(readers, tree, names, folder, fields);
        FieldsResolveExactly(readers, tree, fields);
      }
    }
    if forall names, folder, fields :: EndsAt(readers, tree, names, folder, fields) ==> FieldsResolve(readers, tree, fields) {
      forall name | name in DesktopMembers(members) ensures ManifestResolves(members, members[name].manifest, MANIFEST_GROUPS) {
        var names, folder, fields := ReachedIsEnd(readers, tree, name);
        FieldsResolveExactly(readers, tree, fields);
      }
    }
  }
}
