// scripts/desktop_affected.py: whether two revisions differ in anything the desktop app is built from.
module DesktopAffected {
  import opened Text
  import opened Git
  import opened Dependencies

  const LOCKFILE := "pnpm-lock.yaml"
  const WORKSPACE := "pnpm-workspace.yaml"
  const ROOT_MANIFEST := "package.json"
  const CORE_SCRIPTS: set<string> := {"prepare", "core:build", "turbo:core:build"}
  const ROOT_SETTINGS: set<string> := {"packageManager", "engines", "pnpm", "overrides"}

  // The part of the lockfile the desktop build is resolved from.
  datatype Projection = Projection(importers: Fields, snapshots: Fields, packages: Fields,
                                   settings: Json, overrides: Json, patchedDependencies: Json)

  datatype Tooling = Tooling(root: Fields, scripts: Fields, dependencies: map<string, Fields>)

  datatype Inputs = Inputs(roots: set<string>, lock: Projection, tooling: Tooling)

  function Only(fields: Fields, names: set<string>): Fields {
    map n | n in fields && n in names :: fields[n]
  }

  function RootImporter(importer: Fields): Json {
    Obj(map g | g in importer && importer[g].Obj? :: Obj(Only(importer[g].fields, TOOLS)))
  }

  predicate Usable(lock: Fields, roots: set<string>) {
    && PyStr(Get(lock, "lockfileVersion")) == "9.0"
    && Get(lock, "importers").Obj? && Get(lock, "snapshots").Obj? && Get(lock, "packages").Obj?
    && roots <= Get(lock, "importers").fields.Keys
    && "." in Get(lock, "importers").fields
    && Get(lock, "importers").fields["."].Obj?
  }

  function Importers(lock: Fields, roots: set<string>): Fields
    requires Usable(lock, roots)
  {
    var all := Get(lock, "importers").fields;
    Only(all, roots)["." := RootImporter(all["."].fields)]
  }

  function Select(lock: Fields, roots: set<string>, reachable: set<string>): Projection
    requires Usable(lock, roots)
  {
    var snapshots, packages := Get(lock, "snapshots").fields, Get(lock, "packages").fields;
    Projection(Importers(lock, roots),
               map key | key in reachable :: Get(snapshots, key),
               map base | base in Bases(reachable) :: Get(packages, base),
               Get(lock, "settings"), Get(lock, "overrides"), Get(lock, "patchedDependencies"))
  }

  function Bases(keys: set<string>): set<string> {
    set key | key in keys :: Base(key)
  }

  ghost function Project(lock: Fields, roots: set<string>): Option<Projection> {
    if !Usable(lock, roots) then None
    else
      var reachable :- Resolved(Importers(lock, roots), Get(lock, "snapshots").fields, Get(lock, "packages").fields);
      Some(Select(lock, roots, reachable))
  }

  function ToolingOf(root: Fields): Option<Tooling> {
    if !GroupOf(Obj(root), "scripts").Obj? || !(forall g :: g in GROUPS ==> GroupOf(Obj(root), g).Obj?) then None
    else
      Some(Tooling(map key | key in ROOT_SETTINGS :: Get(root, key),
                   Only(GroupOf(Obj(root), "scripts").fields, CORE_SCRIPTS),
                   map g | g in GROUPS :: Only(GroupOf(Obj(root), g).fields, TOOLS)))
  }

  ghost function DependencyInputs(readers: Readers, tree: Tree): Option<Inputs> {
    var members :- Members(readers, tree, Listing(tree.Keys));
    InputsOf(readers, tree, members)
  }

  ghost function InputsOf(readers: Readers, tree: Tree, members: map<string, Member>): Option<Inputs> {
    var roots :- Roots(members);
    if DESKTOP_FOLDER !in roots then None
    else
      var lock :- Document(readers, tree, LOCKFILE);
      var projection :- Project(lock, roots);
      var root :- Document(readers, tree, ROOT_MANIFEST);
      var tooling :- ToolingOf(root);
      Some(Inputs(roots, projection, tooling))
  }

  method ReadInputs(readers: Readers, tree: Tree, paths: seq<Path>) returns (inputs: Option<Inputs>)
    requires paths == Listing(tree.Keys)
    ensures inputs == DependencyInputs(readers, tree)
  {
    var members := Members(readers, tree, paths);
    if members.None? { return None; }
    MembersHaveDistinctFolders(readers, tree, paths);
    var roots := FollowWorkspace(members.value);
    if roots.None? || DESKTOP_FOLDER !in roots.value { return None; }
    var lock := Document(readers, tree, LOCKFILE);
    if lock.None? || !Usable(lock.value, roots.value) { return None; }
    var reachable := FollowLockfile(Importers(lock.value, roots.value),
                                    Get(lock.value, "snapshots").fields, Get(lock.value, "packages").fields);
    if reachable.None? { return None; }
    var root := Document(readers, tree, ROOT_MANIFEST);
    if root.None? { return None; }
    var tooling := ToolingOf(root.value);
    if tooling.None? { return None; }
    inputs := Some(Inputs(roots.value, Select(lock.value, roots.value, reachable.value), tooling.value));
  }

  // `other` holds, for everything the projection of `lock` was made from, what `lock` holds.
  ghost predicate AgreeOn(lock: Fields, other: Fields, roots: set<string>, reach: set<string>)
    requires Usable(lock, roots) && Usable(other, roots)
  {
    var snapshots, others := Get(lock, "snapshots").fields, Get(other, "snapshots").fields;
    var packages, otherPackages := Get(lock, "packages").fields, Get(other, "packages").fields;
    && Importers(other, roots) == Importers(lock, roots)
    && (forall key :: key in reach ==> key in others && others[key] == Get(snapshots, key))
    && (forall key :: key in reach ==> Base(key) in otherPackages && otherPackages[Base(key)] == Get(packages, Base(key)))
    && (forall name :: name in {"settings", "overrides", "patchedDependencies"} ==> Get(lock, name) == Get(other, name))
  }

  // Lockfiles that agree on what one of them reaches have the same projection, whatever else they hold.
  lemma ProjectionIsLocal(lock: Fields, other: Fields, roots: set<string>)
    requires Project(lock, roots).Some? && Usable(other, roots)
    requires AgreeOn(lock, other, roots, Project(lock, roots).value.snapshots.Keys)
    ensures Project(other, roots) == Project(lock, roots)
  {
    var importers := Importers(lock, roots);
    var snapshots, packages := Get(lock, "snapshots").fields, Get(lock, "packages").fields;
    var others, otherPackages := Get(other, "snapshots").fields, Get(other, "packages").fields;
    var reach := Resolved(importers, snapshots, packages).value;
    assert Project(lock, roots).value.snapshots.Keys == reach;
    forall key | key in reach ensures key in snapshots {
      assert Resolves(snapshots, packages, key);
    }
    ResolvedIsLocal(importers, snapshots, packages, others, otherPackages);
    SameSelection(lock, other, roots, reach);
  }

  lemma SameSelection(lock: Fields, other: Fields, roots: set<string>, reach: set<string>)
    requires Usable(lock, roots) && Usable(other, roots) && AgreeOn(lock, other, roots, reach)
    ensures Select(other, roots, reach) == Select(lock, roots, reach)
  {
    var one, two := Select(lock, roots, reach), Select(other, roots, reach);
    assert one.snapshots == two.snapshots;
    assert one.packages == two.packages;
    assert "settings" in {"settings", "overrides", "patchedDependencies"};
  }

  // The comparison

  predicate IsMarkdown(path: Path) {
    EndsWith(path, ".md") || EndsWith(path, ".mdx")
  }

  // Paths that count whatever the dependency graph says.
  predicate IsBuildInput(path: Path) {
    || StartsWith(path, "scripts/desktop_")
    || StartsWith(path, "scripts/test_desktop_")
    || StartsWith(path, ".github/workflows/desktop-release.")
    || StartsWith(path, "catalog/model-hub/")
    || path in {"packages/scripts/src/curatedCatalog/checkDesktopBuild.ts",
                "packages/scripts/src/curatedCatalog/devKey.ts",
                "packages/scripts/src/curatedCatalog/cli.ts"}
    || path in {WORKSPACE, "turbo.json", ".npmrc", "vitest.shared.ts"}
  }

  predicate IsUnder(path: Path, roots: set<string>) {
    exists folder :: folder in roots && StartsWith(path, folder + "/")
  }

  function ReadText(tree: Tree, path: Path): string {
    if path in tree then tree[path] else ""
  }

  predicate IsNamedPatch(path: Path, base: Tree, head: Tree) {
    && StartsWith(path, "patches/")
    && (Contains(ReadText(base, WORKSPACE), path) || Contains(ReadText(head, WORKSPACE), path))
  }

  predicate Counts(path: Path, roots: set<string>, base: Tree, head: Tree) {
    !IsMarkdown(path) && (IsUnder(path, roots) || IsBuildInput(path) || IsNamedPatch(path, base, head))
  }

  ghost predicate Affected(readers: Readers, base: Tree, head: Tree) {
    var before, after := DependencyInputs(readers, base), DependencyInputs(readers, head);
    && Diff(base, head) != {}
    && (before.None? || after.None?
        || (exists path :: path in Diff(base, head) && Counts(path, before.value.roots + after.value.roots, base, head))
        || before.value.lock != after.value.lock || before.value.tooling != after.value.tooling)
  }

  // The test as the script makes it: early returns over the changed paths, in the order Git prints them.
  method TestAffected(readers: Readers, base: Tree, head: Tree,
                      changed: seq<Path>, basePaths: seq<Path>, headPaths: seq<Path>) returns (affected: bool)
    requires basePaths == Listing(base.Keys) && headPaths == Listing(head.Keys)
    requires Elements(changed) == Diff(base, head)
    ensures affected == Affected(readers, base, head)
  {
    if changed == [] { return false; }
    assert changed[0] in Elements(changed);
    var before := ReadInputs(readers, base, basePaths);
    if before.None? { return true; }
    var after := ReadInputs(readers, head, headPaths);
    if after.None? { return true; }
    var counts := AnyCounts(changed, before.value.roots + after.value.roots, base, head);
    assert forall path :: path in Diff(base, head) <==> path in Elements(changed);
    return counts || before.value.lock != after.value.lock || before.value.tooling != after.value.tooling;
  }

  method AnyCounts(changed: seq<Path>, roots: set<string>, base: Tree, head: Tree) returns (counts: bool)
    ensures counts <==> exists path :: path in Elements(changed) && Counts(path, roots, base, head)
  {
    for i := 0 to |changed|
      invariant forall j :: 0 <= j < i ==> !Counts(changed[j], roots, base, head)
    {
      var path := changed[i];
      assert path in Elements(changed);
      if IsMarkdown(path) { continue; }
      if IsUnder(path, roots) { return true; }
      if IsBuildInput(path) { return true; }
      if IsNamedPatch(path, base, head) { return true; }
    }
    return false;
  }

  // "Not affected" is an equivalence relation on trees

  lemma AffectedIsSymmetric(readers: Readers, a: Tree, b: Tree)
    ensures Affected(readers, a, b) == Affected(readers, b, a)
  {
    assert Diff(a, b) == Diff(b, a);
    var before, after := DependencyInputs(readers, a), DependencyInputs(readers, b);
    if before.Some? && after.Some? {
      assert before.value.roots + after.value.roots == after.value.roots + before.value.roots;
      forall path ensures Counts(path, before.value.roots + after.value.roots, a, b)
                       == Counts(path, after.value.roots + before.value.roots, b, a) {
      }
    }
  }

  // The projection names the workspace roots it was made for.
  lemma ImportersNameTheRoots(readers: Readers, tree: Tree)
    requires DependencyInputs(readers, tree).Some?
    ensures var inputs := DependencyInputs(readers, tree).value;
            inputs.roots == inputs.lock.importers.Keys - {"."}
  {
    var inputs := DependencyInputs(readers, tree).value;
    var members := Members(readers, tree, Listing(tree.Keys)).value;
    LockIsProjected(readers, tree, members, inputs);
    RootsAreFolders(readers, tree, members, inputs);
    FoldersAreNoDot(readers, tree, members);
    ImporterKeys(Document(readers, tree, LOCKFILE).value, inputs.roots);
  }

  lemma LockIsProjected(readers: Readers, tree: Tree, members: map<string, Member>, inputs: Inputs)
    requires InputsOf(readers, tree, members) == Some(inputs)
    ensures var lock := Document(readers, tree, LOCKFILE);
            lock.Some? && Usable(lock.value, inputs.roots) && inputs.lock.importers == Importers(lock.value, inputs.roots)
  {
  }

  lemma RootsAreFolders(readers: Readers, tree: Tree, members: map<string, Member>, inputs: Inputs)
    requires InputsOf(readers, tree, members) == Some(inputs)
    ensures Roots(members) == Some(inputs.roots)
  {
  }

  lemma ImporterKeys(lock: Fields, roots: set<string>)
    requires Usable(lock, roots)
    ensures Importers(lock, roots).Keys == roots + {"."}
  {
  }

  lemma FoldersAreNoDot(readers: Readers, tree: Tree, members: map<string, Member>)
    requires Members(readers, tree, Listing(tree.Keys)) == Some(members)
    ensures Roots(members).Some? ==> "." !in Roots(members).value
  {
    MemberFoldersAreNoDot(readers, tree, Listing(tree.Keys));
  }

  ghost predicate Quiet(readers: Readers, a: Tree, b: Tree) {
    && DependencyInputs(readers, a).Some?
    && DependencyInputs(readers, b) == DependencyInputs(readers, a)
    && forall path :: path in Diff(a, b) ==> !Counts(path, DependencyInputs(readers, a).value.roots, a, b)
  }

  lemma UnaffectedIsSameOrQuiet(readers: Readers, a: Tree, b: Tree)
    ensures !Affected(readers, a, b) <==> a == b || Quiet(readers, a, b)
  {
    if Diff(a, b) == {} {
      NoDiffIsSameTree(a, b);
    } else {
      assert a != b;
      var before, after := DependencyInputs(readers, a), DependencyInputs(readers, b);
      if before.Some? && after.Some? && before.value.lock == after.value.lock {
        SameLockSameRoots(readers, a, b);
      }
    }
  }

  lemma SameLockSameRoots(readers: Readers, a: Tree, b: Tree)
    requires DependencyInputs(readers, a).Some? && DependencyInputs(readers, b).Some?
    requires DependencyInputs(readers, a).value.lock == DependencyInputs(readers, b).value.lock
    ensures var before, after := DependencyInputs(readers, a).value, DependencyInputs(readers, b).value;
            before.roots == after.roots && before.roots + after.roots == before.roots
  {
    ImportersNameTheRoots(readers, a);
    ImportersNameTheRoots(readers, b);
  }

  lemma QuietKeepsWorkspaceConfig(readers: Readers, a: Tree, b: Tree)
    requires Quiet(readers, a, b)
    ensures ReadText(a, WORKSPACE) == ReadText(b, WORKSPACE)
  {
    assert IsBuildInput(WORKSPACE) && !IsMarkdown(WORKSPACE);
    assert WORKSPACE !in Diff(a, b);
  }

  lemma UnaffectedIsTransitive(readers: Readers, a: Tree, b: Tree, c: Tree)
    requires !Affected(readers, a, b) && !Affected(readers, b, c)
    ensures !Affected(readers, a, c)
  {
    UnaffectedIsSameOrQuiet(readers, a, b);
    UnaffectedIsSameOrQuiet(readers, b, c);
    UnaffectedIsSameOrQuiet(readers, a, c);
    if a != b && b != c {
      QuietKeepsWorkspaceConfig(readers, a, b);
      QuietKeepsWorkspaceConfig(readers, b, c);
      var roots := DependencyInputs(readers, a).value.roots;
      forall path | path in Diff(a, c) ensures !Counts(path, roots, a, c) {
        if path in Diff(a, b) {
          assert !Counts(path, roots, a, b);
        } else {
          assert path in Diff(b, c) && !Counts(path, roots, b, c);
        }
      }
    }
  }

  lemma UnaffectedIsEquivalence(readers: Readers)
    ensures forall a: Tree :: !Affected(readers, a, a)
    ensures forall a: Tree, b: Tree :: !Affected(readers, a, b) ==> !Affected(readers, b, a)
    ensures forall a: Tree, b: Tree, c: Tree ::
              !Affected(readers, a, b) && !Affected(readers, b, c) ==> !Affected(readers, a, c)
  {
    forall a: Tree, b: Tree | !Affected(readers, a, b) ensures !Affected(readers, b, a) {
      AffectedIsSymmetric(readers, a, b);
    }
    forall a: Tree, b: Tree, c: Tree | !Affected(readers, a, b) && !Affected(readers, b, c)
      ensures !Affected(readers, a, c)
    {
      UnaffectedIsTransitive(readers, a, b, c);
    }
  }

  // Commits

  // A revision that does not resolve cannot be shown to be unaffected.
  ghost predicate RevisionsAffected(readers: Readers, repo: Repo, base: Sha, head: Sha) {
    base >= |repo| || head >= |repo| || Affected(readers, repo[base].tree, repo[head].tree)
  }

  ghost predicate CommitAffected(readers: Readers, repo: Repo, c: Sha)
    requires c < |repo|
  {
    repo[c].parents == [] || RevisionsAffected(readers, repo, FirstParent(repo, c), c)
  }

  // If the whole range is affected, one of its commits is: the walk for the version bump and the
  // walk for the notes cannot come up empty when the cumulative test says build.
  lemma {:induction false} SomeCommitIsAffected(readers: Readers, repo: Repo, base: Sha, head: Sha)
    requires head < |repo| && OnFirstParentLine(repo, base, head)
    requires RevisionsAffected(readers, repo, base, head)
    ensures exists c :: c in FirstParentRange(repo, base, head) && c < |repo| && CommitAffected(readers, repo, c)
    decreases head
  {
    FirstParentLineIsAncestry(repo, base, head);
    AncestorIsOlder(repo, base, head);
    RangeIsInRepo(repo, base, head);
    if base != head {
      RangeStep(repo, base, head);
      var parent := FirstParent(repo, head);
      if CommitAffected(readers, repo, head) {
        assert head in FirstParentRange(repo, base, head);
      } else {
        if !RevisionsAffected(readers, repo, base, parent) {
          UnaffectedIsTransitive(readers, repo[base].tree, repo[parent].tree, repo[head].tree);
        }
        SomeCommitIsAffected(readers, repo, base, parent);
        var c :| c in FirstParentRange(repo, base, parent) && c < |repo| && CommitAffected(readers, repo, c);
        assert c in FirstParentRange(repo, base, head);
      }
    }
  }

  ghost predicate HasAffectedCommit(readers: Readers, repo: Repo, base: Sha, head: Sha)
    requires head < |repo|
  {
    exists c :: c in FirstParentRange(repo, base, head) && c < |repo| && CommitAffected(readers, repo, c)
  }

  ghost predicate HasAffectedPrefix(readers: Readers, repo: Repo, base: Sha, head: Sha)
    requires head < |repo|
  {
    exists c :: c in FirstParentRange(repo, base, head) && c < |repo| && RevisionsAffected(readers, repo, base, c)
  }

  // The walks over the commits of a range find one that is affected exactly if the cumulative test says so
  // of the range up to some commit of it.
  lemma {:induction false} CommitsShowExactly(readers: Readers, repo: Repo, base: Sha, head: Sha)
    requires head < |repo| && OnFirstParentLine(repo, base, head)
    ensures HasAffectedCommit(readers, repo, base, head) <==> HasAffectedPrefix(readers, repo, base, head)
    decreases head
  {
    FirstParentLineIsAncestry(repo, base, head);
    AncestorIsOlder(repo, base, head);
    if base == head {
      assert FirstParentRange(repo, base, head) == [];
    } else {
      var parent := FirstParent(repo, head);
      RangeStep(repo, base, head);
      StepOfRange(readers, repo, base, head);
      CommitsShowExactly(readers, repo, base, parent);
      if !HasAffectedPrefix(readers, repo, base, parent) {
        PrefixEndsAtHead(readers, repo, base, parent);
        SameAfterUnaffected(readers, repo[base].tree, repo[parent].tree, repo[head].tree);
      }
    }
  }

  lemma PrefixEndsAtHead(readers: Readers, repo: Repo, base: Sha, head: Sha)
    requires head < |repo| && base < |repo| && OnFirstParentLine(repo, base, head)
    requires !HasAffectedPrefix(readers, repo, base, head)
    ensures !RevisionsAffected(readers, repo, base, head)
  {
    if base == head {
      UnaffectedIsEquivalence(readers);
      assert !Affected(readers, repo[base].tree, repo[base].tree);
    } else {
      RangeStep(repo, base, head);
      assert head in FirstParentRange(repo, base, head);
    }
  }

  lemma SameAfterUnaffected(readers: Readers, a: Tree, b: Tree, c: Tree)
    requires !Affected(readers, a, b)
    ensures Affected(readers, b, c) <==> Affected(readers, a, c)
  {
    AffectedIsSymmetric(readers, a, b);
    if !Affected(readers, b, c) { UnaffectedIsTransitive(readers, a, b, c); }
    if !Affected(readers, a, c) { UnaffectedIsTransitive(readers, b, a, c); }
  }

  lemma StepOfRange(readers: Readers, repo: Repo, base: Sha, head: Sha)
    requires head < |repo| && OnFirstParentLine(repo, base, head) && base != head && repo[head].parents != []
    requires FirstParentRange(repo, base, head) == [head] + FirstParentRange(repo, base, FirstParent(repo, head))
    ensures HasAffectedCommit(readers, repo, base, head)
            <==> CommitAffected(readers, repo, head) || HasAffectedCommit(readers, repo, base, FirstParent(repo, head))
    ensures HasAffectedPrefix(readers, repo, base, head)
            <==> RevisionsAffected(readers, repo, base, head) || HasAffectedPrefix(readers, repo, base, FirstParent(repo, head))
  {
  }

  // The cumulative test and the walks agree exactly on the ranges that are affected as a whole or, up to
  // each of their commits, not at all.
  lemma CumulativeTestAgreesExactly(readers: Readers, repo: Repo, base: Sha, head: Sha)
    requires head < |repo| && OnFirstParentLine(repo, base, head)
    ensures (RevisionsAffected(readers, repo, base, head) <==> HasAffectedCommit(readers, repo, base, head))
            <==> RevisionsAffected(readers, repo, base, head) || !HasAffectedPrefix(readers, repo, base, head)
  {
    CommitsShowExactly(readers, repo, base, head);
    if RevisionsAffected(readers, repo, base, head) { SomeCommitIsAffected(readers, repo, base, head); }
  }

  // The other direction fails when a commit is undone by a later one.
  lemma RevertedCommitsCancel(readers: Readers)
    ensures exists repo: Repo, base: Sha, head: Sha ::
              && head < |repo| && OnFirstParentLine(repo, base, head)
              && !RevisionsAffected(readers, repo, base, head)
              && exists c :: c in FirstParentRange(repo, base, head) && c < |repo| && CommitAffected(readers, repo, c)
  {
    var change: Tree := map["turbo.json" := "{}"];
    var repo: Repo := [Commit([], map[], "first"), Commit([0], change, "fix: change"), Commit([1], map[], "fix: revert")];
    assert FirstParent(repo, 1) == 0 && FirstParent(repo, 2) == 1;
    NothingToBuildFrom(readers);
    assert "turbo.json" in Diff(map[], change);
    assert CommitAffected(readers, repo, 1);
    NewerIsNoAncestor(repo, 1, 0);
    RangeStep(repo, 0, 2);
    RangeStep(repo, 0, 1);
    assert 1 in FirstParentRange(repo, 0, 2);
    assert !RevisionsAffected(readers, repo, 0, 2);
  }

  lemma NothingToBuildFrom(readers: Readers)
    ensures DependencyInputs(readers, map[]).None?
  {
    var none: Tree := map[];
    assert Listing(none.Keys) == [];
  }
}
