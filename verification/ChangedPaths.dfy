// When two revisions are affected, from the files that differ between them.
module ChangedPaths {
  import opened Text
  import opened Git
  import opened Dependencies
  import opened DesktopAffected
  import opened WorkspaceChains
  import opened LockfileChains
  import opened AffectedExactly

  // Inputs

  // What a revision is built from: the folders chains of packages lead to, the lockfile and the root manifest,
  // all of which can be read.
  ghost predicate AreInputs(readers: Readers, tree: Tree, roots: set<string>, lock: Fields, root: Fields) {
    && (forall path, folder :: path in tree && IsPackageFile(path, folder) ==> IsReadableManifest(readers, tree[path]))
    && (forall names, folder, fields :: EndsAt(readers, tree, names, folder, fields) ==> FieldsResolve(readers, tree, fields))
    && (forall folder :: folder in roots <==> IsNeeded(readers, tree, folder))
    && "apps/desktop" in roots
    && "pnpm-lock.yaml" in tree && readers.yaml(tree["pnpm-lock.yaml"]) == Some(Obj(lock)) && IsReadableLock(lock, roots)
    && "package.json" in tree && readers.json(tree["package.json"]) == Some(Obj(root)) && IsReadableTooling(root)
  }

  lemma LockfileReads(readers: Readers, tree: Tree, lock: Fields)
    ensures Document(readers, tree, LOCKFILE) == Some(lock)
            <==> "pnpm-lock.yaml" in tree && readers.yaml(tree["pnpm-lock.yaml"]) == Some(Obj(lock))
  {
    assert "pnpm-lock.yaml" == "pnpm-lock" + ".yaml";
    EndsExactly(LOCKFILE, ".yaml");
  }

  lemma RootReads(readers: Readers, tree: Tree, root: Fields)
    ensures Document(readers, tree, ROOT_MANIFEST) == Some(root)
            <==> "package.json" in tree && readers.json(tree["package.json"]) == Some(Obj(root))
  {
    LastChar(ROOT_MANIFEST, ".yaml");
  }

  lemma AllManifestsRead(readers: Readers, tree: Tree)
    ensures Members(readers, tree, Listing(tree.Keys)).Some?
            <==> forall path, folder :: path in tree && IsPackageFile(path, folder) ==> IsReadableManifest(readers, tree[path])
  {
    MembersReadExactly(readers, tree, Listing(tree.Keys));
    assert forall path :: path in Listing(tree.Keys) <==> path in tree;
  }

  lemma NoRootIsDot(readers: Readers, tree: Tree, members: map<string, Member>, roots: set<string>)
    requires Members(readers, tree, Listing(tree.Keys)) == Some(members) && Roots(members) == Some(roots)
    ensures "." !in roots
  {
    FoldersAreNoDot(readers, tree, members);
  }

  lemma AreReadInputs(readers: Readers, tree: Tree, roots: set<string>, lock: Fields, root: Fields)
    ensures AreInputs(readers, tree, roots, lock, root) ==>
              && "." !in roots && Project(lock, roots).Some? && ToolingOf(root).Some?
              && DependencyInputs(readers, tree) == Some(Inputs(roots, Project(lock, roots).value, ToolingOf(root).value))
  {
    if AreInputs(readers, tree, roots, lock, root) { ReadAll(readers, tree, roots, lock, root); }
  }

  lemma ReadAll(readers: Readers, tree: Tree, roots: set<string>, lock: Fields, root: Fields)
    requires AreInputs(readers, tree, roots, lock, root)
    ensures "." !in roots && Project(lock, roots).Some? && ToolingOf(root).Some?
    ensures DependencyInputs(readers, tree) == Some(Inputs(roots, Project(lock, roots).value, ToolingOf(root).value))
  {
    AllManifestsRead(readers, tree);
    var members := Members(readers, tree, Listing(tree.Keys)).value;
    RootsReadExactly(readers, tree);
    var found := Roots(members).value;
    forall folder ensures folder in roots <==> folder in found { RootsExactly(readers, tree, folder); }
    assert roots == found;
    NoRootIsDot(readers, tree, members, roots);
    LockfileReads(readers, tree, lock);
    RootReads(readers, tree, root);
    LockReadsExactly(lock, roots);
    ToolingReads(root);
  }

  lemma ReadInputsAre(readers: Readers, tree: Tree) returns (roots: set<string>, lock: Fields, root: Fields)
    requires DependencyInputs(readers, tree).Some?
    ensures AreInputs(readers, tree, roots, lock, root)
  {
    var members := Members(readers, tree, Listing(tree.Keys)).value;
    AllManifestsRead(readers, tree);
    roots := Roots(members).value;
    RootsReadExactly(readers, tree);
    forall folder ensures folder in roots <==> IsNeeded(readers, tree, folder) { RootsExactly(readers, tree, folder); }
    NoRootIsDot(readers, tree, members, roots);
    lock := Document(readers, tree, LOCKFILE).value;
    root := Document(readers, tree, ROOT_MANIFEST).value;
    LockfileReads(readers, tree, lock);
    RootReads(readers, tree, root);
    LockReadsExactly(lock, roots);
    ToolingReads(root);
  }

  // Paths

  ghost predicate IsMarkdownName(path: Path) {
    exists stem :: path == stem + ".md" || path == stem + ".mdx"
  }

  lemma MarkdownExactly(path: Path)
    ensures IsMarkdown(path) <==> IsMarkdownName(path)
  {
    EndsExactly(path, ".md");
    EndsExactly(path, ".mdx");
  }

  // The files that count wherever the packages are.
  ghost predicate IsListedInput(path: Path) {
    || (exists rest :: || path == "scripts/desktop_" + rest || path == "scripts/test_desktop_" + rest
                       || path == ".github/workflows/desktop-release." + rest || path == "catalog/model-hub/" + rest)
    || path == "packages/scripts/src/curatedCatalog/checkDesktopBuild.ts"
    || path == "packages/scripts/src/curatedCatalog/devKey.ts"
    || path == "packages/scripts/src/curatedCatalog/cli.ts"
    || path == "pnpm-workspace.yaml" || path == "turbo.json" || path == ".npmrc" || path == "vitest.shared.ts"
  }

  lemma ListedExactly(path: Path)
    ensures IsBuildInput(path) <==> IsListedInput(path)
  {
    StartsExactly(path, "scripts/desktop_");
    StartsExactly(path, "scripts/test_desktop_");
    StartsExactly(path, ".github/workflows/desktop-release.");
    StartsExactly(path, "catalog/model-hub/");
  }

  ghost predicate IsIn(path: Path, folder: string) {
    exists rest :: path == folder + "/" + rest
  }

  lemma UnderExactly(path: Path, roots: set<string>)
    ensures IsUnder(path, roots) <==> exists folder :: folder in roots && IsIn(path, folder)
  {
    forall folder | folder in roots ensures StartsWith(path, folder + "/") <==> IsIn(path, folder) {
      StartsExactly(path, folder + "/");
    }
  }

  ghost predicate IsMentioned(tree: Tree, path: Path) {
    "pnpm-workspace.yaml" in tree && exists before, after :: tree["pnpm-workspace.yaml"] == before + path + after
  }

  // A patch that the workspace config of either side names.
  ghost predicate IsConfiguredPatch(base: Tree, head: Tree, path: Path) {
    (exists rest :: path == "patches/" + rest) && (IsMentioned(base, path) || IsMentioned(head, path))
  }

  lemma ContainsExactly(text: string, needle: string)
    ensures Contains(text, needle) <==> exists before, after :: text == before + needle + after
  {
    if Contains(text, needle) {
      var i :| 0 <= i <= |text| && OccursAt(text, needle, i);
      assert text == text[..i] + needle + text[i + |needle|..];
    }
    if before, after :| text == before + needle + after {
      assert text[|before|..|before| + |needle|] == needle;
      assert OccursAt(text, needle, |before|);
    }
  }

  lemma MentionedExactly(tree: Tree, path: Path)
    requires path != ""
    ensures Contains(ReadText(tree, WORKSPACE), path) <==> IsMentioned(tree, path)
  {
    ContainsExactly(ReadText(tree, WORKSPACE), path);
    assert forall i: nat :: !OccursAt("", path, i);
  }

  lemma PatchExactly(base: Tree, head: Tree, path: Path)
    ensures IsNamedPatch(path, base, head) <==> IsConfiguredPatch(base, head, path)
  {
    StartsExactly(path, "patches/");
    if StartsWith(path, "patches/") {
      assert path != "";
      MentionedExactly(base, path);
      MentionedExactly(head, path);
    }
  }

  // A path a change to which counts: a source in a needed folder, a listed input or a configured patch, but
  // no markdown.
  ghost predicate Matters(roots: set<string>, base: Tree, head: Tree, path: Path) {
    && !IsMarkdownName(path)
    && ((exists folder :: folder in roots && IsIn(path, folder)) || IsListedInput(path) || IsConfiguredPatch(base, head, path))
  }

  lemma MattersExactly(roots: set<string>, base: Tree, head: Tree, path: Path)
    ensures Counts(path, roots, base, head) <==> Matters(roots, base, head, path)
  {
    MarkdownExactly(path);
    UnderExactly(path, roots);
    ListedExactly(path);
    PatchExactly(base, head, path);
  }

  predicate Differs(base: Tree, head: Tree, path: Path) {
    if path in base && path in head then base[path] != head[path] else path in base || path in head
  }

  lemma DiffersExactly(base: Tree, head: Tree)
    ensures forall path :: path in Diff(base, head) <==> Differs(base, head, path)
  {
  }

  // The answer

  // Both sides can be read, from the same folders, and agree on everything a build looks at.
  ghost predicate AgreeOnInputs(readers: Readers, base: Tree, head: Tree, roots: set<string>, lock: Fields, lock': Fields,
                                root: Fields, root': Fields)
  {
    && AreInputs(readers, base, roots, lock, root) && AreInputs(readers, head, roots, lock', root')
    && SameLock(lock, lock', roots) && SameTooling(root, root')
    && forall path :: Differs(base, head, path) ==> !Matters(roots, base, head, path)
  }

  // Two revisions are not affected exactly if they are equal or agree on everything a build looks at.
  lemma UnaffectedExactly(readers: Readers, base: Tree, head: Tree)
    ensures !Affected(readers, base, head)
            <==> base == head || exists roots, lock, lock', root, root' ::
                                   AgreeOnInputs(readers, base, head, roots, lock, lock', root, root')
  {
    UnaffectedIsSameOrQuiet(readers, base, head);
    if Quiet(readers, base, head) {
      var roots, lock, lock', root, root' := QuietAgrees(readers, base, head);
    }
    if roots, lock, lock', root, root' :| AgreeOnInputs(readers, base, head, roots, lock, lock', root, root') {
      AgreementIsQuiet(readers, base, head, roots, lock, lock', root, root');
    }
  }

  lemma QuietAgrees(readers: Readers, base: Tree, head: Tree)
    returns (roots: set<string>, lock: Fields, lock': Fields, root: Fields, root': Fields)
    requires Quiet(readers, base, head)
    ensures AgreeOnInputs(readers, base, head, roots, lock, lock', root, root')
  {
    var others: set<string>;
    roots, lock, root := ReadInputsAre(readers, base);
    others, lock', root' := ReadInputsAre(readers, head);
    AreReadInputs(readers, base, roots, lock, root);
    AreReadInputs(readers, head, others, lock', root');
    assert others == roots;
    SameProjectionExactly(lock, lock', roots);
    SameToolingExactly(root, root');
    DiffersExactly(base, head);
    forall path | Differs(base, head, path) ensures !Matters(roots, base, head, path) {
      MattersExactly(roots, base, head, path);
    }
  }

  lemma AgreementIsQuiet(readers: Readers, base: Tree, head: Tree, roots: set<string>, lock: Fields, lock': Fields,
                         root: Fields, root': Fields)
    requires AgreeOnInputs(readers, base, head, roots, lock, lock', root, root')
    ensures Quiet(readers, base, head)
  {
    AreReadInputs(readers, base, roots, lock, root);
    AreReadInputs(readers, head, roots, lock', root');
    SameProjectionExactly(lock, lock', roots);
    SameToolingExactly(root, root');
    DiffersExactly(base, head);
    forall path | path in Diff(base, head) ensures !Counts(path, roots, base, head) {
      MattersExactly(roots, base, head, path);
    }
  }

  // Changes that count

  lemma AgreementSpares(readers: Readers, base: Tree, head: Tree, roots: set<string>, lock: Fields, lock': Fields,
                        root: Fields, root': Fields, folder: string, path: Path)
    requires AgreeOnInputs(readers, base, head, roots, lock, lock', root, root')
    requires Differs(base, head, path) && !IsMarkdownName(path)
    ensures (IsNeeded(readers, base, folder) || IsNeeded(readers, head, folder)) ==> !IsIn(path, folder)
    ensures !IsListedInput(path) && !IsConfiguredPatch(base, head, path)
  {
    assert !Matters(roots, base, head, path);
  }

  // A changed file of a package that a chain leads to from the desktop package, on either side.
  lemma SourceChangeIsAffected(readers: Readers, base: Tree, head: Tree, folder: string, path: Path)
    requires IsNeeded(readers, base, folder) || IsNeeded(readers, head, folder)
    requires Differs(base, head, path) && IsIn(path, folder) && !IsMarkdownName(path)
    ensures Affected(readers, base, head)
  {
    UnaffectedExactly(readers, base, head);
    if roots, lock, lock', root, root' :| AgreeOnInputs(readers, base, head, roots, lock, lock', root, root') {
      AgreementSpares(readers, base, head, roots, lock, lock', root, root', folder, path);
    }
  }

  lemma ListedChangeIsAffected(readers: Readers, base: Tree, head: Tree, path: Path)
    requires Differs(base, head, path) && !IsMarkdownName(path)
    requires IsListedInput(path) || IsConfiguredPatch(base, head, path)
    ensures Affected(readers, base, head)
  {
    UnaffectedExactly(readers, base, head);
    if roots, lock, lock', root, root' :| AgreeOnInputs(readers, base, head, roots, lock, lock', root, root') {
      AgreementSpares(readers, base, head, roots, lock, lock', root, root', "", path);
    }
  }

  // A package that a chain of entries of the one lockfile leads to has another snapshot, or another package
  // entry, in the other.
  ghost predicate ChangesPackage(a: Fields, b: Fields, roots: set<string>, key: string) {
    && HasSections(a) && HasSections(b)
    && IsUsed(a["importers"].fields, a["snapshots"].fields, roots, key)
    && (|| !SameEntry(a["snapshots"].fields, b["snapshots"].fields, key)
        || exists part :: IsBaseOf(key, part) && !SameEntry(a["packages"].fields, b["packages"].fields, part))
  }

  lemma PackageChangeIsAffected(readers: Readers, base: Tree, head: Tree, roots: set<string>, roots': set<string>,
                                lock: Fields, lock': Fields, root: Fields, root': Fields, key: string)
    requires AreInputs(readers, base, roots, lock, root) && AreInputs(readers, head, roots', lock', root')
    requires ChangesPackage(lock, lock', roots, key)
    ensures Affected(readers, base, head)
  {
    AreReadInputs(readers, base, roots, lock, root);
    AreReadInputs(readers, head, roots', lock', root');
    DifferentUseDiffers(lock, lock', roots, roots', root, root', key);
    DifferentInputsDiffer(readers, base, head);
  }

  lemma DifferentUseDiffers(a: Fields, b: Fields, roots: set<string>, roots': set<string>, root: Fields, root': Fields, key: string)
    requires ChangesPackage(a, b, roots, key) && "." !in roots
    ensures Project(a, roots).Some? && Project(b, roots').Some? && ToolingOf(root).Some? && ToolingOf(root').Some? ==>
              Inputs(roots, Project(a, roots).value, ToolingOf(root).value)
              != Inputs(roots', Project(b, roots').value, ToolingOf(root').value)
  {
    if roots == roots' && Project(a, roots).Some? && Project(b, roots).Some? { DifferentUseProjects(a, b, roots, key); }
  }

  lemma DifferentUseProjects(a: Fields, b: Fields, roots: set<string>, key: string)
    requires Project(a, roots).Some? && Project(b, roots).Some? && "." !in roots && ChangesPackage(a, b, roots, key)
    ensures Project(a, roots).value != Project(b, roots).value
  {
    SameProjectionExactly(a, b, roots);
    if Project(a, roots) == Project(b, roots) { AgreementUses(a, b, roots, key); }
  }

  lemma AgreementUses(a: Fields, b: Fields, roots: set<string>, key: string)
    requires IsUsable(a, roots) && IsUsable(b, roots) && SameLock(a, b, roots)
    requires IsUsed(a["importers"].fields, a["snapshots"].fields, roots, key)
    ensures !ChangesPackage(a, b, roots, key)
  {
    assert SameUse(a, b, roots, key);
  }

  lemma DifferentInputsDiffer(readers: Readers, base: Tree, head: Tree)
    requires DependencyInputs(readers, base).Some? && DependencyInputs(readers, head).Some?
    requires DependencyInputs(readers, base) != DependencyInputs(readers, head)
    ensures Affected(readers, base, head)
  {
    UnaffectedIsSameOrQuiet(readers, base, head);
  }
}
