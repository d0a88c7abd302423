// When two revisions are affected, said in terms of their files, of chains of dependencies and of
// lockfile entries alone.
module AffectedExactly {
  import opened Text
  import opened Dependencies
  import opened DesktopAffected
  import opened LockfileChains

  // The lockfile

  // Of the mappings in the root importer, every build tool records a version.
  ghost predicate IsReadableRoot(owner: Fields, groups: set<string>) {
    forall group, name :: group in groups && group in owner && owner[group].Obj? && IsTool(name) && name in owner[group].fields ==>
      exists version :: RecordsVersion(owner[group].fields[name], version)
  }

  ghost predicate IsReadableLock(lock: Fields, roots: set<string>) {
    && IsUsable(lock, roots)
    && var groups := {"dependencies", "devDependencies", "optionalDependencies"};
       var importers, snapshots, packages := lock["importers"].fields, lock["snapshots"].fields, lock["packages"].fields;
       && (forall folder :: folder in roots ==> IsReadableOwner(importers[folder], groups))
       && IsReadableRoot(importers["."].fields, groups)
       && (forall key :: IsUsed(importers, snapshots, roots, key) ==> IsResolved(snapshots, packages, key))
  }

  lemma RootReads(owner: Fields, groups: set<string>)
    ensures IsReadableOwner(RootImporter(owner), groups) <==> IsReadableRoot(owner, groups)
  {
    var root := RootImporter(owner);
    forall group, name | group in owner && owner[group].Obj?
      ensures group in root.fields && root.fields[group].Obj?
      ensures name in root.fields[group].fields <==> IsTool(name) && name in owner[group].fields
      ensures name in root.fields[group].fields ==> root.fields[group].fields[name] == owner[group].fields[name]
    {
      ToolExactly(name);
    }
    if IsReadableRoot(owner, groups) {
      forall group | group in groups && group in root.fields ensures IsReadableGroup(root.fields[group]) {
        RootGroupReads(owner, groups, group);
      }
    }
    if IsReadableOwner(root, groups) {
      forall group, name | group in groups && group in owner && owner[group].Obj? && IsTool(name) && name in owner[group].fields
        ensures exists version :: RecordsVersion(owner[group].fields[name], version)
      {
        assert IsReadableGroup(root.fields[group]) && name in root.fields[group].fields;
      }
    }
  }

  lemma RootGroupReads(owner: Fields, groups: set<string>, group: string)
    requires IsReadableRoot(owner, groups) && group in groups && group in RootImporter(owner).fields
    ensures IsReadableGroup(RootImporter(owner).fields[group])
  {
    var deps := RootImporter(owner).fields[group];
    forall name | name in deps.fields ensures exists version :: RecordsVersion(deps.fields[name], version) {
      ToolExactly(name);
      assert deps.fields[name] == owner[group].fields[name];
    }
  }

  lemma ImportersRead(lock: Fields, roots: set<string>)
    requires Usable(lock, roots) && "." !in roots
    ensures var groups := {"dependencies", "devDependencies", "optionalDependencies"};
            (forall folder :: folder in Importers(lock, roots) ==> IsReadableOwner(Importers(lock, roots)[folder], groups))
            <==> (forall folder :: folder in roots ==> IsReadableOwner(lock["importers"].fields[folder], groups))
                 && IsReadableRoot(lock["importers"].fields["."].fields, groups)
  {
    var groups := {"dependencies", "devDependencies", "optionalDependencies"};
    var some, all := Importers(lock, roots), lock["importers"].fields;
    RootReads(all["."].fields, groups);
    assert some["."] == RootImporter(all["."].fields);
    assert forall folder :: folder in roots ==> folder in some && some[folder] == all[folder];
    assert forall folder :: folder in some ==> folder in roots || folder == ".";
  }

  // The lockfile can be read exactly if everything on the way can be.
  lemma LockReadsExactly(lock: Fields, roots: set<string>)
    requires "." !in roots
    ensures Project(lock, roots).Some? <==> IsReadableLock(lock, roots)
  {
    UsableExactly(lock, roots);
    if Usable(lock, roots) {
      var importers, snapshots, packages := lock["importers"].fields, lock["snapshots"].fields, lock["packages"].fields;
      assert Get(lock, "snapshots") == lock["snapshots"] && Get(lock, "packages") == lock["packages"];
      ResolvedExactly(Importers(lock, roots), snapshots, packages);
      ImportersRead(lock, roots);
      forall key ensures IsReached(Importers(lock, roots), snapshots, key) <==> IsUsed(importers, snapshots, roots, key) {
        UsedExactly(lock, roots, key);
      }
    }
  }

  lemma KeysOfProjection(lock: Fields, roots: set<string>, key: string)
    requires Project(lock, roots).Some? && "." !in roots
    ensures Usable(lock, roots)
    ensures key in Project(lock, roots).value.snapshots
            <==> IsUsed(lock["importers"].fields, lock["snapshots"].fields, roots, key)
    ensures key in Project(lock, roots).value.snapshots ==>
              Project(lock, roots).value.snapshots[key] == Get(lock["snapshots"].fields, key)
  {
    assert Get(lock, "snapshots") == lock["snapshots"] && Get(lock, "packages") == lock["packages"];
    ResolvedExactly(Importers(lock, roots), lock["snapshots"].fields, lock["packages"].fields);
    UsedExactly(lock, roots, key);
  }

  lemma PackagesOfProjection(lock: Fields, roots: set<string>, base: string)
    requires Project(lock, roots).Some? && "." !in roots
    ensures var projection := Project(lock, roots).value;
            && (base in projection.packages <==> exists key :: key in projection.snapshots && IsBaseOf(key, base))
            && (base in projection.packages ==> projection.packages[base] == Get(lock["packages"].fields, base))
  {
    var projection := Project(lock, roots).value;
    assert Get(lock, "packages") == lock["packages"];
    assert projection.packages.Keys == Bases(projection.snapshots.Keys);
    if base in projection.packages {
      var key :| key in projection.snapshots.Keys && Base(key) == base;
      BaseExactly(key, base);
    }
    if key :| key in projection.snapshots && IsBaseOf(key, base) {
      BaseExactly(key, base);
    }
  }

  // What lockfiles have to agree on: the importers, the keys in use with their snapshots and package
  // entries, and three settings.
  ghost predicate SameLock(a: Fields, b: Fields, roots: set<string>)
    requires IsUsable(a, roots) && IsUsable(b, roots)
  {
    && SameImporters(a["importers"].fields, b["importers"].fields, roots)
    && AgreeOnUse(a, b, roots)
    && SameEntry(a, b, "settings") && SameEntry(a, b, "overrides") && SameEntry(a, b, "patchedDependencies")
  }

  ghost predicate AgreeOnUse(a: Fields, b: Fields, roots: set<string>)
    requires IsUsable(a, roots) && IsUsable(b, roots)
  {
    forall key :: SameUse(a, b, roots, key)
  }

  ghost predicate SameUse(a: Fields, b: Fields, roots: set<string>, key: string)
    requires IsUsable(a, roots) && IsUsable(b, roots)
  {
    && (IsUsed(a["importers"].fields, a["snapshots"].fields, roots, key)
        <==> IsUsed(b["importers"].fields, b["snapshots"].fields, roots, key))
    && (IsUsed(a["importers"].fields, a["snapshots"].fields, roots, key) ==>
          && SameEntry(a["snapshots"].fields, b["snapshots"].fields, key)
          && forall base :: IsBaseOf(key, base) ==> SameEntry(a["packages"].fields, b["packages"].fields, base))
  }

  lemma SameProjectionAgrees(a: Fields, b: Fields, roots: set<string>, key: string)
    requires Project(a, roots).Some? && Project(b, roots) == Project(a, roots) && "." !in roots
    ensures IsUsable(a, roots) && IsUsable(b, roots) && SameUse(a, b, roots, key)
  {
    UsableExactly(a, roots);
    UsableExactly(b, roots);
    KeysOfProjection(a, roots, key);
    KeysOfProjection(b, roots, key);
    forall base | IsUsed(a["importers"].fields, a["snapshots"].fields, roots, key) && IsBaseOf(key, base)
      ensures SameEntry(a["packages"].fields, b["packages"].fields, base)
    {
      PackagesOfProjection(a, roots, base);
      PackagesOfProjection(b, roots, base);
    }
  }

  // Two lockfiles that can be read and agree on every key in use.
  ghost predicate AreAgreed(a: Fields, b: Fields, roots: set<string>) {
    && Project(a, roots).Some? && Project(b, roots).Some? && "." !in roots
    && IsUsable(a, roots) && IsUsable(b, roots) && AgreeOnUse(a, b, roots)
  }

  ghost predicate SameAt(one: Fields, two: Fields, key: string) {
    (key in one <==> key in two) && (key in one ==> one[key] == two[key])
  }

  lemma SameSnapshot(a: Fields, b: Fields, roots: set<string>, key: string)
    ensures AreAgreed(a, b, roots) ==> SameAt(Project(a, roots).value.snapshots, Project(b, roots).value.snapshots, key)
  {
    if AreAgreed(a, b, roots) {
      KeysOfProjection(a, roots, key);
      KeysOfProjection(b, roots, key);
      assert SameUse(a, b, roots, key);
    }
  }

  lemma SamePackage(a: Fields, b: Fields, roots: set<string>, base: string)
    ensures AreAgreed(a, b, roots) ==> SameAt(Project(a, roots).value.packages, Project(b, roots).value.packages, base)
  {
    if AreAgreed(a, b, roots) {
      PackagesOfProjection(a, roots, base);
      PackagesOfProjection(b, roots, base);
      if base in Project(a, roots).value.packages {
        var key :| key in Project(a, roots).value.snapshots && IsBaseOf(key, base);
        SameSnapshot(a, b, roots, key);
        KeysOfProjection(a, roots, key);
        assert SameUse(a, b, roots, key);
      }
      if base in Project(b, roots).value.packages {
        var key :| key in Project(b, roots).value.snapshots && IsBaseOf(key, base);
        SameSnapshot(a, b, roots, key);
      }
    }
  }

  lemma AgreedLocksProject(a: Fields, b: Fields, roots: set<string>, one: Projection, two: Projection)
    requires AreAgreed(a, b, roots) && Project(a, roots) == Some(one) && Project(b, roots) == Some(two)
    ensures one.snapshots == two.snapshots && one.packages == two.packages
  {
    forall key ensures SameAt(one.snapshots, two.snapshots, key) { SameSnapshot(a, b, roots, key); }
    forall base ensures SameAt(one.packages, two.packages, base) { SamePackage(a, b, roots, base); }
    SameEverywhere(one.snapshots, two.snapshots);
    SameEverywhere(one.packages, two.packages);
  }

  lemma SameEverywhere(one: Fields, two: Fields)
    requires forall key :: SameAt(one, two, key)
    ensures one == two
  {
    forall key ensures (key in one <==> key in two) && (key in one ==> one[key] == two[key]) {
      assert SameAt(one, two, key);
    }
  }

  // Two readable lockfiles have one projection exactly if they agree on all that.
  lemma SameProjectionExactly(a: Fields, b: Fields, roots: set<string>)
    requires Project(a, roots).Some? && Project(b, roots).Some? && "." !in roots
    ensures IsUsable(a, roots) && IsUsable(b, roots)
    ensures Project(a, roots) == Project(b, roots) <==> SameLock(a, b, roots)
  {
    UsableExactly(a, roots);
    UsableExactly(b, roots);
    ImportersExactly(a, b, roots);
    var one, two := Project(a, roots).value, Project(b, roots).value;
    assert one.importers == Importers(a, roots) && two.importers == Importers(b, roots);
    if Project(a, roots) == Project(b, roots) {
      forall key ensures SameUse(a, b, roots, key) { SameProjectionAgrees(a, b, roots, key); }
    }
    if SameLock(a, b, roots) {
      AgreedLocksProject(a, b, roots, one, two);
    }
  }

  // The root manifest

  // The group is missing or a mapping.
  predicate IsGroup(root: Fields, group: string) {
    group in root ==> root[group].Obj?
  }

  predicate IsReadableTooling(root: Fields) {
    IsGroup(root, "scripts") && IsGroup(root, "dependencies") && IsGroup(root, "devDependencies")
    && IsGroup(root, "optionalDependencies")
  }

  lemma ToolingReads(root: Fields)
    ensures ToolingOf(root).Some? <==> IsReadableTooling(root)
  {
    assert forall group :: group in GROUPS <==> group in Elements(GROUPS);
    GroupSets();
  }

  // A missing group counts as an empty one.
  function GroupFields(root: Fields, group: string): Fields
    requires IsGroup(root, group)
  {
    if group in root then root[group].fields else map[]
  }

  predicate IsCoreScript(name: string) {
    name == "prepare" || name == "core:build" || name == "turbo:core:build"
  }

  ghost predicate SameScripts(a: Fields, b: Fields) {
    forall name :: IsCoreScript(name) ==> (name in a <==> name in b) && (name in a && name in b ==> a[name] == b[name])
  }

  ghost predicate SameTooling(a: Fields, b: Fields)
    requires IsReadableTooling(a) && IsReadableTooling(b)
  {
    && SameEntry(a, b, "packageManager") && SameEntry(a, b, "engines") && SameEntry(a, b, "pnpm") && SameEntry(a, b, "overrides")
    && SameScripts(GroupFields(a, "scripts"), GroupFields(b, "scripts"))
    && SameToolsIn(GroupFields(a, "dependencies"), GroupFields(b, "dependencies"))
    && SameToolsIn(GroupFields(a, "devDependencies"), GroupFields(b, "devDependencies"))
    && SameToolsIn(GroupFields(a, "optionalDependencies"), GroupFields(b, "optionalDependencies"))
  }

  lemma ScriptsExactly(a: Fields, b: Fields)
    ensures Only(a, CORE_SCRIPTS) == Only(b, CORE_SCRIPTS) <==> SameScripts(a, b)
  {
    assert forall name :: name in CORE_SCRIPTS <==> IsCoreScript(name);
    if Only(a, CORE_SCRIPTS) == Only(b, CORE_SCRIPTS) {
      forall name | IsCoreScript(name)
        ensures (name in a <==> name in b) && (name in a && name in b ==> a[name] == b[name])
      {
        assert name in a <==> name in Only(a, CORE_SCRIPTS);
        assert name in b <==> name in Only(b, CORE_SCRIPTS);
        assert name in a && name in b ==> Only(a, CORE_SCRIPTS)[name] == a[name] && Only(b, CORE_SCRIPTS)[name] == b[name];
      }
    }
  }

  lemma SettingsExactly(a: Fields, b: Fields)
    ensures (map key | key in ROOT_SETTINGS :: Get(a, key)) == (map key | key in ROOT_SETTINGS :: Get(b, key))
            <==> SameEntry(a, b, "packageManager") && SameEntry(a, b, "engines") && SameEntry(a, b, "pnpm")
                 && SameEntry(a, b, "overrides")
  {
    var one, two := map key | key in ROOT_SETTINGS :: Get(a, key), map key | key in ROOT_SETTINGS :: Get(b, key);
    if one == two {
      forall key | key in ROOT_SETTINGS ensures SameEntry(a, b, key) { assert one[key] == two[key]; }
      assert "packageManager" in ROOT_SETTINGS && "engines" in ROOT_SETTINGS && "pnpm" in ROOT_SETTINGS && "overrides" in ROOT_SETTINGS;
    }
  }

  function ToolGroups(root: Fields): map<string, Fields>
    requires IsReadableTooling(root)
  {
    map g | g in GROUPS :: Only(GroupOf(Obj(root), g).fields, TOOLS)
  }

  lemma ThreeGroups(one: map<string, Fields>, two: map<string, Fields>)
    requires one.Keys == two.Keys == {"dependencies", "devDependencies", "optionalDependencies"}
    ensures one == two
            <==> one["dependencies"] == two["dependencies"] && one["devDependencies"] == two["devDependencies"]
                 && one["optionalDependencies"] == two["optionalDependencies"]
  {
  }

  lemma ToolGroup(root: Fields, group: string)
    requires IsReadableTooling(root) && group in {"dependencies", "devDependencies", "optionalDependencies"}
    ensures IsGroup(root, group) && group in ToolGroups(root) && ToolGroups(root)[group] == Only(GroupFields(root, group), TOOLS)
  {
    GroupSets();
    assert group in Elements(GROUPS);
    assert GroupOf(Obj(root), group).fields == GroupFields(root, group);
  }

  lemma KeysOfToolGroups(root: Fields)
    requires IsReadableTooling(root)
    ensures ToolGroups(root).Keys == {"dependencies", "devDependencies", "optionalDependencies"}
  {
    GroupSets();
    assert ToolGroups(root).Keys == Elements(GROUPS);
  }

  lemma GroupsExactly(a: Fields, b: Fields)
    requires IsReadableTooling(a) && IsReadableTooling(b)
    ensures ToolGroups(a) == ToolGroups(b)
            <==> && SameToolsIn(GroupFields(a, "dependencies"), GroupFields(b, "dependencies"))
                 && SameToolsIn(GroupFields(a, "devDependencies"), GroupFields(b, "devDependencies"))
                 && SameToolsIn(GroupFields(a, "optionalDependencies"), GroupFields(b, "optionalDependencies"))
  {
    KeysOfToolGroups(a);
    KeysOfToolGroups(b);
    ThreeGroups(ToolGroups(a), ToolGroups(b));
    SameGroup(a, b, "dependencies");
    SameGroup(a, b, "devDependencies");
    SameGroup(a, b, "optionalDependencies");
  }

  lemma SameGroup(a: Fields, b: Fields, group: string)
    requires IsReadableTooling(a) && IsReadableTooling(b)
    requires group in {"dependencies", "devDependencies", "optionalDependencies"}
    ensures IsGroup(a, group) && IsGroup(b, group) && group in ToolGroups(a) && group in ToolGroups(b)
    ensures ToolGroups(a)[group] == ToolGroups(b)[group] <==> SameToolsIn(GroupFields(a, group), GroupFields(b, group))
  {
    ToolGroup(a, group);
    ToolGroup(b, group);
    ToolsInExactly(GroupFields(a, group), GroupFields(b, group));
  }

  lemma ToolingIs(root: Fields)
    requires IsReadableTooling(root)
    ensures ToolingOf(root) == Some(Tooling(map key | key in ROOT_SETTINGS :: Get(root, key),
                                            Only(GroupFields(root, "scripts"), CORE_SCRIPTS), ToolGroups(root)))
  {
    ToolingReads(root);
    assert GroupOf(Obj(root), "scripts").fields == GroupFields(root, "scripts");
  }

  lemma SameToolingExactly(a: Fields, b: Fields)
    requires IsReadableTooling(a) && IsReadableTooling(b)
    ensures ToolingOf(a) == ToolingOf(b) <==> SameTooling(a, b)
  {
    ToolingIs(a);
    ToolingIs(b);
    SettingsExactly(a, b);
    ScriptsExactly(GroupFields(a, "scripts"), GroupFields(b, "scripts"));
    GroupsExactly(a, b);
  }
}
