// The resolved packages a lockfile leads to and what of it a desktop build depends on, said in terms of
// its entries and of chains of them alone.
module LockfileChains {
  import opened Text
  import opened Closure
  import opened Dependencies
  import opened DesktopAffected
  import opened WorkspaceChains

  // Entries

  // The version an entry records: its own text, or under `version` if it is a mapping.
  ghost predicate RecordsVersion(entry: Json, version: string) {
    && version != ""
    && match entry
       case Obj(fields) => "version" in fields && fields["version"] == Str(version)
       case _ => Shows(entry, version)
  }

  // The owner records the name with that version in one of the groups.
  ghost predicate Records(owner: Json, groups: set<string>, name: string, version: string) {
    && owner.Obj?
    && exists group :: group in groups && group in owner.fields && owner.fields[group].Obj?
         && name in owner.fields[group].fields && RecordsVersion(owner.fields[group].fields[name], version)
  }

  // What a recorded version stands for: nothing in the workspace, the rest of an alias, or the package itself.
  ghost predicate StandsFor(name: string, version: string, key: string) {
    && !("link:" <= version) && !("workspace:" <= version)
    && if "npm:" <= version then version == "npm:" + key else key == name + "@" + version
  }

  ghost predicate LeadsTo(owner: Json, groups: set<string>, key: string) {
    exists name, version :: Records(owner, groups, name, version) && StandsFor(name, version, key)
  }

  lemma EntryExactly(name: string, entry: Json, key: string)
    ensures DepOf(name, entry) == Package(key) <==> exists version :: RecordsVersion(entry, version) && StandsFor(name, version, key)
  {
    if exists version :: RecordsVersion(entry, version) && StandsFor(name, version, key) {
      var version :| RecordsVersion(entry, version) && StandsFor(name, version, key);
      VersionStandsFor(name, entry, version, key);
    }
    if DepOf(name, entry) == Package(key) {
      var version := VersionOf(name, entry);
      VersionStandsFor(name, entry, version, key);
    }
  }

  lemma VersionOf(name: string, entry: Json) returns (version: string)
    requires !DepOf(name, entry).Unreadable?
    ensures RecordsVersion(entry, version)
  {
    version := if entry.Obj? then entry.fields["version"].s else PyStr(entry);
    ShowsExactly(entry, version);
  }

  lemma VersionStandsFor(name: string, entry: Json, version: string, key: string)
    requires RecordsVersion(entry, version)
    ensures !DepOf(name, entry).Unreadable?
    ensures DepOf(name, entry) == Package(key) <==> StandsFor(name, version, key)
  {
    ShowsExactly(entry, version);
    if "npm:" <= version { assert version == "npm:" + version[4..]; }
  }

  lemma KeysExactly(owner: Json, groups: seq<string>, key: string)
    ensures key in GroupKeys(owner, groups) <==> LeadsTo(owner, Elements(groups), key)
  {
    if key in GroupKeys(owner, groups) {
      var group :| group in groups && key in DepKeys(GroupOf(owner, group));
      KeyIsRecorded(owner, groups, group, key);
    }
    if LeadsTo(owner, Elements(groups), key) {
      var name, version :| Records(owner, Elements(groups), name, version) && StandsFor(name, version, key);
      RecordedIsKey(owner, groups, name, version, key);
    }
  }

  lemma KeyIsRecorded(owner: Json, groups: seq<string>, group: string, key: string)
    requires group in groups && key in DepKeys(GroupOf(owner, group))
    ensures LeadsTo(owner, Elements(groups), key)
  {
    var deps := GroupOf(owner, group);
    var name :| name in deps.fields && DepOf(name, deps.fields[name]) == Package(key);
    EntryExactly(name, deps.fields[name], key);
    var version :| RecordsVersion(deps.fields[name], version) && StandsFor(name, version, key);
    assert group in owner.fields && owner.fields[group] == deps;
    assert Records(owner, Elements(groups), name, version);
  }

  lemma RecordedIsKey(owner: Json, groups: seq<string>, name: string, version: string, key: string)
    requires Records(owner, Elements(groups), name, version) && StandsFor(name, version, key)
    ensures key in GroupKeys(owner, groups)
  {
    var group :| group in Elements(groups) && group in owner.fields && owner.fields[group].Obj?
      && name in owner.fields[group].fields && RecordsVersion(owner.fields[group].fields[name], version);
    var deps := owner.fields[group];
    EntryExactly(name, deps.fields[name], key);
    assert GroupOf(owner, group) == deps && name in deps.fields.Keys;
    assert key in DepKeys(deps);
  }

  // Every entry of the owner in those groups records some version.
  ghost predicate IsReadableOwner(owner: Json, groups: set<string>) {
    && owner.Obj?
    && forall group :: group in groups && group in owner.fields ==> IsReadableGroup(owner.fields[group])
  }

  ghost predicate IsReadableGroup(deps: Json) {
    deps.Obj? && forall name :: name in deps.fields ==> exists version :: RecordsVersion(deps.fields[name], version)
  }

  lemma EntryReads(name: string, entry: Json)
    ensures !DepOf(name, entry).Unreadable? <==> exists version :: RecordsVersion(entry, version)
  {
    if !DepOf(name, entry).Unreadable? {
      var version := VersionOf(name, entry);
    }
    if exists version :: RecordsVersion(entry, version) {
      var version :| RecordsVersion(entry, version);
      VersionStandsFor(name, entry, version, "");
    }
  }

  lemma GroupReads(deps: Json)
    ensures DepsReadable(deps) <==> IsReadableGroup(deps)
  {
    if deps.Obj? {
      forall name | name in deps.fields
        ensures !DepOf(name, deps.fields[name]).Unreadable? <==> exists version :: RecordsVersion(deps.fields[name], version)
      {
        EntryReads(name, deps.fields[name]);
      }
    }
  }

  lemma OwnerReads(owner: Json, groups: seq<string>)
    requires groups != []
    ensures GroupsReadable(owner, groups) <==> IsReadableOwner(owner, Elements(groups))
  {
    forall group | group in groups ensures DepsReadable(GroupOf(owner, group)) <==> IsReadableGroup(GroupOf(owner, group)) {
      GroupReads(GroupOf(owner, group));
    }
    if IsReadableOwner(owner, Elements(groups)) {
      forall group | group in groups ensures DepsReadable(GroupOf(owner, group)) {
        assert group in Elements(groups);
      }
    }
    if GroupsReadable(owner, groups) {
      assert groups[0] in groups;
      forall group | group in Elements(groups) && group in owner.fields ensures IsReadableGroup(owner.fields[group]) {
        assert GroupOf(owner, group) == owner.fields[group];
      }
    }
  }

  // Chains

  ghost predicate IsSeed(importers: Fields, key: string) {
    exists folder :: folder in importers
                     && LeadsTo(importers[folder], {"dependencies", "devDependencies", "optionalDependencies"}, key)
  }

  ghost predicate IsEdge(snapshots: Fields, key: string, next: string) {
    key in snapshots && LeadsTo(snapshots[key], {"dependencies", "optionalDependencies"}, next)
  }

  // An importer leads to the first key and each snapshot to the next.
  ghost predicate IsLockChain(importers: Fields, snapshots: Fields, keys: seq<string>) {
    && keys != [] && IsSeed(importers, keys[0])
    && forall i :: 0 < i < |keys| ==> LeadsOn(snapshots, keys, i)
  }

  ghost predicate LeadsOn(snapshots: Fields, keys: seq<string>, i: int)
    requires 0 < i < |keys|
  {
    IsEdge(snapshots, keys[i - 1], keys[i])
  }

  ghost predicate IsReached(importers: Fields, snapshots: Fields, key: string) {
    exists keys :: IsLockChain(importers, snapshots, keys) && keys[|keys| - 1] == key
  }

  lemma GroupSets()
    ensures Elements(GROUPS) == {"dependencies", "devDependencies", "optionalDependencies"}
    ensures Elements(SNAPSHOT_GROUPS) == {"dependencies", "optionalDependencies"}
    ensures GROUPS != [] && SNAPSHOT_GROUPS != []
  {
  }

  lemma SeedExactly(importers: Fields, key: string)
    ensures key in Direct(importers) <==> IsSeed(importers, key)
  {
    GroupSets();
    forall i | i in importers
      ensures key in GroupKeys(importers[i], GROUPS)
              <==> LeadsTo(importers[i], {"dependencies", "devDependencies", "optionalDependencies"}, key)
    {
      KeysExactly(importers[i], GROUPS, key);
    }
  }

  lemma LockEdgeExactly(snapshots: Fields, key: string, next: string)
    ensures key in LockGraph(snapshots) && next in LockGraph(snapshots)[key] <==> IsEdge(snapshots, key, next)
  {
    GroupSets();
    if key in snapshots { KeysExactly(snapshots[key], SNAPSHOT_GROUPS, next); }
  }

  lemma LockWalkExactly(importers: Fields, snapshots: Fields, keys: seq<string>)
    ensures IsWalk(LockGraph(snapshots), Direct(importers), keys) <==> IsLockChain(importers, snapshots, keys)
  {
    if keys != [] {
      SeedExactly(importers, keys[0]);
      forall i | 0 < i < |keys| ensures IsStep(LockGraph(snapshots), keys, i) <==> LeadsOn(snapshots, keys, i) {
        LockEdgeExactly(snapshots, keys[i - 1], keys[i]);
      }
    }
  }

  lemma ReachExactly(importers: Fields, snapshots: Fields, key: string)
    ensures key in Reach(LockGraph(snapshots), Direct(importers)) <==> IsReached(importers, snapshots, key)
  {
    ReachIsWalks(LockGraph(snapshots), Direct(importers), key);
    if Walkable(LockGraph(snapshots), Direct(importers), key) {
      var walk :| IsWalk(LockGraph(snapshots), Direct(importers), walk) && walk[|walk| - 1] == key;
      LockWalkExactly(importers, snapshots, walk);
    }
    if IsReached(importers, snapshots, key) {
      var keys :| IsLockChain(importers, snapshots, keys) && keys[|keys| - 1] == key;
      LockWalkExactly(importers, snapshots, keys);
    }
  }

  // The key of a package without its peers.
  ghost predicate IsBaseOf(key: string, base: string) {
    '(' !in base && (key == base || exists rest :: key == base + "(" + rest)
  }

  lemma BaseExactly(key: string, base: string)
    ensures Base(key) == base <==> IsBaseOf(key, base)
  {
    var i := Find(key, '(');
    if i < |key| {
      assert key == key[..i] + "(" + key[i + 1..];
    } else {
      assert key[..i] == key;
    }
    if IsBaseOf(key, base) {
      if key == base {
        FindIs(key, '(', |key|);
      } else {
        var rest :| key == base + "(" + rest;
        assert key[..|base|] == base;
        FindIs(key, '(', |base|);
      }
    }
  }

  // A reached key has a snapshot that can be read and a package entry.
  ghost predicate IsResolved(snapshots: Fields, packages: Fields, key: string) {
    && key in snapshots && IsReadableOwner(snapshots[key], {"dependencies", "optionalDependencies"})
    && exists base :: IsBaseOf(key, base) && base in packages
  }

  lemma ResolvesExactly(snapshots: Fields, packages: Fields, key: string)
    ensures Resolves(snapshots, packages, key) <==> IsResolved(snapshots, packages, key)
  {
    GroupSets();
    BaseExactly(key, Base(key));
    if key in snapshots { OwnerReads(snapshots[key], SNAPSHOT_GROUPS); }
    if IsResolved(snapshots, packages, key) {
      var base :| IsBaseOf(key, base) && base in packages;
      BaseExactly(key, base);
    }
  }

  // The keys the second worklist ends with are those a chain of entries leads to.
  lemma ResolvedExactly(importers: Fields, snapshots: Fields, packages: Fields)
    ensures var found := Resolved(importers, snapshots, packages);
            && (found.Some? <==>
                  && (forall folder :: folder in importers ==>
                        IsReadableOwner(importers[folder], {"dependencies", "devDependencies", "optionalDependencies"}))
                  && (forall key :: IsReached(importers, snapshots, key) ==> IsResolved(snapshots, packages, key)))
            && (found.Some? ==> forall key :: key in found.value <==> IsReached(importers, snapshots, key))
  {
    GroupSets();
    forall folder | folder in importers
      ensures GroupsReadable(importers[folder], GROUPS)
              <==> IsReadableOwner(importers[folder], {"dependencies", "devDependencies", "optionalDependencies"})
    {
      OwnerReads(importers[folder], GROUPS);
    }
    forall key
      ensures key in Reach(LockGraph(snapshots), Direct(importers)) <==> IsReached(importers, snapshots, key)
      ensures Resolves(snapshots, packages, key) <==> IsResolved(snapshots, packages, key)
    {
      ReachExactly(importers, snapshots, key);
      ResolvesExactly(snapshots, packages, key);
    }
  }

  // What of a lockfile counts

  // A missing entry counts as null.
  predicate SameEntry(a: Fields, b: Fields, key: string) {
    (if key in a then a[key] else Null) == (if key in b then b[key] else Null)
  }

  // The build tools the root importer is looked at for.
  predicate IsTool(name: string) {
    || name == "turbo" || name == "typescript" || name == "esbuild" || name == "@types/node"
    || name == "@typescript/native-preview" || name == "@tsconfig/node24" || name == "vitest" || name == "husky"
  }

  lemma ToolExactly(name: string)
    ensures name in TOOLS <==> IsTool(name)
  {
  }

  // The root importer records a build tool in one of the groups.
  ghost predicate RootLeadsTo(owner: Fields, groups: set<string>, key: string) {
    exists name, version :: IsTool(name) && Records(Obj(owner), groups, name, version) && StandsFor(name, version, key)
  }

  // An importer of a workspace folder leads to the key, or the root importer does with a build tool.
  ghost predicate IsDirect(importers: Fields, roots: set<string>, key: string) {
    || (exists folder :: folder in roots && folder in importers
                         && LeadsTo(importers[folder], {"dependencies", "devDependencies", "optionalDependencies"}, key))
    || ("." in importers && importers["."].Obj?
        && RootLeadsTo(importers["."].fields, {"dependencies", "devDependencies", "optionalDependencies"}, key))
  }

  ghost predicate IsRootChain(importers: Fields, snapshots: Fields, roots: set<string>, keys: seq<string>) {
    && keys != [] && IsDirect(importers, roots, keys[0])
    && forall i :: 0 < i < |keys| ==> LeadsOn(snapshots, keys, i)
  }

  // A chain of lockfile entries leads from the workspace folders to the key.
  ghost predicate IsUsed(importers: Fields, snapshots: Fields, roots: set<string>, key: string) {
    exists keys :: IsRootChain(importers, snapshots, roots, keys) && keys[|keys| - 1] == key
  }

  lemma RootRecords(owner: Fields, groups: set<string>, name: string, version: string)
    ensures Records(RootImporter(owner), groups, name, version) <==> IsTool(name) && Records(Obj(owner), groups, name, version)
  {
    ToolExactly(name);
    var root := RootImporter(owner);
    if Records(root, groups, name, version) {
      var group :| group in groups && group in root.fields && root.fields[group].Obj?
        && name in root.fields[group].fields && RecordsVersion(root.fields[group].fields[name], version);
      assert owner[group].fields[name] == root.fields[group].fields[name];
    }
    if IsTool(name) && Records(Obj(owner), groups, name, version) {
      var group :| group in groups && group in owner && owner[group].Obj?
        && name in owner[group].fields && RecordsVersion(owner[group].fields[name], version);
      assert group in root.fields && name in root.fields[group].fields;
    }
  }

  lemma RootExactly(owner: Fields, groups: set<string>, key: string)
    ensures LeadsTo(RootImporter(owner), groups, key) <==> RootLeadsTo(owner, groups, key)
  {
    if LeadsTo(RootImporter(owner), groups, key) {
      var name, version :| Records(RootImporter(owner), groups, name, version) && StandsFor(name, version, key);
      RootRecords(owner, groups, name, version);
    }
    if RootLeadsTo(owner, groups, key) {
      var name, version :| IsTool(name) && Records(Obj(owner), groups, name, version) && StandsFor(name, version, key);
      RootRecords(owner, groups, name, version);
    }
  }

  predicate HasSections(lock: Fields) {
    && "importers" in lock && lock["importers"].Obj?
    && "snapshots" in lock && lock["snapshots"].Obj?
    && "packages" in lock && lock["packages"].Obj?
  }

  // The lockfile has the sections, the version and the importers it has to have.
  ghost predicate IsUsable(lock: Fields, roots: set<string>) {
    && "lockfileVersion" in lock && Shows(lock["lockfileVersion"], "9.0")
    && HasSections(lock)
    && (forall folder :: folder in roots ==> folder in lock["importers"].fields)
    && "." in lock["importers"].fields && lock["importers"].fields["."].Obj?
  }

  lemma UsableExactly(lock: Fields, roots: set<string>)
    ensures Usable(lock, roots) <==> IsUsable(lock, roots)
  {
    ShowsExactly(Get(lock, "lockfileVersion"), "9.0");
    assert PyStr(Null) == "None" != "9.0";
  }

  lemma DirectExactly(lock: Fields, roots: set<string>, key: string)
    requires Usable(lock, roots) && "." !in roots
    ensures IsSeed(Importers(lock, roots), key) <==> IsDirect(lock["importers"].fields, roots, key)
  {
    var all, some := lock["importers"].fields, Importers(lock, roots);
    var groups := {"dependencies", "devDependencies", "optionalDependencies"};
    RootExactly(all["."].fields, groups, key);
    assert some["."] == RootImporter(all["."].fields);
    if IsSeed(some, key) {
      var folder :| folder in some && LeadsTo(some[folder], groups, key);
      assert folder != "." ==> folder in roots && some[folder] == all[folder];
    }
    if IsDirect(all, roots, key) {
      if folder :| folder in roots && folder in all && LeadsTo(all[folder], groups, key) {
        assert folder in some && some[folder] == all[folder];
      } else {
        assert "." in some;
      }
    }
  }

  lemma UsedExactly(lock: Fields, roots: set<string>, key: string)
    requires Usable(lock, roots) && "." !in roots
    ensures IsReached(Importers(lock, roots), lock["snapshots"].fields, key)
            <==> IsUsed(lock["importers"].fields, lock["snapshots"].fields, roots, key)
  {
    forall k ensures IsSeed(Importers(lock, roots), k) <==> IsDirect(lock["importers"].fields, roots, k) {
      DirectExactly(lock, roots, k);
    }
    forall keys
      ensures IsLockChain(Importers(lock, roots), lock["snapshots"].fields, keys)
              <==> IsRootChain(lock["importers"].fields, lock["snapshots"].fields, roots, keys)
    {
    }
  }

  // The importers agree: on the folders, and in the root importer on the build tools of every mapping.
  ghost predicate SameImporters(a: Fields, b: Fields, roots: set<string>) {
    && (forall folder :: folder in roots ==> SameEntry(a, b, folder))
    && "." in a && "." in b && a["."].Obj? && b["."].Obj? && SameTools(a["."].fields, b["."].fields)
  }

  ghost predicate SameTools(a: Fields, b: Fields) {
    forall group ::
      && (group in a && a[group].Obj? <==> group in b && b[group].Obj?)
      && (group in a && a[group].Obj? && group in b && b[group].Obj? ==> SameToolsIn(a[group].fields, b[group].fields))
  }

  ghost predicate SameToolsIn(a: Fields, b: Fields) {
    forall name :: IsTool(name) ==> (name in a <==> name in b) && (name in a && name in b ==> a[name] == b[name])
  }

  lemma ToolsInExactly(a: Fields, b: Fields)
    ensures Only(a, TOOLS) == Only(b, TOOLS) <==> SameToolsIn(a, b)
  {
    forall name ensures name in TOOLS <==> IsTool(name) { ToolExactly(name); }
    if Only(a, TOOLS) == Only(b, TOOLS) {
      forall name | IsTool(name)
        ensures (name in a <==> name in b) && (name in a && name in b ==> a[name] == b[name])
      {
        assert name in a <==> name in Only(a, TOOLS);
        assert name in b <==> name in Only(b, TOOLS);
        assert name in a && name in b ==> Only(a, TOOLS)[name] == a[name] && Only(b, TOOLS)[name] == b[name];
      }
    }
  }

  lemma RootToolsExactly(a: Fields, b: Fields)
    ensures RootImporter(a) == RootImporter(b) <==> SameTools(a, b)
  {
    var one, two := RootImporter(a).fields, RootImporter(b).fields;
    forall group | group in a && a[group].Obj? && group in b && b[group].Obj?
      ensures one[group] == two[group] <==> SameToolsIn(a[group].fields, b[group].fields)
    {
      ToolsInExactly(a[group].fields, b[group].fields);
    }
    if one == two {
      forall group ensures group in a && a[group].Obj? <==> group in b && b[group].Obj? {
        assert group in one <==> group in two;
      }
    }
    if SameTools(a, b) {
      assert one.Keys == two.Keys;
    }
  }

  lemma ImportersExactly(a: Fields, b: Fields, roots: set<string>)
    requires Usable(a, roots) && Usable(b, roots) && "." !in roots
    ensures Importers(a, roots) == Importers(b, roots) <==> SameImporters(a["importers"].fields, b["importers"].fields, roots)
  {
    var one, two := Importers(a, roots), Importers(b, roots);
    var all, others := a["importers"].fields, b["importers"].fields;
    RootToolsExactly(all["."].fields, others["."].fields);
    assert one["."] == RootImporter(all["."].fields) && two["."] == RootImporter(others["."].fields);
    assert forall folder :: folder in roots ==> folder in one && one[folder] == all[folder] && folder in two && two[folder] == others[folder];
    if one == two {
      forall folder | folder in roots ensures SameEntry(all, others, folder) {
        assert one[folder] == two[folder];
      }
    }
    if SameImporters(all, others, roots) {
      forall folder | folder in one ensures folder in two && one[folder] == two[folder] {
        if folder != "." { assert SameEntry(all, others, folder); }
      }
      assert one.Keys == roots + {"."} == two.Keys;
    }
  }
}
