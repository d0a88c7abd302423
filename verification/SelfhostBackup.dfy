// scripts/selfhost_backup.py: a backup directory, and the guarded steps that restore it.
module SelfhostBackup {
  import opened Text
  import opened ObjectCounts

  type Database = map<string, string>
  type Files = map<string, string>

  const SYSTEM_DBS := {"admin", "local", "config"}
  const MONGO_ARCHIVE := "mongo.archive.gz"

  datatype Contents = Contents(databases: map<string, Database>, buckets: map<string, Files>)

  datatype Manifest = Manifest(version: nat, file: string, sha256: string, objects: map<string, nat>)

  // A backup directory: the bytes of the archive, and a file tree for each bucket.
  datatype Backup = Backup(manifest: Option<Manifest>, archive: Option<string>, objects: map<string, Files>)

  // The programs the script calls. `alike` is when `mc mirror` takes two objects for the same, and
  // `missed` are the objects (bucket and key) it passes over and exits 0 all the same.
  datatype Tools = Tools(digest: string -> string, unpack: string -> map<string, Database>,
                         alike: (string, string) -> bool, missed: set<(string, string)>)

  // The commands of `restore`, in order; any of them may fail.
  datatype Stage = Start | TargetCheck | FirstCount | Drop | Insert | CreateBuckets | MirrorObjects | LastCount

  datatype Outcome = Restored | BadBackup | HasData | CountsUnreadable | CommandFailed(at: Stage) | CountsDiffer

  // Databases

  function UserDatabases(databases: map<string, Database>): map<string, Database> {
    map name | name in databases && name !in SYSTEM_DBS :: databases[name]
  }

  function SystemDatabases(databases: map<string, Database>): map<string, Database> {
    map name | name in databases && name in SYSTEM_DBS :: databases[name]
  }

  function Archived(tools: Tools, backup: Backup): map<string, Database>
    requires backup.archive.Some?
  {
    UserDatabases(tools.unpack(backup.archive.value))
  }

  // A document that is already there stops mongorestore.
  ghost predicate Clash(databases: map<string, Database>, archived: map<string, Database>) {
    exists name, id :: name in databases && name in archived && id in databases[name] && id in archived[name]
  }

  function DocumentsOf(databases: map<string, Database>, name: string): Database {
    if name in databases then databases[name] else map[]
  }

  function Inserted(databases: map<string, Database>, archived: map<string, Database>): map<string, Database> {
    map name | name in databases.Keys + archived.Keys ::
      DocumentsOf(databases, name) + DocumentsOf(archived, name)
  }

  // Buckets

  function FilesOf(buckets: map<string, Files>, name: string): Files {
    if name in buckets then buckets[name] else map[]
  }

  function Sizes(buckets: map<string, Files>): map<string, nat> {
    map name | name in buckets :: |buckets[name]|
  }

  function Created(buckets: map<string, Files>, names: seq<string>): map<string, Files> {
    map name | name in buckets.Keys + (set n | n in names) :: FilesOf(buckets, name)
  }

  // `mc mirror --overwrite` of one bucket, with or without `--remove`.
  predicate Copies(tools: Tools, name: string, from: Files, to: Files, key: string) {
    key in from && (name, key) !in tools.missed && !(key in to && tools.alike(to[key], from[key]))
  }

  predicate Keeps(tools: Tools, name: string, from: Files, to: Files, remove: bool, key: string) {
    key in to && !(remove && key !in from && (name, key) !in tools.missed)
  }

  function Mirror(tools: Tools, name: string, from: Files, to: Files, remove: bool): Files {
    map key | key in from.Keys + to.Keys
              && (Copies(tools, name, from, to, key) || Keeps(tools, name, from, to, remove, key)) ::
      if Copies(tools, name, from, to, key) then from[key] else to[key]
  }

  function Mirrored(tools: Tools, objects: map<string, Files>, buckets: map<string, Files>, names: seq<string>,
                    remove: bool): map<string, Files>
  {
    map name | name in buckets ::
      if name in names then Mirror(tools, name, FilesOf(objects, name), buckets[name], remove) else buckets[name]
  }

  // The manifest

  function BuildManifest(tools: Tools, archive: string, objects: map<string, Files>): Manifest {
    Manifest(1, MONGO_ARCHIVE, tools.digest(archive), Sizes(objects))
  }

  predicate BucketIsWhole(manifest: Manifest, objects: map<string, Files>, name: string) {
    name in manifest.objects && name in objects && |objects[name]| == manifest.objects[name]
  }

  predicate CheckManifest(tools: Tools, backup: Backup, names: seq<string>) {
    match backup.manifest
    case None => false
    case Some(manifest) =>
      && manifest.version == 1
      && manifest.objects.Keys == (set name | name in names)
      && manifest.file == MONGO_ARCHIVE
      && backup.archive.Some?
      && tools.digest(backup.archive.value) == manifest.sha256
      && forall name :: name in manifest.objects ==> BucketIsWhole(manifest, backup.objects, name)
  }

  // What `backup` writes of a stack at rest, given the dump; None where a bucket cannot be mirrored.
  function TakeBackup(tools: Tools, dump: string, buckets: map<string, Files>, names: seq<string>): Option<Backup> {
    if exists name :: name in names && name !in buckets then None
    else
      var objects := map name | name in names && name in buckets :: buckets[name];
      Some(Backup(Some(BuildManifest(tools, dump, objects)), Some(dump), objects))
  }

  // Restore

  predicate IsEmptyTarget(c: Contents, names: seq<string>) {
    UserDatabases(c.databases) == map[] && forall name :: name in names ==> Size(Sizes(c.buckets), name) == 0
  }

  function Final(tools: Tools, backup: Backup, c: Contents, names: seq<string>, yes: bool): Contents
    requires backup.archive.Some?
  {
    Contents(Inserted(SystemDatabases(c.databases), Archived(tools, backup)),
             Mirrored(tools, backup.objects, Created(c.buckets, names), names, yes))
  }

  predicate CountsAgree(backup: Backup, buckets: map<string, Files>, names: seq<string>) {
    backup.manifest.Some? && Counted(names, Sizes(buckets)) == backup.manifest.value.objects
  }

  // The restores that are accepted when every command exits 0.
  predicate Accepted(tools: Tools, backup: Backup, c: Contents, names: seq<string>, yes: bool) {
    && CheckManifest(tools, backup, names)
    && Distinct(names)
    && (yes || IsEmptyTarget(c, names))
    && CountsAgree(backup, Final(tools, backup, c, names, yes).buckets, names)
  }

  lemma NothingClashes(databases: map<string, Database>, archived: map<string, Database>)
    requires UserDatabases(databases) == map[] && UserDatabases(archived) == archived
    ensures !Clash(databases, archived)
    ensures SystemDatabases(databases) == databases
  {
    forall name | name in databases ensures name in SYSTEM_DBS {
      assert name !in UserDatabases(databases);
    }
    forall name | name in archived ensures name !in SYSTEM_DBS {
      assert name in UserDatabases(archived);
    }
  }

  class Stack {
    var databases: map<string, Database>
    var buckets: map<string, Files>

    ghost function Holds(): Contents reads this {
      Contents(databases, buckets)
    }

    // target_counts: what the container prints is parsed again.
    method TargetCounts(names: seq<string>) returns (counts: Option<map<string, nat>>)
      requires "" !in names
      ensures counts == if Distinct(names) then Some(Counted(names, Sizes(buckets))) else None
    {
      var lines: seq<string> := [];
      var i := 0;
      while i < |names|
        invariant 0 <= i <= |names|
        invariant lines == Printed(names, Sizes(buckets))[..i]
      {
        lines := lines + [PrintLine(names[i], Size(Sizes(buckets), names[i]))];
        i := i + 1;
      }
      assert lines == Printed(names, Sizes(buckets));
      PrintedIsParsed(names, Sizes(buckets));
      assert Counted(names, Sizes(buckets)).Keys == set name | name in names;
      counts := ParseCounts(lines, Some(set name | name in names));
    }

    // `names.forEach(n => m.getDB(n).dropDatabase())`
    method DropUserDatabases()
      modifies this`databases
      ensures databases == SystemDatabases(old(databases))
    {
      var names := UserDatabases(databases).Keys;
      while names != {}
        invariant names <= UserDatabases(old(databases)).Keys
        invariant databases == old(databases) - (UserDatabases(old(databases)).Keys - names)
      {
        var name :| name in names;
        databases := databases - {name};
        names := names - {name};
      }
    }

    // mongorestore, which never drops and stops at the first document that is there already.
    method MongoRestore(archived: map<string, Database>) returns (ok: bool)
      modifies this`databases
      ensures ok <==> !Clash(old(databases), archived)
      ensures ok ==> databases == Inserted(old(databases), archived)
    {
      ok := true;
      var names := databases.Keys * archived.Keys;
      while names != {}
        invariant names <= databases.Keys * archived.Keys
        invariant forall name :: name in databases.Keys * archived.Keys - names ==>
                                   databases[name].Keys !! archived[name].Keys
      {
        var name :| name in names;
        if !(databases[name].Keys !! archived[name].Keys) {
          ghost var id :| id in databases[name].Keys && id in archived[name].Keys;
          assert Clash(databases, archived);
          databases := *;
          return false;
        }
        names := names - {name};
      }
      databases := Inserted(databases, archived);
    }

    method MakeBuckets(names: seq<string>)
      modifies this`buckets
      ensures buckets == Created(old(buckets), names)
    {
      var i := 0;
      while i < |names|
        invariant 0 <= i <= |names|
        invariant buckets == Created(old(buckets), names[..i])
      {
        if names[i] !in buckets {
          buckets := buckets[names[i] := map[]];
        }
        i := i + 1;
      }
      assert names[..i] == names;
    }

    // The commands of mirror_script, one for each bucket.
    method MirrorAll(tools: Tools, objects: map<string, Files>, names: seq<string>, remove: bool)
      requires Distinct(names) && forall name :: name in names ==> name in buckets
      modifies this`buckets
      ensures buckets == Mirrored(tools, objects, old(buckets), names, remove)
    {
      var i := 0;
      while i < |names|
        invariant 0 <= i <= |names|
        invariant buckets == Mirrored(tools, objects, old(buckets), names[..i], remove)
      {
        var name := names[i];
        buckets := buckets[name := Mirror(tools, name, FilesOf(objects, name), buckets[name], remove)];
        i := i + 1;
      }
      assert names[..i] == names;
    }

    // The databases of a target that may be overwritten: dropped if there are any, then restored.
    method RestoreDatabases(archived: map<string, Database>, outage: Option<Stage>) returns (failed: Option<Stage>)
      requires UserDatabases(archived) == archived
      modifies this`databases
      ensures failed.None? ==> databases == Inserted(SystemDatabases(old(databases)), archived)
      ensures failed.Some? ==> failed == outage && failed.value in {Drop, Insert}
    {
      if UserDatabases(databases) != map[] {
        if outage == Some(Drop) {
          databases := *;
          return outage;
        }
        DropUserDatabases();
      }
      AfterDrop(old(databases));
      if outage == Some(Insert) {
        databases := *;
        return outage;
      }
      NothingClashes(databases, archived);
      var ok := MongoRestore(archived);
      return None;
    }

    method RestoreObjects(tools: Tools, backup: Backup, names: seq<string>, yes: bool, outage: Option<Stage>)
      returns (outcome: Outcome)
      requires "" !in names && Distinct(names) && CheckManifest(tools, backup, names)
      modifies this`buckets
      ensures outcome.Restored? || outcome.CountsDiffer? ==>
                buckets == Mirrored(tools, backup.objects, Created(old(buckets), names), names, yes)
                && (outcome.Restored? <==> CountsAgree(backup, buckets, names))
      ensures !outcome.Restored? && !outcome.CountsDiffer? ==>
                outcome.CommandFailed? && Some(outcome.at) == outage
                && outcome.at in {CreateBuckets, MirrorObjects, LastCount}
    {
      if outage == Some(CreateBuckets) {
        buckets := *;
        return CommandFailed(CreateBuckets);
      }
      MakeBuckets(names);
      if outage == Some(MirrorObjects) {
        buckets := *;
        return CommandFailed(MirrorObjects);
      }
      MirrorAll(tools, backup.objects, names, yes);
      if outage == Some(LastCount) {
        return CommandFailed(LastCount);
      }
      var restored := TargetCounts(names);
      var wanted := backup.manifest.value.objects;
      var wrong := set name | name in wanted && !(name in restored.value && restored.value[name] == wanted[name]);
      AgreeByCounts(restored.value, wanted, wrong);
      return if wrong != {} then CountsDiffer else Outcome.Restored;
    }

    // `outage` is the first command that fails, if one does; a command that fails leaves what it
    // writes in any state.
    method Restore(tools: Tools, backup: Backup, names: seq<string>, yes: bool, outage: Option<Stage>)
      returns (outcome: Outcome)
      requires "" !in names
      modifies this
      // A restore that says it is complete is, and it is whenever every command succeeds.
      ensures outcome.Restored? ==> Accepted(tools, backup, old(Holds()), names, yes)
                                    && Holds() == Final(tools, backup, old(Holds()), names, yes)
      ensures outage.None? && Accepted(tools, backup, old(Holds()), names, yes) ==> outcome.Restored?
      // Whatever is refused changes nothing, and it is refused for what it says.
      ensures outcome.BadBackup? <==> !CheckManifest(tools, backup, names)
      ensures outcome.HasData? ==> !yes && !IsEmptyTarget(old(Holds()), names)
      ensures outcome.CountsUnreadable? ==> !Distinct(names)
      ensures outcome.CommandFailed? ==> outage == Some(outcome.at)
      ensures LeavesTheTarget(outcome) ==> Holds() == old(Holds())
      // Once the objects are at stake, the databases are as in the backup.
      ensures LeavesTheDatabases(outcome) ==>
                CheckManifest(tools, backup, names)
                && databases == Final(tools, backup, old(Holds()), names, yes).databases
    {
      if !CheckManifest(tools, backup, names) {
        return BadBackup;
      }
      if outage == Some(Start) || outage == Some(TargetCheck) || outage == Some(FirstCount) {
        return CommandFailed(outage.value);
      }
      var existing := UserDatabases(databases) != map[];
      var counts := TargetCounts(names);
      if counts.None? {
        return CountsUnreadable;
      }
      var stored := set name | name in counts.value && counts.value[name] != 0;
      EmptyByCounts(Holds(), names);
      if (existing || stored != {}) && !yes {
        return HasData;
      }
      AfterDrop(tools.unpack(backup.archive.value));
      var failed := RestoreDatabases(Archived(tools, backup), outage);
      if failed.Some? {
        return CommandFailed(failed.value);
      }
      outcome := RestoreObjects(tools, backup, names, yes, outage);
    }
  }

  predicate LeavesTheTarget(outcome: Outcome) {
    || outcome.BadBackup? || outcome.HasData? || outcome.CountsUnreadable?
    || (outcome.CommandFailed? && outcome.at in {Start, TargetCheck, FirstCount})
  }

  predicate LeavesTheDatabases(outcome: Outcome) {
    outcome.CountsDiffer? || (outcome.CommandFailed? && outcome.at in {CreateBuckets, MirrorObjects, LastCount})
  }

  lemma EmptyByCounts(c: Contents, names: seq<string>)
    ensures var counts := Counted(names, Sizes(c.buckets));
            IsEmptyTarget(c, names) <==>
            UserDatabases(c.databases) == map[] && (set name | name in counts && counts[name] != 0) == {}
  {
    var counts := Counted(names, Sizes(c.buckets));
    var stored := set name | name in counts && counts[name] != 0;
    if stored == {} {
      forall name | name in names ensures Size(Sizes(c.buckets), name) == 0 {
        assert name !in stored;
      }
    }
  }

  lemma AfterDrop(databases: map<string, Database>)
    ensures UserDatabases(SystemDatabases(databases)) == map[]
    ensures SystemDatabases(SystemDatabases(databases)) == SystemDatabases(databases)
    ensures UserDatabases(UserDatabases(databases)) == UserDatabases(databases)
  {
  }

  lemma AgreeByCounts(counts: map<string, nat>, wanted: map<string, nat>, wrong: set<string>)
    requires counts.Keys == wanted.Keys
    requires wrong == set name | name in wanted && !(name in counts && counts[name] == wanted[name])
    ensures wrong == {} <==> counts == wanted
  {
    if wrong == {} {
      forall name | name in wanted ensures counts[name] == wanted[name] {
        assert name !in wrong;
      }
    }
  }
}
