// What a restore that reports success has done, for the two paths of scripts/selfhost_backup.py.
module RestoreExactness {
  import opened ObjectCounts
  import opened SelfhostBackup

  // The stack holds the backup: its user databases, and the files of every configured bucket.
  ghost predicate Holds(tools: Tools, backup: Backup, names: seq<string>, c: Contents) {
    && backup.archive.Some?
    && UserDatabases(c.databases) == Archived(tools, backup)
    && forall name :: name in names ==> name in backup.objects && name in c.buckets
                                        && c.buckets[name] == backup.objects[name]
  }

  lemma DatabasesAreRestored(tools: Tools, backup: Backup, c: Contents, names: seq<string>, yes: bool)
    requires backup.archive.Some?
    ensures UserDatabases(Final(tools, backup, c, names, yes).databases) == Archived(tools, backup)
    ensures SystemDatabases(Final(tools, backup, c, names, yes).databases) == SystemDatabases(c.databases)
  {
    InsertedApart(SystemDatabases(c.databases), Archived(tools, backup));
  }

  lemma InsertedApart(system: map<string, Database>, user: map<string, Database>)
    requires SystemDatabases(system) == system && UserDatabases(user) == user
    ensures UserDatabases(Inserted(system, user)) == user && SystemDatabases(Inserted(system, user)) == system
  {
    var both := Inserted(system, user);
    forall name | name in system ensures name in SYSTEM_DBS && name !in user && both[name] == system[name] {
      assert name in SystemDatabases(system) && name !in UserDatabases(user);
      assert system[name] + map[] == system[name];
    }
    forall name | name in user ensures name !in SYSTEM_DBS && name !in system && both[name] == user[name] {
      assert name in UserDatabases(user) && name !in SystemDatabases(system);
      assert map[] + user[name] == user[name];
    }
    assert both.Keys == system.Keys + user.Keys;
  }

  // A restore leaves the system databases and the buckets that are not configured exactly as they were,
  // and makes no other bucket appear or go.
  lemma NothingElseChanges(tools: Tools, backup: Backup, c: Contents, names: seq<string>, yes: bool)
    requires backup.archive.Some?
    ensures var final := Final(tools, backup, c, names, yes);
            && SystemDatabases(final.databases) == SystemDatabases(c.databases)
            && final.buckets.Keys == c.buckets.Keys + (set name | name in names)
            && forall name :: name in c.buckets && name !in names ==> final.buckets[name] == c.buckets[name]
  {
    DatabasesAreRestored(tools, backup, c, names, yes);
  }

  // Database by database: three of the server's own are kept as they are, and every other one is the one in the
  // archive or is not there.
  lemma DatabasesExactly(tools: Tools, backup: Backup, c: Contents, names: seq<string>, yes: bool, name: string)
    requires backup.archive.Some?
    ensures var final := Final(tools, backup, c, names, yes).databases;
            var wanted := if name == "admin" || name == "local" || name == "config" then c.databases
                          else tools.unpack(backup.archive.value);
            (name in final <==> name in wanted) && (name in final ==> final[name] == wanted[name])
  {
    var final := Final(tools, backup, c, names, yes).databases;
    DatabasesAreRestored(tools, backup, c, names, yes);
    SystemExactly(name);
    assert name in SystemDatabases(final) <==> name in final && name in SYSTEM_DBS;
    assert name in UserDatabases(final) <==> name in final && name !in SYSTEM_DBS;
    assert name in SystemDatabases(c.databases) <==> name in c.databases && name in SYSTEM_DBS;
    assert name in Archived(tools, backup) <==> name in tools.unpack(backup.archive.value) && name !in SYSTEM_DBS;
  }

  lemma SystemExactly(name: string)
    ensures name in SYSTEM_DBS <==> name == "admin" || name == "local" || name == "config"
  {
  }

  function Bucket(tools: Tools, backup: Backup, c: Contents, name: string, yes: bool): Files {
    Mirror(tools, name, FilesOf(backup.objects, name), FilesOf(c.buckets, name), yes)
  }

  lemma FinalBucket(tools: Tools, backup: Backup, c: Contents, names: seq<string>, yes: bool, name: string)
    requires backup.archive.Some? && name in names
    ensures name in Final(tools, backup, c, names, yes).buckets
    ensures Final(tools, backup, c, names, yes).buckets[name] == Bucket(tools, backup, c, name, yes)
  {
    assert name in Created(c.buckets, names);
  }

  // The second count

  lemma SmallerKeySet<K>(a: set<K>, b: set<K>)
    requires a <= b && |a| == |b|
    ensures a == b
  {
    if k :| k in b && k !in a {
      SmallerOrEqual(a, b - {k});
    }
  }

  lemma SmallerOrEqual<K>(a: set<K>, b: set<K>)
    requires a <= b
    ensures |a| <= |b|
  {
    if a != {} {
      var k :| k in a;
      SmallerOrEqual(a - {k}, b - {k});
    }
  }

  // Into an empty bucket nothing but the backup can come, so equal counts are equal contents,
  // whatever the mirror passed over.
  lemma EmptyBucketCounts(tools: Tools, name: string, from: Files, remove: bool)
    ensures var to := Mirror(tools, name, from, map[], remove);
            |to| == |from| <==> to == from
  {
    var to := Mirror(tools, name, from, map[], remove);
    assert to.Keys <= from.Keys;
    assert |to| == |to.Keys| && |from| == |from.Keys|;
    if |to| == |from| {
      SmallerKeySet(to.Keys, from.Keys);
      assert forall key :: key in to ==> to[key] == from[key];
    }
  }

  ghost predicate CountsOf(tools: Tools, backup: Backup, c: Contents, yes: bool, name: string) {
    |Bucket(tools, backup, c, name, yes)| == |FilesOf(backup.objects, name)|
  }

  lemma CountOfBucket(tools: Tools, backup: Backup, c: Contents, names: seq<string>, yes: bool, name: string)
    requires CheckManifest(tools, backup, names) && name in names
    ensures var counts := Counted(names, Sizes(Final(tools, backup, c, names, yes).buckets));
            && name in counts && name in backup.manifest.value.objects
            && (counts[name] == backup.manifest.value.objects[name] <==> CountsOf(tools, backup, c, yes, name))
  {
    FinalBucket(tools, backup, c, names, yes, name);
    assert name in backup.manifest.value.objects.Keys;
    assert BucketIsWhole(backup.manifest.value, backup.objects, name);
  }

  lemma SameCounts(counts: map<string, nat>, wanted: map<string, nat>, names: seq<string>)
    requires forall name :: name in names <==> name in counts
    requires forall name :: name in names <==> name in wanted
    ensures counts == wanted <==> forall name :: name in names ==> counts[name] == wanted[name]
  {
    if forall name :: name in names ==> counts[name] == wanted[name] {
      assert counts.Keys == wanted.Keys;
    }
  }

  lemma CountsOfBuckets(tools: Tools, backup: Backup, c: Contents, names: seq<string>, yes: bool)
    requires CheckManifest(tools, backup, names)
    ensures CountsAgree(backup, Final(tools, backup, c, names, yes).buckets, names)
            <==> forall name :: name in names ==> CountsOf(tools, backup, c, yes, name)
  {
    var counts := Counted(names, Sizes(Final(tools, backup, c, names, yes).buckets));
    var wanted := backup.manifest.value.objects;
    forall name ensures name in names <==> name in wanted {
      assert name in wanted <==> name in wanted.Keys;
    }
    SameCounts(counts, wanted, names);
    forall name | name in names
      ensures counts[name] == wanted[name] <==> CountsOf(tools, backup, c, yes, name)
    {
      CountOfBucket(tools, backup, c, names, yes, name);
    }
  }

  // Into a fresh project a sound backup is accepted exactly if the stack then holds it: nothing the
  // mirror passes over gets by, however it tells objects apart.
  lemma FreshRestoreIsExact(tools: Tools, backup: Backup, c: Contents, names: seq<string>, yes: bool)
    requires CheckManifest(tools, backup, names) && Distinct(names) && IsEmptyTarget(c, names)
    ensures Accepted(tools, backup, c, names, yes) <==> Holds(tools, backup, names, Final(tools, backup, c, names, yes))
  {
    var final := Final(tools, backup, c, names, yes);
    DatabasesAreRestored(tools, backup, c, names, yes);
    CountsOfBuckets(tools, backup, c, names, yes);
    forall name | name in names
      ensures name in backup.objects && name in final.buckets
      ensures final.buckets[name] == backup.objects[name] <==> CountsOf(tools, backup, c, yes, name)
    {
      FinalBucket(tools, backup, c, names, yes, name);
      assert BucketIsWhole(backup.manifest.value, backup.objects, name) by {
        assert name in backup.manifest.value.objects.Keys;
      }
      assert FilesOf(c.buckets, name) == map[] by {
        assert Size(Sizes(c.buckets), name) == 0;
      }
      EmptyBucketCounts(tools, name, backup.objects[name], yes);
    }
  }

  // What the mirror passes over in a bucket: copies of objects that are not there yet, and removals.
  function Uncopied(tools: Tools, name: string, from: Files, to: Files): set<string> {
    set key | key in from && key !in to && (name, key) in tools.missed
  }

  function Unremoved(tools: Tools, name: string, from: Files, to: Files): set<string> {
    set key | key in to && key !in from && (name, key) in tools.missed
  }

  // An object that is another one than in the backup and stays: passed over, or taken for the same.
  ghost predicate IsMistaken(tools: Tools, name: string, from: Files, to: Files, key: string) {
    key in from && key in to && from[key] != to[key] && ((name, key) in tools.missed || tools.alike(to[key], from[key]))
  }

  lemma OverwrittenKeys(tools: Tools, name: string, from: Files, to: Files)
    ensures Mirror(tools, name, from, to, true).Keys
         == from.Keys - Uncopied(tools, name, from, to) + Unremoved(tools, name, from, to)
  {
  }

  lemma SizeOfDifference<K>(a: set<K>, less: set<K>, more: set<K>)
    requires less <= a && a !! more
    ensures |a - less + more| == |a| - |less| + |more|
  {
    assert a == (a - less) + less;
  }

  lemma OverwrittenCount(tools: Tools, name: string, from: Files, to: Files)
    ensures |Mirror(tools, name, from, to, true)|
         == |from| - |Uncopied(tools, name, from, to)| + |Unremoved(tools, name, from, to)|
  {
    var after := Mirror(tools, name, from, to, true);
    OverwrittenKeys(tools, name, from, to);
    SizeOfDifference(from.Keys, Uncopied(tools, name, from, to), Unremoved(tools, name, from, to));
    assert |after| == |after.Keys| && |from| == |from.Keys|;
  }

  ghost predicate IsWrong(tools: Tools, name: string, from: Files, to: Files, key: string) {
    || key in Uncopied(tools, name, from, to) || key in Unremoved(tools, name, from, to)
    || IsMistaken(tools, name, from, to, key)
  }

  lemma OverwrittenBucket(tools: Tools, name: string, from: Files, to: Files)
    ensures Mirror(tools, name, from, to, true) == from <==> forall key :: !IsWrong(tools, name, from, to, key)
  {
    var after := Mirror(tools, name, from, to, true);
    OverwrittenKeys(tools, name, from, to);
    forall key | key in from && key in after ensures after[key] == from[key] <==> !IsMistaken(tools, name, from, to, key) {
    }
    if after == from {
      forall key ensures !IsWrong(tools, name, from, to, key) {
        assert key in from.Keys <==> key in after.Keys;
      }
    }
    if forall key :: !IsWrong(tools, name, from, to, key) {
      forall key
        ensures key !in Uncopied(tools, name, from, to) && key !in Unremoved(tools, name, from, to)
        ensures !IsMistaken(tools, name, from, to, key)
      {
        assert !IsWrong(tools, name, from, to, key);
      }
      assert after.Keys == from.Keys;
    }
  }

  ghost predicate IsBalanced(tools: Tools, name: string, from: Files, to: Files) {
    |Uncopied(tools, name, from, to)| == |Unremoved(tools, name, from, to)|
  }

  // Over a target with data, whatever the mirror passes over: the restore is accepted exactly if in
  // every bucket as many copies of absent objects as removals were, and the stack then holds the
  // backup exactly if none of either was and every changed object was copied.
  lemma OverwritingRestoreExactly(tools: Tools, backup: Backup, c: Contents, names: seq<string>)
    requires CheckManifest(tools, backup, names) && Distinct(names)
    ensures Accepted(tools, backup, c, names, true)
            <==> forall name :: name in names ==>
                   IsBalanced(tools, name, FilesOf(backup.objects, name), FilesOf(c.buckets, name))
    ensures Holds(tools, backup, names, Final(tools, backup, c, names, true))
            <==> forall name, key :: name in names ==>
                   !IsWrong(tools, name, FilesOf(backup.objects, name), FilesOf(c.buckets, name), key)
  {
    CountsOfBuckets(tools, backup, c, names, true);
    forall name | name in names
      ensures CountsOf(tools, backup, c, true, name)
              <==> IsBalanced(tools, name, FilesOf(backup.objects, name), FilesOf(c.buckets, name))
    {
      OverwrittenCount(tools, name, FilesOf(backup.objects, name), FilesOf(c.buckets, name));
    }
    HoldsExactly(tools, backup, c, names);
  }

  lemma HoldsExactly(tools: Tools, backup: Backup, c: Contents, names: seq<string>)
    requires CheckManifest(tools, backup, names)
    ensures Holds(tools, backup, names, Final(tools, backup, c, names, true))
            <==> forall name, key :: name in names ==>
                   !IsWrong(tools, name, FilesOf(backup.objects, name), FilesOf(c.buckets, name), key)
  {
    var final := Final(tools, backup, c, names, true);
    DatabasesAreRestored(tools, backup, c, names, true);
    forall name | name in names
      ensures name in final.buckets && name in backup.objects
      ensures final.buckets[name] == backup.objects[name]
              <==> forall key :: !IsWrong(tools, name, FilesOf(backup.objects, name), FilesOf(c.buckets, name), key)
    {
      HeldBucket(tools, backup, c, names, name);
    }
  }

  lemma HeldBucket(tools: Tools, backup: Backup, c: Contents, names: seq<string>, name: string)
    requires CheckManifest(tools, backup, names) && name in names
    ensures var final := Final(tools, backup, c, names, true);
            && name in final.buckets && name in backup.objects
            && (final.buckets[name] == backup.objects[name]
                <==> forall key :: !IsWrong(tools, name, FilesOf(backup.objects, name), FilesOf(c.buckets, name), key))
  {
    OverwrittenBucket(tools, name, FilesOf(backup.objects, name), FilesOf(c.buckets, name));
    FinalBucket(tools, backup, c, names, true, name);
    assert BucketIsWhole(backup.manifest.value, backup.objects, name) by {
      assert name in backup.manifest.value.objects.Keys;
    }
  }

  // The two paths end in the same state, wherever they began. So a restore that broke off anywhere
  // is made good by another.
  lemma PathsMeet(tools: Tools, backup: Backup, c: Contents, target: Contents, names: seq<string>)
    requires CheckManifest(tools, backup, names) && Distinct(names) && tools.missed == {}
    requires IsEmptyTarget(target, names)
    requires forall a, b :: tools.alike(a, b) ==> a == b
    ensures Accepted(tools, backup, c, names, true) && Accepted(tools, backup, target, names, false)
    ensures var one, other := Final(tools, backup, c, names, true), Final(tools, backup, target, names, false);
            && UserDatabases(one.databases) == UserDatabases(other.databases)
            && forall name :: name in names ==> FilesOf(one.buckets, name) == FilesOf(other.buckets, name)
  {
    OverwritingHolds(tools, backup, c, names);
    NothingPassedOver(tools, backup, target, names);
    FreshRestoreIsExact(tools, backup, target, names, false);
    BothHold(tools, backup, names, Final(tools, backup, c, names, true), Final(tools, backup, target, names, false));
  }

  lemma BothHold(tools: Tools, backup: Backup, names: seq<string>, one: Contents, other: Contents)
    requires Holds(tools, backup, names, one) && Holds(tools, backup, names, other)
    ensures UserDatabases(one.databases) == UserDatabases(other.databases)
    ensures forall name :: name in names ==> FilesOf(one.buckets, name) == FilesOf(other.buckets, name)
  {
  }

  lemma OverwritingHolds(tools: Tools, backup: Backup, c: Contents, names: seq<string>)
    requires CheckManifest(tools, backup, names) && Distinct(names) && tools.missed == {}
    requires forall a, b :: tools.alike(a, b) ==> a == b
    ensures Accepted(tools, backup, c, names, true) && Holds(tools, backup, names, Final(tools, backup, c, names, true))
  {
    OverwritingRestoreExactly(tools, backup, c, names);
    forall name ensures IsBalanced(tools, name, FilesOf(backup.objects, name), FilesOf(c.buckets, name)) {
      assert Uncopied(tools, name, FilesOf(backup.objects, name), FilesOf(c.buckets, name)) == {};
      assert Unremoved(tools, name, FilesOf(backup.objects, name), FilesOf(c.buckets, name)) == {};
    }
  }

  lemma EmptyBucketIsFilled(tools: Tools, name: string, from: Files)
    requires tools.missed == {}
    ensures Mirror(tools, name, from, map[], false) == from
  {
    assert forall key :: key in from ==> Copies(tools, name, from, map[], key);
  }

  lemma NothingPassedOver(tools: Tools, backup: Backup, c: Contents, names: seq<string>)
    requires CheckManifest(tools, backup, names) && Distinct(names) && tools.missed == {} && IsEmptyTarget(c, names)
    ensures Accepted(tools, backup, c, names, false)
  {
    CountsOfBuckets(tools, backup, c, names, false);
    forall name | name in names ensures CountsOf(tools, backup, c, false, name) {
      assert Size(Sizes(c.buckets), name) == 0;
      assert FilesOf(c.buckets, name) == map[];
      EmptyBucketIsFilled(tools, name, FilesOf(backup.objects, name));
    }
  }

  // With as many left as passed over, the counts cannot tell.
  lemma BalancedBucket(tools: Tools, name: string, key: string, other: string, bytes: string)
    requires tools.missed == {(name, key), (name, other)} && key != other
    ensures Mirror(tools, name, map[key := bytes], map[other := bytes], true) == map[other := bytes]
  {
  }

  ghost predicate IsFooled(tools: Tools, backup: Backup, c: Contents, names: seq<string>) {
    Accepted(tools, backup, c, names, true) && !Holds(tools, backup, names, Final(tools, backup, c, names, true))
  }

  lemma BalancedTarget(tools: Tools, backup: Backup, c: Contents, name: string, key: string, other: string)
    requires tools.missed == {(name, key), (name, other)} && key != other
    requires CheckManifest(tools, backup, [name])
    requires backup.objects == map[name := map[key := ""]] && c == Contents(map[], map[name := map[other := ""]])
    ensures IsFooled(tools, backup, c, [name])
  {
    BalancedBucket(tools, name, key, other, "");
    assert Bucket(tools, backup, c, name, true) == map[other := ""];
    assert |map[other := ""]| == 1 == |map[key := ""]|;
    assert CountsOf(tools, backup, c, true, name);
    CountsOfBuckets(tools, backup, c, [name], true);
    FinalBucket(tools, backup, c, [name], true, name);
    assert key in backup.objects[name] && key !in map[other := ""];
  }

  lemma CountsCanBalance(tools: Tools, dump: string, name: string, key: string, other: string)
    requires tools.missed == {(name, key), (name, other)} && key != other
    ensures exists backup, c :: IsFooled(tools, backup, c, [name])
  {
    var backup := OneObject(tools, dump, name, key);
    BalancedTarget(tools, backup, Contents(map[], map[name := map[other := ""]]), name, key, other);
  }

  lemma OneObject(tools: Tools, dump: string, name: string, key: string) returns (backup: Backup)
    ensures CheckManifest(tools, backup, [name]) && backup.objects == map[name := map[key := ""]]
  {
    var buckets := map[name := map[key := ""]];
    BackupIsSound(tools, dump, buckets, [name]);
    backup := TakeBackup(tools, dump, buckets, [name]).value;
    assert backup.objects == buckets;
  }

  // Backups

  lemma BackupIsSound(tools: Tools, dump: string, buckets: map<string, Files>, names: seq<string>)
    requires TakeBackup(tools, dump, buckets, names).Some?
    ensures CheckManifest(tools, TakeBackup(tools, dump, buckets, names).value, names)
  {
    var backup := TakeBackup(tools, dump, buckets, names).value;
    assert backup.manifest.value.objects.Keys == set name | name in names;
  }

  // A stack at rest, backed up and restored into a fresh project, is the stack again; unless two of
  // its keys share a bucket, for then every restore is refused.
  lemma BackupThenRestore(tools: Tools, dump: string, source: Contents, target: Contents, names: seq<string>)
    requires tools.unpack(dump) == source.databases && tools.missed == {}
    requires (forall name :: name in names ==> name in source.buckets) && IsEmptyTarget(target, names)
    ensures TakeBackup(tools, dump, source.buckets, names).Some?
    ensures var backup := TakeBackup(tools, dump, source.buckets, names).value;
            && (Accepted(tools, backup, target, names, false) <==> Distinct(names))
            && (Distinct(names) ==>
                  var final := Final(tools, backup, target, names, false);
                  && UserDatabases(final.databases) == UserDatabases(source.databases)
                  && forall name :: name in names ==> name in final.buckets && final.buckets[name] == source.buckets[name])
  {
    var backup := TakeBackup(tools, dump, source.buckets, names).value;
    BackupIsSound(tools, dump, source.buckets, names);
    if Distinct(names) {
      NothingPassedOver(tools, backup, target, names);
      FreshRestoreIsExact(tools, backup, target, names, false);
    }
  }

  // What damage to a backup is seen: a changed digest, a bucket gone, or another number of files in
  // it. Files that are changed in place are not.
  lemma DamageIsSeenExactly(tools: Tools, dump: string, buckets: map<string, Files>, names: seq<string>,
                            damaged: Backup)
    requires TakeBackup(tools, dump, buckets, names).Some?
    requires damaged.manifest == TakeBackup(tools, dump, buckets, names).value.manifest
    ensures CheckManifest(tools, damaged, names)
            <==> && damaged.archive.Some? && tools.digest(damaged.archive.value) == tools.digest(dump)
                 && forall name :: name in names ==> name in damaged.objects
                                                     && |damaged.objects[name]| == |FilesOf(buckets, name)|
  {
    var manifest := damaged.manifest.value;
    assert manifest.objects.Keys == set name | name in names;
    forall name | name in names
      ensures name in manifest.objects && manifest.objects[name] == |FilesOf(buckets, name)|
      ensures BucketIsWhole(manifest, damaged.objects, name)
              <==> name in damaged.objects && |damaged.objects[name]| == |FilesOf(buckets, name)|
    {
      assert name in buckets;
    }
    if CheckManifest(tools, damaged, names) {
      forall name | name in names ensures BucketIsWhole(manifest, damaged.objects, name) {
        assert name in manifest.objects;
      }
    }
  }
}
