// Why scripts/selfhost_backup.py dumps with `--oplog`, and dumps before it mirrors: a backup of a
// stack that is being written to.
module BackupWindow {
  import opened Text

  // The keys of the objects a document refers to.
  type Row = set<string>

  datatype World = World(rows: map<string, Row>, objects: map<string, string>)

  datatype Event =
    | PutRow(id: string, row: Row)
    | DropRow(id: string)
    | PutObject(key: string, bytes: string)
    | DropObject(key: string)

  function NextRows(rows: map<string, Row>, e: Event): map<string, Row> {
    match e
    case PutRow(id, row) => rows[id := row]
    case DropRow(id) => rows - {id}
    case PutObject(_, _) => rows
    case DropObject(_) => rows
  }

  function NextObjects(objects: map<string, string>, e: Event): map<string, string> {
    match e
    case PutRow(_, _) => objects
    case DropRow(_) => objects
    case PutObject(key, bytes) => objects[key := bytes]
    case DropObject(key) => objects - {key}
  }

  // A history: how the stack was, and what was written since.
  datatype History = History(start: World, events: seq<Event>) {
    function At(t: nat): World
      requires t <= |events|
    {
      if t == 0 then start
      else World(NextRows(At(t - 1).rows, events[t - 1]), NextObjects(At(t - 1).objects, events[t - 1]))
    }
  }

  // Every object a document refers to is there.
  ghost predicate Intact(w: World) {
    forall id, key :: id in w.rows && key in w.rows[id] ==> key in w.objects
  }

  ghost predicate AlwaysIntact(h: History) {
    forall t :: 0 <= t <= |h.events| ==> Intact(h.At(t))
  }

  function Look<V>(m: map<string, V>, key: string): Option<V> {
    if key in m then Some(m[key]) else None
  }

  // `dump` holds each document as it was at a time of its own, between `from` and `end`.
  ghost predicate IsDump(h: History, from: nat, end: nat, when: string -> nat, dump: map<string, Row>) {
    && from <= end <= |h.events|
    && forall id :: from <= when(id) <= end && Look(dump, id) == Look(h.At(when(id)).rows, id)
  }

  // `copies` holds each object as it was at a time of its own, not before `from`.
  ghost predicate IsMirror(h: History, from: nat, when: string -> nat, copies: map<string, string>) {
    forall key :: from <= when(key) <= |h.events| && Look(copies, key) == Look(h.At(when(key)).objects, key)
  }

  // `mongorestore --oplogReplay`
  function Replay(rows: map<string, Row>, events: seq<Event>): map<string, Row> {
    if events == [] then rows else NextRows(Replay(rows, events[..|events| - 1]), events[|events| - 1])
  }

  // Up to its own time a document of the dump may be ahead; a write in the oplog settles it.
  lemma {:induction false} ReplayCatchesUp(h: History, from: nat, end: nat, when: string -> nat, dump: map<string, Row>,
                                           t: nat, id: string)
    requires IsDump(h, from, end, when, dump) && from <= t <= end
    ensures var replayed := Replay(dump, h.events[from..t]);
            || Look(replayed, id) == Look(h.At(t).rows, id)
            || (t <= when(id) && Look(replayed, id) == Look(dump, id))
    decreases t
  {
    if t == from {
      assert h.events[from..t] == [];
    } else {
      ReplayCatchesUp(h, from, end, when, dump, t - 1, id);
      OneEventMore(h, from, t, dump);
      WriteSettles(Replay(dump, h.events[from..t - 1]), h.At(t - 1).rows, h.events[t - 1], id);
      assert Look(dump, id) == Look(h.At(when(id)).rows, id);
    }
  }

  lemma OneEventMore(h: History, from: nat, t: nat, dump: map<string, Row>)
    requires from < t <= |h.events|
    ensures Replay(dump, h.events[from..t]) == NextRows(Replay(dump, h.events[from..t - 1]), h.events[t - 1])
    ensures h.At(t).rows == NextRows(h.At(t - 1).rows, h.events[t - 1])
  {
    var slice := h.events[from..t];
    assert slice[..|slice| - 1] == h.events[from..t - 1] && slice[|slice| - 1] == h.events[t - 1];
  }

  // An event writes a document the same way whatever was there, or leaves it.
  lemma WriteSettles(a: map<string, Row>, b: map<string, Row>, e: Event, id: string)
    ensures Look(a, id) == Look(b, id) ==> Look(NextRows(a, e), id) == Look(NextRows(b, e), id)
    ensures || Look(NextRows(a, e), id) == Look(NextRows(b, e), id)
            || (Look(NextRows(a, e), id) == Look(a, id) && Look(NextRows(b, e), id) == Look(b, id))
  {
  }

  // However the dump ran, replaying the oplog gives the documents as they were when it ended.
  lemma DumpIsAPointInTime(h: History, from: nat, end: nat, when: string -> nat, dump: map<string, Row>)
    requires IsDump(h, from, end, when, dump)
    ensures Replay(dump, h.events[from..end]) == h.At(end).rows
  {
    var replayed, rows := Replay(dump, h.events[from..end]), h.At(end).rows;
    forall id ensures Look(replayed, id) == Look(rows, id) {
      ReplayCatchesUp(h, from, end, when, dump, end, id);
    }
    forall id | id in replayed.Keys + rows.Keys ensures id in replayed && id in rows && replayed[id] == rows[id] {
      assert Look(replayed, id) == Look(rows, id);
    }
  }

  ghost predicate DroppedBetween(h: History, from: nat, end: nat, key: string) {
    exists t :: from <= t < end <= |h.events| && h.events[t] == DropObject(key)
  }

  lemma {:induction false} GoneIsDropped(h: History, from: nat, end: nat, key: string)
    requires from <= end <= |h.events| && key in h.At(from).objects && key !in h.At(end).objects
    ensures DroppedBetween(h, from, end, key)
    decreases end
  {
    if key in h.At(end - 1).objects {
      assert h.events[end - 1] == DropObject(key);
    } else {
      GoneIsDropped(h, from, end - 1, key);
      var t :| from <= t < end - 1 && h.events[t] == DropObject(key);
    }
  }

  // Mirrored after the dump, an object a restored document refers to is missing only if it was
  // deleted between the end of the dump and its own copy.
  lemma MissingWasDeleted(h: History, from: nat, end: nat, dumped: string -> nat, dump: map<string, Row>,
                          mirrored: string -> nat, copies: map<string, string>, id: string, key: string)
    requires AlwaysIntact(h) && IsDump(h, from, end, dumped, dump) && IsMirror(h, end, mirrored, copies)
    requires id in Replay(dump, h.events[from..end]) && key in Replay(dump, h.events[from..end])[id] && key !in copies
    ensures DroppedBetween(h, end, mirrored(key), key)
  {
    DumpIsAPointInTime(h, from, end, dumped, dump);
    assert Intact(h.At(end));
    assert Look(copies, key) == Look(h.At(mirrored(key)).objects, key);
    GoneIsDropped(h, end, mirrored(key), key);
  }

  lemma BackupIsIntact(h: History, from: nat, end: nat, dumped: string -> nat, dump: map<string, Row>,
                       mirrored: string -> nat, copies: map<string, string>)
    requires AlwaysIntact(h) && IsDump(h, from, end, dumped, dump) && IsMirror(h, end, mirrored, copies)
    requires forall key :: !DroppedBetween(h, end, |h.events|, key)
    ensures Intact(World(Replay(dump, h.events[from..end]), copies))
  {
    var rows := Replay(dump, h.events[from..end]);
    forall id, key | id in rows && key in rows[id] ensures key in copies {
      if key !in copies {
        MissingWasDeleted(h, from, end, dumped, dump, mirrored, copies, id, key);
        var t :| end <= t < mirrored(key) && h.events[t] == DropObject(key);
        assert DroppedBetween(h, end, |h.events|, key);
      }
    }
  }

  // An upload: first the object, then the document that refers to it.
  function Upload(id: string, key: string): History {
    History(World(map[], map[]), [PutObject(key, ""), PutRow(id, {key})])
  }

  lemma UploadStates(id: string, key: string)
    ensures Upload(id, key).At(0) == World(map[], map[])
    ensures Upload(id, key).At(1) == World(map[], map[key := ""])
    ensures Upload(id, key).At(2) == World(map[id := {key}], map[key := ""])
    ensures AlwaysIntact(Upload(id, key))
  {
    var h := Upload(id, key);
    assert h.At(1) == World(NextRows(h.At(0).rows, h.events[0]), NextObjects(h.At(0).objects, h.events[0]));
    assert h.At(2) == World(NextRows(h.At(1).rows, h.events[1]), NextObjects(h.At(1).objects, h.events[1]));
    forall t | 0 <= t <= |h.events| ensures Intact(h.At(t)) {
      assert t == 0 || t == 1 || t == 2;
    }
  }

  // In the other order, mirrored before the dump, an upload alone leaves a document without its
  // object, though nothing was deleted.
  lemma ObjectsFirstDangle(id: string, key: string)
    ensures var h := Upload(id, key);
            && AlwaysIntact(h) && (forall k :: !DroppedBetween(h, 0, |h.events|, k))
            && IsDump(h, 2, 2, _ => 2, map[id := {key}])
            && IsMirror(h, 0, _ => 0, map[])
            && !Intact(World(Replay(map[id := {key}], h.events[2..2]), map[]))
  {
    UploadStates(id, key);
    var h := Upload(id, key);
    forall i: string ensures Look(map[id := {key}], i) == Look(h.At(2).rows, i) {
    }
    assert h.events[2..2] == [];
    assert Replay(map[id := {key}], []) == map[id := {key}];
    var w := World(Replay(map[id := {key}], h.events[2..2]), map[]);
    assert id in w.rows && key in w.rows[id] && key !in w.objects;
  }

  // Without the oplog a dump of documents at different times may be no state there ever was.
  lemma DumpAloneIsNoState(a: string, b: string)
    requires a != b
    ensures var h := History(World(map[], map[]), [PutRow(a, {}), PutRow(b, {})]);
            && IsDump(h, 0, 2, id => if id == a then 0 else 2, map[b := {}])
            && forall t :: 0 <= t <= 2 ==> h.At(t).rows != map[b := {}]
  {
    var h := History(World(map[], map[]), [PutRow(a, {}), PutRow(b, {})]);
    assert h.At(1).rows == NextRows(h.At(0).rows, h.events[0]) == map[a := {}];
    assert h.At(2).rows == NextRows(h.At(1).rows, h.events[1]) == map[a := {}, b := {}];
    forall t | 0 <= t <= 2 ensures h.At(t).rows != map[b := {}] {
      assert t == 0 || t == 1 || t == 2;
      assert (a in h.At(t).rows <==> t > 0) && (b in h.At(t).rows <==> t == 2);
      var dump: map<string, Row> := map[b := {}];
      assert a !in dump && b in dump;
    }
  }
}
