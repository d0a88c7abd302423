// `run_bodies` and `scalar_body` of scripts/check-no-run-interpolation.py.
module RunBodies {
  import opened Text
  import opened WorkflowLines

  type Lines = seq<string>

  // A scalar value: the line of its key, the line after its last, and its text.
  datatype Body = Body(start: nat, end: nat, text: string)

  predicate Continues(line: string, indent: nat) {
    IsBlank(line) || Indent(line) > indent
  }

  predicate AllContinue(lines: Lines, start: nat, end: nat, indent: nat)
    requires end <= |lines|
  {
    forall k :: start <= k < end ==> Continues(lines[k], indent)
  }

  // `end` is where the run of lines after `start` that are blank or deeper than the key stops.
  predicate IsScalarEnd(lines: Lines, start: nat, indent: nat, end: nat) {
    && start < end <= |lines|
    && AllContinue(lines, start + 1, end, indent)
    && (end < |lines| ==> !Continues(lines[end], indent))
  }

  lemma OneScalarEnd(lines: Lines, start: nat, indent: nat, end: nat, end': nat)
    requires IsScalarEnd(lines, start, indent, end) && IsScalarEnd(lines, start, indent, end')
    ensures end == end'
  {
  }

  // The inline part of a value, unless it announces a block, and the lines after it.
  function Collected(lines: Lines, start: nat, end: nat, value: string): seq<string>
    requires start < end <= |lines|
  {
    (if IsBlockScalar(value) then [] else [value]) + lines[start + 1..end]
  }

  function BodyText(lines: Lines, start: nat, end: nat, value: string): string
    requires start < end <= |lines|
  {
    Join(Collected(lines, start, end, value))
  }

  lemma InlinePart(lines: Lines, start: nat, value: string)
    requires start < |lines|
    ensures Collected(lines, start, start + 1, value) == if IsBlockScalar(value) then [] else [value]
  {
    assert lines[start + 1..start + 1] == [];
  }

  lemma OneLineMore(lines: Lines, start: nat, end: nat, value: string)
    requires start < end < |lines|
    ensures Collected(lines, start, end + 1, value) == Collected(lines, start, end, value) + [lines[end]]
  {
    assert lines[start + 1..end + 1] == lines[start + 1..end] + [lines[end]];
  }

  lemma OneContinues(lines: Lines, start: nat, end: nat, indent: nat)
    requires end < |lines| && AllContinue(lines, start, end, indent) && Continues(lines[end], indent)
    ensures AllContinue(lines, start, end + 1, indent)
  {
  }

  method ScalarBody(lines: Lines, i: nat, indent: nat, value: string) returns (text: string, next: nat)
    requires i < |lines|
    ensures IsScalarEnd(lines, i, indent, next) && text == BodyText(lines, i, next, value)
  {
    var collected := if IsBlockScalar(value) then [] else [value];
    next := i + 1;
    InlinePart(lines, i, value);
    while next < |lines|
      invariant i < next <= |lines|
      invariant AllContinue(lines, i + 1, next, indent)
      invariant collected == Collected(lines, i, next, value)
    {
      if !IsBlank(lines[next]) && Indent(lines[next]) <= indent { break; }
      OneLineMore(lines, i, next, value);
      OneContinues(lines, i + 1, next, indent);
      collected := collected + [lines[next]];
      next := next + 1;
    }
    text := Join(collected);
  }

  // What the scan finds, said without scanning

  // Line i belongs to a body but is not its key.
  ghost predicate Inside(bodies: seq<Body>, i: int) {
    exists k :: 0 <= k < |bodies| && bodies[k].start < i < bodies[k].end
  }

  // Line j opens a `steps:` block.
  ghost predicate Opens(lines: Lines, bodies: seq<Body>, j: int) {
    0 <= j < |lines| && StepsKey(lines[j]).Some? && !Inside(bodies, j)
  }

  // Line k ends the block opened at j.
  ghost predicate Leaves(lines: Lines, bodies: seq<Body>, j: int, k: int)
    requires 0 <= j < |lines| && StepsKey(lines[j]).Some? && 0 <= k < |lines|
  {
    Opens(lines, bodies, k) || (!Inside(bodies, k) && !IsBlank(lines[k]) && !InSteps(lines[k], StepsKey(lines[j]).value))
  }

  // The block opened at j is still open in front of line i.
  ghost predicate OpenBefore(lines: Lines, bodies: seq<Body>, j: int, i: int) {
    j < i <= |lines| && Opens(lines, bodies, j) && forall k :: j < k < i ==> !Leaves(lines, bodies, j, k)
  }

  ghost predicate OpenThrough(lines: Lines, bodies: seq<Body>, j: int, i: int) {
    OpenBefore(lines, bodies, j, i + 1)
  }

  ghost predicate Open(lines: Lines, bodies: seq<Body>, i: int) {
    exists j :: OpenThrough(lines, bodies, j, i)
  }

  // A script the scan has to yield: a `run:` key in an open block and in no earlier body.
  ghost predicate IsScript(lines: Lines, bodies: seq<Body>, i: int) {
    0 <= i < |lines| && RunKey(lines[i]).Some? && Open(lines, bodies, i) && !Inside(bodies, i)
  }

  predicate IsBodyOf(lines: Lines, body: Body) {
    && body.start < |lines| && RunKey(lines[body.start]).Some?
    && IsScalarEnd(lines, body.start, RunKey(lines[body.start]).value.indent, body.end)
    && body.text == BodyText(lines, body.start, body.end, RunKey(lines[body.start]).value.value)
  }

  predicate InOrder(bodies: seq<Body>) {
    forall k, l :: 0 <= k < l < |bodies| ==> bodies[k].end <= bodies[l].start
  }

  // Of the lines in front of n, exactly the scripts are yielded, each with its whole value.
  ghost predicate IsScanTo(lines: Lines, bodies: seq<Body>, n: nat) {
    && InOrder(bodies)
    && (forall k :: 0 <= k < |bodies| ==> IsBodyOf(lines, bodies[k]) && IsScript(lines, bodies, bodies[k].start))
    && (forall i :: 0 <= i < n && IsScript(lines, bodies, i) ==> exists k :: 0 <= k < |bodies| && bodies[k].start == i)
  }

  ghost predicate IsScan(lines: Lines, bodies: seq<Body>) {
    IsScanTo(lines, bodies, |lines|)
  }

  // The scanner's state in front of line i.
  ghost predicate StateAt(lines: Lines, bodies: seq<Body>, i: int, stepsIndent: Option<nat>) {
    match stepsIndent
    case Some(n) => exists j :: OpenBefore(lines, bodies, j, i) && StepsKey(lines[j]) == Some(n)
    case None => forall j :: !OpenBefore(lines, bodies, j, i)
  }

  // Steps of the scan

  lemma OneBlock(lines: Lines, bodies: seq<Body>, i: int, j: int, j': int)
    requires OpenBefore(lines, bodies, j, i) && OpenBefore(lines, bodies, j', i)
    ensures j == j'
  {
    if j < j' { assert Leaves(lines, bodies, j, j'); }
    if j' < j { assert Leaves(lines, bodies, j', j); }
  }

  lemma OpenEarlier(lines: Lines, bodies: seq<Body>, i: int, j: int)
    requires OpenBefore(lines, bodies, j, i + 1) && j < i
    ensures OpenBefore(lines, bodies, j, i)
  {
  }

  lemma StayOpen(lines: Lines, bodies: seq<Body>, i: int, j: int)
    requires OpenBefore(lines, bodies, j, i) && 0 <= i < |lines| && !Leaves(lines, bodies, j, i)
    ensures OpenBefore(lines, bodies, j, i + 1)
  {
  }

  lemma ClosedBy(lines: Lines, bodies: seq<Body>, i: int, j: int, j': int)
    requires OpenBefore(lines, bodies, j, i) && 0 <= i < |lines| && Leaves(lines, bodies, j, i) && j' != i
    ensures !OpenBefore(lines, bodies, j', i + 1)
  {
    if OpenBefore(lines, bodies, j', i + 1) {
      OpenEarlier(lines, bodies, i, j');
      OneBlock(lines, bodies, i, j, j');
    }
  }

  // A line that opens no block keeps or closes the one there is.
  lemma OtherLine(lines: Lines, bodies: seq<Body>, i: int, before: Option<nat>, after: Option<nat>)
    requires 0 <= i < |lines| && StateAt(lines, bodies, i, before) && !Inside(bodies, i) && StepsKey(lines[i]).None?
    requires after == if before.Some? && !IsBlank(lines[i]) && !InSteps(lines[i], before.value) then None else before
    ensures StateAt(lines, bodies, i + 1, after)
  {
    var n := i + 1;
    if after.Some? {
      var j :| OpenBefore(lines, bodies, j, i) && StepsKey(lines[j]) == before;
      StayOpen(lines, bodies, i, j);
    } else if before.Some? {
      var j :| OpenBefore(lines, bodies, j, i) && StepsKey(lines[j]) == before;
      forall j' ensures !OpenBefore(lines, bodies, j', n) {
        if j' != i { ClosedBy(lines, bodies, i, j, j'); }
      }
    } else {
      forall j' ensures !OpenBefore(lines, bodies, j', n) {
        if OpenBefore(lines, bodies, j', n) { OpenEarlier(lines, bodies, i, j'); }
      }
    }
  }

  lemma StepsLine(lines: Lines, bodies: seq<Body>, i: int)
    requires 0 <= i < |lines| && !Inside(bodies, i) && StepsKey(lines[i]).Some?
    ensures StateAt(lines, bodies, i + 1, StepsKey(lines[i]))
  {
    assert OpenBefore(lines, bodies, i, i + 1);
  }

  lemma StateTellsOpen(lines: Lines, bodies: seq<Body>, i: int, state: Option<nat>)
    requires StateAt(lines, bodies, i + 1, state)
    ensures Open(lines, bodies, i) <==> state.Some?
  {
    if state.Some? {
      var j :| OpenBefore(lines, bodies, j, i + 1) && StepsKey(lines[j]) == state;
      assert OpenThrough(lines, bodies, j, i);
    }
  }

  // A body that starts at i changes nothing up to i.
  lemma AddedBody(lines: Lines, bodies: seq<Body>, body: Body, i: int)
    requires body.start == i
    ensures forall k :: k <= i ==> (Inside(bodies + [body], k) <==> Inside(bodies, k))
    ensures forall k :: i < k < body.end ==> Inside(bodies + [body], k)
    ensures forall j, k :: k <= i + 1 ==> (OpenBefore(lines, bodies + [body], j, k) <==> OpenBefore(lines, bodies, j, k))
  {
    var longer := bodies + [body];
    assert longer[|bodies|] == body;
    forall k | k <= i ensures Inside(longer, k) <==> Inside(bodies, k) {
      if Inside(bodies, k) {
        var m :| 0 <= m < |bodies| && bodies[m].start < k < bodies[m].end;
        assert longer[m] == bodies[m];
      }
    }
    forall k | i < k < body.end ensures Inside(longer, k) {
      assert longer[|bodies|].start < k < longer[|bodies|].end;
    }
    forall j, k | k <= i + 1 ensures OpenBefore(lines, longer, j, k) <==> OpenBefore(lines, bodies, j, k) {
      SameInsideSameOpen(lines, bodies, longer, j, k);
    }
  }

  lemma SameInsideSameOpen(lines: Lines, bodies: seq<Body>, other: seq<Body>, j: int, i: int)
    requires forall k :: k < i ==> (Inside(other, k) <==> Inside(bodies, k))
    ensures OpenBefore(lines, other, j, i) <==> OpenBefore(lines, bodies, j, i)
  {
    if j < i <= |lines| && 0 <= j && StepsKey(lines[j]).Some? {
      forall k | j < k < i ensures Leaves(lines, other, j, k) <==> Leaves(lines, bodies, j, k) {
      }
    }
  }

  // The lines of a body neither open nor close a block.
  lemma SkipBody(lines: Lines, bodies: seq<Body>, body: Body, state: Option<nat>)
    requires body.start < body.end <= |lines| && state.Some?
    requires StateAt(lines, bodies, body.start + 1, state)
    ensures StateAt(lines, bodies + [body], body.end, state)
  {
    AddedBody(lines, bodies, body, body.start);
    var j :| OpenBefore(lines, bodies, j, body.start + 1) && StepsKey(lines[j]) == state;
    assert OpenBefore(lines, bodies + [body], j, body.start + 1);
    assert OpenBefore(lines, bodies + [body], j, body.end);
  }

  lemma SameScripts(lines: Lines, bodies: seq<Body>, body: Body, i: int)
    requires i <= body.start
    ensures IsScript(lines, bodies + [body], i) <==> IsScript(lines, bodies, i)
  {
    AddedBody(lines, bodies, body, body.start);
    assert forall j :: OpenThrough(lines, bodies + [body], j, i) <==> OpenThrough(lines, bodies, j, i);
  }

  lemma NextBody(lines: Lines, bodies: seq<Body>, body: Body)
    requires IsScanTo(lines, bodies, body.start) && IsBodyOf(lines, body)
    requires forall k :: 0 <= k < |bodies| ==> bodies[k].end <= body.start
    requires IsScript(lines, bodies, body.start)
    ensures IsScanTo(lines, bodies + [body], body.end)
  {
    var longer := bodies + [body];
    OneMoreInOrder(bodies, body);
    forall k | 0 <= k < |longer| ensures IsBodyOf(lines, longer[k]) && IsScript(lines, longer, longer[k].start) {
      StaysScript(lines, bodies, body, if k < |bodies| then bodies[k] else body);
    }
    forall i: nat | i < body.end && IsScript(lines, longer, i) ensures exists k :: 0 <= k < |longer| && longer[k].start == i {
      YieldedAgain(lines, bodies, body, i);
    }
  }

  lemma OneMoreInOrder(bodies: seq<Body>, body: Body)
    requires InOrder(bodies) && forall k :: 0 <= k < |bodies| ==> bodies[k].end <= body.start
    ensures InOrder(bodies + [body])
  {
  }

  lemma StaysScript(lines: Lines, bodies: seq<Body>, body: Body, one: Body)
    requires one.start <= body.start && IsScript(lines, bodies, one.start)
    ensures IsScript(lines, bodies + [body], one.start)
  {
    SameScripts(lines, bodies, body, one.start);
  }

  lemma YieldedAgain(lines: Lines, bodies: seq<Body>, body: Body, i: nat)
    requires IsScanTo(lines, bodies, body.start) && i < body.end && IsScript(lines, bodies + [body], i)
    ensures exists k :: 0 <= k < |bodies + [body]| && (bodies + [body])[k].start == i
  {
    AddedBody(lines, bodies, body, body.start);
    if i < body.start {
      SameScripts(lines, bodies, body, i);
      var k :| 0 <= k < |bodies| && bodies[k].start == i;
      assert (bodies + [body])[k].start == i;
    } else {
      assert i == body.start;
      assert (bodies + [body])[|bodies|].start == i;
    }
  }

  lemma NothingToYield(lines: Lines, bodies: seq<Body>, i: nat)
    requires IsScanTo(lines, bodies, i) && i < |lines| && (RunKey(lines[i]).None? || !Open(lines, bodies, i))
    ensures IsScanTo(lines, bodies, i + 1)
  {
    assert !IsScript(lines, bodies, i);
    forall j: nat | j < i + 1 && IsScript(lines, bodies, j) ensures exists k :: 0 <= k < |bodies| && bodies[k].start == j {
      assert j < i;
    }
  }

  lemma NotInside(bodies: seq<Body>, i: int)
    requires forall k :: 0 <= k < |bodies| ==> bodies[k].end <= i
    ensures !Inside(bodies, i)
  {
  }

  method RunBody(lines: Lines, i: nat) returns (body: Body)
    requires i < |lines| && RunKey(lines[i]).Some?
    ensures IsBodyOf(lines, body) && body.start == i < body.end <= |lines|
  {
    var key := RunKey(lines[i]).value;
    var text, next := ScalarBody(lines, i, key.indent, key.value);
    body := Body(i, next, text);
  }

  // What holds each time the scanner looks at a new line.
  ghost predicate Ready(lines: Lines, bodies: seq<Body>, i: nat, stepsIndent: Option<nat>) {
    && i <= |lines|
    && (forall k :: 0 <= k < |bodies| ==> bodies[k].end <= i)
    && IsScanTo(lines, bodies, i)
    && StateAt(lines, bodies, i, stepsIndent)
  }

  function AfterLine(line: string, stepsIndent: Option<nat>): Option<nat> {
    if stepsIndent.Some? && !IsBlank(line) && !InSteps(line, stepsIndent.value) then None else stepsIndent
  }

  lemma AtSteps(lines: Lines, bodies: seq<Body>, i: nat, stepsIndent: Option<nat>)
    requires Ready(lines, bodies, i, stepsIndent) && i < |lines| && StepsKey(lines[i]).Some?
    ensures Ready(lines, bodies, i + 1, StepsKey(lines[i]))
  {
    NotInside(bodies, i);
    StepsLine(lines, bodies, i);
    StepsIsNotRun(lines[i]);
    NothingToYield(lines, bodies, i);
  }

  lemma AtOther(lines: Lines, bodies: seq<Body>, i: nat, stepsIndent: Option<nat>)
    requires Ready(lines, bodies, i, stepsIndent) && i < |lines| && StepsKey(lines[i]).None?
    requires RunKey(lines[i]).None? || AfterLine(lines[i], stepsIndent).None?
    ensures Ready(lines, bodies, i + 1, AfterLine(lines[i], stepsIndent))
  {
    NotInside(bodies, i);
    OtherLine(lines, bodies, i, stepsIndent, AfterLine(lines[i], stepsIndent));
    StateTellsOpen(lines, bodies, i, AfterLine(lines[i], stepsIndent));
    NothingToYield(lines, bodies, i);
  }

  lemma RunIsScript(lines: Lines, bodies: seq<Body>, i: nat, stepsIndent: Option<nat>)
    requires Ready(lines, bodies, i, stepsIndent) && i < |lines| && StepsKey(lines[i]).None?
    requires RunKey(lines[i]).Some? && AfterLine(lines[i], stepsIndent).Some?
    ensures IsScript(lines, bodies, i) && StateAt(lines, bodies, i + 1, AfterLine(lines[i], stepsIndent))
  {
    NotInside(bodies, i);
    OtherLine(lines, bodies, i, stepsIndent, AfterLine(lines[i], stepsIndent));
    StateTellsOpen(lines, bodies, i, AfterLine(lines[i], stepsIndent));
  }

  lemma AtBody(lines: Lines, bodies: seq<Body>, body: Body, after: Option<nat>)
    requires IsScanTo(lines, bodies, body.start) && IsBodyOf(lines, body) && IsScript(lines, bodies, body.start)
    requires forall k :: 0 <= k < |bodies| ==> bodies[k].end <= body.start
    requires after.Some? && StateAt(lines, bodies, body.start + 1, after)
    ensures Ready(lines, bodies + [body], body.end, after)
  {
    NextBody(lines, bodies, body);
    SkipBody(lines, bodies, body, after);
  }

  lemma AtRun(lines: Lines, bodies: seq<Body>, stepsIndent: Option<nat>, body: Body)
    requires Ready(lines, bodies, body.start, stepsIndent) && IsBodyOf(lines, body)
    requires StepsKey(lines[body.start]).None? && AfterLine(lines[body.start], stepsIndent).Some?
    ensures Ready(lines, bodies + [body], body.end, AfterLine(lines[body.start], stepsIndent))
  {
    RunIsScript(lines, bodies, body.start, stepsIndent);
    AtBody(lines, bodies, body, AfterLine(lines[body.start], stepsIndent));
  }

  lemma ReadyAtStart(lines: Lines)
    ensures Ready(lines, [], 0, None)
  {
  }

  method ScanRuns(lines: Lines) returns (bodies: seq<Body>)
    ensures IsScan(lines, bodies)
  {
    bodies := [];
    var i := 0;
    var stepsIndent := None;
    ReadyAtStart(lines);
    while i < |lines|
      invariant Ready(lines, bodies, i, stepsIndent)
      decreases |lines| - i
    {
      var line := lines[i];
      if StepsKey(line).Some? {
        AtSteps(lines, bodies, i, stepsIndent);
        stepsIndent := StepsKey(line);
        i := i + 1;
        continue;
      }
      ghost var before := stepsIndent;
      if stepsIndent.Some? && !IsBlank(line) && !InSteps(line, stepsIndent.value) {
        stepsIndent := None;
      }
      assert stepsIndent == AfterLine(line, before);
      if RunKey(line).None? || stepsIndent.None? {
        AtOther(lines, bodies, i, before);
        i := i + 1;
        continue;
      }
      var body := RunBody(lines, i);
      AtRun(lines, bodies, before, body);
      bodies := bodies + [body];
      i := body.end;
    }
  }

  // The description leaves no choice

  ghost predicate AgreeTo(a: seq<Body>, b: seq<Body>, n: int) {
    forall k :: 0 <= k < |a| && a[k].start < n ==> a[k] in b
  }

  lemma InsideByEarlier(a: seq<Body>, b: seq<Body>, n: int, i: int)
    requires AgreeTo(a, b, n) && i <= n
    ensures Inside(a, i) ==> Inside(b, i)
  {
    if Inside(a, i) {
      var k :| 0 <= k < |a| && a[k].start < i < a[k].end;
      var l :| 0 <= l < |b| && b[l] == a[k];
    }
  }

  // The bodies that start in front of n are in the other scan too.
  lemma {:induction false} ScansAgreeTo(lines: Lines, a: seq<Body>, b: seq<Body>, n: nat)
    requires IsScan(lines, a) && IsScan(lines, b) && n <= |lines|
    ensures AgreeTo(a, b, n) && AgreeTo(b, a, n)
  {
    if n > 0 {
      ScansAgreeTo(lines, a, b, n - 1);
      AgreeOneOn(lines, a, b, n - 1);
    }
  }

  lemma AgreeOneOn(lines: Lines, a: seq<Body>, b: seq<Body>, n: nat)
    requires IsScan(lines, a) && IsScan(lines, b) && n < |lines| && AgreeTo(a, b, n) && AgreeTo(b, a, n)
    ensures AgreeTo(a, b, n + 1) && AgreeTo(b, a, n + 1)
  {
    SameInsideTo(a, b, n);
    SameScriptAt(lines, a, b, n);
    SameBodyAt(lines, a, b, n);
    SameBodyAt(lines, b, a, n);
  }

  lemma SameInsideTo(a: seq<Body>, b: seq<Body>, n: int)
    requires AgreeTo(a, b, n) && AgreeTo(b, a, n)
    ensures forall i :: i <= n ==> (Inside(a, i) <==> Inside(b, i))
  {
    forall i | i <= n ensures Inside(a, i) <==> Inside(b, i) {
      InsideByEarlier(a, b, n, i);
      InsideByEarlier(b, a, n, i);
    }
  }

  lemma SameScriptAt(lines: Lines, a: seq<Body>, b: seq<Body>, i: int)
    requires forall k :: k <= i ==> (Inside(a, k) <==> Inside(b, k))
    ensures IsScript(lines, a, i) <==> IsScript(lines, b, i)
  {
    if Open(lines, a, i) {
      var j :| OpenThrough(lines, a, j, i);
      SameInsideSameOpen(lines, a, b, j, i + 1);
      assert OpenThrough(lines, b, j, i);
    }
    if Open(lines, b, i) {
      var j :| OpenThrough(lines, b, j, i);
      SameInsideSameOpen(lines, b, a, j, i + 1);
      assert OpenThrough(lines, a, j, i);
    }
  }

  lemma SameBodyAt(lines: Lines, a: seq<Body>, b: seq<Body>, i: nat)
    requires IsScan(lines, a) && IsScan(lines, b) && i < |lines|
    requires IsScript(lines, a, i) <==> IsScript(lines, b, i)
    ensures forall k :: 0 <= k < |a| && a[k].start == i ==> a[k] in b
  {
    forall k | 0 <= k < |a| && a[k].start == i ensures a[k] in b {
      var l :| 0 <= l < |b| && b[l].start == i;
      OneScalarEnd(lines, i, RunKey(lines[i]).value.indent, a[k].end, b[l].end);
      assert a[k] == b[l];
    }
  }

  // The last body is the one that starts last.
  lemma SameLast(a: seq<Body>, b: seq<Body>)
    requires InOrder(a) && InOrder(b) && a != [] && b != [] && Within(a, b) && Within(b, a)
    ensures a[|a| - 1] == b[|b| - 1]
  {
    var l :| 0 <= l < |b| && b[l] == a[|a| - 1];
    var k :| 0 <= k < |a| && a[k] == b[|b| - 1];
  }

  predicate Within(a: seq<Body>, b: seq<Body>) {
    forall k :: 0 <= k < |a| ==> a[k].start < a[k].end && a[k] in b
  }

  lemma AllButLast(a: seq<Body>, b: seq<Body>)
    requires InOrder(a) && a != [] && b != [] && a[|a| - 1] == b[|b| - 1] && Within(a, b)
    ensures Within(a[..|a| - 1], b[..|b| - 1]) && InOrder(a[..|a| - 1])
  {
    forall k | 0 <= k < |a| - 1 ensures a[k] in b[..|b| - 1] {
      var j :| 0 <= j < |b| && b[j] == a[k];
      assert a[k].end <= a[|a| - 1].start;
      assert b[..|b| - 1][j] == a[k];
    }
  }

  lemma {:induction false} SortedSetsAreEqual(a: seq<Body>, b: seq<Body>)
    requires InOrder(a) && InOrder(b) && Within(a, b) && Within(b, a)
    ensures a == b
  {
    if a != [] {
      assert a[0] in b;
      SameLast(a, b);
      AllButLast(a, b);
      AllButLast(b, a);
      SortedSetsAreEqual(a[..|a| - 1], b[..|b| - 1]);
      assert a == a[..|a| - 1] + [a[|a| - 1]] && b == b[..|b| - 1] + [b[|b| - 1]];
    }
  }

  lemma ScanIsUnique(lines: Lines, a: seq<Body>, b: seq<Body>)
    requires IsScan(lines, a) && IsScan(lines, b)
    ensures a == b
  {
    ScansAgreeTo(lines, a, b, |lines|);
    SortedSetsAreEqual(a, b);
  }
}
