// When a version that was published keeps its commit.
module PublishedVersions {
  import opened Text
  import opened SemVer
  import opened ReleasePipeline
  import opened ReleaseOrder

  predicate IsOut(s: State, v: Version) {
    IsIn(s, v, Stable) || IsIn(s, v, Prerelease)
  }

  // An attempt that reclaims v from the commit it is on, while it is out no more, and gets past the
  // reservation.
  predicate Reclaims(s: State, step: Step, v: Version) {
    && step.Try? && step.output.version == v
    && v in s.tags && step.output.reclaim == Some(s.tags[v]) && step.output.head != s.tags[v]
    && !IsOut(s, v)
    && step.progress != Nothing && step.progress != Discarded
  }

  // The tag of the version is free, the commit's already, or held by the commit it is reclaimed from.
  predicate MayTake(s: State, o: Output) {
    o.version in s.tags ==> s.tags[o.version] == o.head || o.reclaim == Some(s.tags[o.version])
  }

  // The steps up to one of the workflow were reached.
  predicate Reaches(progress: Progress, least: Progress) {
    match least
    case Nothing => true
    case Discarded => progress != Nothing
    case Reserved => progress != Nothing && progress != Discarded
    case Drafted => progress == Drafted || progress == Released
    case Released => progress == Released
  }

  // What an attempt leaves of its version: published exactly if it was, or if the attempt gets through and may
  // take an unpublished version; a draft exactly if one was there and is neither discarded nor published, or one
  // was made; on its commit exactly if it may take it and gets to the reservation; and never deleted.
  lemma AttemptExactly(s: State, o: Output, progress: Progress)
    requires o.version in s.dist ==> o.version in s.tags
    ensures var (v, s') := (o.version, Attempt(s, o, progress));
            && (IsIn(s', v, Stable) <==>
                  IsIn(s, v, Stable) || (Reaches(progress, Released) && !IsOut(s, v) && MayTake(s, o)))
            && (IsIn(s', v, Draft) <==>
                  if !IsOut(s, v) && Reaches(progress, Drafted) && MayTake(s, o) then progress == Drafted
                  else IsIn(s, v, Draft) && (o.reclaim == None || progress == Nothing))
            && (IsIn(s', v, Prerelease) <==> IsIn(s, v, Prerelease))
            && (v in s'.tags && s'.tags[v] == o.head <==>
                  || (v in s.tags && s.tags[v] == o.head)
                  || (Reaches(progress, Reserved) && MayTake(s, o) && (o.reclaim == None || !IsOut(s, v))))
  {
  }

  lemma AttemptMovesExactly(s: State, o: Output, progress: Progress, v: Version)
    requires v in s.tags
    ensures var s' := Attempt(s, o, progress);
            v in s'.tags && (s'.tags[v] != s.tags[v] <==> Reclaims(s, Try(o, progress), v))
  {
  }

  lemma MovesExactly(s: State, step: Step, s': State, v: Version)
    requires Takes(s, step, s') && v in s.tags
    ensures v in s'.tags && (s'.tags[v] != s.tags[v] <==> Reclaims(s, step, v))
  {
    if step.Try? { AttemptMovesExactly(s, step.output, step.progress, v); }
  }

  lemma AttemptKeepsOut(s: State, o: Output, progress: Progress, v: Version)
    requires IsOut(s, v)
    ensures IsOut(Attempt(s, o, progress), v)
  {
  }

  lemma StaysOut(s: State, step: Step, s': State, v: Version)
    requires Takes(s, step, s') && IsOut(s, v) && step != Redraft(v)
    ensures IsOut(s', v)
  {
    if step.Try? { AttemptKeepsOut(s, step.output, step.progress, v); }
  }

  // Over whole runs

  ghost predicate Redrafted(steps: seq<Step>, v: Version, n: nat)
    requires n <= |steps|
  {
    exists i :: 0 <= i < n && steps[i] == Redraft(v)
  }

  ghost predicate EverReclaimed(states: seq<State>, steps: seq<Step>, v: Version, n: nat)
    requires n <= |steps| < |states|
  {
    exists i :: 0 <= i < n && Reclaims(states[i], steps[i], v)
  }

  ghost predicate KeepsCommit(states: seq<State>, v: Version, n: nat)
    requires n < |states|
  {
    forall i :: 0 <= i <= n ==> v in states[i].tags && v in states[0].tags && states[i].tags[v] == states[0].tags[v]
  }

  // A tagged version stays on its commit through a whole run exactly as long as no attempt reclaims it.
  lemma {:induction false} KeepsCommitExactly(states: seq<State>, steps: seq<Step>, v: Version, n: nat)
    requires IsExecution(states, steps) && v in states[0].tags && n <= |steps|
    ensures KeepsCommit(states, v, n) <==> !EverReclaimed(states, steps, v, n)
    ensures v in states[n].tags
  {
    if n > 0 {
      KeepsCommitExactly(states, steps, v, n - 1);
      var s := states[n - 1];
      assert Follow(states, steps, n - 1);
      MovesExactly(s, steps[n - 1], states[n], v);
      if EverReclaimed(states, steps, v, n) && !EverReclaimed(states, steps, v, n - 1) {
        assert Reclaims(s, steps[n - 1], v);
      }
    }
  }

  lemma {:induction false} StaysOutUnlessRedrafted(states: seq<State>, steps: seq<Step>, v: Version, n: nat)
    requires IsExecution(states, steps) && IsOut(states[0], v) && n <= |steps| && !Redrafted(steps, v, n)
    ensures IsOut(states[n], v)
  {
    if n > 0 {
      StaysOutUnlessRedrafted(states, steps, v, n - 1);
      assert Follow(states, steps, n - 1);
      StaysOut(states[n - 1], steps[n - 1], states[n], v);
    }
  }

  // An attempt gets through with a version it may take that is not out.
  predicate Publishes(s: State, step: Step, v: Version) {
    && step.Try? && step.output.version == v && step.progress == Released
    && !IsOut(s, v) && MayTake(s, step.output)
  }

  // Out at the start or published in step i - 1, and not returned to draft since.
  ghost predicate OutSince(states: seq<State>, steps: seq<Step>, v: Version, i: nat, n: nat)
    requires n <= |steps| < |states|
  {
    && i <= n && (if i == 0 then IsOut(states[0], v) else Publishes(states[i - 1], steps[i - 1], v))
    && forall j :: i <= j < n ==> steps[j] != Redraft(v)
  }

  lemma OutAfterTry(s: State, o: Output, progress: Progress, v: Version)
    requires v in s.dist ==> v in s.tags
    ensures IsOut(Attempt(s, o, progress), v) <==> Publishes(s, Try(o, progress), v) || IsOut(s, v)
  {
    if o.version == v {
      AttemptExactly(s, o, progress);
    } else {
      OthersKeepTheirStatus(s, o, progress, v);
    }
  }

  lemma OthersKeepTheirStatus(s: State, o: Output, progress: Progress, v: Version)
    requires o.version != v
    ensures IsOut(Attempt(s, o, progress), v) <==> IsOut(s, v)
  {
  }

  lemma OutOneMore(s: State, step: Step, s': State, v: Version)
    requires Takes(s, step, s') && (v in s.dist ==> v in s.tags)
    ensures IsOut(s', v) <==> Publishes(s, step, v) || (IsOut(s, v) && step != Redraft(v))
  {
    if step.Try? { OutAfterTry(s, step.output, step.progress, v); }
  }

  lemma SinceOneMore(states: seq<State>, steps: seq<Step>, v: Version, n: nat, m: nat)
    requires n < |steps| < |states| && m == n + 1
    ensures (exists i: nat :: OutSince(states, steps, v, i, m))
            <==> Publishes(states[n], steps[n], v)
                 || (steps[n] != Redraft(v) && exists i: nat :: OutSince(states, steps, v, i, n))
  {
    if i: nat :| OutSince(states, steps, v, i, m) {
      if i <= n { assert OutSince(states, steps, v, i, n); }
    }
    if Publishes(states[n], steps[n], v) { assert OutSince(states, steps, v, m, m); }
    if i: nat :| OutSince(states, steps, v, i, n) && steps[n] != Redraft(v) {
      assert OutSince(states, steps, v, i, m);
    }
  }

  // A version is out exactly if it was at the start or an attempt got through with it, and it was not returned
  // to draft since.
  lemma {:induction false} OutExactly(states: seq<State>, steps: seq<Step>, v: Version, n: nat)
    requires IsExecution(states, steps) && Base(states[0]) && n <= |steps|
    ensures IsOut(states[n], v) <==> exists i: nat :: OutSince(states, steps, v, i, n)
  {
    if n == 0 {
      if IsOut(states[0], v) { assert OutSince(states, steps, v, 0, 0); }
    } else {
      OutExactly(states, steps, v, n - 1);
      SinceOneMore(states, steps, v, n - 1, n);
      assert Follow(states, steps, n - 1);
      BaseHolds(states, steps, n - 1);
      OutOneMore(states[n - 1], steps[n - 1], states[n], v);
    }
  }

  // Once published, a version keeps its commit whatever is pushed, rerun, reclaimed or marked
  // prerelease, unless it is returned to draft first.
  lemma PublishedNeverMoves(states: seq<State>, steps: seq<Step>, v: Version)
    requires IsExecution(states, steps) && Base(states[0]) && IsOut(states[0], v)
    requires !Redrafted(steps, v, |steps|)
    ensures KeepsCommit(states, v, |steps|) && IsOut(states[|steps|], v)
  {
    KeepsCommitExactly(states, steps, v, |steps|);
    StaysOutUnlessRedrafted(states, steps, v, |steps|);
    if EverReclaimed(states, steps, v, |steps|) {
      var i :| 0 <= i < |steps| && Reclaims(states[i], steps[i], v);
      StaysOutUnlessRedrafted(states, steps, v, i);
    }
  }
}
