// The release pipeline when its runs start in commit order and only the latest run's publish job is
// ever attempted, which is what the workflow's concurrency group is for. Releases may be withdrawn,
// or returned to draft while published, at any time.
module RunsInOrder {
  import opened Text
  import opened Git
  import opened SemVer
  import opened ReleaseVersion
  import opened ReleasePipeline
  import opened ReleaseSelection
  import opened ReleaseOrder

  // A run starts no earlier on main than the run before it, and only its own output is attempted.
  ghost predicate InOrder(s: State, step: Step) {
    && (step.Run? ==> step.head < |s.repo| && OnFirstParentLine(s.repo, s.at, step.head))
    && (step.Try? ==> s.current == Some(step.output))
    && (step.Redraft? ==> IsIn(s, step.version, Stable))
  }

  // Version v at commit c is beyond everything claimed and the only version at c.
  ghost predicate IsAhead(s: State, c: Sha, v: Version) {
    && (forall w :: Claimed(s, w) ==> if w == v then s.tags[w] == c else Less(w, v) && s.tags[w] < c)
    && (forall u :: Alive(s, u) && s.tags[u] == c ==> u == v)
  }

  ghost predicate Placed(s: State) {
    && ClaimsInOrder(s)
    && (forall v :: Alive(s, v) ==> s.tags[v] <= s.at)
    && (forall u, v :: Alive(s, u) && Alive(s, v) && s.tags[u] == s.at && s.tags[v] == s.at ==> u == v)
    && (forall u, w :: Alive(s, u) && s.tags[u] == s.at && Claimed(s, w) ==> AtMost(w, u))
  }

  ghost predicate Invariant(s: State) {
    && Base(s)
    && Placed(s)
    && (s.current.Some? ==> s.current.value.head == s.at && IsAhead(s, s.at, s.current.value.version))
  }

  lemma FewerStayPlaced(s: State, s': State)
    requires Placed(s) && s'.tags == s.tags && s'.at == s.at && s'.current == s.current
    requires forall v :: Claimed(s', v) ==> Claimed(s, v)
    requires forall v :: Alive(s', v) ==> Alive(s, v)
    ensures Placed(s')
    ensures forall c, v :: IsAhead(s, c, v) ==> IsAhead(s', c, v)
  {
  }

  lemma OtherStepKeepsInvariant(s: State, step: Step, s': State)
    requires Invariant(s) && Takes(s, step, s') && InOrder(s, step) && !step.Run? && !step.Try?
    ensures Invariant(s')
  {
    StepKeepsBase(s, step, s');
    OtherStepKeepsFewer(s, step, s');
    FewerStayPlaced(s, s');
  }

  lemma OtherStepKeepsFewer(s: State, step: Step, s': State)
    requires Takes(s, step, s') && InOrder(s, step) && !step.Run? && !step.Try?
    ensures s'.tags == s.tags && s'.at == s.at && s'.current == s.current
    ensures forall v :: Claimed(s', v) ==> Claimed(s, v)
    ensures forall v :: Alive(s', v) ==> Alive(s, v)
  {
  }

  lemma TouchKeepsPlaces(s: State, o: Output, s': State)
    requires Placed(s) && Touches(s, o, s') && o.head == s.at && IsAhead(s, s.at, o.version)
    ensures Placed(s') && IsAhead(s', s.at, o.version)
  {
    OthersAreUntouched(s, o, s');
  }

  lemma AttemptKeepsInvariant(s: State, step: Step, s': State)
    requires Invariant(s) && Takes(s, step, s') && step.Try? && InOrder(s, step)
    ensures Invariant(s')
  {
    StepKeepsBase(s, step, s');
    AttemptIsLocal(s, step.output, step.progress);
    TouchKeepsPlaces(s, step.output, s');
  }

  lemma HeldIsInView(s: State, w: Version, head: Sha)
    requires Claimed(s, w) || (Alive(s, w) && s.tags[w] == head)
    ensures InView(s, w, head)
  {
  }

  lemma OwnIsAhead(s: State, head: Sha, v: Version)
    requires Placed(s) && s.at <= head && IsTop(s, head, v) && s.tags[v] == head
    ensures IsAhead(s, head, v)
  {
    forall w | Claimed(s, w) ensures if w == v then s.tags[w] == head else Less(w, v) && s.tags[w] < head {
      HeldIsInView(s, w, head);
      assert Alive(s, w) && Alive(s, v);
    }
  }

  lemma FirstIsAhead(s: State, head: Sha, v: Version)
    requires forall u :: !InView(s, u, head)
    ensures IsAhead(s, head, v)
  {
    forall w ensures !Claimed(s, w) && !(Alive(s, w) && s.tags[w] == head) {
      if Claimed(s, w) || (Alive(s, w) && s.tags[w] == head) { HeldIsInView(s, w, head); }
    }
  }

  lemma NextIsAhead(s: State, head: Sha, m: Version, v: Version)
    requires Placed(s) && s.at <= head && IsTop(s, head, m) && Claimed(s, m) && s.tags[m] < head && Less(m, v)
    ensures IsAhead(s, head, v)
  {
    forall w | Claimed(s, w) ensures Less(w, v) && s.tags[w] < head {
      HeldIsInView(s, w, head);
    }
    forall u | Alive(s, u) ensures s.tags[u] != head {
      if s.tags[u] == head { HeldIsInView(s, u, head); }
    }
  }

  lemma NextIsAbove(s: State, head: Sha, m: Version, v: Version, reclaim: Option<Sha>)
    requires head < |s.repo| && OffersNext(s, head, m, v, reclaim)
    ensures Claimed(s, m) && s.tags[m] < head && Less(m, v)
  {
    NextFreeIsFirst(s, Bump(m, Lvl(s, s.tags[m], head)));
    AncestorIsOlder(s.repo, s.tags[m], head);
  }

  // Whatever is offered is ahead.
  lemma OfferIsAhead(s: State, head: Sha, base: Version, v: Version, reclaim: Option<Sha>)
    requires Placed(s) && s.at <= head < |s.repo| && Offers(s, head, base, v, reclaim)
    ensures IsAhead(s, head, v)
  {
    if OffersOwn(s, head, v, reclaim) {
      OwnIsAhead(s, head, v);
    } else if OffersFirst(s, head, base, v, reclaim) {
      FirstIsAhead(s, head, v);
    } else {
      var m :| OffersNext(s, head, m, v, reclaim);
      NextIsAbove(s, head, m, v, reclaim);
      NextIsAhead(s, head, m, v);
    }
  }

  lemma RunKeepsPlaces(s: State, head: Sha, base: Version, s': State)
    requires Placed(s) && OnlySelects(s, head, base, s') && s.at <= head
    ensures Placed(s')
    ensures forall v :: IsAhead(s, head, v) ==> IsAhead(s', head, v)
  {
    assert forall v :: (Claimed(s', v) <==> Claimed(s, v)) && (Alive(s', v) <==> Alive(s, v));
  }

  lemma RunKeepsInvariant(s: State, step: Step, s': State)
    requires Invariant(s) && Takes(s, step, s') && step.Run? && InOrder(s, step)
    ensures Invariant(s')
  {
    FirstParentLineIsAncestry(s.repo, s.at, step.head);
    AncestorIsOlder(s.repo, s.at, step.head);
    RunOnlySelects(s, step, s');
    SelectionKeepsInvariant(s, step.head, BaseOf(step), s');
  }

  lemma SelectionKeepsInvariant(s: State, head: Sha, base: Version, s': State)
    requires Invariant(s) && OnlySelects(s, head, base, s') && s.at <= head
    ensures Invariant(s')
  {
    SelectionKeepsBase(s, head, base, s');
    RunKeepsPlaces(s, head, base, s');
    if s'.current.Some? {
      OfferIsAhead(s, head, base, s'.current.value.version, s'.current.value.reclaim);
    }
  }

  lemma StepKeepsInvariant(s: State, step: Step, s': State)
    requires Invariant(s) && Takes(s, step, s') && InOrder(s, step)
    ensures Invariant(s')
  {
    if step.Run? {
      RunKeepsInvariant(s, step, s');
    } else if step.Try? {
      AttemptKeepsInvariant(s, step, s');
    } else {
      OtherStepKeepsInvariant(s, step, s');
    }
  }

  // No run has been at an earlier commit than a release.
  ghost predicate AllBehind(s: State) {
    forall v :: Alive(s, v) ==> s.tags[v] <= s.at
  }

  lemma SettledIsInvariant(s: State)
    requires Settled(s) && AllBehind(s)
    ensures Invariant(s)
  {
    forall u, v | Alive(s, u) && Alive(s, v) && s.tags[u] == s.at ensures AtMost(v, u) {
      assert Claimed(s, u) && Claimed(s, v);
      OneIsLess(u, v);
    }
    forall u, v | Alive(s, u) && Alive(s, v) && s.tags[u] == s.at && s.tags[v] == s.at ensures u == v {
      assert AtMost(v, u) && AtMost(u, v);
    }
  }

  lemma OneIsLess(u: Version, v: Version)
    ensures u == v || Less(u, v) || Less(v, u)
  {
  }

  ghost predicate AreInOrder(states: seq<State>, steps: seq<Step>) {
    |steps| <= |states| && forall i :: 0 <= i < |steps| ==> InOrder(states[i], steps[i])
  }

  lemma {:induction false} InvariantHolds(states: seq<State>, steps: seq<Step>, i: nat)
    requires IsExecution(states, steps) && Settled(states[0]) && AllBehind(states[0]) && AreInOrder(states, steps)
    requires i <= |steps|
    ensures Invariant(states[i])
  {
    if i == 0 {
      SettledIsInvariant(states[0]);
    } else {
      InvariantHolds(states, steps, i - 1);
      assert Follow(states, steps, i - 1);
      StepKeepsInvariant(states[i - 1], steps[i - 1], states[i]);
    }
  }

  // However runs crash, are repeated, reclaim or are withdrawn, the published versions stay ordered.
  lemma PublishedStaysInOrder(states: seq<State>, steps: seq<Step>, i: nat)
    requires IsExecution(states, steps) && Settled(states[0]) && AllBehind(states[0]) && AreInOrder(states, steps)
    requires i <= |steps|
    ensures PublishedInOrder(states[i])
  {
    InvariantHolds(states, steps, i);
    OrderedClaimsAreOrderedReleases(states[i]);
  }
}
