// What every step of the release pipeline keeps, and what it means for published versions to be in order.
module ReleaseOrder {
  import opened Text
  import opened Git
  import opened SemVer
  import opened ReleaseVersion
  import opened ReleasePipeline
  import opened ReleaseSelection

  // Levels along the main branch

  lemma LevelOfConcat(co: Checkout, a: seq<Sha>, b: seq<Sha>)
    ensures Level(co, a + b, "", "") == Max(Level(co, a, "", ""), Level(co, b, "", ""))
  {
    if b == [] {
      assert a + b == a;
    } else {
      assert (a + b)[..|a + b| - 1] == a + b[..|b| - 1];
      LevelOfConcat(co, a, b[..|b| - 1]);
    }
  }

  // Only the commits of the range and whether they are affected matter.
  lemma LevelIsLocal(co: Checkout, other: Checkout, range: seq<Sha>)
    requires co.repo <= other.repo
    requires forall c :: c in range ==> c < |co.repo| && (c in co.affected <==> c in other.affected)
    ensures Level(co, range, "", "") == Level(other, range, "", "")
  {
    if range != [] {
      var front, last := range[..|range| - 1], range[|range| - 1];
      assert last in range && forall c :: c in front ==> c in range;
      LevelIsLocal(co, other, front);
    }
  }

  ghost predicate SameHistory(s: State, s': State) {
    s.repo <= s'.repo && forall c :: c < |s.repo| ==> (c in s.affected <==> c in s'.affected)
  }

  lemma LvlOfOldCommits(s: State, s': State, a: Sha, b: Sha)
    requires SameHistory(s, s') && a < |s.repo| && b < |s.repo|
    ensures Lvl(s, a, b) == Lvl(s', a, b)
  {
    RangeOfOldCommits(s.repo, s'.repo, a, b);
    RangeIsInRepo(s.repo, a, b);
    LevelIsLocal(CheckoutAt(s, b), CheckoutAt(s', b), FirstParentRange(s.repo, a, b));
  }

  ghost predicate OnMain(s: State, c: Sha) {
    s.main < |s.repo| && c < |s.repo| && OnFirstParentLine(s.repo, c, s.main)
  }

  lemma LvlSplits(s: State, a: Sha, b: Sha, c: Sha)
    requires OnMain(s, a) && OnMain(s, b) && OnMain(s, c) && a <= b <= c
    ensures Lvl(s, a, c) == Max(Lvl(s, a, b), Lvl(s, b, c))
  {
    FirstParentLineIsLinear(s.repo, a, b, s.main);
    FirstParentLineIsLinear(s.repo, b, c, s.main);
    RangeSplits(s.repo, a, b, c);
    LevelOfConcat(CheckoutAt(s, c), FirstParentRange(s.repo, b, c), FirstParentRange(s.repo, a, b));
    RangeIsInRepo(s.repo, a, b);
    LevelIsLocal(CheckoutAt(s, b), CheckoutAt(s, c), FirstParentRange(s.repo, a, b));
  }

  // What every step does

  lemma HistoryGrows(s: State, step: Step, s': State)
    requires Consistent(s) && Takes(s, step, s')
    ensures SameHistory(s, s')
    ensures forall c :: OnMain(s, c) ==> OnMain(s', c)
  {
    if step.Push? || step.Side? {
      assert s.repo <= s'.repo;
      forall c | OnMain(s, c) ensures OnMain(s', c) {
        StaysOnMain(s, s', c);
      }
    }
  }

  lemma StaysOnMain(s: State, s': State, c: Sha)
    requires OnMain(s, c) && s.repo <= s'.repo && s'.main < |s'.repo|
    requires s'.main == s.main || (s'.repo[s'.main].parents != [] && s'.repo[s'.main].parents[0] == s.main)
    ensures OnMain(s', c)
  {
    RangeOfOldCommits(s.repo, s'.repo, c, s.main);
    if s'.main != s.main { assert FirstParent(s'.repo, s'.main) == s.main; }
  }

  // An attempt touches one version only; what is claimed stays where it is, and what it claims it
  // claims for its own commit.
  ghost predicate Touches(s: State, o: Output, s': State) {
    && s' == s.(tags := s'.tags, dist := s'.dist)
    && (forall w :: w != o.version ==> (w in s.tags <==> w in s'.tags) && (w in s.dist <==> w in s'.dist))
    && (forall w :: w != o.version && w in s.tags ==> s'.tags[w] == s.tags[w])
    && (forall w :: w != o.version && w in s.dist ==> s'.dist[w] == s.dist[w])
    && s.tags.Keys <= s'.tags.Keys
    && (o.version in s'.dist ==> o.version in s'.tags)
    && (o.version in s'.tags && s'.tags[o.version] != o.head
        ==> o.version in s.tags && s'.tags[o.version] == s.tags[o.version])
    && (Claimed(s, o.version) ==> Claimed(s', o.version) && s'.tags[o.version] == s.tags[o.version])
    && (Claimed(s', o.version) && !Claimed(s, o.version) ==> s'.tags[o.version] == o.head)
    && (IsIn(s', o.version, Prerelease) <==> IsIn(s, o.version, Prerelease))
  }

  lemma AttemptIsLocal(s: State, o: Output, progress: Progress)
    requires Consistent(s) && (o.reclaim.Some? ==> !IsWithdrawnSource(o.version))
    ensures Touches(s, o, Attempt(s, o, progress))
  {
    if progress != Nothing && Discard(s, o).Some? {
      var discarded := Discard(s, o).value;
      DiscardIsLocal(s, o);
      if progress != Discarded && Reserve(discarded, o).Some? {
        var reserved := Reserve(discarded, o).value;
        ReserveIsLocal(discarded, o);
        TouchTwice(s, o, discarded, reserved);
        if progress != Reserved {
          PublishIsLocal(reserved, o, progress);
          TouchTwice(s, o, reserved, Publish(reserved, o, progress));
        }
      }
    }
  }

  lemma DiscardIsLocal(s: State, o: Output)
    requires Consistent(s) && Discard(s, o).Some? && (o.reclaim.Some? ==> !IsWithdrawnSource(o.version))
    ensures Touches(s, o, Discard(s, o).value)
    ensures o.reclaim.Some? ==> !Claimed(Discard(s, o).value, o.version)
  {
  }

  lemma ReserveIsLocal(s: State, o: Output)
    requires Reserve(s, o).Some? && (o.reclaim.Some? ==> !Claimed(s, o.version))
    ensures Touches(s, o, Reserve(s, o).value)
  {
  }

  lemma PublishIsLocal(s: State, o: Output, progress: Progress)
    requires o.version in s.tags && s.tags[o.version] == o.head
    ensures Touches(s, o, Publish(s, o, progress))
  {
  }

  lemma TouchTwice(s: State, o: Output, middle: State, s': State)
    requires Touches(s, o, middle) && Touches(middle, o, s')
    ensures Touches(s, o, s')
  {
  }

  lemma OthersAreUntouched(s: State, o: Output, s': State)
    requires Touches(s, o, s')
    ensures forall w :: w != o.version ==> (Claimed(s', w) <==> Claimed(s, w)) && (Alive(s', w) <==> Alive(s, w))
  {
  }

  lemma AttemptStaysConsistent(s: State, o: Output, s': State)
    requires Consistent(s) && o in s.outputs && Touches(s, o, s')
    ensures Consistent(s')
  {
    forall v | v in s'.tags
      ensures s'.tags[v] < |s'.repo| && (v.major == 0 ==> OnFirstParentLine(s'.repo, s'.tags[v], s'.main))
    {
      if s'.tags[v] != o.head || v != o.version { assert v in s.tags && s'.tags[v] == s.tags[v]; }
    }
  }

  lemma GrowthStaysConsistent(s: State, step: Step, s': State)
    requires Consistent(s) && Takes(s, step, s') && (step.Push? || step.Side?)
    ensures Consistent(s')
  {
    HistoryGrows(s, step, s');
    assert OnMain(s, s.at);
    assert forall o :: o in s.outputs ==> OnMain(s, o.head);
    assert forall v :: v in s.tags && v.major == 0 ==> OnMain(s, s.tags[v]);
  }

  // A run changes nothing but what it hands over, and it hands over what the state offers.
  ghost predicate OnlySelects(s: State, head: Sha, base: Version, s': State) {
    && s' == s.(at := head, current := s'.current, outputs := s'.outputs)
    && OnMain(s, head)
    && s'.outputs == s.outputs + (if s'.current.Some? then {s'.current.value} else {})
    && (s'.current.Some? ==>
          s'.current.value.head == head && base.major == 0
          && Offers(s, head, base, s'.current.value.version, s'.current.value.reclaim))
  }

  // The version a baseline reads as, if it does.
  function BaseOf(step: Step): Version
    requires step.Run?
  {
    match Parse(step.baseline)
    case Some(base) => base
    case None => Version(0, 0, 0)
  }

  lemma RunOnlySelects(s: State, step: Step, s': State)
    requires Consistent(s) && step.Run? && Takes(s, step, s')
    ensures OnlySelects(s, step.head, BaseOf(step), s')
    ensures s'.current.Some? ==> Parse(step.baseline).Some?
  {
    if s'.current.Some? {
      var o := s'.current.value;
      HandsOverExactly(s, step.head, step.releases, step.baseline, o.version, o.reclaim);
    }
  }

  lemma OffersBeta(s: State, head: Sha, base: Version, v: Version, reclaim: Option<Sha>)
    requires head < |s.repo| && base.major == 0 && Offers(s, head, base, v, reclaim)
    ensures v.major == 0
    ensures reclaim.Some? ==> Abandoned(s, v, head) && reclaim.value == s.tags[v] && !IsWithdrawnSource(v)
  {
    if m :| OffersNext(s, head, m, v, reclaim) {
      NextIsBeta(s, m, Lvl(s, s.tags[m], head));
    }
  }

  lemma NextIsBeta(s: State, m: Version, level: nat)
    ensures NextFree(s, Bump(m, level)).major == m.major
  {
    NextFreeIsFirst(s, Bump(m, level));
  }

  // What holds in every reachable state.
  ghost predicate Base(s: State) {
    Consistent(s) && forall o :: o in s.outputs && o.reclaim.Some? ==> !IsWithdrawnSource(o.version)
  }

  lemma SelectionKeepsBase(s: State, head: Sha, base: Version, s': State)
    requires Base(s) && OnlySelects(s, head, base, s')
    ensures Base(s')
  {
    if s'.current.Some? {
      OffersBeta(s, head, base, s'.current.value.version, s'.current.value.reclaim);
    }
  }

  lemma StepKeepsBase(s: State, step: Step, s': State)
    requires Base(s) && Takes(s, step, s')
    ensures Base(s')
  {
    match step
    case Push(_, _) => GrowthStaysConsistent(s, step, s');
    case Side(_, _) => GrowthStaysConsistent(s, step, s');
    case Withdraw(_) =>
    case Redraft(_) =>
    case Try(o, progress) =>
      AttemptIsLocal(s, o, progress);
      AttemptStaysConsistent(s, o, s');
    case Run(head, _, _, _) =>
      RunOnlySelects(s, step, s');
      SelectionKeepsBase(s, head, BaseOf(step), s');
  }

  // Runs

  // A sequence of states, each the result of one step from the one before.
  ghost predicate IsExecution(states: seq<State>, steps: seq<Step>) {
    |states| == |steps| + 1 && forall i :: 0 <= i < |steps| ==> Follow(states, steps, i)
  }

  ghost predicate Follow(states: seq<State>, steps: seq<Step>, i: nat)
    requires i < |steps| < |states|
  {
    Takes(states[i], steps[i], states[i + 1])
  }

  lemma {:induction false} BaseHolds(states: seq<State>, steps: seq<Step>, i: nat)
    requires IsExecution(states, steps) && Base(states[0]) && i <= |steps|
    ensures Base(states[i])
  {
    if i > 0 {
      BaseHolds(states, steps, i - 1);
      assert Follow(states, steps, i - 1);
      StepKeepsBase(states[i - 1], steps[i - 1], states[i]);
    }
  }

  // The published beta versions, as a reader of the release page sees them.
  ghost predicate PublishedInOrder(s: State) {
    forall u, v :: IsIn(s, u, Stable) && IsIn(s, v, Stable) && u.major == 0 && v.major == 0 && Less(u, v)
      ==> && u in s.tags && v in s.tags && s.tags[u] != s.tags[v]
          && s.tags[v] < |s.repo| && OnFirstParentLine(s.repo, s.tags[u], s.tags[v])
          && IsAncestor(s.repo, s.tags[u], s.tags[v])
  }

  ghost predicate ClaimsInOrder(s: State) {
    forall u, v :: Claimed(s, u) && Claimed(s, v) && Less(u, v) ==> s.tags[u] < s.tags[v]
  }

  lemma OrderedClaimsAreOrderedReleases(s: State)
    requires Consistent(s) && ClaimsInOrder(s)
    ensures PublishedInOrder(s)
  {
    forall u, v | IsIn(s, u, Stable) && IsIn(s, v, Stable) && u.major == 0 && v.major == 0 && Less(u, v)
      ensures u in s.tags && v in s.tags && s.tags[u] != s.tags[v] && s.tags[v] < |s.repo|
      ensures OnFirstParentLine(s.repo, s.tags[u], s.tags[v]) && IsAncestor(s.repo, s.tags[u], s.tags[v])
    {
      assert Claimed(s, u) && Claimed(s, v);
      FirstParentLineIsLinear(s.repo, s.tags[u], s.tags[v], s.main);
      FirstParentLineIsAncestry(s.repo, s.tags[u], s.tags[v]);
    }
  }

  // Where the theorems start: nothing in flight, every beta version published or withdrawn, and the
  // published ones in order. Nothing need have been released yet.
  ghost predicate Settled(s: State) {
    && Consistent(s) && ClaimsInOrder(s)
    && s.outputs == {} && s.current == None
    && forall v :: Alive(s, v) ==> Claimed(s, v)
  }
}
