// What a run finds that is repeated on its commit after its publish job broke off.
module CrashRecovery {
  import opened Text
  import opened Git
  import opened SemVer
  import opened ReleaseVersion
  import opened ReleasePipeline
  import opened ReleaseSelection
  import opened ReleaseOrder

  lemma OwnTagInView(s: State, head: Sha, v: Version)
    requires Alive(s, v) && s.tags[v] == head
    ensures InView(s, v, head)
  {
  }

  // Whatever a run hands over is at least as high as everything in view.
  lemma OfferIsTop(s: State, head: Sha, base: Version, v: Version, reclaim: Option<Sha>)
    requires head < |s.repo| && Offers(s, head, base, v, reclaim)
    ensures Tops(s, head, v)
  {
    if m :| OffersNext(s, head, m, v, reclaim) {
      NextIsHigher(s, m, Lvl(s, s.tags[m], head));
      HigherTops(s, head, m, v);
    }
  }

  ghost predicate Tops(s: State, head: Sha, v: Version) {
    forall u :: InView(s, u, head) ==> AtMost(u, v)
  }

  lemma NextIsHigher(s: State, m: Version, level: nat)
    requires 0 < level
    ensures Less(m, NextFree(s, Bump(m, level)))
  {
    NextFreeIsFirst(s, Bump(m, level));
  }

  lemma HigherTops(s: State, head: Sha, m: Version, v: Version)
    requires IsTop(s, head, m) && Less(m, v)
    ensures Tops(s, head, v)
  {
  }

  // An attempt for a commit brings nothing else into its view.
  lemma TouchKeepsTop(s: State, o: Output, s': State)
    requires Touches(s, o, s') && Tops(s, o.head, o.version)
    ensures Tops(s', o.head, o.version)
  {
    OthersAreUntouched(s, o, s');
  }

  // A version on its own commit, with nothing higher in view, is selected there again, however often,
  // and reclaims nothing. It is handed over unless the only trace of it is a source tag on the
  // withdrawn list, which then counts as released.
  lemma SelectedAgain(s: State, head: Sha, v: Version, base: Version, w: Version, reclaim: Option<Sha>)
    requires head < |s.repo| && NoOtherMajor(s) && Alive(s, v) && s.tags[v] == head && Tops(s, head, v)
    ensures Offers(s, head, base, w, reclaim)
            <==> w == v && reclaim == None && (v in s.dist || !IsWithdrawnSource(v))
  {
    OwnTagInView(s, head, v);
    OffersAtTop(s, head, base, v, w, reclaim);
  }

  // After a run and whatever touched its version and left it on the commit, from whatever state, the
  // same run offers the same version again.
  lemma RecoversAfterCrash(s: State, head: Sha, base: Version, o: Output, s': State, base': Version,
                           w: Version, reclaim: Option<Sha>)
    requires head < |s.repo| && o.head == head && Offers(s, head, base, o.version, o.reclaim) && base.major == 0
    requires Touches(s, o, s') && Alive(s', o.version) && s'.tags[o.version] == head
    ensures Offers(s', head, base', w, reclaim)
            <==> w == o.version && reclaim == None && (o.version in s'.dist || !IsWithdrawnSource(o.version))
  {
    OfferIsTop(s, head, base, o.version, o.reclaim);
    TouchKeepsTop(s, o, s');
    OffersBeta(s, head, base, o.version, o.reclaim);
    TouchKeepsMajors(s, o, s');
    SelectedAgain(s', head, o.version, base', w, reclaim);
  }

  lemma TouchKeepsMajors(s: State, o: Output, s': State)
    requires Touches(s, o, s') && o.version.major == 0 && NoOtherMajor(s)
    ensures NoOtherMajor(s')
  {
  }

  // The same for the run as it happens.
  lemma CrashRecovery(s: State, step: Step, s1: State, progress: Progress, s2: State, again: Step, s3: State)
    requires Base(s) && step.Run? && Takes(s, step, s1) && s1.current.Some?
    requires s2 == Attempt(s1, s1.current.value, progress)
    requires var v := s1.current.value.version; Alive(s2, v) && s2.tags[v] == step.head
    requires again.Run? && again.head == step.head && again.version == s1.current.value.version && Takes(s2, again, s3)
    requires Parse(again.baseline).Some? && Parse(again.baseline).value.major == 0
    ensures var v := s1.current.value.version;
            s3.current == if v in s2.dist || !IsWithdrawnSource(v) then Some(Output(step.head, v, None)) else None
  {
    var o := s1.current.value;
    RunOnlySelects(s, step, s1);
    StepKeepsBase(s, step, s1);
    RunKeepsOffers(s, step.head, BaseOf(step), s1);
    StepKeepsBase(s1, Try(o, progress), s2);
    AttemptIsLocal(s1, o, progress);
    RecoversAfterCrash(s1, step.head, BaseOf(step), o, s2, Parse(again.baseline).value, o.version, None);
    HandsOverExactly(s2, step.head, again.releases, again.baseline, o.version, None);
    if s3.current.Some? {
      RunOnlySelects(s2, again, s3);
      var o3 := s3.current.value;
      RecoversAfterCrash(s1, step.head, BaseOf(step), o, s2, BaseOf(again), o3.version, o3.reclaim);
    }
  }

  // States between which a selection at `head` sees no difference.
  ghost predicate Alike(s: State, s1: State, head: Sha) {
    && s1.repo == s.repo && s1.affected == s.affected && s1.tags == s.tags
    && (forall u :: IsIn(s1, u, Prerelease) == IsIn(s, u, Prerelease))
    && (forall u :: InView(s1, u, head) == InView(s, u, head) && Abandoned(s1, u, head) == Abandoned(s, u, head))
    && (forall u :: InView(s, u, head) ==> IsIn(s1, u, Draft) == IsIn(s, u, Draft) && (u in s1.dist <==> u in s.dist))
  }

  lemma SameReleasesAreAlike(s: State, s1: State, head: Sha)
    requires s1.repo == s.repo && s1.affected == s.affected && s1.tags == s.tags && s1.dist == s.dist
    ensures Alike(s, s1, head)
  {
  }

  lemma AlikeTop(s: State, s1: State, head: Sha)
    requires Alike(s, s1, head)
    ensures forall u :: IsTop(s1, head, u) <==> IsTop(s, head, u)
  {
    forall u ensures IsTop(s1, head, u) <==> IsTop(s, head, u) {
      assert forall w :: InView(s1, w, head) == InView(s, w, head);
    }
  }

  lemma AlikeNext(s: State, s1: State, head: Sha, m: Version, v: Version, reclaim: Option<Sha>)
    requires Alike(s, s1, head) && head < |s.repo| && OffersNext(s, head, m, v, reclaim)
    ensures OffersNext(s1, head, m, v, reclaim)
  {
    AlikeTop(s, s1, head);
    AlikeLevels(s, s1, s.tags[m], head);
    AlikeFree(s, s1, Bump(m, Lvl(s, s.tags[m], head)), head, v);
  }

  lemma AlikeLevels(s: State, s1: State, a: Sha, head: Sha)
    requires Alike(s, s1, head) && head < |s.repo|
    ensures Lvl(s1, a, head) == Lvl(s, a, head) && AllHaveHeaders(s1, a, head) == AllHaveHeaders(s, a, head)
  {
    assert CheckoutAt(s1, head) == CheckoutAt(s, head);
  }

  lemma AlikeFree(s: State, s1: State, from: Version, head: Sha, v: Version)
    requires Alike(s, s1, head) && head < |s.repo|
    ensures NextFree(s1, from) == NextFree(s, from) && ReclaimOf(s1, head, v) == ReclaimOf(s, head, v)
  {
    forall tag ensures tag in WithdrawnTags(s1) <==> tag in WithdrawnTags(s) {
      HoldsWithdrawn(s, tag);
      HoldsWithdrawn(s1, tag);
      assert forall u :: IsIn(s1, u, Prerelease) == IsIn(s, u, Prerelease);
    }
    assert WithdrawnTags(s1) == WithdrawnTags(s);
  }

  lemma HoldsWithdrawn(s: State, tag: string)
    ensures tag in WithdrawnTags(s) <==> exists u :: IsIn(s, u, Prerelease) && tag == Tag(u)
  {
    if u :| IsIn(s, u, Prerelease) && tag == Tag(u) {
      assert u in s.dist;
    }
  }

  lemma AlikeOffers(s: State, s1: State, head: Sha, base: Version, v: Version, reclaim: Option<Sha>)
    requires Alike(s, s1, head) && head < |s.repo| && Offers(s, head, base, v, reclaim)
    ensures Offers(s1, head, base, v, reclaim)
  {
    AlikeTop(s, s1, head);
    AlikeFree(s, s1, v, head, v);
    if m :| OffersNext(s, head, m, v, reclaim) { AlikeNext(s, s1, head, m, v, reclaim); }
  }

  lemma RunKeepsOffers(s: State, head: Sha, base: Version, s1: State)
    requires Consistent(s) && OnlySelects(s, head, base, s1) && s1.current.Some?
    ensures Offers(s1, head, base, s1.current.value.version, s1.current.value.reclaim)
  {
    SameReleasesAreAlike(s, s1, head);
    AlikeOffers(s, s1, head, base, s1.current.value.version, s1.current.value.reclaim);
  }

  // Before the reservation

  // Deleting the draft of a version it reclaims changes nothing a selection sees: the tag still holds it.
  lemma DiscardIsAlike(s: State, o: Output, base: Version, s': State)
    requires o.head < |s.repo| && Offers(s, o.head, base, o.version, o.reclaim) && Discard(s, o) == Some(s')
    ensures Alike(s, s', o.head)
  {
    if o.reclaim.Some? {
      ReclaimsAbandoned(s, o, base);
      forall u ensures SeenAlike(s, s', o.head, u) { GoneIsAlike(s, o.version, s', o.head, u); }
      EachSeenAlike(s, s', o.head);
    } else {
      SameReleasesAreAlike(s, s', o.head);
    }
  }

  ghost predicate SeenAlike(s: State, s1: State, head: Sha, u: Version) {
    && IsIn(s1, u, Prerelease) == IsIn(s, u, Prerelease)
    && InView(s1, u, head) == InView(s, u, head) && Abandoned(s1, u, head) == Abandoned(s, u, head)
    && (InView(s, u, head) ==> IsIn(s1, u, Draft) == IsIn(s, u, Draft) && (u in s1.dist <==> u in s.dist))
  }

  lemma EachSeenAlike(s: State, s1: State, head: Sha)
    requires s1.repo == s.repo && s1.affected == s.affected && s1.tags == s.tags
    requires forall u :: SeenAlike(s, s1, head, u)
    ensures Alike(s, s1, head)
  {
    forall u
      ensures IsIn(s1, u, Prerelease) == IsIn(s, u, Prerelease)
      ensures InView(s1, u, head) == InView(s, u, head) && Abandoned(s1, u, head) == Abandoned(s, u, head)
      ensures InView(s, u, head) ==> IsIn(s1, u, Draft) == IsIn(s, u, Draft) && (u in s1.dist <==> u in s.dist)
    {
      assert SeenAlike(s, s1, head, u);
    }
  }

  lemma GoneIsAlike(s: State, v: Version, s': State, head: Sha, u: Version)
    requires Abandoned(s, v, head) && s' == s.(dist := s.dist - {v})
    ensures SeenAlike(s, s', head, u)
  {
  }

  lemma ReclaimsAbandoned(s: State, o: Output, base: Version)
    requires o.head < |s.repo| && Offers(s, o.head, base, o.version, o.reclaim) && o.reclaim.Some?
    ensures Abandoned(s, o.version, o.head)
  {
  }

  // A run repeated after its job broke off before the reservation hands over just what it did before.
  lemma CrashBeforeReservation(s: State, step: Step, s1: State, progress: Progress, s2: State, again: Step, s3: State)
    requires Base(s) && step.Run? && Takes(s, step, s1) && s1.current.Some?
    requires (progress == Nothing || progress == Discarded) && s2 == Attempt(s1, s1.current.value, progress)
    requires again.Run? && again.head == step.head && again.version == s1.current.value.version && Takes(s2, again, s3)
    requires again.baseline == step.baseline
    ensures s3.current == s1.current
  {
    var o := s1.current.value;
    RunOnlySelects(s, step, s1);
    StepKeepsBase(s, step, s1);
    RunKeepsOffers(s, step.head, BaseOf(step), s1);
    StepKeepsBase(s1, Try(o, progress), s2);
    if progress == Discarded && Discard(s1, o).Some? {
      DiscardIsAlike(s1, o, BaseOf(step), s2);
      AlikeOffers(s1, s2, step.head, BaseOf(step), o.version, o.reclaim);
    }
    HandsOverExactly(s2, step.head, again.releases, again.baseline, o.version, o.reclaim);
  }
}
