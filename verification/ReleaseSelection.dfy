// Which version a run hands over, read off the state of the pipeline.
module ReleaseSelection {
  import opened Text
  import opened Git
  import opened SemVer
  import opened ReleaseVersion
  import opened ReleaseProperties
  import opened ReleasePipeline

  // The highest level asked for after commit a, up to b.
  function Lvl(s: State, a: Sha, b: Sha): nat
    requires b < |s.repo|
  {
    Level(CheckoutAt(s, b), FirstParentRange(s.repo, a, b), "", "")
  }

  predicate AllHaveHeaders(s: State, a: Sha, b: Sha)
    requires b < |s.repo|
  {
    HasHeaders(CheckoutAt(s, b), FirstParentRange(s.repo, a, b), "", "")
  }

  // The tags of the releases marked prerelease; they count for no selection but keep their versions.
  function WithdrawnTags(s: State): set<string> {
    set v | v in s.dist && s.dist[v] == Prerelease :: Tag(v)
  }

  // Version u is v or a later patch of its line.
  predicate IsPatchFrom(v: Version, u: Version) {
    u.major == v.major && u.minor == v.minor && v.patch <= u.patch
  }

  // The first patch from v on that no withdrawn release holds.
  function NextFree(s: State, v: Version): Version {
    FirstFree(WithdrawnTags(s), v)
  }

  lemma NextFreeIsFirst(s: State, v: Version)
    ensures var free := NextFree(s, v);
            && IsPatchFrom(v, free)
            && !IsIn(s, free, Prerelease)
            && forall u :: IsPatchFrom(v, u) && u.patch < free.patch ==> IsIn(s, u, Prerelease)
  {
    FirstFreeIsFirst(WithdrawnTags(s), v);
    var free := NextFree(s, v);
    forall u | IsPatchFrom(v, u) && u.patch < free.patch ensures IsIn(s, u, Prerelease) {
      assert u == Version(v.major, v.minor, u.patch);
      WithdrawnTag(s, u);
    }
    WithdrawnTag(s, free);
  }

  lemma WithdrawnTag(s: State, v: Version)
    ensures Tag(v) in WithdrawnTags(s) <==> IsIn(s, v, Prerelease)
  {
    if Tag(v) in WithdrawnTags(s) {
      var u :| u in s.dist && s.dist[u] == Prerelease && Tag(u) == Tag(v);
      TagIsInjective(u, v);
    }
  }

  // The commit a version is reclaimed from.
  function ReclaimOf(s: State, head: Sha, v: Version): Option<Sha> {
    if Abandoned(s, v, head) then Some(s.tags[v]) else None
  }

  // The commit carries the highest version in view, and it is not a withdrawn source release.
  ghost predicate OffersOwn(s: State, head: Sha, v: Version, reclaim: Option<Sha>) {
    IsTop(s, head, v) && s.tags[v] == head && (v in s.dist || !IsWithdrawnSource(v)) && reclaim == None
  }

  // Nothing is in view.
  ghost predicate OffersFirst(s: State, head: Sha, base: Version, v: Version, reclaim: Option<Sha>) {
    (forall u :: !InView(s, u, head)) && v == base && reclaim == ReclaimOf(s, head, v)
  }

  // The highest version in view is m, released on an earlier commit, and some commit since asks for a
  // release.
  ghost predicate OffersNext(s: State, head: Sha, m: Version, v: Version, reclaim: Option<Sha>)
    requires head < |s.repo|
  {
    && IsTop(s, head, m) && IsAncestor(s.repo, s.tags[m], head) && s.tags[m] != head && !IsIn(s, m, Draft)
    && AllHaveHeaders(s, s.tags[m], head) && 0 < Lvl(s, s.tags[m], head)
    && v == NextFree(s, Bump(m, Lvl(s, s.tags[m], head)))
    && reclaim == ReclaimOf(s, head, v)
  }

  ghost predicate Offers(s: State, head: Sha, base: Version, v: Version, reclaim: Option<Sha>)
    requires head < |s.repo|
  {
    && NoOtherMajor(s)
    && (OffersOwn(s, head, v, reclaim) || OffersFirst(s, head, base, v, reclaim)
        || exists m :: OffersNext(s, head, m, v, reclaim))
  }

  // What is handed over, without the text of the version

  predicate Gives(selected: Result<Selection>, v: Version, reclaim: Option<Sha>) {
    selected.Ok? && selected.value.publish && selected.value.version == PrintVersion(v) && selected.value.reclaim == reclaim
  }

  lemma HandoverGives(head: Sha, selected: Result<Selection>, v: Version, reclaim: Option<Sha>)
    ensures Handover(head, v, selected) == Some(Output(head, v, reclaim)) <==> Gives(selected, v, reclaim)
  {
  }

  // A finished selection

  lemma FinishHandsOver(s: State, head: Sha, releases: seq<Release>, w: Version, publish: bool, previous: Option<Revision>,
                        v: Version, reclaim: Option<Sha>)
    requires Consistent(s) && head < |s.repo| && Lists(s, releases)
    ensures Gives(Finish(w, publish, previous, KeptAt(s, head, releases), OrphansAt(s, head, releases), "", ""), v, reclaim)
            <==> publish && v == w && reclaim == ReclaimOf(s, head, w)
  {
    NoSuffix(w);
    KeptTag(s, head, releases, w);
    OrphanTag(s, head, releases, w);
    if PrintVersion(w) == PrintVersion(v) { SamePrint(w, v); }
  }

  // After an earlier release

  lemma SameFree(a: set<string>, b: set<string>, v: Version)
    requires forall u :: IsPatchFrom(v, u) ==> (Tag(u) in a <==> Tag(u) in b)
    ensures FirstFree(a, v) == FirstFree(b, v)
  {
    FirstFreeIsFirst(a, v);
    FirstFreeIsFirst(b, v);
    var x, y := FirstFree(a, v), FirstFree(b, v);
    assert x == Version(v.major, v.minor, x.patch) && y == Version(v.major, v.minor, y.patch);
  }

  // Above the highest version in view, only withdrawn releases keep a tag.
  lemma KeptAboveTop(s: State, head: Sha, releases: seq<Release>, m: Version, u: Version)
    requires Consistent(s) && head < |s.repo| && Lists(s, releases) && IsTop(s, head, m) && u.major == 0 && Less(m, u)
    ensures Tag(u) in Tags(KeptAt(s, head, releases)) <==> Tag(u) in WithdrawnTags(s)
  {
    KeptTag(s, head, releases, u);
    WithdrawnTag(s, u);
    if u in s.tags && !Abandoned(s, u, head) && !IsIn(s, u, Prerelease) {
      assert InView(s, u, head);
    }
  }

  lemma NextIsNextFree(s: State, head: Sha, releases: seq<Release>, m: Version)
    requires Consistent(s) && head < |s.repo| && Lists(s, releases) && CheckoutAt(s, head).Valid() && IsTop(s, head, m)
    requires 0 < Lvl(s, s.tags[m], head)
    ensures NextAfter(CheckoutAt(s, head), m, s.tags[m], KeptAt(s, head, releases), "", "")
         == NextFree(s, Bump(m, Lvl(s, s.tags[m], head)))
  {
    var bumped := Bump(m, Lvl(s, s.tags[m], head));
    BumpIsAbove(m, Lvl(s, s.tags[m], head));
    forall u | IsPatchFrom(bumped, u)
      ensures Tag(u) in Tags(KeptAt(s, head, releases)) <==> Tag(u) in WithdrawnTags(s)
    {
      KeptAboveTop(s, head, releases, m, u);
    }
    SameFree(Tags(KeptAt(s, head, releases)), WithdrawnTags(s), bumped);
  }

  function AfterTop(s: State, head: Sha, releases: seq<Release>, m: Version): Result<Selection>
    requires CheckoutAt(s, head).Valid() && m in s.tags
  {
    SelectAfter(CheckoutAt(s, head), Candidate(m, ReleaseOf(s, m)), KeptAt(s, head, releases),
                OrphansAt(s, head, releases), "", "", "")
  }

  // The highest version in view is a draft, on an earlier commit, only if it is a withdrawn source release.
  lemma TopDraft(s: State, head: Sha, m: Version)
    requires IsTop(s, head, m) && s.tags[m] != head && IsAncestor(s.repo, s.tags[m], head)
    ensures ReleaseOf(s, m).draft <==> IsIn(s, m, Draft)
  {
  }

  lemma OwnHandsOver(s: State, head: Sha, releases: seq<Release>, m: Version, v: Version, reclaim: Option<Sha>)
    requires Consistent(s) && head < |s.repo| && CheckoutAt(s, head).Valid() && m in s.tags && s.tags[m] == head
    ensures Gives(AfterTop(s, head, releases, m), v, reclaim)
            <==> v == m && (m in s.dist || !IsWithdrawnSource(m)) && reclaim == None
  {
    OwnIsSelected(s, head, releases, m);
    if PrintVersion(m) == PrintVersion(v) { SamePrint(m, v); }
  }

  lemma OwnIsSelected(s: State, head: Sha, releases: seq<Release>, m: Version)
    requires Consistent(s) && head < |s.repo| && CheckoutAt(s, head).Valid() && m in s.tags && s.tags[m] == head
    ensures var selected := AfterTop(s, head, releases, m);
            && selected.Ok? && selected.value.version == PrintVersion(m) && selected.value.reclaim == None
            && (selected.value.publish <==> m in s.dist || !IsWithdrawnSource(m))
  {
    TargetIsTag(s, m, head);
    assert IsAncestor(s.repo, head, head);
  }

  ghost predicate MayFollow(s: State, head: Sha, m: Version)
    requires head < |s.repo| && m in s.tags
  {
    IsAncestor(s.repo, s.tags[m], head) && !ReleaseOf(s, m).draft && AllHaveHeaders(s, s.tags[m], head)
  }

  lemma AfterTopSelects(s: State, head: Sha, releases: seq<Release>, m: Version)
    requires Consistent(s) && head < |s.repo| && CheckoutAt(s, head).Valid() && m in s.tags && s.tags[m] != head
    ensures !MayFollow(s, head, m) ==> AfterTop(s, head, releases, m).Err?
    ensures MayFollow(s, head, m) ==>
              AfterTop(s, head, releases, m)
              == Finish(NextAfter(CheckoutAt(s, head), m, s.tags[m], KeptAt(s, head, releases), "", ""),
                        Lvl(s, s.tags[m], head) > 0, Some(Named(ReleaseOf(s, m).tag)),
                        KeptAt(s, head, releases), OrphansAt(s, head, releases), "", "")
  {
    TargetIsTag(s, m, head);
    SelectsAfter(CheckoutAt(s, head), Candidate(m, ReleaseOf(s, m)), s.tags[m], KeptAt(s, head, releases),
                 OrphansAt(s, head, releases));
  }

  lemma SelectsAfter(co: Checkout, best: Candidate, sha: Sha, kept: seq<Release>, orphans: map<string, Sha>)
    requires co.Valid() && RevParse(co, Target(best.release)) == Some(sha) && sha != co.head
    ensures var range := FirstParentRange(co.repo, sha, co.head);
            SelectAfter(co, best, kept, orphans, "", "", "")
            == if !IsAncestor(co.repo, sha, co.head) then Err(NotAncestor)
               else if best.release.draft then Err(PendingDraft)
               else if !HasHeaders(co, range, "", "") then Err(NoHeader)
               else Finish(NextAfter(co, best.version, sha, kept, "", ""), Level(co, range, "", "") > 0,
                           Some(Named(best.release.tag)), kept, orphans, "", "")
  {
  }

  lemma NextHandsOver(s: State, head: Sha, releases: seq<Release>, m: Version, v: Version, reclaim: Option<Sha>)
    requires Consistent(s) && head < |s.repo| && Lists(s, releases) && CheckoutAt(s, head).Valid()
    requires IsTop(s, head, m) && s.tags[m] != head
    ensures Gives(AfterTop(s, head, releases, m), v, reclaim)
            <==> OffersNext(s, head, m, v, reclaim)
  {
    AfterTopSelects(s, head, releases, m);
    if MayFollow(s, head, m) {
      TopDraft(s, head, m);
      var next := NextAfter(CheckoutAt(s, head), m, s.tags[m], KeptAt(s, head, releases), "", "");
      FinishHandsOver(s, head, releases, next, Lvl(s, s.tags[m], head) > 0, Some(Named(ReleaseOf(s, m).tag)), v, reclaim);
      if 0 < Lvl(s, s.tags[m], head) { NextIsNextFree(s, head, releases, m); }
    } else if IsAncestor(s.repo, s.tags[m], head) {
      TopDraft(s, head, m);
    }
  }

  // Every selection

  lemma TopIsUnique(s: State, head: Sha, m: Version, w: Version)
    requires IsTop(s, head, m) && IsTop(s, head, w)
    ensures m == w
  {
  }

  lemma FromBest(co: Checkout, kept: seq<Release>, orphans: map<string, Sha>, base: Version)
    requires co.Valid() && NoneOfMajor(Candidates(kept)) && Candidates(kept) != []
    ensures SelectFrom(co, kept, orphans, base, "", "", "")
         == SelectAfter(co, Best(Candidates(kept)), kept, orphans, "", "", "")
  {
  }

  lemma InViewIsBeta(s: State, head: Sha, candidates: seq<Candidate>)
    requires AreInView(s, head, candidates)
    ensures NoneOfMajor(candidates)
    ensures (exists u :: InView(s, u, head)) ==> candidates != []
  {
    if u :| InView(s, u, head) {
      assert Candidate(u, ReleaseOf(s, u)) in candidates;
    }
  }

  lemma SelectsAfterTop(s: State, head: Sha, releases: seq<Release>, base: Version) returns (m: Version)
    requires Consistent(s) && head < |s.repo| && Lists(s, releases) && CheckoutAt(s, head).Valid() && NoOtherMajor(s)
    requires exists u :: InView(s, u, head)
    ensures IsTop(s, head, m) && FromKept(s, head, releases, base) == AfterTop(s, head, releases, m)
  {
    CandidatesAreInView(s, head, releases);
    m := BestOf(s, head, Candidates(KeptAt(s, head, releases)));
    FromBest(CheckoutAt(s, head), KeptAt(s, head, releases), OrphansAt(s, head, releases), base);
  }

  lemma BestOf(s: State, head: Sha, candidates: seq<Candidate>) returns (m: Version)
    requires AreInView(s, head, candidates) && exists u :: InView(s, u, head)
    ensures NoneOfMajor(candidates) && candidates != [] && IsTop(s, head, m)
    ensures Best(candidates) == Candidate(m, ReleaseOf(s, m))
  {
    InViewIsBeta(s, head, candidates);
    BestIsTop(s, head, candidates);
    m := Best(candidates).version;
  }

  lemma NoCandidates(s: State, head: Sha, candidates: seq<Candidate>)
    requires AreInView(s, head, candidates)
    ensures (forall u :: !InView(s, u, head)) ==> candidates == []
  {
    if candidates != [] {
      assert candidates[0] in candidates;
      assert InView(s, candidates[0].version, head);
    }
  }

  lemma SelectsBase(s: State, head: Sha, releases: seq<Release>, base: Version)
    requires Consistent(s) && head < |s.repo| && Lists(s, releases) && CheckoutAt(s, head).Valid() && NoOtherMajor(s)
    requires forall u :: !InView(s, u, head)
    ensures FromKept(s, head, releases, base)
         == Finish(base, true, None, KeptAt(s, head, releases), OrphansAt(s, head, releases), "", "")
  {
    CandidatesAreInView(s, head, releases);
    NoCandidates(s, head, Candidates(KeptAt(s, head, releases)));
  }

  lemma OffersAtTop(s: State, head: Sha, base: Version, m: Version, v: Version, reclaim: Option<Sha>)
    requires head < |s.repo| && NoOtherMajor(s) && IsTop(s, head, m)
    ensures Offers(s, head, base, v, reclaim)
            <==> if s.tags[m] == head then v == m && OffersOwn(s, head, m, reclaim) else OffersNext(s, head, m, v, reclaim)
  {
    forall w | IsTop(s, head, w) ensures w == m { TopIsUnique(s, head, m, w); }
  }

  lemma OffersWithoutTop(s: State, head: Sha, base: Version, v: Version, reclaim: Option<Sha>)
    requires head < |s.repo| && NoOtherMajor(s) && forall u :: !InView(s, u, head)
    ensures Offers(s, head, base, v, reclaim) <==> v == base && reclaim == ReclaimOf(s, head, v)
  {
  }

  lemma TopHandsOver(s: State, head: Sha, releases: seq<Release>, base: Version, m: Version, v: Version, reclaim: Option<Sha>)
    requires Consistent(s) && head < |s.repo| && Lists(s, releases) && CheckoutAt(s, head).Valid() && NoOtherMajor(s)
    requires IsTop(s, head, m)
    ensures Gives(AfterTop(s, head, releases, m), v, reclaim) <==> Offers(s, head, base, v, reclaim)
  {
    OffersAtTop(s, head, base, m, v, reclaim);
    if s.tags[m] == head {
      OwnHandsOver(s, head, releases, m, v, reclaim);
    } else {
      NextHandsOver(s, head, releases, m, v, reclaim);
    }
  }

  lemma KeptHandsOver(s: State, head: Sha, releases: seq<Release>, base: Version, v: Version, reclaim: Option<Sha>)
    requires Consistent(s) && head < |s.repo| && Lists(s, releases) && CheckoutAt(s, head).Valid() && base.major == 0
    requires NoOtherMajor(s)
    ensures Gives(FromKept(s, head, releases, base), v, reclaim) <==> Offers(s, head, base, v, reclaim)
  {
    if exists u :: InView(s, u, head) {
      var m := SelectsAfterTop(s, head, releases, base);
      TopHandsOver(s, head, releases, base, m, v, reclaim);
    } else {
      SelectsBase(s, head, releases, base);
      FinishHandsOver(s, head, releases, base, true, None, v, reclaim);
      OffersWithoutTop(s, head, base, v, reclaim);
    }
  }

  // A run hands over a version exactly if the state offers it.
  lemma HandsOverExactly(s: State, head: Sha, releases: seq<Release>, baseline: string, v: Version, reclaim: Option<Sha>)
    requires Consistent(s) && head < |s.repo| && Lists(s, releases) && CheckoutAt(s, head).Valid()
    ensures Handover(head, v, Select(CheckoutAt(s, head), releases, baseline, "", "", "")) == Some(Output(head, v, reclaim))
            <==> && Parse(baseline).Some? && Parse(baseline).value.major == 0
                 && Offers(s, head, Parse(baseline).value, v, reclaim)
  {
    HandoverGives(head, Select(CheckoutAt(s, head), releases, baseline, "", "", ""), v, reclaim);
    if Parse(baseline).Some? && Parse(baseline).value.major == 0 {
      SelectsFromKept(s, head, releases, baseline);
      OtherMajorStops(s, head, releases, Parse(baseline).value);
      if NoOtherMajor(s) { KeptHandsOver(s, head, releases, Parse(baseline).value, v, reclaim); }
    }
  }
}
