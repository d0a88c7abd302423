// What select_version promises about one run.
module ReleaseProperties {
  import opened Text
  import opened Git
  import opened SemVer
  import opened ReleaseVersion

  ghost predicate HoldsVersion(tags: set<string>, v: Version) {
    exists tag :: tag in tags && ParseTag(tag) == Some(v)
  }

  // A version is taken as a string exactly when some tag reads as it, if and only if every tag that
  // reads as a version has its ASCII twin beside it.
  lemma OccupiedByVersion(tags: set<string>)
    ensures (forall v :: Tag(v) in tags <==> HoldsVersion(tags, v))
            <==> forall tag :: tag in tags && ParseTag(tag).Some? ==> Tag(ParseTag(tag).value) in tags
  {
    forall v | Tag(v) in tags ensures HoldsVersion(tags, v) {
      ParseOfPrint(v);
    }
    if forall v :: Tag(v) in tags <==> HoldsVersion(tags, v) {
      forall tag | tag in tags && ParseTag(tag).Some? ensures Tag(ParseTag(tag).value) in tags {
        assert HoldsVersion(tags, ParseTag(tag).value);
      }
    }
  }

  lemma BumpIsAbove(v: Version, level: nat)
    requires level > 0
    ensures Less(v, Bump(v, level)) && Bump(v, level).major == v.major
  {
  }

  // What a mainline run after an earlier release looks at.
  ghost predicate AfterRelease(co: Checkout, releases: seq<Release>, best: Candidate, sha: Sha)
    requires co.Valid()
  {
    var candidates := Candidates(Kept(co, releases));
    && candidates != [] && best == Best(candidates)
    && RevParse(co, Target(best.release)) == Some(sha)
  }

  // What a finished mainline selection says of version v.
  ghost predicate Selects(selection: Selection, v: Version, publish: bool, reclaim: Option<Sha>) {
    selection.version == PrintVersion(v) && selection.publish == publish && selection.reclaim == reclaim
  }

  function ReclaimFrom(publish: bool, kept: seq<Release>, orphans: map<string, Sha>, v: Version): Option<Sha> {
    if publish && Tag(v) !in Tags(kept) && Tag(v) in orphans then Some(orphans[Tag(v)]) else None
  }

  lemma FinishSelects(v: Version, publish: bool, previous: Option<Revision>, kept: seq<Release>, orphans: map<string, Sha>)
    ensures Finish(v, publish, previous, kept, orphans, "", "").Ok?
    ensures Selects(Finish(v, publish, previous, kept, orphans, "", "").value, v, publish, ReclaimFrom(publish, kept, orphans, v))
  {
    NoSuffix(v);
  }

  lemma AfterSelects(co: Checkout, best: Candidate, sha: Sha, kept: seq<Release>, orphans: map<string, Sha>)
    requires co.Valid() && RevParse(co, Target(best.release)) == Some(sha) && sha != co.head
    requires SelectAfter(co, best, kept, orphans, "", "", "").Ok?
    ensures var publish := Level(co, FirstParentRange(co.repo, sha, co.head), "", "") > 0;
            var v := NextAfter(co, best.version, sha, kept, "", "");
            Selects(SelectAfter(co, best, kept, orphans, "", "", "").value, v, publish, ReclaimFrom(publish, kept, orphans, v))
  {
    var range := FirstParentRange(co.repo, sha, co.head);
    FinishSelects(NextAfter(co, best.version, sha, kept, "", ""), Level(co, range, "", "") > 0,
                  Some(if best.release.draft then Exact(sha) else Named(best.release.tag)), kept, orphans);
  }

  lemma AboveCandidates(co: Checkout, kept: seq<Release>, v: Version)
    requires Candidates(kept) != [] && Less(Best(Candidates(kept)).version, v)
    ensures forall c :: c in Candidates(kept) ==> Less(c.version, v)
  {
    forall c | c in Candidates(kept) ensures Less(c.version, v) {
      assert !Beats(c, Best(Candidates(kept)));
    }
  }

  lemma FirstPatch(co: Checkout, best: Version, sha: Sha, kept: seq<Release>)
    requires co.Valid()
    ensures var level := Level(co, FirstParentRange(co.repo, sha, co.head), "", "");
            var v := NextAfter(co, best, sha, kept, "", "");
            && (level == 0 ==> v == best)
            && (level > 0 ==>
                 && Less(best, v) && v.major == best.major && Tag(v) !in Tags(kept)
                 && forall p :: Bump(best, level).patch <= p < v.patch ==> Tag(Version(v.major, v.minor, p)) in Tags(kept))
  {
    var level := Level(co, FirstParentRange(co.repo, sha, co.head), "", "");
    if level > 0 {
      BumpIsAbove(best, level);
      FirstFreeIsFirst(Tags(kept), Bump(best, level));
    }
  }

  lemma SelectsAfterBest(co: Checkout, releases: seq<Release>, baseline: string)
    requires co.Valid() && Candidates(Kept(co, releases)) != [] && Select(co, releases, baseline, "", "", "").Ok?
    ensures Best(Candidates(Kept(co, releases))).version.major == 0
    ensures Select(co, releases, baseline, "", "", "")
         == SelectAfter(co, Best(Candidates(Kept(co, releases))), Kept(co, releases), Orphans(co, releases), "", "", "")
  {
    assert Best(Candidates(Kept(co, releases))) in Candidates(Kept(co, releases));
  }

  // A mainline run that does not find its own commit released picks the first free version above
  // everything kept if some commit asks for one, and publishes exactly then. It reclaims a
  // reservation exactly when an orphan holds the version.
  lemma FreshVersion(co: Checkout, releases: seq<Release>, baseline: string, best: Candidate, sha: Sha)
    requires co.Valid() && AfterRelease(co, releases, best, sha) && sha != co.head
    requires Select(co, releases, baseline, "", "", "").Ok?
    ensures var selection := Select(co, releases, baseline, "", "", "").value;
            var kept, orphans := Kept(co, releases), Orphans(co, releases);
            var level := Level(co, FirstParentRange(co.repo, sha, co.head), "", "");
            var v := NextAfter(co, best.version, sha, kept, "", "");
            && v.major == 0 && Selects(selection, v, level > 0, ReclaimFrom(level > 0, kept, orphans, v))
            && (level > 0 ==>
                 && (forall c :: c in Candidates(kept) ==> Less(c.version, v))
                 && Tag(v) !in Tags(kept)
                 && (forall p :: Bump(best.version, level).patch <= p < v.patch
                                 ==> Tag(Version(v.major, v.minor, p)) in Tags(kept)))
            && (level == 0 ==> v == best.version)
  {
    var kept := Kept(co, releases);
    SelectsAfterBest(co, releases, baseline);
    AfterSelects(co, best, sha, kept, Orphans(co, releases));
    FirstPatch(co, best.version, sha, kept);
    if Level(co, FirstParentRange(co.repo, sha, co.head), "", "") > 0 {
      AboveCandidates(co, kept, NextAfter(co, best.version, sha, kept, "", ""));
    }
  }

  // The run gets as far as looking at the best candidate.
  ghost predicate Comparable(co: Checkout, releases: seq<Release>, baseline: string) {
    && Parse(baseline).Some? && Parse(baseline).value.major == 0
    && Resolvable(co, releases)
    && Candidates(Kept(co, releases)) != []
    && forall c :: c in Candidates(Kept(co, releases)) ==> c.version.major == 0
  }

  // On main, a pending draft stops the run exactly when it is the best candidate, lies on an earlier
  // commit, and carries a withdrawn source tag: any other such draft was set aside as an orphan.
  lemma PendingDraftExactly(co: Checkout, releases: seq<Release>, baseline: string)
    requires co.Valid()
    ensures Select(co, releases, baseline, "", "", "") == Err(PendingDraft) <==>
              Comparable(co, releases, baseline) && IsPending(co, Best(Candidates(Kept(co, releases))).release)
  {
    if Comparable(co, releases, baseline) {
      ComparesBest(co, releases, baseline);
      BestIsKept(co, releases);
      PendingAfter(co, Best(Candidates(Kept(co, releases))), Kept(co, releases), Orphans(co, releases));
    } else {
      NotPending(co, releases, baseline);
    }
  }

  lemma ComparesBest(co: Checkout, releases: seq<Release>, baseline: string)
    requires co.Valid() && Comparable(co, releases, baseline)
    ensures Select(co, releases, baseline, "", "", "")
         == SelectAfter(co, Best(Candidates(Kept(co, releases))), Kept(co, releases), Orphans(co, releases), "", "", "")
  {
  }

  lemma BestIsKept(co: Checkout, releases: seq<Release>)
    requires Candidates(Kept(co, releases)) != [] && Best(Candidates(Kept(co, releases))).version.major == 0
    ensures var r := Best(Candidates(Kept(co, releases))).release;
            r.draft && IsBehind(co, r) ==> r.tag in WITHDRAWN_SOURCE_RELEASES
  {
    var best := Best(Candidates(Kept(co, releases)));
    assert best in Candidates(Kept(co, releases)) && IsEntry(Kept(co, releases), best) && !IsOrphan(co, best.release);
  }

  // The target is an earlier commit.
  predicate IsBehind(co: Checkout, r: Release) {
    && RevParse(co, r.target).Some? && RevParse(co, r.target).value != co.head
    && IsAncestor(co.repo, RevParse(co, r.target).value, co.head)
  }

  predicate IsPending(co: Checkout, r: Release) {
    r.draft && r.tag in WITHDRAWN_SOURCE_RELEASES && IsBehind(co, r)
  }

  lemma PendingAfter(co: Checkout, best: Candidate, kept: seq<Release>, orphans: map<string, Sha>)
    requires co.Valid() && (best.release.draft && IsBehind(co, best.release) ==> best.release.tag in WITHDRAWN_SOURCE_RELEASES)
    ensures SelectAfter(co, best, kept, orphans, "", "", "") == Err(PendingDraft) <==> IsPending(co, best.release)
  {
  }

  lemma NotPending(co: Checkout, releases: seq<Release>, baseline: string)
    requires co.Valid() && !Comparable(co, releases, baseline)
    ensures Select(co, releases, baseline, "", "", "") != Err(PendingDraft)
  {
  }

  lemma NoSuffix(v: Version)
    ensures PrintVersion(v) + Suffix("", "") == PrintVersion(v)
    ensures PREFIX + PrintVersion(v) == Tag(v)
  {
  }

  lemma SamePrint(v: Version, w: Version)
    requires PrintVersion(v) == PrintVersion(w)
    ensures v == w
  {
    TagIsInjective(v, w);
  }
}
