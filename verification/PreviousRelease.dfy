// The release a selected version follows, which is where the release notes begin.
module PreviousRelease {
  import opened Text
  import opened Git
  import opened SemVer
  import opened ReleaseVersion
  import opened ReleasePipeline
  import opened ReleaseSelection

  // A draft of a beta version that a run left behind on an earlier commit.
  ghost predicate IsSetAside(co: Checkout, r: Release) {
    && IsBetaDraft(r)
    && exists sha :: RevParse(co, r.target) == Some(sha) && sha != co.head && IsAncestor(co.repo, sha, co.head)
  }

  // What a run may follow: the releases that read as versions, but the retained and the withdrawn ones, and
  // on main the drafts set aside.
  ghost predicate MayFollow(co: Checkout, releases: seq<Release>, preview: string, r: Release) {
    && r in releases && ParseTag(r.tag).Some? && !r.prerelease && r.tag != "desktop-v1.0.0"
    && (preview == "" ==> !IsSetAside(co, r))
  }

  // The highest of them, a draft before its published twin.
  ghost predicate IsHighest(co: Checkout, releases: seq<Release>, preview: string, r: Release) {
    && MayFollow(co, releases, preview, r)
    && forall q :: MayFollow(co, releases, preview, q) ==>
         && !Less(ParseTag(r.tag).value, ParseTag(q.tag).value)
         && (ParseTag(q.tag) == ParseTag(r.tag) && q.draft ==> r.draft)
  }

  // A draft is followed by the commit it targets, a release by its tag.
  ghost predicate Follows(co: Checkout, r: Release, previous: Option<Revision>) {
    exists sha ::
      && RevParse(co, if r.draft then r.target else Named(r.tag)) == Some(sha) && IsAncestor(co.repo, sha, co.head)
      && previous == Some(if r.draft then Exact(sha) else Named(r.tag))
  }

  predicate IsBetaDraft(r: Release) {
    && r.draft && r.tag != "desktop-v0.4.0" && r.tag != "desktop-v0.5.0"
    && ParseTag(r.tag).Some? && ParseTag(r.tag).value.major == 0
  }

  lemma WithdrawnExactly(tag: string)
    ensures tag in WITHDRAWN_SOURCE_RELEASES <==> tag == "desktop-v0.4.0" || tag == "desktop-v0.5.0"
  {
  }

  lemma BetaDraftExactly(r: Release)
    ensures MayBeOrphan(r) <==> IsBetaDraft(r)
  {
    WithdrawnExactly(r.tag);
  }

  lemma SetAsideExactly(co: Checkout, r: Release)
    ensures IsOrphan(co, r) <==> IsSetAside(co, r)
  {
    BetaDraftExactly(r);
    var sha := RevParse(co, r.target);
    if sha.Some? { assert RevParse(co, r.target) == Some(sha.value); }
  }

  function Considered(co: Checkout, releases: seq<Release>, preview: string): seq<Release> {
    if preview == "" then Kept(co, releases) else releases
  }

  lemma FollowableExactly(co: Checkout, releases: seq<Release>, preview: string, r: Release)
    ensures r in Considered(co, releases, preview) && IsCandidate(r) <==> MayFollow(co, releases, preview, r)
  {
    SetAsideExactly(co, r);
  }

  lemma CandidateMayFollow(co: Checkout, releases: seq<Release>, preview: string, c: Candidate)
    ensures c in Candidates(Considered(co, releases, preview))
            <==> MayFollow(co, releases, preview, c.release) && ParseTag(c.release.tag) == Some(c.version)
  {
    FollowableExactly(co, releases, preview, c.release);
  }

  lemma BestIsHighest(co: Checkout, releases: seq<Release>, preview: string)
    requires Candidates(Considered(co, releases, preview)) != []
    ensures IsHighest(co, releases, preview, Best(Candidates(Considered(co, releases, preview))).release)
  {
    var candidates := Candidates(Considered(co, releases, preview));
    var best := Best(candidates);
    CandidateMayFollow(co, releases, preview, best);
    forall q | MayFollow(co, releases, preview, q)
      ensures !Less(ParseTag(best.release.tag).value, ParseTag(q.tag).value)
      ensures ParseTag(q.tag) == ParseTag(best.release.tag) && q.draft ==> best.release.draft
    {
      var c := Candidate(ParseTag(q.tag).value, q);
      CandidateMayFollow(co, releases, preview, c);
      assert c in candidates && !Beats(c, best);
    }
  }

  lemma AfterFollows(co: Checkout, best: Candidate, kept: seq<Release>, orphans: map<string, Sha>, preview: string,
                     title: string, run: string)
    requires co.Valid() && SelectAfter(co, best, kept, orphans, preview, title, run).Ok?
    ensures Follows(co, best.release, SelectAfter(co, best, kept, orphans, preview, title, run).value.previous)
  {
    var sha := RevParse(co, Target(best.release)).value;
    assert RevParse(co, if best.release.draft then best.release.target else Named(best.release.tag)) == Some(sha);
  }

  lemma FromFollows(co: Checkout, kept: seq<Release>, orphans: map<string, Sha>, base: Version, preview: string,
                    title: string, run: string)
    requires co.Valid() && SelectFrom(co, kept, orphans, base, preview, title, run).Ok?
    ensures var previous := SelectFrom(co, kept, orphans, base, preview, title, run).value.previous;
            if Candidates(kept) == [] then previous == None else Follows(co, Best(Candidates(kept)).release, previous)
  {
    if Candidates(kept) != [] { AfterFollows(co, Best(Candidates(kept)), kept, orphans, preview, title, run); }
  }

  // Every selection, preview or not, names what it follows: nothing exactly if there is nothing to follow,
  // and otherwise the highest release there is, on an ancestor of the commit.
  lemma PreviousExactly(co: Checkout, releases: seq<Release>, baseline: string, preview: string, title: string, run: string)
    requires co.Valid() && Select(co, releases, baseline, preview, title, run).Ok?
    ensures var previous := Select(co, releases, baseline, preview, title, run).value.previous;
            && (previous == None <==> forall r :: !MayFollow(co, releases, preview, r))
            && (previous.Some? ==> exists r :: IsHighest(co, releases, preview, r) && Follows(co, r, previous))
  {
    var kept := Considered(co, releases, preview);
    var orphans := if preview == "" then Orphans(co, releases) else map[];
    FromFollows(co, kept, orphans, Parse(baseline).value, preview, title, run);
    if Candidates(kept) == [] {
      forall r ensures !MayFollow(co, releases, preview, r) {
        if MayFollow(co, releases, preview, r) {
          CandidateMayFollow(co, releases, preview, Candidate(ParseTag(r.tag).value, r));
        }
      }
    } else {
      BestIsHighest(co, releases, preview);
    }
  }

  // On the state of the pipeline

  // Its tag if it is released, its commit while it is a draft or a reservation.
  function RevisionOf(s: State, m: Version): Revision
    requires m in s.tags
  {
    if m in s.dist then (if s.dist[m] == Draft then Exact(s.tags[m]) else Named(Tag(m)))
    else if Tag(m) == "desktop-v0.4.0" || Tag(m) == "desktop-v0.5.0" then Named(Tag(m))
    else Exact(s.tags[m])
  }

  lemma TopFollows(s: State, head: Sha, releases: seq<Release>, m: Version)
    requires Consistent(s) && head < |s.repo| && CheckoutAt(s, head).Valid() && m in s.tags
    requires AfterTop(s, head, releases, m).Ok?
    ensures AfterTop(s, head, releases, m).value.previous == Some(RevisionOf(s, m))
    ensures RevParse(CheckoutAt(s, head), RevisionOf(s, m)) == Some(s.tags[m])
  {
    AfterFollows(CheckoutAt(s, head), Candidate(m, ReleaseOf(s, m)), KeptAt(s, head, releases), OrphansAt(s, head, releases),
                 "", "", "");
    RevisionIs(s, m, head);
    FollowsTop(s, m, head, AfterTop(s, head, releases, m).value.previous);
  }

  lemma RevisionIs(s: State, m: Version, head: Sha)
    requires Consistent(s) && head < |s.repo| && m in s.tags
    ensures RevisionOf(s, m) == if ReleaseOf(s, m).draft then Exact(s.tags[m]) else Named(ReleaseOf(s, m).tag)
    ensures RevParse(CheckoutAt(s, head), RevisionOf(s, m)) == Some(s.tags[m])
  {
    WithdrawnExactly(Tag(m));
    RefsAreTags(s, head);
  }

  lemma FollowsTop(s: State, m: Version, head: Sha, previous: Option<Revision>)
    requires Consistent(s) && head < |s.repo| && m in s.tags && Follows(CheckoutAt(s, head), ReleaseOf(s, m), previous)
    ensures previous == Some(if ReleaseOf(s, m).draft then Exact(s.tags[m]) else Named(ReleaseOf(s, m).tag))
  {
    TargetIsTag(s, m, head);
  }

  // A run that selects a version follows the highest version in view, and nothing exactly if nothing is in view.
  lemma PreviousInPipeline(s: State, head: Sha, releases: seq<Release>, baseline: string)
    requires Consistent(s) && head < |s.repo| && Lists(s, releases) && CheckoutAt(s, head).Valid()
    requires Select(CheckoutAt(s, head), releases, baseline, "", "", "").Ok?
    ensures var previous := Select(CheckoutAt(s, head), releases, baseline, "", "", "").value.previous;
            && (previous == None <==> forall u :: !InView(s, u, head))
            && (forall m :: IsTop(s, head, m) ==>
                  previous == Some(RevisionOf(s, m)) && RevParse(CheckoutAt(s, head), previous.value) == Some(s.tags[m]))
  {
    var base := Parse(baseline).value;
    SelectsFromKept(s, head, releases, baseline);
    OtherMajorStops(s, head, releases, base);
    if exists u :: InView(s, u, head) {
      var m := SelectsAfterTop(s, head, releases, base);
      TopFollows(s, head, releases, m);
      forall w | IsTop(s, head, w) ensures w == m { TopIsUnique(s, head, m, w); }
    } else {
      SelectsBase(s, head, releases, base);
    }
  }
}
