// The version `select_version` of scripts/desktop_release_version.py selects, on main and for a preview, told
// by the commits since the release it follows.
module SelectedVersion {
  import opened Text
  import opened Git
  import opened SemVer
  import opened ReleaseVersion
  import opened PreviousRelease
  import CommitMessage

  // What a commit says: the title of the pull request stands in for the message of a preview's own commit.
  function Says(co: Checkout, c: Sha, preview: string, title: string): string
    requires c < |co.repo|
  {
    if preview == "" then co.repo[c].message else if c == co.head then title else co.repo[c].message
  }

  // An affected commit of the first-parent history that is not part of the release at `sha` already.
  predicate IsNew(co: Checkout, sha: Sha, c: Sha)
    requires co.Valid()
  {
    OnFirstParentLine(co.repo, c, co.head) && !IsAncestor(co.repo, c, sha) && c in co.affected
  }

  // The most any new commit asks for, and none is without a message.
  ghost predicate IsMost(co: Checkout, sha: Sha, preview: string, title: string, level: nat)
    requires co.Valid()
  {
    && (forall c: Sha :: IsNew(co, sha, c) && c < |co.repo| ==>
          Says(co, c, preview, title) != "" && CommitMessage.BumpLevel(Says(co, c, preview, title)) <= level)
    && (level == 0
        || exists c: Sha :: IsNew(co, sha, c) && c < |co.repo| && CommitMessage.BumpLevel(Says(co, c, preview, title)) == level)
  }

  // A tag the run takes for used.
  ghost predicate IsUsed(co: Checkout, releases: seq<Release>, preview: string, tag: string) {
    exists r :: r in releases && r.tag == tag && (preview == "" ==> !IsSetAside(co, r))
  }

  // The version after v: the same, the first free patch after it, or the first free one of the next minor.
  ghost predicate IsNext(co: Checkout, releases: seq<Release>, preview: string, v: Version, level: nat, next: Version) {
    if level == 0 then next == v
    else
      var minor, patch := if level == 1 then v.minor else v.minor + 1, if level == 1 then v.patch + 1 else 0;
      && next.major == v.major && next.minor == minor && patch <= next.patch
      && !IsUsed(co, releases, preview, Tag(next))
      && forall p :: patch <= p < next.patch ==> IsUsed(co, releases, preview, Tag(Version(v.major, minor, p)))
  }

  lemma {:induction false} RangeExactly(repo: Repo, base: Sha, head: Sha, c: Sha)
    requires head < |repo|
    ensures c in FirstParentRange(repo, base, head) <==> OnFirstParentLine(repo, c, head) && !IsAncestor(repo, c, base)
    decreases head
  {
    if IsAncestor(repo, head, base) {
      if OnFirstParentLine(repo, c, head) {
        FirstParentLineIsAncestry(repo, c, head);
        AncestryIsTransitive(repo, c, head, base);
      }
    } else if repo[head].parents != [] {
      RangeExactly(repo, base, FirstParent(repo, head), c);
    }
  }

  lemma {:induction false} AncestryIsTransitive(repo: Repo, a: Sha, b: Sha, c: Sha)
    requires IsAncestor(repo, a, b) && IsAncestor(repo, b, c)
    ensures IsAncestor(repo, a, c)
    decreases c
  {
    if b != c {
      var p :| p in repo[c].parents && IsAncestor(repo, b, p);
      AncestryIsTransitive(repo, a, b, p);
    }
  }

  lemma InRange(co: Checkout, sha: Sha, c: Sha)
    requires co.Valid()
    ensures c in FirstParentRange(co.repo, sha, co.head) && c in co.affected <==> IsNew(co, sha, c)
    ensures IsNew(co, sha, c) ==> c < |co.repo|
  {
    RangeExactly(co.repo, sha, co.head, c);
    RangeIsInRepo(co.repo, sha, co.head);
  }

  // Level is the maximum, and it is attained.
  lemma {:induction false} LevelIsMost(co: Checkout, range: seq<Sha>, preview: string, title: string)
    ensures forall c :: c in range ==> CommitLevel(co, c, preview, title) <= Level(co, range, preview, title)
    ensures Level(co, range, preview, title) == 0
            || exists c :: c in range && CommitLevel(co, c, preview, title) == Level(co, range, preview, title)
  {
    if range != [] {
      var front, last := range[..|range| - 1], range[|range| - 1];
      assert range == front + [last];
      LevelIsMost(co, front, preview, title);
    }
  }

  lemma MostIsLevel(co: Checkout, sha: Sha, preview: string, title: string)
    requires co.Valid() && HasHeaders(co, FirstParentRange(co.repo, sha, co.head), preview, title)
    ensures IsMost(co, sha, preview, title, Level(co, FirstParentRange(co.repo, sha, co.head), preview, title))
  {
    var range := FirstParentRange(co.repo, sha, co.head);
    LevelIsMost(co, range, preview, title);
    forall c ensures c in range && c in co.affected <==> IsNew(co, sha, c) {
      InRange(co, sha, c);
    }
    forall c | c < |co.repo| && c in co.affected
      ensures CommitLevel(co, c, preview, title) == CommitMessage.BumpLevel(Says(co, c, preview, title))
      ensures Says(co, c, preview, title) == Message(co, c, preview, title)
    {
    }
  }

  lemma UsedExactly(co: Checkout, releases: seq<Release>, preview: string, tag: string)
    ensures tag in Tags(Considered(co, releases, preview)) <==> IsUsed(co, releases, preview, tag)
  {
    forall r ensures r in Considered(co, releases, preview) <==> r in releases && (preview == "" ==> !IsSetAside(co, r)) {
      SetAsideExactly(co, r);
    }
  }

  lemma NextIs(co: Checkout, releases: seq<Release>, preview: string, title: string, best: Version, sha: Sha)
    requires co.Valid()
    ensures var level := Level(co, FirstParentRange(co.repo, sha, co.head), preview, title);
            IsNext(co, releases, preview, best, level,
                   NextAfter(co, best, sha, Considered(co, releases, preview), preview, title))
  {
    var used := Tags(Considered(co, releases, preview));
    var level := Level(co, FirstParentRange(co.repo, sha, co.head), preview, title);
    FirstFreeIsFirst(used, Bump(best, level));
    forall tag ensures tag in used <==> IsUsed(co, releases, preview, tag) {
      UsedExactly(co, releases, preview, tag);
    }
  }

  // What is made of a version: itself on main, and marked with two numbers for a preview.
  predicate IsLabel(v: Version, preview: string, run: string, version: string) {
    if preview == "" then version == PrintVersion(v)
    else version == PrintVersion(v) + "-pr." + preview + "." + run && IsCounted(preview) && IsCounted(run)
  }

  // A number that does not start with a zero.
  predicate IsCounted(s: string) {
    s != "" && s[0] in {'1', '2', '3', '4', '5', '6', '7', '8', '9'} && AreDigits(s)
  }

  lemma CountedExactly(s: string)
    ensures IsRunNumber(s) <==> IsCounted(s)
  {
  }

  lemma FinishIs(v: Version, publish: bool, previous: Option<Revision>, kept: seq<Release>, orphans: map<string, Sha>,
                 preview: string, run: string)
    ensures var r := Finish(v, publish, previous, kept, orphans, preview, run);
            && (r.Ok? <==> preview == "" || (IsCounted(preview) && IsCounted(run)))
            && (r.Ok? ==> IsLabel(v, preview, run, r.value.version) && r.value.publish == publish
                          && (orphans == map[] ==> r.value.reclaim == None))
            && (r.Err? ==> r.error == BadPreview)
  {
    CountedExactly(preview);
    CountedExactly(run);
    assert PrintVersion(v) + ("-pr." + preview + "." + run) == PrintVersion(v) + "-pr." + preview + "." + run;
  }

  // What is selected after release r, which is at `sha`.
  ghost predicate IsSelectedAfter(co: Checkout, releases: seq<Release>, preview: string, title: string, run: string,
                                  r: Release, sha: Sha, selection: Selection)
    requires co.Valid()
  {
    && ParseTag(r.tag).Some?
    && RevParse(co, if r.draft then r.target else Named(r.tag)) == Some(sha) && IsAncestor(co.repo, sha, co.head)
    && if sha == co.head && preview == "" then
         IsLabel(ParseTag(r.tag).value, "", "", selection.version) && selection.publish == !r.withdrawn
       else exists level, next :: IsSelection(co, releases, preview, title, run, r, sha, selection, level, next)
  }

  ghost predicate IsSelection(co: Checkout, releases: seq<Release>, preview: string, title: string, run: string,
                              r: Release, sha: Sha, selection: Selection, level: nat, next: Version)
    requires co.Valid()
  {
    && IsMost(co, sha, preview, title, level)
    && ParseTag(r.tag).Some? && IsNext(co, releases, preview, ParseTag(r.tag).value, level, next)
    && IsLabel(next, preview, run, selection.version) && selection.publish == (preview != "" || level > 0)
  }

  // The two ways to select after a release.
  lemma AfterCases(co: Checkout, best: Candidate, kept: seq<Release>, orphans: map<string, Sha>, preview: string,
                   title: string, run: string) returns (sha: Sha)
    requires co.Valid() && SelectAfter(co, best, kept, orphans, preview, title, run).Ok?
    ensures RevParse(co, Target(best.release)) == Some(sha) && IsAncestor(co.repo, sha, co.head)
    ensures var r := SelectAfter(co, best, kept, orphans, preview, title, run);
            var range := FirstParentRange(co.repo, sha, co.head);
            if sha == co.head && preview == "" then
              r == Ok(Selection(PrintVersion(best.version), !best.release.withdrawn, r.value.previous, None))
            else
              && HasHeaders(co, range, preview, title)
              && r == Finish(NextAfter(co, best.version, sha, kept, preview, title),
                             preview != "" || Level(co, range, preview, title) > 0, r.value.previous, kept, orphans,
                             preview, run)
  {
    sha := RevParse(co, Target(best.release)).value;
    FinishKeepsPrevious(NextAfter(co, best.version, sha, kept, preview, title),
                        preview != "" || Level(co, FirstParentRange(co.repo, sha, co.head), preview, title) > 0,
                        Some(if best.release.draft then Exact(sha) else Named(best.release.tag)), kept, orphans, preview, run);
  }

  lemma FinishKeepsPrevious(v: Version, publish: bool, previous: Option<Revision>, kept: seq<Release>,
                            orphans: map<string, Sha>, preview: string, run: string)
    ensures var r := Finish(v, publish, previous, kept, orphans, preview, run); r.Ok? ==> r.value.previous == previous
  {
  }

  lemma SelectedAnew(co: Checkout, releases: seq<Release>, best: Candidate, orphans: map<string, Sha>, preview: string,
                     title: string, run: string, sha: Sha, previous: Option<Revision>)
    requires co.Valid() && ParseTag(best.release.tag) == Some(best.version)
    requires HasHeaders(co, FirstParentRange(co.repo, sha, co.head), preview, title)
    ensures var level := Level(co, FirstParentRange(co.repo, sha, co.head), preview, title);
            var kept := Considered(co, releases, preview);
            var next := NextAfter(co, best.version, sha, kept, preview, title);
            var r := Finish(next, preview != "" || level > 0, previous, kept, orphans, preview, run);
            r.Ok? ==>
              && IsSelection(co, releases, preview, title, run, best.release, sha, r.value, level, next)
              && (orphans == map[] ==> r.value.reclaim == None)
  {
    var level := Level(co, FirstParentRange(co.repo, sha, co.head), preview, title);
    var kept := Considered(co, releases, preview);
    var next := NextAfter(co, best.version, sha, kept, preview, title);
    MostIsLevel(co, sha, preview, title);
    NextIs(co, releases, preview, title, best.version, sha);
    FinishIs(next, preview != "" || level > 0, previous, kept, orphans, preview, run);
  }

  lemma AfterIs(co: Checkout, releases: seq<Release>, best: Candidate, orphans: map<string, Sha>,
                preview: string, title: string, run: string)
    requires co.Valid() && ParseTag(best.release.tag) == Some(best.version)
    requires SelectAfter(co, best, Considered(co, releases, preview), orphans, preview, title, run).Ok?
    ensures var selection := SelectAfter(co, best, Considered(co, releases, preview), orphans, preview, title, run).value;
            && (exists sha :: IsSelectedAfter(co, releases, preview, title, run, best.release, sha, selection))
            && (orphans == map[] ==> selection.reclaim == None)
  {
    var selection := SelectAfter(co, best, Considered(co, releases, preview), orphans, preview, title, run).value;
    var sha := AfterCases(co, best, Considered(co, releases, preview), orphans, preview, title, run);
    if sha != co.head || preview != "" {
      SelectedAnew(co, releases, best, orphans, preview, title, run, sha, selection.previous);
    }
    assert IsSelectedAfter(co, releases, preview, title, run, best.release, sha, selection);
  }

  // Whatever is selected, on main or for a preview, is what the commits since the highest release ask for, and
  // the baseline if there is no release. A preview is always published and reclaims nothing.
  lemma SelectionExactly(co: Checkout, releases: seq<Release>, baseline: string, preview: string, title: string, run: string)
    requires co.Valid() && Select(co, releases, baseline, preview, title, run).Ok?
    ensures var selection := Select(co, releases, baseline, preview, title, run).value;
            && Parse(baseline).Some?
            && (if forall r :: !MayFollow(co, releases, preview, r) then
                  IsLabel(Parse(baseline).value, preview, run, selection.version) && selection.publish
                else
                  exists r, sha :: IsHighest(co, releases, preview, r)
                                   && IsSelectedAfter(co, releases, preview, title, run, r, sha, selection))
            && (preview != "" ==> selection.publish && selection.reclaim == None)
  {
    var kept := Considered(co, releases, preview);
    var orphans := if preview == "" then Orphans(co, releases) else map[];
    var selection := Select(co, releases, baseline, preview, title, run).value;
    if Candidates(kept) == [] {
      NothingToFollow(co, releases, preview);
      FinishIs(Parse(baseline).value, true, None, kept, orphans, preview, run);
    } else {
      var best := Best(Candidates(kept));
      CandidateMayFollow(co, releases, preview, best);
      BestIsHighest(co, releases, preview);
      AfterIs(co, releases, best, orphans, preview, title, run);
      var sha :| IsSelectedAfter(co, releases, preview, title, run, best.release, sha, selection);
      assert IsHighest(co, releases, preview, best.release);
    }
  }

  lemma NothingToFollow(co: Checkout, releases: seq<Release>, preview: string)
    requires Candidates(Considered(co, releases, preview)) == []
    ensures forall r :: !MayFollow(co, releases, preview, r)
  {
    forall r ensures !MayFollow(co, releases, preview, r) {
      if MayFollow(co, releases, preview, r) {
        CandidateMayFollow(co, releases, preview, Candidate(ParseTag(r.tag).value, r));
      }
    }
  }

  // What can go wrong after the baseline is read, and what cannot.
  predicate IsLater(r: Result<Selection>, preview: string, run: string) {
    && r != Err(BadBaseline)
    && (IsRunNumber(preview) && IsRunNumber(run) ==> r != Err(BadPreview))
    && (preview != "" && !(IsRunNumber(preview) && IsRunNumber(run)) ==> r.Err?)
    && (preview == "" ==> r != Err(BadPreview))
  }

  lemma FinishIsLater(v: Version, publish: bool, previous: Option<Revision>, kept: seq<Release>,
                      orphans: map<string, Sha>, preview: string, run: string)
    ensures IsLater(Finish(v, publish, previous, kept, orphans, preview, run), preview, run)
  {
  }

  lemma AfterIsLater(co: Checkout, best: Candidate, kept: seq<Release>, orphans: map<string, Sha>, preview: string,
                     title: string, run: string)
    requires co.Valid()
    ensures IsLater(SelectAfter(co, best, kept, orphans, preview, title, run), preview, run)
  {
    forall v, publish, previous ensures IsLater(Finish(v, publish, previous, kept, orphans, preview, run), preview, run) {
      FinishIsLater(v, publish, previous, kept, orphans, preview, run);
    }
  }

  lemma FromIsLater(co: Checkout, kept: seq<Release>, orphans: map<string, Sha>, base: Version, preview: string,
                    title: string, run: string)
    requires co.Valid()
    ensures IsLater(SelectFrom(co, kept, orphans, base, preview, title, run), preview, run)
  {
    if Candidates(kept) == [] {
      FinishIsLater(base, true, None, kept, orphans, preview, run);
    } else {
      AfterIsLater(co, Best(Candidates(kept)), kept, orphans, preview, title, run);
    }
  }

  // Nothing is selected without a beta baseline, and that is the only ground for saying so. A preview goes wrong
  // over its numbers only when they are no such numbers, and it never goes through then.
  lemma ArgumentsExactly(co: Checkout, releases: seq<Release>, baseline: string, preview: string, title: string, run: string)
    requires co.Valid()
    ensures var r := Select(co, releases, baseline, preview, title, run);
            && (r == Err(BadBaseline) <==> Parse(baseline).None? || Parse(baseline).value.major != 0)
            && (r == Err(BadPreview) ==> preview != "" && !(IsCounted(preview) && IsCounted(run)))
            && (preview != "" && !(IsCounted(preview) && IsCounted(run)) ==> r.Err?)
  {
    CountedExactly(preview);
    CountedExactly(run);
    if Parse(baseline).Some? {
      var orphans := if preview == "" then Orphans(co, releases) else map[];
      FromIsLater(co, Considered(co, releases, preview), orphans, Parse(baseline).value, preview, title, run);
    }
  }
}
