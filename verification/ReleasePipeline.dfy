// Whole runs of the desktop release workflow. A run selects a version for its commit; its publish
// job discards a reclaimed draft, reserves the source tag, drafts the release and publishes it,
// and may die after any of these. Published releases may later be withdrawn (marked prerelease) or
// returned to draft.
module ReleasePipeline {
  import opened Text
  import opened Git
  import opened SemVer
  import opened ReleaseVersion

  datatype Status = Draft | Stable | Prerelease

  // What the version job of a run hands to its publish job.
  datatype Output = Output(head: Sha, version: Version, reclaim: Option<Sha>)

  // `main` is the newest commit of the main branch, `at` the commit of the latest run, `tags` the
  // source tags, `dist` the releases of the distribution repository, `outputs` what version jobs
  // ever handed over and `current` what the latest one did.
  datatype State = State(repo: Repo, affected: set<Sha>, main: Sha, at: Sha,
                         tags: map<Version, Sha>, dist: map<Version, Status>,
                         outputs: set<Output>, current: Option<Output>)

  // Every beta version released or reserved lies on main's first-parent line, and a release has its
  // source tag. Tags of other majors, like the retained desktop-v1.0.0, may be anywhere.
  ghost predicate Consistent(s: State) {
    && s.main < |s.repo| && s.at < |s.repo|
    && OnFirstParentLine(s.repo, s.at, s.main)
    && (forall v :: v in s.tags ==> s.tags[v] < |s.repo|)
    && (forall v :: v in s.tags && v.major == 0 ==> OnFirstParentLine(s.repo, s.tags[v], s.main))
    && (forall v :: v in s.dist ==> v in s.tags)
    && (forall o :: o in s.outputs ==> o.version.major == 0 && o.head < |s.repo| && OnFirstParentLine(s.repo, o.head, s.main))
    && (s.current.Some? ==> s.current.value in s.outputs)
  }

  function Refs(tags: map<Version, Sha>): map<string, Sha> {
    DistinctTags();
    map v | v in tags :: Tag(v) := tags[v]
  }

  lemma DistinctTags()
    ensures forall v, w {:trigger Tag(v), Tag(w)} :: Tag(v) == Tag(w) ==> v == w
  {
    forall v, w | Tag(v) == Tag(w) ensures v == w {
      TagIsInjective(v, w);
    }
  }

  function CheckoutAt(s: State, head: Sha): Checkout {
    Checkout(s.repo, Refs(s.tags), head, s.affected)
  }

  lemma RefsAreTags(s: State, head: Sha)
    requires Consistent(s) && head < |s.repo|
    ensures CheckoutAt(s, head).Valid()
    ensures forall v :: v in s.tags ==> RevParse(CheckoutAt(s, head), Named(Tag(v))) == Some(s.tags[v])
  {
    DistinctTags();
  }

  function IsIn(s: State, v: Version, status: Status): bool {
    v in s.dist && s.dist[v] == status
  }

  function IsWithdrawnSource(v: Version): bool {
    Tag(v) in WITHDRAWN_SOURCE_RELEASES
  }

  // The accidental major release, whose tag is kept.
  function IsRetained(v: Version): bool {
    Tag(v) in WITHDRAWN_BASELINES
  }

  // The entry for a tagged version in the list the script builds: its distribution release, or a
  // reservation if it has none.
  function ReleaseOf(s: State, v: Version): Release
    requires v in s.tags
  {
    if v in s.dist then Release(Tag(v), s.dist[v] == Prerelease, s.dist[v] == Draft, false, Exact(s.tags[v]))
    else Reservation(Tag(v), s.tags[v])
  }

  // `releases` lists the state, in whatever order the two APIs did.
  ghost predicate Lists(s: State, releases: seq<Release>) {
    forall r :: r in releases <==> exists v :: v in s.tags && r == ReleaseOf(s, v)
  }

  // A beta version selection still looks at.
  predicate Alive(s: State, v: Version) {
    v in s.tags && v.major == 0 && !IsIn(s, v, Prerelease)
  }

  // One that no later run may take: published, or a withdrawn source release.
  predicate Claimed(s: State, v: Version) {
    Alive(s, v) && (IsIn(s, v, Stable) || IsWithdrawnSource(v))
  }

  predicate Abandoned(s: State, v: Version, head: Sha) {
    Alive(s, v) && !Claimed(s, v) && s.tags[v] != head && IsAncestor(s.repo, s.tags[v], head)
  }

  // The steps

  ghost predicate ListsDistribution(s: State, distribution: seq<Release>) {
    forall r :: r in distribution <==> exists v :: v in s.tags && v in s.dist && r == ReleaseOf(s, v)
  }

  // `git tag --list 'desktop-v*'` also lists tags that read as no version.
  ghost predicate ListsTags(s: State, order: seq<string>) {
    forall tag :: tag in order && ParseTag(tag).Some? <==> exists v :: v in s.tags && tag == Tag(v)
  }

  lemma ReservedIsUnreleased(s: State, distribution: seq<Release>, v: Version)
    requires ListsDistribution(s, distribution) && v in s.tags
    ensures IsReserved(distribution, Tag(v)) <==> v !in s.dist
  {
    ParseOfPrint(v);
    if v in s.dist { assert ReleaseOf(s, v) in distribution; }
    if Tag(v) in Tags(distribution) {
      var r :| r in distribution && r.tag == Tag(v);
      var w :| w in s.tags && w in s.dist && r == ReleaseOf(s, w);
      TagIsInjective(v, w);
    }
  }

  lemma ReservedEntry(s: State, head: Sha, distribution: seq<Release>, order: seq<string>, r: Release)
    requires Consistent(s) && head < |s.repo| && ListsDistribution(s, distribution) && ListsTags(s, order)
    requires Reservations(CheckoutAt(s, head), distribution, order).Ok?
    ensures r in Reservations(CheckoutAt(s, head), distribution, order).value
            <==> exists v :: v in s.tags && v !in s.dist && r == ReleaseOf(s, v)
  {
    var co := CheckoutAt(s, head);
    DistinctTags();
    ReservationsAre(co, distribution, order);
    if r in Reservations(co, distribution, order).value {
      var v :| v in s.tags && r.tag == Tag(v);
      ReservedIsUnreleased(s, distribution, v);
      assert co.refs[Tag(v)] == s.tags[v];
    }
    if v :| v in s.tags && v !in s.dist && r == ReleaseOf(s, v) {
      ReservedIsUnreleased(s, distribution, v);
      assert Tag(v) in order && co.refs[Tag(v)] == s.tags[v];
    }
  }

  // The list main() builds: distribution releases first, then reservations for the remaining tags.
  lemma MainListsTheState(s: State, head: Sha, distribution: seq<Release>, order: seq<string>)
    requires Consistent(s) && head < |s.repo| && ListsDistribution(s, distribution) && ListsTags(s, order)
    ensures var reserved := Reservations(CheckoutAt(s, head), distribution, order);
            reserved.Ok? && Lists(s, distribution + reserved.value)
  {
    var co := CheckoutAt(s, head);
    DistinctTags();
    ReservationsExist(co, distribution, order);
    var reserved := Reservations(co, distribution, order).value;
    forall r ensures r in distribution + reserved <==> exists v :: v in s.tags && r == ReleaseOf(s, v) {
      ReservedEntry(s, head, distribution, order, r);
    }
  }

  lemma ReservationsExist(co: Checkout, releases: seq<Release>, tags: seq<string>)
    requires forall tag :: tag in tags && IsReserved(releases, tag) ==> tag in co.refs
    ensures Reservations(co, releases, tags).Ok?
  {
  }

  datatype Progress = Nothing | Discarded | Reserved | Drafted | Released

  // discard-orphaned-draft.py, for a reclaimed version
  function Discard(s: State, o: Output): Option<State> {
    if o.reclaim.None? then Some(s)
    else if IsIn(s, o.version, Stable) || IsIn(s, o.version, Prerelease) then None
    else Some(s.(dist := s.dist - {o.version}))
  }

  // reserve-source-tag.py
  function Reserve(s: State, o: Output): Option<State> {
    if o.version !in s.tags || o.reclaim == Some(s.tags[o.version]) || s.tags[o.version] == o.head
    then Some(s.(tags := s.tags[o.version := o.head]))
    else None
  }

  // publish-release.sh
  function Publish(s: State, o: Output, progress: Progress): State {
    if IsIn(s, o.version, Stable) || IsIn(s, o.version, Prerelease) then s
    else s.(dist := s.dist[o.version := if progress == Released then Stable else Draft])
  }

  // One attempt at a publish job, given how far it gets.
  function Attempt(s: State, o: Output, progress: Progress): State {
    if progress == Nothing then s
    else
      match Discard(s, o)
      case None => s
      case Some(discarded) =>
        if progress == Discarded then discarded
        else
          match Reserve(discarded, o)
          case None => discarded
          case Some(reserved) => if progress == Reserved then reserved else Publish(reserved, o, progress)
  }

  datatype Step =
    | Push(commit: Commit, isAffected: bool)
    | Side(commit: Commit, isAffected: bool)
    | Run(head: Sha, releases: seq<Release>, baseline: string, version: Version)
    | Try(output: Output, progress: Progress)
    | Withdraw(version: Version)
    | Redraft(version: Version)

  predicate CanAppend(s: State, commit: Commit) {
    forall p :: p in commit.parents ==> p < |s.repo|
  }

  function Append(s: State, commit: Commit, isAffected: bool): State
    requires CanAppend(s, commit)
  {
    s.(repo := s.repo + [commit], affected := if isAffected then s.affected + {|s.repo|} else s.affected - {|s.repo|})
  }

  // What the version job hands over: nothing unless the run is to publish.
  function Handover(head: Sha, v: Version, selected: Result<Selection>): Option<Output> {
    if selected.Ok? && selected.value.publish && selected.value.version == PrintVersion(v)
    then Some(Output(head, v, selected.value.reclaim)) else None
  }

  ghost predicate Takes(s: State, step: Step, s': State) {
    match step
    case Push(commit, isAffected) =>
      && CanAppend(s, commit) && commit.parents != [] && commit.parents[0] == s.main
      && s' == Append(s, commit, isAffected).(main := |s.repo|)
    case Side(commit, isAffected) =>
      CanAppend(s, commit) && s' == Append(s, commit, isAffected)
    case Run(head, releases, baseline, v) =>
      && CheckoutAt(s, head).Valid() && s.main < |s.repo| && OnFirstParentLine(s.repo, head, s.main)
      && Lists(s, releases)
      && var handover := Handover(head, v, Select(CheckoutAt(s, head), releases, baseline, "", "", ""));
         s' == s.(at := head, current := handover,
                  outputs := s.outputs + if handover.Some? then {handover.value} else {})
    case Try(o, progress) =>
      o in s.outputs && s' == Attempt(s, o, progress)
    case Withdraw(v) =>
      IsIn(s, v, Stable) && s' == s.(dist := s.dist[v := Prerelease])
    case Redraft(v) =>
      (IsIn(s, v, Stable) || IsIn(s, v, Prerelease)) && s' == s.(dist := s.dist[v := Draft])
  }

  // What a selection looks at

  // The releases a run at `head` does not set aside and does not take for withdrawn.
  predicate InView(s: State, v: Version, head: Sha) {
    Alive(s, v) && !Abandoned(s, v, head)
  }

  ghost predicate IsTop(s: State, head: Sha, v: Version) {
    InView(s, v, head) && forall u :: InView(s, u, head) ==> AtMost(u, v)
  }

  // Every tag of another major is the retained one or marked prerelease.
  ghost predicate NoOtherMajor(s: State) {
    forall v :: v in s.tags && v.major != 0 ==> IsRetained(v) || IsIn(s, v, Prerelease)
  }

  lemma WithdrawnBaselineIsMajorOne()
    ensures WITHDRAWN_BASELINES == {Tag(Version(1, 0, 0))}
  {
    assert Print(1) == "1" && Print(0) == "0";
    assert Tag(Version(1, 0, 0)) == "desktop-v1.0.0";
  }

  lemma RetainedIsMajorOne(v: Version)
    ensures IsRetained(v) <==> v == Version(1, 0, 0)
  {
    WithdrawnBaselineIsMajorOne();
    if IsRetained(v) { TagIsInjective(v, Version(1, 0, 0)); }
  }

  lemma ReleaseReads(s: State, v: Version)
    requires v in s.tags
    ensures ParseTag(ReleaseOf(s, v).tag) == Some(v)
    ensures IsCandidate(ReleaseOf(s, v)) <==> !IsIn(s, v, Prerelease) && !IsRetained(v)
  {
    ParseOfPrint(v);
  }

  lemma TargetIsTag(s: State, v: Version, head: Sha)
    requires Consistent(s) && head < |s.repo| && v in s.tags
    ensures RevParse(CheckoutAt(s, head), ReleaseOf(s, v).target) == Some(s.tags[v])
    ensures RevParse(CheckoutAt(s, head), Target(ReleaseOf(s, v))) == Some(s.tags[v])
  {
    RefsAreTags(s, head);
  }

  lemma MayBeAbandoned(s: State, v: Version)
    requires v in s.tags
    ensures MayBeOrphan(ReleaseOf(s, v)) <==> Alive(s, v) && !Claimed(s, v)
  {
    ReleaseReads(s, v);
    var r := ReleaseOf(s, v);
    assert r.tag == Tag(v);
    assert r.draft <==> IsIn(s, v, Draft) || (v !in s.dist && !IsWithdrawnSource(v));
  }

  lemma OrphanIsAbandoned(s: State, v: Version, head: Sha)
    requires Consistent(s) && head < |s.repo| && v in s.tags
    ensures IsOrphan(CheckoutAt(s, head), ReleaseOf(s, v)) <==> Abandoned(s, v, head)
  {
    MayBeAbandoned(s, v);
    TargetIsTag(s, v, head);
  }

  lemma ListedVersion(s: State, releases: seq<Release>, r: Release) returns (v: Version)
    requires Lists(s, releases) && r in releases
    ensures v in s.tags && r == ReleaseOf(s, v) && r.tag == Tag(v)
  {
    v :| v in s.tags && r == ReleaseOf(s, v);
  }

  lemma ListedTag(s: State, releases: seq<Release>, r: Release, v: Version)
    requires Lists(s, releases) && r in releases && r.tag == Tag(v)
    ensures v in s.tags && r == ReleaseOf(s, v)
  {
    var u := ListedVersion(s, releases, r);
    TagIsInjective(u, v);
  }

  lemma AllResolve(s: State, head: Sha, releases: seq<Release>)
    requires Consistent(s) && head < |s.repo| && Lists(s, releases)
    ensures Resolvable(CheckoutAt(s, head), releases)
  {
    forall r | r in releases ensures RevParse(CheckoutAt(s, head), r.target).Some? {
      var v := ListedVersion(s, releases, r);
      TargetIsTag(s, v, head);
    }
  }

  function KeptAt(s: State, head: Sha, releases: seq<Release>): seq<Release> {
    Kept(CheckoutAt(s, head), releases)
  }

  function OrphansAt(s: State, head: Sha, releases: seq<Release>): map<string, Sha> {
    Orphans(CheckoutAt(s, head), releases)
  }

  // A tag is kept or set aside, never both.
  lemma KeptTag(s: State, head: Sha, releases: seq<Release>, v: Version)
    requires Consistent(s) && head < |s.repo| && Lists(s, releases)
    ensures Tag(v) in Tags(KeptAt(s, head, releases)) <==> v in s.tags && !Abandoned(s, v, head)
  {
    if Tag(v) in Tags(KeptAt(s, head, releases)) {
      var r :| r in KeptAt(s, head, releases) && r.tag == Tag(v);
      ListedTag(s, releases, r, v);
      OrphanIsAbandoned(s, v, head);
    }
    if v in s.tags && !Abandoned(s, v, head) {
      OrphanIsAbandoned(s, v, head);
      assert ReleaseOf(s, v) in releases && ReleaseOf(s, v).tag == Tag(v);
      assert ReleaseOf(s, v) in KeptAt(s, head, releases);
    }
  }

  lemma OrphanTag(s: State, head: Sha, releases: seq<Release>, v: Version)
    requires Consistent(s) && head < |s.repo| && Lists(s, releases)
    ensures Tag(v) in OrphansAt(s, head, releases) <==> Abandoned(s, v, head)
    ensures Abandoned(s, v, head) ==> OrphansAt(s, head, releases)[Tag(v)] == s.tags[v]
  {
    if Abandoned(s, v, head) {
      OrphanIsAbandoned(s, v, head);
      assert ReleaseOf(s, v) in releases && ReleaseOf(s, v).tag == Tag(v);
    }
    if Tag(v) in OrphansAt(s, head, releases) { OrphanHolds(s, head, releases, v); }
  }

  lemma OrphanHolds(s: State, head: Sha, releases: seq<Release>, v: Version)
    requires Consistent(s) && head < |s.repo| && Lists(s, releases) && Tag(v) in OrphansAt(s, head, releases)
    ensures Abandoned(s, v, head) && OrphansAt(s, head, releases)[Tag(v)] == s.tags[v]
  {
    var co, sha := CheckoutAt(s, head), OrphansAt(s, head, releases)[Tag(v)];
    var r :| r in releases && IsOrphan(co, r) && r.tag == Tag(v) && RevParse(co, r.target) == Some(sha);
    ListedTag(s, releases, r, v);
    OrphanIsAbandoned(s, v, head);
    TargetIsTag(s, v, head);
  }

  ghost predicate AreInView(s: State, head: Sha, candidates: seq<Candidate>) {
    forall c :: c in candidates
           <==> c.version in s.tags && InView(s, c.version, head) && c.release == ReleaseOf(s, c.version)
  }

  lemma CandidateInView(s: State, head: Sha, releases: seq<Release>, v: Version)
    requires Consistent(s) && head < |s.repo| && Lists(s, releases) && NoOtherMajor(s) && v in s.tags
    ensures IsEntry(KeptAt(s, head, releases), Candidate(v, ReleaseOf(s, v))) <==> InView(s, v, head)
  {
    OrphanIsAbandoned(s, v, head);
    ReleaseReads(s, v);
    RetainedIsMajorOne(v);
    assert ReleaseOf(s, v) in releases;
  }

  lemma CandidatesAreInView(s: State, head: Sha, releases: seq<Release>)
    requires Consistent(s) && head < |s.repo| && Lists(s, releases) && NoOtherMajor(s)
    ensures AreInView(s, head, Candidates(KeptAt(s, head, releases)))
  {
    var kept := KeptAt(s, head, releases);
    forall c ensures c in Candidates(kept)
                <==> c.version in s.tags && InView(s, c.version, head) && c.release == ReleaseOf(s, c.version)
    {
      if c in Candidates(kept) {
        var v := ListedVersion(s, releases, c.release);
        ReleaseReads(s, v);
        CandidateInView(s, head, releases, v);
      }
      if c.version in s.tags { CandidateInView(s, head, releases, c.version); }
    }
  }

  lemma BestIsTop(s: State, head: Sha, candidates: seq<Candidate>)
    requires candidates != [] && AreInView(s, head, candidates)
    ensures var best := Best(candidates);
            IsTop(s, head, best.version) && best.release == ReleaseOf(s, best.version)
  {
    var best := Best(candidates);
    assert best in candidates;
    forall u | InView(s, u, head) ensures AtMost(u, best.version) {
      InViewIsCandidate(candidates, u, ReleaseOf(s, u));
    }
  }

  lemma InViewIsCandidate(candidates: seq<Candidate>, u: Version, r: Release)
    requires Candidate(u, r) in candidates
    ensures AtMost(u, Best(candidates).version)
  {
    assert !Beats(Candidate(u, r), Best(candidates));
  }

  function FromKept(s: State, head: Sha, releases: seq<Release>, base: Version): Result<Selection>
    requires CheckoutAt(s, head).Valid()
  {
    SelectFrom(CheckoutAt(s, head), KeptAt(s, head, releases), OrphansAt(s, head, releases), base, "", "", "")
  }

  lemma SelectsFromKept(s: State, head: Sha, releases: seq<Release>, baseline: string)
    requires Consistent(s) && head < |s.repo| && Lists(s, releases) && CheckoutAt(s, head).Valid()
    requires Parse(baseline).Some? && Parse(baseline).value.major == 0
    ensures Select(CheckoutAt(s, head), releases, baseline, "", "", "") == FromKept(s, head, releases, Parse(baseline).value)
  {
    AllResolve(s, head, releases);
  }

  predicate NoneOfMajor(candidates: seq<Candidate>) {
    forall c :: c in candidates ==> c.version.major == 0
  }

  lemma NoMajorLater(co: Checkout, best: Candidate, kept: seq<Release>, orphans: map<string, Sha>)
    requires co.Valid()
    ensures SelectAfter(co, best, kept, orphans, "", "", "") != Err(MajorRelease)
  {
  }

  lemma MajorErrorExactly(co: Checkout, kept: seq<Release>, orphans: map<string, Sha>, base: Version)
    requires co.Valid()
    ensures SelectFrom(co, kept, orphans, base, "", "", "") == Err(MajorRelease) <==> !NoneOfMajor(Candidates(kept))
  {
    if NoneOfMajor(Candidates(kept)) && Candidates(kept) != [] {
      NoMajorLater(co, Best(Candidates(kept)), kept, orphans);
    }
  }

  // A tag of another major that is neither retained nor withdrawn stops every run.
  lemma OtherMajorStops(s: State, head: Sha, releases: seq<Release>, base: Version)
    requires Consistent(s) && head < |s.repo| && Lists(s, releases) && CheckoutAt(s, head).Valid() && base.major == 0
    ensures !NoOtherMajor(s) <==> FromKept(s, head, releases, base) == Err(MajorRelease)
  {
    var kept := KeptAt(s, head, releases);
    MajorErrorExactly(CheckoutAt(s, head), kept, OrphansAt(s, head, releases), base);
    if NoOtherMajor(s) {
      CandidatesAreInView(s, head, releases);
      assert NoneOfMajor(Candidates(kept));
    } else {
      var v :| v in s.tags && v.major != 0 && !IsRetained(v) && !IsIn(s, v, Prerelease);
      OtherMajorIsCandidate(s, head, releases, v);
    }
  }

  lemma OtherMajorIsCandidate(s: State, head: Sha, releases: seq<Release>, v: Version)
    requires Consistent(s) && head < |s.repo| && Lists(s, releases)
    requires v in s.tags && v.major != 0 && !IsRetained(v) && !IsIn(s, v, Prerelease)
    ensures Candidate(v, ReleaseOf(s, v)) in Candidates(KeptAt(s, head, releases))
  {
    OrphanIsAbandoned(s, v, head);
    ReleaseReads(s, v);
    assert ReleaseOf(s, v) in releases && IsEntry(KeptAt(s, head, releases), Candidate(v, ReleaseOf(s, v)));
  }
}
