// scripts/desktop_release_version.py: `split_orphans`, `with_reservations` and `select_version`.
module ReleaseVersion {
  import opened Text
  import opened Git
  import opened SemVer
  import CommitMessage

  const WITHDRAWN_BASELINES: set<string> := {"desktop-v1.0.0"}
  const WITHDRAWN_SOURCE_RELEASES: set<string> := {"desktop-v0.4.0", "desktop-v0.5.0"}

  // What `git rev-parse` is given.
  datatype Revision = Named(name: string) | Exact(sha: Sha)

  datatype Release = Release(tag: string, prerelease: bool, draft: bool, withdrawn: bool, target: Revision)

  // The repository a run has checked out. `affected` holds the commits that `commit_affected` says yes to.
  datatype Checkout = Checkout(repo: Repo, refs: map<string, Sha>, head: Sha, affected: set<Sha>) {
    predicate Valid() {
      head < |repo| && forall name :: name in refs ==> refs[name] < |repo|
    }
  }

  datatype Error = BadBaseline | GitFailed | MajorRelease | NotAncestor | PendingDraft | NoHeader | BadPreview

  datatype Result<+T> = Ok(value: T) | Err(error: Error)

  datatype Selection = Selection(version: string, publish: bool, previous: Option<Revision>, reclaim: Option<Sha>)

  function RevParse(co: Checkout, revision: Revision): Option<Sha> {
    match revision
    case Named(name) => if name in co.refs then Some(co.refs[name]) else None
    case Exact(sha) => if sha < |co.repo| then Some(sha) else None
  }

  function Tags(releases: seq<Release>): set<string> {
    set r | r in releases :: r.tag
  }

  // split_orphans

  predicate MayBeOrphan(r: Release) {
    && r.draft && r.tag !in WITHDRAWN_SOURCE_RELEASES
    && ParseTag(r.tag).Some? && ParseTag(r.tag).value.major == 0
  }

  predicate Resolvable(co: Checkout, releases: seq<Release>) {
    forall r :: r in releases && MayBeOrphan(r) ==> RevParse(co, r.target).Some?
  }

  predicate IsOrphan(co: Checkout, r: Release) {
    MayBeOrphan(r)
    && match RevParse(co, r.target) {
         case Some(sha) => sha != co.head && IsAncestor(co.repo, sha, co.head)
         case None => false
       }
  }

  function Kept(co: Checkout, releases: seq<Release>): (kept: seq<Release>)
    ensures forall r :: r in kept <==> r in releases && !IsOrphan(co, r)
  {
    if releases == [] then []
    else
      var last := releases[|releases| - 1];
      Kept(co, releases[..|releases| - 1]) + (if IsOrphan(co, last) then [] else [last])
  }

  // The commit each orphaned tag holds; of several drafts under one name, the last listed.
  function Orphans(co: Checkout, releases: seq<Release>): (orphans: map<string, Sha>)
    ensures forall tag :: tag in orphans <==> exists r :: r in releases && IsOrphan(co, r) && r.tag == tag
    ensures forall tag :: tag in orphans ==>
      exists r :: r in releases && IsOrphan(co, r) && r.tag == tag && RevParse(co, r.target) == Some(orphans[tag])
  {
    if releases == [] then map[]
    else
      var front, last := releases[..|releases| - 1], releases[|releases| - 1];
      assert forall r :: r in releases <==> r in front || r == last;
      var before := Orphans(co, front);
      if IsOrphan(co, last) then before[last.tag := RevParse(co, last.target).value] else before
  }

  lemma OneMoreRelease(co: Checkout, releases: seq<Release>, i: nat)
    requires i < |releases|
    ensures var (front, last) := (releases[..i], releases[i]);
            && Kept(co, releases[..i + 1]) == Kept(co, front) + (if IsOrphan(co, last) then [] else [last])
            && Orphans(co, releases[..i + 1])
               == (if IsOrphan(co, last) then Orphans(co, front)[last.tag := RevParse(co, last.target).value]
                   else Orphans(co, front))
            && (Resolvable(co, releases[..i + 1])
                <==> Resolvable(co, front) && (MayBeOrphan(last) ==> RevParse(co, last.target).Some?))
            && (Resolvable(co, releases) ==> Resolvable(co, releases[..i + 1]))
  {
    assert releases[..i + 1][..i] == releases[..i] && releases[..i + 1] == releases[..i] + [releases[i]];
  }

  method SplitOrphans(co: Checkout, releases: seq<Release>)
    returns (split: Result<(seq<Release>, map<string, Sha>)>)
    ensures split == if Resolvable(co, releases) then Ok((Kept(co, releases), Orphans(co, releases))) else Err(GitFailed)
  {
    var kept, orphans := [], map[];
    for i := 0 to |releases|
      invariant kept == Kept(co, releases[..i]) && orphans == Orphans(co, releases[..i])
      invariant Resolvable(co, releases[..i])
    {
      var release := releases[i];
      OneMoreRelease(co, releases, i);
      if MayBeOrphan(release) {
        var sha := RevParse(co, release.target);
        if sha.None? { return Err(GitFailed); }
        if sha.value != co.head && IsAncestor(co.repo, sha.value, co.head) {
          orphans := orphans[release.tag := sha.value];
          continue;
        }
      }
      kept := kept + [release];
    }
    assert releases[..|releases|] == releases;
    split := Ok((kept, orphans));
  }

  // with_reservations

  // The entry a source tag without a release stands for.
  function Reservation(tag: string, sha: Sha): Release {
    var withdrawn := tag in WITHDRAWN_SOURCE_RELEASES;
    Release(tag, false, !withdrawn, withdrawn, Exact(sha))
  }

  predicate IsReserved(releases: seq<Release>, tag: string) {
    tag !in Tags(releases) && ParseTag(tag).Some?
  }

  function Reservations(co: Checkout, releases: seq<Release>, tags: seq<string>): Result<seq<Release>> {
    if tags == [] then Ok([])
    else
      var last := tags[|tags| - 1];
      match Reservations(co, releases, tags[..|tags| - 1])
      case Err(error) => Err(error)
      case Ok(before) =>
        if !IsReserved(releases, last) then Ok(before)
        else
          match RevParse(co, Named(last))
          case None => Err(GitFailed)
          case Some(sha) => Ok(before + [Reservation(last, sha)])
  }

  method WithReservations(co: Checkout, releases: seq<Release>, tags: seq<string>) returns (all: Result<seq<Release>>)
    ensures all == match Reservations(co, releases, tags)
                   case Err(error) => Err(error)
                   case Ok(reserved) => Ok(releases + reserved)
  {
    var known := Tags(releases);
    var list := releases;
    for i := 0 to |tags|
      invariant Reservations(co, releases, tags[..i]).Ok?
      invariant list == releases + Reservations(co, releases, tags[..i]).value
    {
      var tag := tags[i];
      assert tags[..i + 1][..i] == tags[..i];
      ReservationErrorStays(co, releases, tags, i + 1);
      if tag !in known && ParseTag(tag).Some? {
        var sha := RevParse(co, Named(tag));
        if sha.None? { return Err(GitFailed); }
        list := list + [Reservation(tag, sha.value)];
      }
    }
    assert tags[..|tags|] == tags;
    all := Ok(list);
  }

  lemma ReservationErrorStays(co: Checkout, releases: seq<Release>, tags: seq<string>, i: nat)
    requires i <= |tags|
    ensures Reservations(co, releases, tags[..i]).Err? ==> Reservations(co, releases, tags) == Err(GitFailed)
    decreases |tags| - i
  {
    if i < |tags| {
      assert tags[..i + 1][..i] == tags[..i];
      ReservationErrorStays(co, releases, tags, i + 1);
      ReservationErrorsAreGit(co, releases, tags[..i]);
    } else {
      assert tags[..i] == tags;
      ReservationErrorsAreGit(co, releases, tags);
    }
  }

  lemma ReservationErrorsAreGit(co: Checkout, releases: seq<Release>, tags: seq<string>)
    ensures Reservations(co, releases, tags).Err? ==> Reservations(co, releases, tags) == Err(GitFailed)
  {
  }

  // What reservations there are: one for every source tag that names a version no release has.
  lemma {:induction false} ReservationsAre(co: Checkout, releases: seq<Release>, tags: seq<string>)
    requires Reservations(co, releases, tags).Ok?
    ensures forall r :: r in Reservations(co, releases, tags).value <==>
      r.tag in tags && IsReserved(releases, r.tag) && r.tag in co.refs && r == Reservation(r.tag, co.refs[r.tag])
    ensures forall tag :: tag in tags && IsReserved(releases, tag) ==> tag in co.refs
  {
    if tags != [] {
      var front, last := tags[..|tags| - 1], tags[|tags| - 1];
      assert tags == front + [last];
      ReservationsAre(co, releases, front);
    }
  }

  // select_version

  predicate IsCandidate(r: Release) {
    ParseTag(r.tag).Some? && !r.prerelease && r.tag !in WITHDRAWN_BASELINES
  }

  // A release and the version its tag reads as.
  datatype Candidate = Candidate(version: Version, release: Release)

  predicate IsEntry(releases: seq<Release>, c: Candidate) {
    c.release in releases && IsCandidate(c.release) && c.version == ParseTag(c.release.tag).value
  }

  function Candidates(releases: seq<Release>): (candidates: seq<Candidate>)
    ensures forall c :: c in candidates <==> IsEntry(releases, c)
  {
    if releases == [] then []
    else
      var last := releases[|releases| - 1];
      Candidates(releases[..|releases| - 1])
      + (if IsCandidate(last) then [Candidate(ParseTag(last.tag).value, last)] else [])
  }

  // The order of the max(): by version, and a draft before its published twin.
  predicate Beats(a: Candidate, b: Candidate) {
    Less(b.version, a.version) || (a.version == b.version && a.release.draft && !b.release.draft)
  }

  function Best(candidates: seq<Candidate>): (best: Candidate)
    requires candidates != []
    ensures best in candidates
    ensures forall c :: c in candidates ==> !Beats(c, best)
  {
    var last := candidates[|candidates| - 1];
    if |candidates| == 1 then last
    else
      var front := candidates[..|candidates| - 1];
      assert forall c :: c in candidates <==> c in front || c == last;
      var best := Best(front);
      if Beats(last, best) then last else best
  }

  function Bump(v: Version, level: nat): Version {
    if level >= 2 then Version(v.major, v.minor + 1, 0)
    else if level == 1 then Version(v.major, v.minor, v.patch + 1)
    else v
  }

  // The first patch from v on whose tag is free.
  function FirstFree(occupied: set<string>, v: Version): Version
    decreases occupied
  {
    if Tag(v) !in occupied then v
    else FirstFree(occupied - {Tag(v)}, Version(v.major, v.minor, v.patch + 1))
  }

  lemma {:induction false} FirstFreeIsFirst(occupied: set<string>, v: Version)
    ensures var free := FirstFree(occupied, v);
            && free.major == v.major && free.minor == v.minor && v.patch <= free.patch
            && Tag(free) !in occupied
            && forall p :: v.patch <= p < free.patch ==> Tag(Version(v.major, v.minor, p)) in occupied
    decreases occupied
  {
    if Tag(v) in occupied {
      var next := Version(v.major, v.minor, v.patch + 1);
      FirstFreeIsFirst(occupied - {Tag(v)}, next);
      var free := FirstFree(occupied, v);
      assert free == FirstFree(occupied - {Tag(v)}, next);
      if Tag(free) == Tag(v) {
        TagIsInjective(free, v);
      }
      forall p | v.patch <= p < free.patch ensures Tag(Version(v.major, v.minor, p)) in occupied {
        if p == v.patch { assert Version(v.major, v.minor, p) == v; }
      }
    }
  }

  function Message(co: Checkout, c: Sha, preview: string, title: string): string
    requires c < |co.repo|
  {
    if preview != "" && c == co.head then title else co.repo[c].message
  }

  predicate HasHeaders(co: Checkout, range: seq<Sha>, preview: string, title: string) {
    forall c :: c in range && c in co.affected && c < |co.repo| ==> Message(co, c, preview, title) != ""
  }

  function CommitLevel(co: Checkout, c: Sha, preview: string, title: string): nat {
    if c in co.affected && c < |co.repo| then CommitMessage.BumpLevel(Message(co, c, preview, title)) else 0
  }

  // The highest level asked for by an affected commit of the range.
  function Level(co: Checkout, range: seq<Sha>, preview: string, title: string): nat {
    if range == [] then 0
    else Max(Level(co, range[..|range| - 1], preview, title), CommitLevel(co, range[|range| - 1], preview, title))
  }

  function Max(a: nat, b: nat): nat {
    if a < b then b else a
  }

  // `[1-9]\d*`
  predicate IsRunNumber(s: string) {
    s != "" && '1' <= s[0] <= '9' && AreDigits(s)
  }

  function Suffix(preview: string, run: string): string {
    if preview == "" then "" else "-pr." + preview + "." + run
  }

  function Finish(v: Version, publish: bool, previous: Option<Revision>, kept: seq<Release>, orphans: map<string, Sha>,
                  preview: string, run: string): Result<Selection>
  {
    if preview != "" && !(IsRunNumber(preview) && IsRunNumber(run)) then Err(BadPreview)
    else
      var version := PrintVersion(v) + Suffix(preview, run);
      var tag := PREFIX + version;
      var reclaim := if publish && tag !in Tags(kept) && tag in orphans then Some(orphans[tag]) else None;
      Ok(Selection(version, publish, previous, reclaim))
  }

  // The version after `best`, released at `sha`.
  function NextAfter(co: Checkout, best: Version, sha: Sha, kept: seq<Release>, preview: string, title: string): Version
    requires co.Valid()
  {
    var level := Level(co, FirstParentRange(co.repo, sha, co.head), preview, title);
    var bumped := Bump(best, level);
    if level == 0 then bumped else FirstFree(Tags(kept), bumped)
  }

  // Where a release is: drafts have no tag ref yet.
  function Target(r: Release): Revision {
    if r.draft then r.target else Named(r.tag)
  }

  function SelectAfter(co: Checkout, best: Candidate, kept: seq<Release>, orphans: map<string, Sha>,
                       preview: string, title: string, run: string): Result<Selection>
    requires co.Valid()
  {
    match RevParse(co, Target(best.release))
    case None => Err(GitFailed)
    case Some(sha) =>
      var draft := best.release.draft;
      var previous := Some(if draft then Exact(sha) else Named(best.release.tag));
      var range := FirstParentRange(co.repo, sha, co.head);
      if !IsAncestor(co.repo, sha, co.head) then Err(NotAncestor)
      else if sha == co.head && preview == "" then
        Ok(Selection(PrintVersion(best.version), !best.release.withdrawn, previous, None))
      else if draft && preview == "" then Err(PendingDraft)
      else if !HasHeaders(co, range, preview, title) then Err(NoHeader)
      else
        Finish(NextAfter(co, best.version, sha, kept, preview, title),
               preview != "" || Level(co, range, preview, title) > 0, previous, kept, orphans, preview, run)
  }

  function SelectFrom(co: Checkout, kept: seq<Release>, orphans: map<string, Sha>, baseline: Version,
                      preview: string, title: string, run: string): Result<Selection>
    requires co.Valid()
  {
    var candidates := Candidates(kept);
    if exists c :: c in candidates && c.version.major != 0 then Err(MajorRelease)
    else if candidates == [] then Finish(baseline, true, None, kept, orphans, preview, run)
    else SelectAfter(co, Best(candidates), kept, orphans, preview, title, run)
  }

  function Select(co: Checkout, releases: seq<Release>, baseline: string,
                  preview: string, title: string, run: string): Result<Selection>
    requires co.Valid()
  {
    match Parse(baseline)
    case None => Err(BadBaseline)
    case Some(base) =>
      if base.major != 0 then Err(BadBaseline)
      else if preview != "" then SelectFrom(co, releases, map[], base, preview, title, run)
      else if !Resolvable(co, releases) then Err(GitFailed)
      else SelectFrom(co, Kept(co, releases), Orphans(co, releases), base, preview, title, run)
  }

  lemma OneMoreCommit(co: Checkout, range: seq<Sha>, i: nat, preview: string, title: string)
    requires i < |range| && range[i] < |co.repo|
    ensures Level(co, range[..i + 1], preview, title)
         == Max(Level(co, range[..i], preview, title), CommitLevel(co, range[i], preview, title))
    ensures HasHeaders(co, range[..i + 1], preview, title)
       <==> HasHeaders(co, range[..i], preview, title)
            && (range[i] in co.affected ==> Message(co, range[i], preview, title) != "")
  {
    assert range[..i + 1][..i] == range[..i];
    assert range[..i + 1] == range[..i] + [range[i]];
  }

  lemma NoHeaderStays(co: Checkout, range: seq<Sha>, i: nat, preview: string, title: string)
    requires i <= |range| && !HasHeaders(co, range[..i], preview, title)
    ensures !HasHeaders(co, range, preview, title)
  {
    var c :| c in range[..i] && c in co.affected && c < |co.repo| && Message(co, c, preview, title) == "";
    assert c in range;
  }

  method HighestLevel(co: Checkout, range: seq<Sha>, preview: string, title: string) returns (level: Option<nat>)
    requires co.Valid() && forall c :: c in range ==> c < |co.repo|
    ensures level == if HasHeaders(co, range, preview, title) then Some(Level(co, range, preview, title)) else None
  {
    var highest := 0;
    for i := 0 to |range|
      invariant HasHeaders(co, range[..i], preview, title)
      invariant highest == Level(co, range[..i], preview, title)
    {
      assert range[i] in range;
      OneMoreCommit(co, range, i, preview, title);
      if range[i] in co.affected {
        if Message(co, range[i], preview, title) == "" {
          NoHeaderStays(co, range, i + 1, preview, title);
          return None;
        }
        highest := Max(highest, CommitLevel(co, range[i], preview, title));
      }
    }
    assert range[..|range|] == range;
    level := Some(highest);
  }

  method SkipOccupied(occupied: set<string>, v: Version) returns (parts: Version)
    ensures parts == FirstFree(occupied, v)
  {
    parts := v;
    FirstFreeIsFirst(occupied, v);
    while Tag(parts) in occupied
      invariant parts.major == v.major && parts.minor == v.minor
      invariant v.patch <= parts.patch <= FirstFree(occupied, v).patch
      decreases FirstFree(occupied, v).patch - parts.patch
    {
      parts := Version(parts.major, parts.minor, parts.patch + 1);
    }
    FirstFreeIsFirst(occupied, v);
  }

  method VersionAfter(co: Checkout, best: Candidate, kept: seq<Release>, orphans: map<string, Sha>,
                      preview: string, title: string, run: string) returns (r: Result<Selection>)
    requires co.Valid()
    ensures r == SelectAfter(co, best, kept, orphans, preview, title, run)
  {
    var draft := best.release.draft;
    var sha := RevParse(co, Target(best.release));
    if sha.None? { return Err(GitFailed); }
    var previous := Some(if draft then Exact(sha.value) else Named(best.release.tag));
    if !IsAncestor(co.repo, sha.value, co.head) { return Err(NotAncestor); }
    if sha.value == co.head && preview == "" {
      return Ok(Selection(PrintVersion(best.version), !best.release.withdrawn, previous, None));
    }
    if draft && preview == "" { return Err(PendingDraft); }
    RangeIsInRepo(co.repo, sha.value, co.head);
    var level := HighestLevel(co, FirstParentRange(co.repo, sha.value, co.head), preview, title);
    if level.None? { return Err(NoHeader); }
    var parts := Bump(best.version, level.value);
    if level.value > 0 {
      parts := SkipOccupied(Tags(kept), parts);
    }
    r := Finish(parts, preview != "" || level.value > 0, previous, kept, orphans, preview, run);
  }

  method SelectVersion(co: Checkout, releases: seq<Release>, baseline: string,
                       preview: string, title: string, run: string) returns (r: Result<Selection>)
    requires co.Valid()
    ensures r == Select(co, releases, baseline, preview, title, run)
  {
    var base := Parse(baseline);
    if base.None? || base.value.major != 0 { return Err(BadBaseline); }
    var kept, orphans := releases, map[];
    if preview == "" {
      var split := SplitOrphans(co, releases);
      if split.Err? { return Err(GitFailed); }
      kept, orphans := split.value.0, split.value.1;
    }
    var candidates := Candidates(kept);
    if exists c :: c in candidates && c.version.major != 0 { return Err(MajorRelease); }
    if candidates == [] {
      r := Finish(base.value, true, None, kept, orphans, preview, run);
    } else {
      r := VersionAfter(co, Best(candidates), kept, orphans, preview, title, run);
    }
  }
}
