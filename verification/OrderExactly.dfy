// An execution that breaks the order for every combination of freedoms that is too much, and with
// them the exact condition.
module OrderExactly {
  import opened Text
  import opened Git
  import opened SemVer
  import opened ReleaseVersion
  import opened ReleasePipeline
  import opened ReleaseSelection
  import opened ReleaseOrder
  import opened OrderPolicies
  import CommitMessage

  // Three commits after the first: the second, a feature, and a fix.
  function History(): Repo {
    [Commit([], map[], "first"), Commit([0], map[], "second"), Commit([1], map[], "feat: b"), Commit([2], map[], "fix: c")]
  }

  const ZERO := Version(0, 0, 0)
  const ONE := Version(0, 1, 0)
  const FIX := Version(0, 1, 1)
  const HIGH := Version(0, 2, 0)

  lemma OnLine(a: Sha, b: Sha)
    requires a <= b < 4
    ensures OnFirstParentLine(History(), a, b) && IsAncestor(History(), a, b)
    decreases b
  {
    var repo := History();
    assert FirstParent(repo, 1) == 0 && FirstParent(repo, 2) == 1 && FirstParent(repo, 3) == 2;
    if a < b { OnLine(a, b - 1); }
    FirstParentLineIsAncestry(repo, a, b);
  }

  lemma Range(a: Sha, b: Sha)
    requires a <= b < 4
    ensures FirstParentRange(History(), a, b) == if a == b then [] else [b] + FirstParentRange(History(), a, b - 1)
  {
    var repo := History();
    assert FirstParent(repo, 1) == 0 && FirstParent(repo, 2) == 1 && FirstParent(repo, 3) == 2;
    OnLine(a, b);
    if a < b { RangeStep(repo, a, b); }
  }

  lemma FeatureLevel()
    ensures CommitMessage.BumpLevel("feat: b") >= 2
  {
    CommitMessage.LevelOfCommit("feat", "", false, "b", "");
    assert CommitMessage.Render("feat", "", false, "b") + "" == "feat: b";
  }

  lemma {:induction false} HeadersUpTo(co: Checkout, range: seq<Sha>)
    requires co.repo == History()
    ensures HasHeaders(co, range, "", "")
  {
    assert forall c :: 0 <= c < 4 ==> History()[c].message != "";
  }

  // The feature is after commit a and up to b.
  lemma LevelAt(s: State, a: Sha, b: Sha)
    requires s.repo == History() && s.affected == {2} && a < 2 <= b < 4
    ensures Lvl(s, a, b) >= 2 && AllHaveHeaders(s, a, b)
  {
    var co := CheckoutAt(s, b);
    HeadersUpTo(co, FirstParentRange(s.repo, a, b));
    Range(a, b);
    LevelUpToFeature(s, a, b);
    if b == 3 { LevelOfFront(co, [3], FirstParentRange(s.repo, a, 2)); }
  }

  lemma LevelUpToFeature(s: State, a: Sha, b: Sha)
    requires s.repo == History() && s.affected == {2} && a < 2 <= b < 4
    ensures Level(CheckoutAt(s, b), FirstParentRange(s.repo, a, 2), "", "") >= 2
  {
    var co := CheckoutAt(s, b);
    Range(a, 2);
    LevelOfFront(co, [2], FirstParentRange(s.repo, a, 1));
    FeatureLevel();
    assert CommitLevel(co, 2, "", "") >= 2;
    LevelOfOne(co, 2);
  }

  lemma LevelOfFront(co: Checkout, a: seq<Sha>, b: seq<Sha>)
    ensures Level(co, a + b, "", "") == Max(Level(co, a, "", ""), Level(co, b, "", ""))
  {
    LevelOfConcat(co, a, b);
  }

  lemma LevelOfOne(co: Checkout, c: Sha)
    ensures Level(co, [c], "", "") == CommitLevel(co, c, "", "")
  {
    assert [c][..0] == [];
  }

  // The version after m is the next minor one, unless that is withdrawn.
  lemma NextMinor(s: State, m: Version, level: nat)
    requires level >= 2
    ensures var v := Version(m.major, m.minor + 1, 0);
            && (!IsIn(s, v, Prerelease) ==> NextFree(s, Bump(m, level)) == v)
            && (IsIn(s, v, Prerelease) && !IsIn(s, Version(m.major, m.minor + 1, 1), Prerelease) ==>
                  NextFree(s, Bump(m, level)) == Version(m.major, m.minor + 1, 1))
  {
    var v := Version(m.major, m.minor + 1, 0);
    NextFreeIsFirst(s, v);
    assert IsPatchFrom(v, v) && IsPatchFrom(v, Version(m.major, m.minor + 1, 1));
  }

  // Nothing in the scenes is a withdrawn source release.
  lemma NotWithdrawn(v: Version)
    requires v.major == 0 && v.minor < 4
    ensures !IsWithdrawnSource(v)
  {
    assert Print(0) == "0" && Print(4) == "4" && Print(5) == "5";
    assert Tag(Version(0, 4, 0)) == "desktop-v0.4.0" && Tag(Version(0, 5, 0)) == "desktop-v0.5.0";
    if Tag(v) == "desktop-v0.4.0" { TagIsInjective(v, Version(0, 4, 0)); }
    if Tag(v) == "desktop-v0.5.0" { TagIsInjective(v, Version(0, 5, 0)); }
  }

  ghost predicate IsScene(s: State) {
    && Base(s) && s.repo == History() && s.affected == {2} && s.main == 3
    && forall v :: v in s.tags ==> v.major == 0 && v.minor < 4
  }

  lemma SceneFacts(s: State, c: Sha)
    requires IsScene(s) && c < 4
    ensures NoOtherMajor(s) && OnMain(s, c)
    ensures forall v :: v in s.tags ==> !IsWithdrawnSource(v)
  {
    OnLine(c, 3);
    forall v | v in s.tags ensures !IsWithdrawnSource(v) { NotWithdrawn(v); }
  }

  // Selections

  lemma OffersAfter(s: State, head: Sha, base: Version, m: Version, v: Version, reclaim: Option<Sha>)
    requires IsScene(s) && 2 <= head < 4 && IsTop(s, head, m) && s.tags[m] < 2 && !IsIn(s, m, Draft)
    requires v == NextFree(s, Bump(m, Lvl(s, s.tags[m], head))) && reclaim == ReclaimOf(s, head, v)
    ensures Offers(s, head, base, v, reclaim)
  {
    SceneFacts(s, head);
    OnLine(s.tags[m], head);
    LevelAt(s, s.tags[m], head);
    assert OffersNext(s, head, m, v, reclaim);
  }

  // 0.0.0 and 0.1.0 are out, and the last two commits are new.
  function Before(): State {
    State(History(), {2}, 3, 1, map[ZERO := 0, ONE := 1], map[ZERO := Stable, ONE := Stable], {}, None)
  }

  lemma BeforeIsScene()
    ensures IsScene(Before())
  {
  }

  lemma BeforeStarts(p: Policy)
    ensures IsScene(Before()) && StartsFor(p, Before())
  {
    var s := Before();
    BeforeIsScene();
    OnLine(0, 3);
    OnLine(1, 3);
    assert Claimed(s, ONE);
    forall v | Alive(s, v) ensures Claimed(s, v) && s.tags[v] <= s.at { }
  }

  const LATE := Output(2, HIGH, None)

  // A run at commit 2 hands over 0.2.0, as does every run there that finds nothing higher.
  lemma HighIsOffered(base: Version)
    ensures Offers(Before(), 2, base, HIGH, None)
  {
    var s := Before();
    BeforeIsScene();
    OneIsTop();
    HighIsNext();
    HighIsFree();
    OffersAfter(s, 2, base, ONE, HIGH, None);
  }

  lemma OneIsTop()
    ensures IsTop(Before(), 2, ONE)
  {
    var s := Before();
    BeforeIsScene();
    SceneFacts(s, 2);
    OnLine(0, 2);
    OnLine(1, 2);
  }

  lemma HighIsFree()
    ensures var s := Before();
            s.tags[ONE] == 1 && !IsIn(s, ONE, Draft) && ReclaimOf(s, 2, HIGH) == None
  {
  }

  lemma HighIsNext()
    ensures NextFree(Before(), Bump(ONE, Lvl(Before(), 1, 2))) == HIGH
  {
    LevelAt(Before(), 1, 2);
    NextMinor(Before(), ONE, Lvl(Before(), 1, 2));
  }

  // What is left when 0.1.0 has been taken back, and 0.2.0 is at most a draft on commit 2.
  ghost predicate TakenBack(s: State, status: Status) {
    && IsScene(s) && status != Stable
    && ZERO in s.tags && s.tags[ZERO] == 0 && IsIn(s, ZERO, Stable)
    && ONE in s.tags && s.tags[ONE] == 1 && IsIn(s, ONE, status)
    && (forall v :: v in s.tags ==> v == ZERO || v == ONE || v == HIGH)
    && (HIGH in s.tags ==> s.tags[HIGH] == 2 && IsIn(s, HIGH, Draft))
  }

  function Lower(status: Status): Version { if status == Draft then ONE else FIX }
  function From(status: Status): Option<Sha> { if status == Draft then Some(1) else None }

  lemma ZeroIsTop(s: State, status: Status)
    requires TakenBack(s, status)
    ensures IsTop(s, 3, ZERO)
    ensures ReclaimOf(s, 3, Lower(status)) == From(status)
  {
    SceneFacts(s, 3);
    OnLine(1, 3);
    OnLine(2, 3);
    assert InView(s, ZERO, 3);
    assert !InView(s, ONE, 3) && !InView(s, HIGH, 3);
  }

  // A run at commit 3 then hands over a version below 0.2.0.
  lemma LowerIsOffered(s: State, status: Status, base: Version)
    requires TakenBack(s, status)
    ensures Offers(s, 3, base, Lower(status), From(status))
  {
    ZeroIsTop(s, status);
    LevelAt(s, 0, 3);
    NextMinor(s, ZERO, Lvl(s, 0, 3));
    OffersAfter(s, 3, base, ZERO, Lower(status), From(status));
  }

  // The lower version published on commit 3.
  ghost predicate LowerIsOut(s: State, status: Status) {
    var low := Lower(status);
    && IsScene(s) && low in s.tags && s.tags[low] == 3 && IsIn(s, low, Stable)
    && (forall v :: v in s.tags ==> v == ZERO || v == ONE || v == FIX || v == HIGH)
    && (HIGH in s.tags ==> s.tags[HIGH] == 2 && IsIn(s, HIGH, Draft))
  }

  lemma FixIsPublished(s: State)
    requires FIX !in s.tags && FIX !in s.dist
    ensures Attempt(s, Output(3, FIX, None), Released)
         == s.(tags := s.tags[FIX := 3], dist := s.dist[FIX := Stable])
  {
  }

  lemma OneIsPublishedAgain(s: State)
    requires ONE in s.tags && s.tags[ONE] == 1 && IsIn(s, ONE, Draft)
    ensures Attempt(s, Output(3, ONE, Some(1)), Released)
         == s.(tags := s.tags[ONE := 3], dist := s.dist[ONE := Stable])
  {
    assert (s.dist - {ONE})[ONE := Stable] == s.dist[ONE := Stable];
  }

  lemma LowerIsPublished(s: State, status: Status)
    requires TakenBack(s, status)
    ensures var low := Lower(status);
            Attempt(s, Output(3, low, From(status)), Released) == s.(tags := s.tags[low := 3], dist := s.dist[low := Stable])
  {
    if status == Draft { OneIsPublishedAgain(s); } else { FixIsPublished(s); }
  }

  lemma LowerThenOut(s: State, status: Status, s': State)
    requires TakenBack(s, status) && Base(s')
    requires var low := Lower(status); s' == s.(tags := s.tags[low := 3], dist := s.dist[low := Stable])
    ensures LowerIsOut(s', status) && (HIGH in s'.tags <==> HIGH in s.tags)
  {
  }

  // The draft of 0.2.0 on its own commit is the highest version in view there.
  lemma DraftIsOffered(s: State, status: Status, base: Version)
    requires LowerIsOut(s, status) && HIGH in s.tags
    ensures Offers(s, 2, base, HIGH, None)
  {
    SceneFacts(s, 2);
    assert InView(s, HIGH, 2);
    assert OffersOwn(s, 2, HIGH, None);
  }

  lemma HighIsPublished(s: State, status: Status)
    requires LowerIsOut(s, status)
    ensures Attempt(s, LATE, Released) == s.(tags := s.tags[HIGH := 2], dist := s.dist[HIGH := Stable])
  {
  }

  lemma PublishesHigh(s: State, status: Status, s': State)
    requires LowerIsOut(s, status) && s' == Attempt(s, LATE, Released)
    ensures !PublishedInOrder(s')
  {
    HighIsPublished(s, status);
    OutOfOrder(s', Lower(status), HIGH);
  }

  // A release taken back

  lemma TakeBack(p: Policy, b: Version, t: State, status: Status) returns (u: State)
    requires Leads(p, b, Before(), t) && Base(t) && IsIn(t, ONE, Stable)
    requires (status == Prerelease && p.withdraw) || (status == Draft && p.redraft)
    ensures u == t.(dist := t.dist[ONE := status]) && Leads(p, b, Before(), u) && Base(u)
  {
    u := t.(dist := t.dist[ONE := status]);
    var step := if status == Draft then Redraft(ONE) else Withdraw(ONE);
    LeadsOn(p, b, Before(), t, step, u);
    StepKeepsBase(t, step, u);
  }

  lemma FirstRun(p: Policy, b: Version) returns (t: State)
    requires b.major == 0
    ensures t == Before().(at := 2, current := Some(LATE), outputs := {LATE}) && IsScene(t)
    ensures Leads(p, b, Before(), t)
  {
    BeforeStarts(p);
    StaysThere(p, b, Before());
    HighIsOffered(b);
    OnLine(2, 3);
    OnLine(1, 2);
    t := RunLeads(p, b, Before(), Before(), 2, b, HIGH, None);
    assert {} + {LATE} == {LATE};
  }

  lemma TakenBackStays(s: State, status: Status, u: State)
    requires TakenBack(s, status) && Base(u) && u == s.(at := u.at, current := u.current, outputs := u.outputs)
    ensures TakenBack(u, status)
  {
  }

  lemma LowerSelected(p: Policy, b: Version, t: State, status: Status) returns (u: State)
    requires Leads(p, b, Before(), t) && TakenBack(t, status) && t.at <= 3 && b.major == 0
    ensures var o := Output(3, Lower(status), From(status));
            u == t.(at := 3, current := Some(o), outputs := t.outputs + {o})
    ensures Leads(p, b, Before(), u) && TakenBack(u, status)
  {
    OnLine(t.at, 3);
    OnLine(3, 3);
    LowerIsOffered(t, status, b);
    u := RunLeads(p, b, Before(), t, 3, b, Lower(status), From(status));
    TakenBackStays(t, status, u);
  }

  lemma LowerAttempted(p: Policy, b: Version, t: State, status: Status) returns (u: State)
    requires Leads(p, b, Before(), t) && TakenBack(t, status) && t.current == Some(Output(3, Lower(status), From(status)))
    ensures var low := Lower(status); u == t.(tags := t.tags[low := 3], dist := t.dist[low := Stable])
    ensures Leads(p, b, Before(), u) && Base(u)
  {
    LowerIsPublished(t, status);
    u := TryLeads(p, b, Before(), t, t.current.value, Released);
  }

  lemma LowerRun(p: Policy, b: Version, t: State, status: Status) returns (u: State)
    requires Leads(p, b, Before(), t) && TakenBack(t, status) && t.at <= 3 && b.major == 0
    ensures Leads(p, b, Before(), u) && LowerIsOut(u, status) && u.at == 3 && t.outputs <= u.outputs
    ensures (HIGH in u.tags <==> HIGH in t.tags)
  {
    var run := LowerSelected(p, b, t, status);
    u := LowerAttempted(p, b, run, status);
    LowerThenOut(run, status, u);
  }

  // A release is taken back and the earlier job attempted late.
  lemma LateAttemptBreaks(p: Policy, status: Status)
    requires p.late && ((status == Prerelease && p.withdraw) || (status == Draft && p.redraft))
    ensures !Guarantees(p)
  {
    var b := ZERO;
    var s1 := FirstRun(p, b);
    var s2 := TakeBack(p, b, s1, status);
    var s3 := LowerRun(p, b, s2, status);
    var s4 := TryLeads(p, b, Before(), s3, LATE, Released);
    PublishesHigh(s3, status, s4);
    BeforeStarts(p);
    Breaks(p, b, Before(), s4);
  }

  lemma HighBecomesDraft(s: State)
    requires HIGH !in s.tags && HIGH !in s.dist
    ensures Attempt(s, LATE, Drafted) == s.(tags := s.tags[HIGH := 2], dist := s.dist[HIGH := Draft])
  {
  }

  lemma HighIsDrafted(p: Policy, b: Version) returns (t: State)
    requires b.major == 0
    ensures Leads(p, b, Before(), t) && Base(t) && t.at == 2
    ensures t == Before().(at := 2, current := Some(LATE), outputs := {LATE},
                           tags := Before().tags[HIGH := 2], dist := Before().dist[HIGH := Draft])
  {
    var s1 := FirstRun(p, b);
    HighBecomesDraft(s1);
    t := TryLeads(p, b, Before(), s1, LATE, Drafted);
  }

  lemma HighRunsAgain(p: Policy, b: Version, s: State, status: Status) returns (t: State)
    requires p.unordered && Leads(p, b, Before(), s) && LowerIsOut(s, status) && HIGH in s.tags && b.major == 0
    ensures Leads(p, b, Before(), t) && !PublishedInOrder(t)
  {
    DraftIsOffered(s, status, b);
    OnLine(2, 3);
    var run := RunLeads(p, b, Before(), s, 2, b, HIGH, None);
    LowerStaysOut(s, status, run);
    t := TryLeads(p, b, Before(), run, LATE, Released);
    PublishesHigh(run, status, t);
  }

  lemma LowerStaysOut(s: State, status: Status, u: State)
    requires LowerIsOut(s, status) && Base(u) && u == s.(at := u.at, current := u.current, outputs := u.outputs)
    ensures LowerIsOut(u, status)
  {
  }

  // A release is taken back and the earlier commit run again: every job is the latest run's own.
  lemma EarlierRunBreaks(p: Policy, status: Status)
    requires p.unordered && ((status == Prerelease && p.withdraw) || (status == Draft && p.redraft))
    ensures !Guarantees(p)
  {
    var s1 := HighIsDrafted(p, ZERO);
    var s2 := TakeBack(p, ZERO, s1, status);
    assert TakenBack(s2, status);
    var s3 := LowerRun(p, ZERO, s2, status);
    var s4 := HighRunsAgain(p, ZERO, s3, status);
    BeforeStarts(p);
    Breaks(p, ZERO, Before(), s4);
  }

  // No release yet, and two baselines

  const BIG := Version(0, 3, 0)

  function Nothing(): State { State(History(), {2}, 3, 0, map[], map[], {}, None) }

  lemma NothingStarts(p: Policy)
    requires p.empty
    ensures IsScene(Nothing()) && StartsFor(p, Nothing())
  {
    OnLine(0, 3);
  }

  // 0.3.0 is at most a draft on commit 0, and commit 1 may carry 0.2.0.
  ghost predicate IsEmptyScene(s: State, out: bool) {
    && IsScene(s)
    && (forall v :: v in s.tags ==> v == BIG || (out && v == HIGH))
    && (BIG in s.tags ==> s.tags[BIG] == 0 && IsIn(s, BIG, Draft))
    && (out ==> HIGH in s.tags && s.tags[HIGH] == 1 && IsIn(s, HIGH, Stable))
    && (!out ==> HIGH !in s.dist)
  }

  lemma BaselineIsOffered(s: State, head: Sha, base: Version)
    requires IsEmptyScene(s, false) && head < 4 && (BIG in s.tags ==> head != 0) && base != BIG
    ensures Offers(s, head, base, base, None)
  {
    SceneFacts(s, head);
    if BIG in s.tags { OnLine(0, head); }
    assert forall u :: !InView(s, u, head);
    assert OffersFirst(s, head, base, base, None);
  }

  lemma FirstBaseline(p: Policy, b: Version) returns (t: State)
    requires p.empty && p.baselines
    ensures var o := Output(0, BIG, None); t == Nothing().(at := 0, current := Some(o), outputs := {o}) && IsScene(t)
    ensures Leads(p, b, Nothing(), t)
  {
    NothingStarts(p);
    StaysThere(p, b, Nothing());
    SceneFacts(Nothing(), 0);
    OnLine(0, 0);
    assert forall u :: !InView(Nothing(), u, 0);
    assert OffersFirst(Nothing(), 0, BIG, BIG, None);
    t := RunLeads(p, b, Nothing(), Nothing(), 0, BIG, BIG, None);
    assert {} + {Output(0, BIG, None)} == {Output(0, BIG, None)};
  }

  lemma SecondSelected(p: Policy, b: Version, t: State) returns (u: State)
    requires Leads(p, b, Nothing(), t) && IsEmptyScene(t, false) && t.at == 0 && p.baselines
    ensures var o := Output(1, HIGH, None); u == t.(at := 1, current := Some(o), outputs := t.outputs + {o})
    ensures Leads(p, b, Nothing(), u) && Base(u)
  {
    OnLine(0, 1);
    OnLine(1, 3);
    BaselineIsOffered(t, 1, HIGH);
    u := RunLeads(p, b, Nothing(), t, 1, HIGH, HIGH, None);
  }

  lemma HighIsFirst(s: State)
    requires HIGH !in s.tags && HIGH !in s.dist
    ensures Attempt(s, Output(1, HIGH, None), Released) == s.(tags := s.tags[HIGH := 1], dist := s.dist[HIGH := Stable])
  {
  }

  lemma SecondBaseline(p: Policy, b: Version, t: State) returns (u: State)
    requires Leads(p, b, Nothing(), t) && IsEmptyScene(t, false) && t.at == 0 && p.baselines
    ensures Leads(p, b, Nothing(), u) && IsEmptyScene(u, true) && t.outputs <= u.outputs
    ensures (BIG in u.tags <==> BIG in t.tags) && (BIG in u.dist <==> BIG in t.dist)
  {
    var run := SecondSelected(p, b, t);
    HighIsFirst(run);
    u := TryLeads(p, b, Nothing(), run, Output(1, HIGH, None), Released);
  }

  lemma BigIsPublished(s: State)
    requires IsEmptyScene(s, true) && (BIG in s.dist ==> BIG in s.tags)
    ensures Attempt(s, Output(0, BIG, None), Released) == s.(tags := s.tags[BIG := 0], dist := s.dist[BIG := Stable])
  {
  }

  lemma PublishesBig(s: State, s': State)
    requires IsEmptyScene(s, true) && s' == Attempt(s, Output(0, BIG, None), Released)
    ensures !PublishedInOrder(s')
  {
    BigIsPublished(s);
    OutOfOrder(s', HIGH, BIG);
  }

  lemma LateBaselineBreaks(p: Policy)
    requires p.empty && p.baselines && p.late
    ensures !Guarantees(p)
  {
    var s1 := FirstBaseline(p, ZERO);
    var s2 := SecondBaseline(p, ZERO, s1);
    var s3 := TryLeads(p, ZERO, Nothing(), s2, Output(0, BIG, None), Released);
    PublishesBig(s2, s3);
    NothingStarts(p);
    Breaks(p, ZERO, Nothing(), s3);
  }

  lemma BigBecomesDraft(s: State)
    requires BIG !in s.tags && BIG !in s.dist
    ensures Attempt(s, Output(0, BIG, None), Drafted) == s.(tags := s.tags[BIG := 0], dist := s.dist[BIG := Draft])
  {
  }

  lemma BigIsDrafted(p: Policy) returns (t: State)
    requires p.empty && p.baselines
    ensures Leads(p, ZERO, Nothing(), t) && IsEmptyScene(t, false) && BIG in t.tags && t.at == 0
  {
    var s1 := FirstBaseline(p, ZERO);
    BigBecomesDraft(s1);
    t := TryLeads(p, ZERO, Nothing(), s1, Output(0, BIG, None), Drafted);
  }

  lemma BigRunsAgain(p: Policy, s: State) returns (t: State)
    requires p.unordered && p.baselines && Leads(p, ZERO, Nothing(), s) && IsEmptyScene(s, true) && BIG in s.tags
    ensures Leads(p, ZERO, Nothing(), t) && !PublishedInOrder(t)
  {
    SceneFacts(s, 0);
    assert InView(s, BIG, 0);
    assert OffersOwn(s, 0, BIG, None);
    var run := RunLeads(p, ZERO, Nothing(), s, 0, ZERO, BIG, None);
    EmptySceneStays(s, run);
    t := TryLeads(p, ZERO, Nothing(), run, Output(0, BIG, None), Released);
    PublishesBig(run, t);
  }

  lemma EmptySceneStays(s: State, u: State)
    requires IsEmptyScene(s, true) && Base(u) && u == s.(at := u.at, current := u.current, outputs := u.outputs)
    ensures IsEmptyScene(u, true)
  {
  }

  lemma EarlierBaselineBreaks(p: Policy)
    requires p.empty && p.baselines && p.unordered
    ensures !Guarantees(p)
  {
    var s1 := BigIsDrafted(p);
    var s2 := SecondBaseline(p, ZERO, s1);
    var s3 := BigRunsAgain(p, s2);
    NothingStarts(p);
    Breaks(p, ZERO, Nothing(), s3);
  }

  // A withdrawn release that comes back

  // 0.0.0 and 0.1.0 are out, and 0.1.1, on the same commit as 0.1.0, is withdrawn.
  function Twice(): State {
    State(History(), {2}, 3, 1, map[ZERO := 0, ONE := 1, FIX := 1], map[ZERO := Stable, ONE := Stable, FIX := Prerelease], {}, None)
  }

  function Revived(): State {
    Twice().(dist := Twice().dist[FIX := Draft])
  }

  lemma TwiceIsScene()
    ensures IsScene(Twice()) && IsScene(Revived())
  {
  }

  lemma TwiceIsClaimed()
    ensures forall v :: Alive(Twice(), v) ==> Claimed(Twice(), v) && Twice().tags[v] <= 1
    ensures Claimed(Twice(), ONE) && ClaimsInOrder(Twice())
  {
  }

  lemma TwiceStarts(p: Policy)
    ensures StartsFor(p, Twice())
  {
    TwiceIsScene();
    TwiceIsClaimed();
    assert Claimed(Twice(), ONE);
  }

  lemma FixIsOffered(base: Version)
    ensures Offers(Revived(), 1, base, FIX, None)
  {
    var s := Revived();
    TwiceIsScene();
    SceneFacts(s, 1);
    OnLine(0, 1);
    assert IsTop(s, 1, FIX);
    assert OffersOwn(s, 1, FIX, None);
  }

  lemma FixIsOutAgain(s: State)
    requires FIX in s.tags && s.tags[FIX] == 1 && IsIn(s, FIX, Draft)
    ensures Attempt(s, Output(1, FIX, None), Released) == s.(dist := s.dist[FIX := Stable])
  {
    assert s.tags[FIX := 1] == s.tags;
  }

  // Returned to draft, it is published again beside the version that replaced it.
  lemma RevivedReleaseBreaks(p: Policy)
    requires p.revive
    ensures !Guarantees(p)
  {
    var s0 := Twice();
    TwiceIsScene();
    TwiceStarts(p);
    StaysThere(p, ZERO, s0);
    LeadsOn(p, ZERO, s0, s0, Redraft(FIX), Revived());
    FixIsOffered(ZERO);
    OnLine(1, 1);
    OnLine(1, 3);
    var run := RunLeads(p, ZERO, s0, Revived(), 1, ZERO, FIX, None);
    var s := TryLeads(p, ZERO, s0, run, Output(1, FIX, None), Released);
    FixIsOutAgain(run);
    TwoOnOneCommit(s);
    Breaks(p, ZERO, s0, s);
  }

  lemma TwoOnOneCommit(s: State)
    requires IsIn(s, ONE, Stable) && IsIn(s, FIX, Stable)
    requires ONE in s.tags && FIX in s.tags && s.tags[ONE] == s.tags[FIX]
    ensures !PublishedInOrder(s)
  {
    assert Less(ONE, FIX);
  }

  // The condition

  lemma TooMuchBreaks(p: Policy)
    requires !KeepsOrder(p)
    ensures !Guarantees(p)
  {
    if p.revive {
      RevivedReleaseBreaks(p);
    } else if p.withdraw || p.redraft {
      var status := if p.withdraw then Prerelease else Draft;
      if p.late { LateAttemptBreaks(p, status); } else { EarlierRunBreaks(p, status); }
    } else if p.late {
      LateBaselineBreaks(p);
    } else {
      EarlierBaselineBreaks(p);
    }
  }

  // In every reachable state the published versions rise along one ancestor chain, exactly if no withdrawn
  // release is returned to draft, and runs and jobs keep their order, or no release is taken back and the
  // first version is settled.
  lemma OrderExactly(p: Policy)
    ensures Guarantees(p) <==> KeepsOrder(p)
  {
    if KeepsOrder(p) {
      forall b, states, steps | IsRunOf(p, b, states, steps) && StartsFor(p, states[0])
        ensures PublishedInOrder(states[|steps|])
      {
        if !p.unordered && !p.late { OrderedRuns(p, b, states, steps); } else { SteadyRuns(p, b, states, steps); }
      }
    } else {
      TooMuchBreaks(p);
    }
  }

  // A version that moves

  // 0.1.0 is published on commit 1, returned to draft, and published again on commit 3.
  lemma RedraftedVersionMoves(p: Policy)
    requires p.redraft
    ensures StartsFor(p, Before()) && IsIn(Before(), ONE, Stable) && Before().tags[ONE] == 1
    ensures exists t :: Leads(p, ZERO, Before(), t) && IsIn(t, ONE, Stable) && ONE in t.tags && t.tags[ONE] == 3
  {
    BeforeStarts(p);
    StaysThere(p, ZERO, Before());
    var s1 := TakeBack(p, ZERO, Before(), Draft);
    var s2 := LowerRun(p, ZERO, s1, Draft);
  }
}
