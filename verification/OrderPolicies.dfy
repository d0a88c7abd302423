// Which freedoms of the release pipeline keep the published versions in order.
module OrderPolicies {
  import opened Text
  import opened Git
  import opened SemVer
  import opened ReleaseVersion
  import opened ReleasePipeline
  import opened ReleaseSelection
  import opened ReleaseOrder
  import RunsInOrder
  import StaleReruns

  // What may happen: published releases are withdrawn, or returned to draft; withdrawn ones are returned
  // to draft; a run starts at an earlier commit
  // than the one before; a job is attempted after a later run; nothing has been released at the
  // start; runs read different baselines.
  datatype Policy = Policy(withdraw: bool, redraft: bool, revive: bool, unordered: bool, late: bool, empty: bool, baselines: bool)

  ghost predicate Allows(p: Policy, b: Version, s: State, step: Step) {
    && (step.Withdraw? ==> p.withdraw)
    && (step.Redraft? && IsIn(s, step.version, Stable) ==> p.redraft)
    && (step.Redraft? && IsIn(s, step.version, Prerelease) ==> p.revive)
    && (step.Run? && !p.unordered ==> step.head < |s.repo| && OnFirstParentLine(s.repo, s.at, step.head))
    && (step.Run? && !p.baselines && Parse(step.baseline).Some? ==> Parse(step.baseline).value == b)
    && (step.Try? && !p.late ==> s.current == Some(step.output))
  }

  ghost predicate StartsFor(p: Policy, s: State) {
    && Settled(s)
    && (!p.unordered ==> RunsInOrder.AllBehind(s))
    && (!p.empty ==> StaleReruns.SomeClaim(s))
  }

  ghost predicate IsRunOf(p: Policy, b: Version, states: seq<State>, steps: seq<Step>) {
    IsExecution(states, steps) && forall i :: 0 <= i < |steps| ==> Allows(p, b, states[i], steps[i])
  }

  ghost predicate Guarantees(p: Policy) {
    forall b, states, steps :: IsRunOf(p, b, states, steps) && StartsFor(p, states[0]) ==> PublishedInOrder(states[|steps|])
  }

  // No withdrawn release is returned to draft, and either runs and jobs keep their order, or no release
  // is taken back and the first version is settled.
  predicate KeepsOrder(p: Policy) {
    !p.revive && ((!p.unordered && !p.late) || (!p.withdraw && !p.redraft && !(p.empty && p.baselines)))
  }

  // Why that is enough

  lemma OrderedRuns(p: Policy, b: Version, states: seq<State>, steps: seq<Step>)
    requires !p.revive && !p.unordered && !p.late && IsRunOf(p, b, states, steps) && StartsFor(p, states[0])
    ensures PublishedInOrder(states[|steps|])
  {
    forall i | 0 <= i < |steps| ensures RunsInOrder.InOrder(states[i], steps[i]) {
      assert Allows(p, b, states[i], steps[i]) && Follow(states, steps, i);
    }
    RunsInOrder.PublishedStaysInOrder(states, steps, |steps|);
  }

  lemma ClaimStays(s: State, step: Step, s': State)
    requires Base(s) && Takes(s, step, s') && !step.Withdraw? && !step.Redraft? && StaleReruns.SomeClaim(s)
    ensures StaleReruns.SomeClaim(s')
  {
    var m :| Claimed(s, m);
    if step.Try? {
      AttemptIsLocal(s, step.output, step.progress);
      OthersAreUntouched(s, step.output, s');
    }
    assert Claimed(s', m);
  }

  lemma {:induction false} ClaimsStay(p: Policy, b: Version, states: seq<State>, steps: seq<Step>, i: nat)
    requires !p.withdraw && !p.redraft && !p.revive && IsRunOf(p, b, states, steps) && i <= |steps|
    requires Base(states[0]) && StaleReruns.SomeClaim(states[0])
    ensures StaleReruns.SomeClaim(states[i])
  {
    if i > 0 {
      ClaimsStay(p, b, states, steps, i - 1);
      BaseHolds(states, steps, i - 1);
      assert Follow(states, steps, i - 1) && Allows(p, b, states[i - 1], steps[i - 1]);
      ClaimStays(states[i - 1], steps[i - 1], states[i]);
    }
  }

  lemma SteadyRuns(p: Policy, b: Version, states: seq<State>, steps: seq<Step>)
    requires !p.withdraw && !p.redraft && !p.revive && !(p.empty && p.baselines)
    requires IsRunOf(p, b, states, steps) && StartsFor(p, states[0])
    ensures PublishedInOrder(states[|steps|])
  {
    forall i | 0 <= i < |steps| ensures StaleReruns.IsSteady(states[i], steps[i], b) {
      assert Allows(p, b, states[i], steps[i]) && Follow(states, steps, i);
      if !p.empty { ClaimsStay(p, b, states, steps, i); }
    }
    StaleReruns.PublishedStaysInOrder(states, steps, b, |steps|);
  }

  // Executions, step by step

  ghost predicate Leads(p: Policy, b: Version, s: State, t: State) {
    exists states, steps :: IsRunOf(p, b, states, steps) && states[0] == s && states[|steps|] == t
  }

  lemma StaysThere(p: Policy, b: Version, s: State)
    ensures Leads(p, b, s, s)
  {
    var states, steps: seq<Step> := [s], [];
    assert IsRunOf(p, b, states, steps) && states[|steps|] == s;
  }

  lemma LeadsOn(p: Policy, b: Version, s: State, t: State, step: Step, u: State)
    requires Leads(p, b, s, t) && Takes(t, step, u) && Allows(p, b, t, step)
    ensures Leads(p, b, s, u)
  {
    var states, steps :| IsRunOf(p, b, states, steps) && states[0] == s && states[|steps|] == t;
    var more, all := states + [u], steps + [step];
    forall i | 0 <= i < |all| ensures Follow(more, all, i) && Allows(p, b, more[i], all[i]) {
      if i < |steps| { assert Follow(states, steps, i) && Allows(p, b, states[i], steps[i]); }
    }
    assert IsRunOf(p, b, more, all) && more[0] == s && more[|all|] == u;
  }

  lemma Breaks(p: Policy, b: Version, s: State, t: State)
    requires StartsFor(p, s) && Leads(p, b, s, t) && !PublishedInOrder(t)
    ensures !Guarantees(p)
  {
    var states, steps :| IsRunOf(p, b, states, steps) && states[0] == s && states[|steps|] == t;
    assert StartsFor(p, states[0]) && !PublishedInOrder(states[|steps|]);
  }

  // Some list of the releases there are.
  lemma {:induction false} ListingOf(s: State, versions: set<Version>) returns (releases: seq<Release>)
    requires versions <= s.tags.Keys
    ensures forall r :: r in releases <==> exists v :: v in versions && r == ReleaseOf(s, v)
    decreases versions
  {
    releases := [];
    if versions != {} {
      var v :| v in versions;
      var others := ListingOf(s, versions - {v});
      releases := others + [ReleaseOf(s, v)];
      forall r ensures r in releases <==> exists w :: w in versions && r == ReleaseOf(s, w) {
        if w :| w in versions && r == ReleaseOf(s, w) {
          assert w == v || w in versions - {v};
        }
      }
    }
  }

  // What a state offers, a run hands over.
  lemma RunHandsOver(s: State, head: Sha, base: Version, v: Version, reclaim: Option<Sha>) returns (step: Step, s': State)
    requires Consistent(s) && OnMain(s, head) && base.major == 0 && Offers(s, head, base, v, reclaim)
    ensures Takes(s, step, s') && step.Run? && step.head == head && Parse(step.baseline) == Some(base)
    ensures var o := Output(head, v, reclaim); s' == s.(at := head, current := Some(o), outputs := s.outputs + {o})
  {
    var releases := ListingOf(s, s.tags.Keys);
    assert Lists(s, releases);
    RefsAreTags(s, head);
    ParsePrinted(base);
    HandsOverExactly(s, head, releases, PrintVersion(base), v, reclaim);
    step := Run(head, releases, PrintVersion(base), v);
    var o := Output(head, v, reclaim);
    s' := s.(at := head, current := Some(o), outputs := s.outputs + {o});
  }

  lemma ParsePrinted(v: Version)
    ensures Parse(PrintVersion(v)) == Some(v)
  {
    ParseOfPrint(v);
    AfterPrefix(PREFIX, PrintVersion(v));
  }

  lemma RunLeads(p: Policy, b: Version, s: State, t: State, head: Sha, base: Version, v: Version, reclaim: Option<Sha>)
    returns (u: State)
    requires Leads(p, b, s, t) && Base(t) && OnMain(t, head) && base.major == 0 && Offers(t, head, base, v, reclaim)
    requires (p.unordered || OnFirstParentLine(t.repo, t.at, head)) && (p.baselines || base == b)
    ensures var o := Output(head, v, reclaim); u == t.(at := head, current := Some(o), outputs := t.outputs + {o})
    ensures Leads(p, b, s, u) && Base(u)
  {
    var step;
    step, u := RunHandsOver(t, head, base, v, reclaim);
    LeadsOn(p, b, s, t, step, u);
    StepKeepsBase(t, step, u);
  }

  lemma TryLeads(p: Policy, b: Version, s: State, t: State, o: Output, progress: Progress) returns (u: State)
    requires Leads(p, b, s, t) && Base(t) && o in t.outputs && (p.late || t.current == Some(o))
    ensures u == Attempt(t, o, progress) && Leads(p, b, s, u) && Base(u)
  {
    u := Attempt(t, o, progress);
    LeadsOn(p, b, s, t, Try(o, progress), u);
    StepKeepsBase(t, Try(o, progress), u);
  }

  // Two versions, the lower one on the later commit.
  lemma OutOfOrder(s: State, low: Version, high: Version)
    requires IsIn(s, low, Stable) && IsIn(s, high, Stable) && low.major == 0 && high.major == 0 && Less(low, high)
    requires low in s.tags && high in s.tags && s.tags[high] < s.tags[low]
    ensures !PublishedInOrder(s)
  {
    NewerIsNoAncestor(s.repo, s.tags[low], s.tags[high]);
  }
}
