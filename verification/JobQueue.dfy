// infra/queues.ts: one SQS queue, the Lambda that reads it one message at a time, and the lease its
// handler takes on the job, as a timed system. Times are milliseconds.
module JobQueue {
  import opened Text

  // `startLag` bounds the time between a receive and the start of the invocation it causes;
  // `hardKill` says whether an invocation is stopped when its timeout is over.
  datatype Params = Params(timeout: nat, lease: nat, visibility: nat, retry: nat, startLag: nat, hardKill: bool)

  const SECOND := 1000
  const MINUTE := 60 * SECOND

  // The generation-job queue on Lambda, and as the self-host runner serves it.
  function Generation(startLag: nat): Params { Params(5 * MINUTE, 5 * MINUTE + 30 * SECOND, 6 * MINUTE, 5, startLag, true) }
  function SelfHosted(): Params { Generation(0).(hardKill := false) }

  // The GitHub revoke queue; its handler takes no lease.
  function Revoke(startLag: nat): Params { Params(10 * MINUTE, 0, 12 * MINUTE, 7, startLag, true) }
  const CLAIM_STALE := 60 * MINUTE

  // `received` logs when the message was received; it is hidden until `visibleAt`.
  datatype Message = Message(visibleAt: nat, received: seq<nat>)

  datatype Phase = Delivered | Running | Leased(until: nat) | Committed

  // An invocation. `startedAt` means nothing while it is only delivered.
  datatype Worker = Worker(message: nat, receivedAt: nat, startedAt: nat, phase: Phase)

  // One job: its messages, invocations and lease. Ids are never used twice.
  datatype State = State(now: nat, messages: map<nat, Message>, dead: map<nat, seq<nat>>,
                         workers: map<nat, Worker>, lease: Option<nat>, sent: nat, invoked: nat)

  const START := State(0, map[], map[], map[], None, 0, 0)

  datatype Event =
    | Tick(time: nat)
    | Send(delay: nat)
    | Receive(message: nat)
    | DeadLetter(message: nat)
    | Begin(worker: nat)
    | Acquire(worker: nat, at: nat)
    | Commit(worker: nat)
    | End(worker: nat, acknowledge: bool)

  predicate IsVisible(s: State, m: nat) {
    m in s.messages && s.messages[m].visibleAt <= s.now
  }

  // Delivered messages start in time, and the platform stops what runs too long.
  predicate MayRunAt(p: Params, w: Worker, now: nat) {
    if w.phase.Delivered? then now <= w.receivedAt + p.startLag
    else p.hardKill ==> now <= w.startedAt + p.timeout
  }

  // `unleased(now)`: no lease, or one that ended before the time read.
  predicate IsFree(s: State, at: nat) {
    s.lease.None? || s.lease.value < at
  }

  function Step(p: Params, s: State, e: Event): Option<State> {
    match e
    case Tick(time) =>
      if forall w :: w in s.workers ==> MayRunAt(p, s.workers[w], s.now + time) then Some(s.(now := s.now + time)) else None
    case Send(delay) =>
      Some(s.(messages := s.messages[s.sent := Message(s.now + delay, [])], sent := s.sent + 1))
    case Receive(m) =>
      if IsVisible(s, m) && |s.messages[m].received| < p.retry then
        Some(s.(messages := s.messages[m := Message(s.now + p.visibility, s.messages[m].received + [s.now])],
                workers := s.workers[s.invoked := Worker(m, s.now, 0, Delivered)], invoked := s.invoked + 1))
      else None
    case DeadLetter(m) =>
      if IsVisible(s, m) && |s.messages[m].received| >= p.retry then
        Some(s.(messages := s.messages - {m}, dead := s.dead[m := s.messages[m].received]))
      else None
    case Begin(w) =>
      if w in s.workers && s.workers[w].phase.Delivered? then
        Some(s.(workers := s.workers[w := s.workers[w].(startedAt := s.now, phase := Running)]))
      else None
    case Acquire(w, at) =>
      if w in s.workers && s.workers[w].phase.Running? && s.workers[w].startedAt <= at <= s.now && IsFree(s, at) then
        Some(s.(lease := Some(at + p.lease), workers := s.workers[w := s.workers[w].(phase := Leased(at + p.lease))]))
      else None
    case Commit(w) =>
      if w in s.workers && s.workers[w].phase.Leased? then
        Some(s.(lease := if s.lease == Some(s.workers[w].phase.until) then None else s.lease,
                workers := s.workers[w := s.workers[w].(phase := Committed)]))
      else None
    case End(w, acknowledge) =>
      if w in s.workers then
        Some(s.(workers := s.workers - {w},
                messages := if acknowledge then s.messages - {s.workers[w].message} else s.messages))
      else None
  }

  function Run(p: Params, events: seq<Event>): Option<State> {
    if events == [] then Some(START)
    else
      var before :- Run(p, events[..|events| - 1]);
      Step(p, before, events[|events| - 1])
  }

  ghost predicate Reachable(p: Params, s: State) {
    exists events :: Run(p, events) == Some(s)
  }

  lemma StepReaches(p: Params, s: State, e: Event)
    requires Reachable(p, s) && Step(p, s, e).Some?
    ensures Reachable(p, Step(p, s, e).value)
  {
    var events :| Run(p, events) == Some(s);
    OneMoreEvent(p, events, s, e, Step(p, s, e).value);
  }

  lemma OneMoreEvent(p: Params, events: seq<Event>, s: State, e: Event, s': State)
    requires Run(p, events) == Some(s) && Step(p, s, e) == Some(s')
    ensures Run(p, events + [e]) == Some(s')
  {
    assert (events + [e])[..|events|] == events;
  }

  lemma StartReaches(p: Params)
    ensures Reachable(p, START)
  {
    assert Run(p, []) == Some(START);
  }

  // What the comments promise

  // At most one worker is on the job.
  ghost predicate OneWorker(s: State) {
    forall v, w :: v in s.workers && w in s.workers && s.workers[v].phase.Leased? && s.workers[w].phase.Leased? ==> v == w
  }

  // The message of a running invocation is not up for delivery again.
  ghost predicate NoRedelivery(s: State) {
    forall w :: w in s.workers && !s.workers[w].phase.Delivered? ==> !IsVisible(s, s.workers[w].message)
  }

  // Invariants

  ghost predicate Ids(s: State) {
    && (forall m :: m in s.messages ==> m < s.sent)
    && (forall m :: m in s.dead ==> m < s.sent)
    && (forall w :: w in s.workers ==> w < s.invoked && s.workers[w].message < s.sent)
  }

  ghost predicate Timely(p: Params, s: State) {
    forall w :: w in s.workers ==>
      && MayRunAt(p, s.workers[w], s.now)
      && s.workers[w].receivedAt <= s.now
      && (!s.workers[w].phase.Delivered? ==>
            s.workers[w].receivedAt <= s.workers[w].startedAt <= s.workers[w].receivedAt + p.startLag)
  }

  ghost predicate Hidden(p: Params, s: State) {
    forall w :: w in s.workers && s.workers[w].message in s.messages ==>
      s.workers[w].receivedAt + p.visibility <= s.messages[s.workers[w].message].visibleAt
  }

  ghost predicate LeaseIsHeld(p: Params, s: State) {
    forall w :: w in s.workers && s.workers[w].phase.Leased? ==>
      s.lease == Some(s.workers[w].phase.until) && s.workers[w].startedAt + p.lease <= s.workers[w].phase.until
  }

  // The receives of one message are a visibility timeout apart.
  ghost predicate Spaced(p: Params, received: seq<nat>) {
    forall k :: 0 < k < |received| ==> Apart(p, received, k)
  }

  ghost predicate Apart(p: Params, received: seq<nat>, k: int)
    requires 0 < k < |received|
  {
    received[k - 1] + p.visibility <= received[k]
  }

  ghost predicate MessageLogged(p: Params, message: Message) {
    && |message.received| <= p.retry && Spaced(p, message.received)
    && (message.received != [] ==> message.received[|message.received| - 1] + p.visibility <= message.visibleAt)
  }

  ghost predicate Logged(p: Params, s: State) {
    && (forall m :: m in s.messages ==> MessageLogged(p, s.messages[m]))
    && (forall m :: m in s.dead ==> |s.dead[m]| == p.retry && Spaced(p, s.dead[m]))
  }

  lemma StepKeepsIds(p: Params, s: State, e: Event)
    requires Ids(s) && Step(p, s, e).Some?
    ensures Ids(Step(p, s, e).value)
  {
  }

  lemma StepKeepsTimely(p: Params, s: State, e: Event)
    requires Timely(p, s) && Step(p, s, e).Some?
    ensures Timely(p, Step(p, s, e).value)
  {
  }

  lemma StepKeepsHidden(p: Params, s: State, e: Event)
    requires Ids(s) && Timely(p, s) && Hidden(p, s) && Step(p, s, e).Some?
    ensures Hidden(p, Step(p, s, e).value)
  {
  }

  lemma OneMoreReceive(p: Params, received: seq<nat>, now: nat)
    requires Spaced(p, received) && (received != [] ==> received[|received| - 1] + p.visibility <= now)
    ensures Spaced(p, received + [now])
  {
    var longer := received + [now];
    forall k | 0 < k < |longer| ensures Apart(p, longer, k) {
      if k < |received| { assert Apart(p, received, k); }
    }
  }

  lemma ReceiveKeepsLog(p: Params, s: State, m: nat)
    requires Logged(p, s) && Step(p, s, Receive(m)).Some?
    ensures Logged(p, Step(p, s, Receive(m)).value)
  {
    OneMoreReceive(p, s.messages[m].received, s.now);
  }

  lemma StepKeepsLog(p: Params, s: State, e: Event)
    requires Logged(p, s) && Step(p, s, e).Some?
    ensures Logged(p, Step(p, s, e).value)
  {
    if e.Receive? {
      ReceiveKeepsLog(p, s, e.message);
    } else if e.DeadLetter? {
      DeadLetterKeepsLog(p, s, e.message);
    } else {
      OtherKeepsLog(p, s, e);
    }
  }

  lemma DeadLetterKeepsLog(p: Params, s: State, m: nat)
    requires Logged(p, s) && Step(p, s, DeadLetter(m)).Some?
    ensures Logged(p, Step(p, s, DeadLetter(m)).value)
  {
    assert |s.messages[m].received| == p.retry && Spaced(p, s.messages[m].received);
  }

  lemma OtherKeepsLog(p: Params, s: State, e: Event)
    requires Logged(p, s) && Step(p, s, e).Some? && !e.Receive? && !e.DeadLetter?
    ensures Logged(p, Step(p, s, e).value)
  {
    var s' := Step(p, s, e).value;
    forall m | m in s'.messages ensures MessageLogged(p, s'.messages[m]) {
      if m in s.messages && s'.messages[m] == s.messages[m] {
        assert MessageLogged(p, s.messages[m]);
      }
    }
  }

  lemma StepKeepsLease(p: Params, s: State, e: Event)
    requires p.hardKill && p.timeout <= p.lease
    requires Timely(p, s) && LeaseIsHeld(p, s) && OneWorker(s) && Step(p, s, e).Some?
    ensures LeaseIsHeld(p, Step(p, s, e).value) && OneWorker(Step(p, s, e).value)
  {
  }

  lemma {:induction false} RunKeepsTimes(p: Params, events: seq<Event>)
    requires Run(p, events).Some?
    ensures var s := Run(p, events).value;
            Ids(s) && Timely(p, s) && Hidden(p, s) && Logged(p, s)
  {
    if events != [] {
      RunKeepsTimes(p, events[..|events| - 1]);
      var before := Run(p, events[..|events| - 1]).value;
      StepKeepsIds(p, before, events[|events| - 1]);
      StepKeepsTimely(p, before, events[|events| - 1]);
      StepKeepsHidden(p, before, events[|events| - 1]);
      StepKeepsLog(p, before, events[|events| - 1]);
    }
  }

  lemma {:induction false} RunKeepsLease(p: Params, events: seq<Event>)
    requires p.hardKill && p.timeout <= p.lease && Run(p, events).Some?
    ensures LeaseIsHeld(p, Run(p, events).value) && OneWorker(Run(p, events).value)
  {
    if events != [] {
      RunKeepsLease(p, events[..|events| - 1]);
      RunKeepsTimes(p, events[..|events| - 1]);
      StepKeepsLease(p, Run(p, events[..|events| - 1]).value, events[|events| - 1]);
    }
  }

  // Mutual exclusion

  lemma TwoWorkers(p: Params)
    requires p.retry > 0 && !(p.hardKill && p.timeout <= p.lease)
    ensures exists s :: Reachable(p, s) && !OneWorker(s)
  {
    StartReaches(p);
    var s1 := Take(p, START, Send(0));
    var s2 := Take(p, s1, Send(0));
    var s3 := Take(p, s2, Receive(0));
    var s4 := Take(p, s3, Begin(0));
    var s5 := Take(p, s4, Acquire(0, 0));
    var s6 := Take(p, s5, Tick(p.lease + 1));
    var s7 := Take(p, s6, Receive(1));
    var s8 := Take(p, s7, Begin(1));
    var s9 := Take(p, s8, Acquire(1, p.lease + 1));
    assert s9.workers[0].phase.Leased? && s9.workers[1].phase.Leased?;
  }

  lemma Take(p: Params, s: State, e: Event) returns (s': State)
    requires Reachable(p, s) && Step(p, s, e).Some?
    ensures Some(s') == Step(p, s, e) && Reachable(p, s')
  {
    s' := Step(p, s, e).value;
    StepReaches(p, s, e);
  }

  // At most one worker is ever on the job, exactly if invocations are killed and the timeout does not
  // outlast the lease: duplicates and early sweeps included.
  lemma OneWorkerExactly(p: Params)
    requires p.retry > 0
    ensures (forall s :: Reachable(p, s) ==> OneWorker(s)) <==> p.hardKill && p.timeout <= p.lease
  {
    if p.hardKill && p.timeout <= p.lease {
      forall s | Reachable(p, s) ensures OneWorker(s) {
        var events :| Run(p, events) == Some(s);
        RunKeepsLease(p, events);
      }
    } else {
      TwoWorkers(p);
    }
  }

  // Redelivery

  lemma TimelyIsHidden(p: Params, s: State)
    requires p.hardKill && p.startLag + p.timeout < p.visibility
    requires Timely(p, s) && Hidden(p, s)
    ensures NoRedelivery(s)
  {
  }

  lemma Redelivered(p: Params)
    requires p.retry > 0 && !(p.hardKill && p.startLag + p.timeout < p.visibility)
    ensures exists s :: Reachable(p, s) && !NoRedelivery(s)
  {
    StartReaches(p);
    var s1 := Take(p, START, Send(0));
    var s2 := Take(p, s1, Receive(0));
    var s3 := Take(p, s2, Tick(p.startLag));
    var s4 := Take(p, s3, Begin(0));
    var s5 := Take(p, s4, Tick(if p.hardKill then p.timeout else p.visibility));
    assert IsVisible(s5, s5.workers[0].message);
  }

  // A running step is never redelivered, exactly if invocations are killed and the visibility timeout
  // covers the start lag and the timeout.
  lemma NoRedeliveryExactly(p: Params)
    requires p.retry > 0
    ensures (forall s :: Reachable(p, s) ==> NoRedelivery(s)) <==> p.hardKill && p.startLag + p.timeout < p.visibility
  {
    if p.hardKill && p.startLag + p.timeout < p.visibility {
      forall s | Reachable(p, s) ensures NoRedelivery(s) {
        var events :| Run(p, events) == Some(s);
        RunKeepsTimes(p, events);
        TimelyIsHidden(p, s);
      }
    } else {
      Redelivered(p);
    }
  }

  // The generation queue is safe exactly if an invocation starts within the minute between its timeout and the
  // visibility timeout. Without a hard kill it is not, whatever the timings.
  lemma GenerationExactly(startLag: nat)
    ensures (forall s :: Reachable(Generation(startLag), s) ==> OneWorker(s) && NoRedelivery(s)) <==> startLag < 60_000
  {
    OneWorkerExactly(Generation(startLag));
    NoRedeliveryExactly(Generation(startLag));
  }

  lemma SelfHostedIsNot()
    ensures exists s :: Reachable(SelfHosted(), s) && !OneWorker(s)
    ensures exists s :: Reachable(SelfHosted(), s) && !NoRedelivery(s)
  {
    TwoWorkers(SelfHosted());
    Redelivered(SelfHosted());
  }

  // Retries

  lemma {:induction false} SpacedAdds(p: Params, received: seq<nat>, k: nat)
    requires Spaced(p, received) && k < |received|
    ensures received[0] + k * p.visibility <= received[k]
  {
    if k > 0 {
      SpacedAdds(p, received, k - 1);
      assert Apart(p, received, k);
      assert k * p.visibility == (k - 1) * p.visibility + p.visibility;
    }
  }

  // The k-th receive comes no earlier than k - 1 visibility timeouts after the first.
  lemma ReceivesAreSpaced(p: Params, s: State, m: nat, k: nat)
    requires Reachable(p, s)
    ensures m in s.messages && k < |s.messages[m].received| ==>
              s.messages[m].received[0] + k * p.visibility <= s.messages[m].received[k] && |s.messages[m].received| <= p.retry
    ensures m in s.dead && k < |s.dead[m]| ==>
              s.dead[m][0] + k * p.visibility <= s.dead[m][k] && |s.dead[m]| == p.retry
  {
    var events :| Run(p, events) == Some(s);
    RunKeepsTimes(p, events);
    if m in s.messages && k < |s.messages[m].received| { SpacedAdds(p, s.messages[m].received, k); }
    if m in s.dead && k < |s.dead[m]| { SpacedAdds(p, s.dead[m], k); }
  }

  // Some receive of every dead-lettered message came `stale` or more after its first.
  ghost predicate OutlivesClaims(p: Params, stale: nat) {
    forall s, m :: Reachable(p, s) && m in s.dead ==> exists k :: 0 <= k < |s.dead[m]| && s.dead[m][0] + stale <= s.dead[m][k]
  }

  function Multiples(n: nat, step: nat): (times: seq<nat>)
    ensures |times| == n && forall i :: 0 <= i < n ==> times[i] == i * step
  {
    if n == 0 then [] else Multiples(n - 1, step) + [(n - 1) * step]
  }

  // A message received as early as it can be, k times, with nothing acknowledged.
  lemma {:induction false} FastRetries(p: Params, k: nat) returns (s: State)
    requires k <= p.retry
    ensures Reachable(p, s) && s.now == k * p.visibility && s.workers == map[] && s.dead == map[]
    ensures s.messages == map[0 := Message(k * p.visibility, Multiples(k, p.visibility))]
  {
    if k == 0 {
      StartReaches(p);
      s := Take(p, START, Send(0));
    } else {
      var s0 := FastRetries(p, k - 1);
      var s1 := Take(p, s0, Receive(0));
      var s2 := Take(p, s1, End(s0.invoked, false));
      assert s2.workers == map[];
      s := Take(p, s2, Tick(p.visibility));
      assert k * p.visibility == (k - 1) * p.visibility + p.visibility;
    }
  }

  lemma LastReceiveIsLate(p: Params, stale: nat, s: State, m: nat)
    requires p.retry > 0 && stale <= (p.retry - 1) * p.visibility && Reachable(p, s) && m in s.dead
    ensures exists k :: 0 <= k < |s.dead[m]| && s.dead[m][0] + stale <= s.dead[m][k]
  {
    var events :| Run(p, events) == Some(s);
    RunKeepsTimes(p, events);
    ReceivesAreSpaced(p, s, m, p.retry - 1);
    assert s.dead[m][0] + stale <= s.dead[m][p.retry - 1];
  }

  lemma Product(a: nat, b: nat, c: nat)
    requires a <= b
    ensures a * c <= b * c
  {
  }

  lemma FastRetriesFallShort(p: Params, stale: nat)
    requires p.retry > 0 && (p.retry - 1) * p.visibility < stale
    ensures !OutlivesClaims(p, stale)
  {
    var s := FastRetries(p, p.retry);
    var t := Take(p, s, DeadLetter(0));
    var times := Multiples(p.retry, p.visibility);
    forall k | 0 <= k < |times| ensures times[k] < times[0] + stale {
      Product(k, p.retry - 1, p.visibility);
    }
    assert 0 in t.dead && t.dead[0] == times;
  }

  // The last receive is past any claim taken before the first and not renewed since, exactly if
  // retry - 1 visibility timeouts reach that far.
  lemma OutlivesClaimsExactly(p: Params, stale: nat)
    requires p.retry > 0
    ensures OutlivesClaims(p, stale) <==> stale <= (p.retry - 1) * p.visibility
  {
    if stale <= (p.retry - 1) * p.visibility {
      forall s, m | Reachable(p, s) && m in s.dead
        ensures exists k :: 0 <= k < |s.dead[m]| && s.dead[m][0] + stale <= s.dead[m][k]
      {
        LastReceiveIsLate(p, stale, s, m);
      }
    } else {
      FastRetriesFallShort(p, stale);
    }
  }

  // Seven receives, 72 minutes, against claims that go stale after 60.
  lemma RevokeOutlivesClaims(startLag: nat)
    ensures OutlivesClaims(Revoke(startLag), CLAIM_STALE)
  {
    OutlivesClaimsExactly(Revoke(startLag), CLAIM_STALE);
  }
}
