// What becomes of the messages of a queue and of the lease on its job, over whole runs.
module JobFates {
  import opened Text
  import opened JobQueue

  // An invocation that received the message ended well and removed it.
  predicate Acknowledges(s: State, e: Event, m: nat) {
    e.End? && e.acknowledge && e.worker in s.workers && s.workers[e.worker].message == m
  }

  // The event at step k of the run.
  ghost predicate HappensAt(p: Params, events: seq<Event>, k: int, m: nat)
    requires 0 <= k < |events|
  {
    Run(p, events[..k]).Some? && Acknowledges(Run(p, events[..k]).value, events[k], m)
  }

  ghost predicate IsAcknowledged(p: Params, events: seq<Event>, m: nat) {
    exists k :: 0 <= k < |events| && HappensAt(p, events, k, m)
  }

  predicate IsDeadLettered(events: seq<Event>, m: nat) {
    DeadLetter(m) in events
  }

  lemma AcknowledgedOneMore(p: Params, events: seq<Event>, m: nat)
    requires events != [] && Run(p, events).Some?
    ensures var n := |events| - 1;
            IsAcknowledged(p, events, m)
            <==> IsAcknowledged(p, events[..n], m) || Acknowledges(Run(p, events[..n]).value, events[n], m)
  {
    var n := |events| - 1;
    forall k | 0 <= k < n ensures HappensAt(p, events, k, m) <==> HappensAt(p, events[..n], k, m) {
      assert events[..n][..k] == events[..k];
    }
    assert HappensAt(p, events, n, m) <==> Acknowledges(Run(p, events[..n]).value, events[n], m);
  }

  lemma DeadOneMore(events: seq<Event>, m: nat)
    requires events != []
    ensures IsDeadLettered(events, m)
            <==> IsDeadLettered(events[..|events| - 1], m) || events[|events| - 1] == DeadLetter(m)
  {
    assert events == events[..|events| - 1] + [events[|events| - 1]];
  }

  // No message is lost: in every run, what was sent is on the queue exactly until it is acknowledged or
  // dead-lettered, and what was dead-lettered stays so.
  lemma {:induction false} NothingIsLost(p: Params, events: seq<Event>, m: nat)
    requires Run(p, events).Some?
    ensures var s := Run(p, events).value;
            && (m in s.messages <==> m < s.sent && !IsDeadLettered(events, m) && !IsAcknowledged(p, events, m))
            && (m in s.dead <==> IsDeadLettered(events, m))
            && (IsDeadLettered(events, m) || IsAcknowledged(p, events, m) ==> m < s.sent)
  {
    if events != [] {
      var n := |events| - 1;
      var before := Run(p, events[..n]).value;
      NothingIsLost(p, events[..n], m);
      AcknowledgedOneMore(p, events, m);
      DeadOneMore(events, m);
      RunKeepsTimes(p, events[..n]);
      FateStep(p, before, events[n], m);
    }
  }

  lemma FateStep(p: Params, s: State, e: Event, m: nat)
    requires Ids(s) && Step(p, s, e).Some?
    ensures var s' := Step(p, s, e).value;
            && (m in s'.messages <==>
                  (m in s.messages || (e.Send? && m == s.sent)) && e != DeadLetter(m) && !Acknowledges(s, e, m))
            && (m in s'.dead <==> m in s.dead || e == DeadLetter(m))
            && s'.sent == s.sent + (if e.Send? then 1 else 0)
            && (e == DeadLetter(m) || Acknowledges(s, e, m) ==> m < s.sent)
  {
  }

  // The lease

  predicate Takes(p: Params, e: Event, until: nat) {
    e.Acquire? && until == e.at + p.lease
  }

  predicate GivesUp(s: State, e: Event, until: nat) {
    e.Commit? && e.worker in s.workers && s.workers[e.worker].phase == Leased(until)
  }

  // Step k took the lease; since then no one took it and its worker did not commit.
  ghost predicate IsHeldSince(p: Params, events: seq<Event>, k: int, until: nat) {
    && 0 <= k < |events| && Takes(p, events[k], until)
    && forall j :: k < j < |events| ==> !events[j].Acquire? && Run(p, events[..j]).Some?
                                        && !GivesUp(Run(p, events[..j]).value, events[j], until)
  }

  lemma HeldOneMore(p: Params, events: seq<Event>, k: int, until: nat)
    requires events != [] && Run(p, events).Some? && k < |events| - 1
    ensures var n := |events| - 1;
            IsHeldSince(p, events, k, until)
            <==> && IsHeldSince(p, events[..n], k, until) && !events[n].Acquire?
                 && !GivesUp(Run(p, events[..n]).value, events[n], until)
  {
    var n := |events| - 1;
    forall j | 0 <= j < n ensures events[..n][..j] == events[..j] && events[..n][j] == events[j] {
    }
  }

  // Whatever happens, the job is leased exactly as the last worker to take the lease has left it: a lease is
  // given up by no one but the worker that took it, and only when that commits.
  lemma {:induction false} LeaseExactly(p: Params, events: seq<Event>, until: nat)
    requires Run(p, events).Some?
    ensures Run(p, events).value.lease == Some(until) <==> exists k :: IsHeldSince(p, events, k, until)
  {
    if events != [] {
      var n := |events| - 1;
      LeaseExactly(p, events[..n], until);
      forall k | k < n
        ensures IsHeldSince(p, events, k, until)
                <==> && IsHeldSince(p, events[..n], k, until) && !events[n].Acquire?
                     && !GivesUp(Run(p, events[..n]).value, events[n], until)
      {
        HeldOneMore(p, events, k, until);
      }
      assert IsHeldSince(p, events, n, until) <==> Takes(p, events[n], until);
      LeaseStep(p, Run(p, events[..n]).value, events[n], until);
    }
  }

  lemma LeaseStep(p: Params, s: State, e: Event, until: nat)
    requires Step(p, s, e).Some?
    ensures Step(p, s, e).value.lease == Some(until)
            <==> Takes(p, e, until) || (s.lease == Some(until) && !e.Acquire? && !GivesUp(s, e, until))
  {
  }
}
