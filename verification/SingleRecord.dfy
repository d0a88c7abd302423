// infra/constants.ts, SINGLE_RECORD_BATCH: why a handler that reads only the first record of a
// delivery must not be handed more than one.
module SingleRecord {
  import opened Text

  // `size` is the batch size of the event source mapping, `retry` how often a message is received
  // before it is dead-lettered.
  datatype Params = Params(size: nat, retry: nat)

  const SINGLE := 1
  const SQS_DEFAULT := 10

  type Message = nat

  // `deleted` are the messages SQS took for processed although no handler read them.
  datatype State = State(sent: set<Message>, waiting: set<Message>, inFlight: set<seq<Message>>,
                         handled: set<Message>, dead: set<Message>, deleted: set<Message>,
                         receives: map<Message, nat>)

  const START := State({}, {}, {}, {}, {}, {}, map[])

  datatype Event =
    | Send(message: Message)
    | Deliver(batch: seq<Message>)
    | Succeed(batch: seq<Message>)
    | Fail(batch: seq<Message>)
    | DeadLetter(message: Message)

  function Members(batch: seq<Message>): set<Message> {
    set m | m in batch
  }

  function Flying(s: State): set<Message> {
    set b, m | b in s.inFlight && m in b :: m
  }

  predicate IsBatch(p: Params, s: State, batch: seq<Message>) {
    && 0 < |batch| <= p.size
    && (forall i, j :: 0 <= i < j < |batch| ==> batch[i] != batch[j])
    && forall m :: m in batch ==> m in s.waiting && m in s.receives && s.receives[m] < p.retry
  }

  function Step(p: Params, s: State, e: Event): Option<State> {
    match e
    case Send(m) =>
      if m in s.sent then None
      else Some(s.(sent := s.sent + {m}, waiting := s.waiting + {m}, receives := s.receives[m := 0]))
    case Deliver(batch) =>
      if !IsBatch(p, s, batch) then None
      else
        Some(s.(waiting := s.waiting - Members(batch), inFlight := s.inFlight + {batch},
                receives := map m | m in s.receives :: if m in batch then s.receives[m] + 1 else s.receives[m]))
    case Succeed(batch) =>
      if batch !in s.inFlight || batch == [] then None
      else
        // The handler read record 0; SQS deletes them all.
        Some(s.(inFlight := s.inFlight - {batch}, handled := s.handled + {batch[0]},
                deleted := s.deleted + Members(batch[1..])))
    case Fail(batch) =>
      if batch !in s.inFlight then None
      else Some(s.(inFlight := s.inFlight - {batch}, waiting := s.waiting + Members(batch)))
    case DeadLetter(m) =>
      if m !in s.waiting || m !in s.receives || s.receives[m] < p.retry then None
      else Some(s.(waiting := s.waiting - {m}, dead := s.dead + {m}))
  }

  function Run(p: Params, events: seq<Event>): Option<State> {
    if events == [] then Some(START)
    else
      var before :- Run(p, events[..|events| - 1]);
      Step(p, before, events[|events| - 1])
  }

  ghost predicate Reachable(p: Params, s: State) {
    exists events :: Run(p, events) == Some(s)
  }

  // Every message sent is in exactly one place.
  ghost predicate Partitioned(s: State) {
    && s.sent == s.waiting + Flying(s) + s.handled + s.dead + s.deleted
    && s.waiting !! Flying(s) !! s.handled !! s.dead !! s.deleted
    && (forall b, c, m :: b in s.inFlight && c in s.inFlight && m in b && m in c ==> b == c)
    && (forall b, i, j :: b in s.inFlight && 0 <= i < j < |b| ==> b[i] != b[j])
  }

  ghost predicate Counted(p: Params, s: State) {
    s.receives.Keys == s.sent && forall m :: m in s.sent ==> s.receives[m] <= p.retry
  }

  ghost predicate Bounded(p: Params, s: State) {
    forall b :: b in s.inFlight ==> 0 < |b| <= p.size
  }

  lemma SendKeepsPlaces(p: Params, s: State, m: Message)
    requires Partitioned(s) && Step(p, s, Send(m)).Some?
    ensures Partitioned(Step(p, s, Send(m)).value)
  {
  }

  lemma DeliverKeepsPlaces(p: Params, s: State, batch: seq<Message>)
    requires Partitioned(s) && Step(p, s, Deliver(batch)).Some?
    ensures Partitioned(Step(p, s, Deliver(batch)).value)
  {
    var s' := Step(p, s, Deliver(batch)).value;
    assert Flying(s') == Flying(s) + Members(batch);
    assert Members(batch) <= s.waiting;
    forall b, m | b in s.inFlight && m in b ensures m !in batch {
      assert m in Flying(s);
    }
  }

  lemma LandingBatch(s: State, batch: seq<Message>)
    requires Partitioned(s) && batch in s.inFlight
    ensures Flying(s) == Flying(s.(inFlight := s.inFlight - {batch})) + Members(batch)
    ensures Flying(s.(inFlight := s.inFlight - {batch})) !! Members(batch)
  {
    forall m | m in Members(batch) ensures m in Flying(s) {
    }
  }

  lemma SucceedKeepsPlaces(p: Params, s: State, batch: seq<Message>)
    requires Partitioned(s) && Step(p, s, Succeed(batch)).Some?
    ensures Partitioned(Step(p, s, Succeed(batch)).value)
  {
    LandingBatch(s, batch);
    assert batch == [batch[0]] + batch[1..];
    assert Members(batch) == {batch[0]} + Members(batch[1..]);
    forall m | m in Members(batch[1..]) ensures m != batch[0] {
      var i :| 0 <= i < |batch[1..]| && batch[1..][i] == m;
      assert batch[i + 1] == m;
    }
    assert Flying(Step(p, s, Succeed(batch)).value) == Flying(s.(inFlight := s.inFlight - {batch}));
  }

  lemma FailKeepsPlaces(p: Params, s: State, batch: seq<Message>)
    requires Partitioned(s) && Step(p, s, Fail(batch)).Some?
    ensures Partitioned(Step(p, s, Fail(batch)).value)
  {
    LandingBatch(s, batch);
    assert Flying(Step(p, s, Fail(batch)).value) == Flying(s.(inFlight := s.inFlight - {batch}));
  }

  lemma StepKeepsPlaces(p: Params, s: State, e: Event)
    requires Partitioned(s) && Step(p, s, e).Some?
    ensures Partitioned(Step(p, s, e).value)
  {
    match e
    case Send(m) => SendKeepsPlaces(p, s, m);
    case Deliver(batch) => DeliverKeepsPlaces(p, s, batch);
    case Succeed(batch) => SucceedKeepsPlaces(p, s, batch);
    case Fail(batch) => FailKeepsPlaces(p, s, batch);
    case DeadLetter(m) =>
      assert Flying(Step(p, s, e).value) == Flying(s);
  }

  lemma StepKeepsCounts(p: Params, s: State, e: Event)
    requires Partitioned(s) && Counted(p, s) && Bounded(p, s) && Step(p, s, e).Some?
    ensures Counted(p, Step(p, s, e).value) && Bounded(p, Step(p, s, e).value)
    ensures p.size <= 1 && s.deleted == {} ==> Step(p, s, e).value.deleted == {}
  {
    if e.Succeed? && p.size <= 1 {
      assert |e.batch| == 1 && e.batch[1..] == [];
    }
  }

  // Nothing a handler was sent is lost track of, and nothing is received more often than it may be.
  lemma {:induction false} MessagesAreConserved(p: Params, events: seq<Event>)
    requires Run(p, events).Some?
    ensures var s := Run(p, events).value;
            && Partitioned(s) && Counted(p, s) && Bounded(p, s)
            && (p.size <= 1 ==> s.deleted == {})
  {
    if events != [] {
      MessagesAreConserved(p, events[..|events| - 1]);
      var before := Run(p, events[..|events| - 1]).value;
      StepKeepsPlaces(p, before, events[|events| - 1]);
      StepKeepsCounts(p, before, events[|events| - 1]);
    }
  }

  lemma StepReaches(p: Params, s: State, e: Event)
    requires Reachable(p, s) && Step(p, s, e).Some?
    ensures Reachable(p, Step(p, s, e).value)
  {
    var events :| Run(p, events) == Some(s);
    assert (events + [e])[..|events|] == events;
    assert Run(p, events + [e]) == Step(p, s, e);
  }

  // With more than one record to a batch, two messages are enough to lose one.
  lemma SecondRecordIsLost(p: Params)
    requires p.size > 1 && p.retry > 0
    ensures exists s :: Reachable(p, s) && s.deleted != {}
  {
    assert Run(p, []) == Some(START);
    StepReaches(p, START, Send(0));
    var s1 := Step(p, START, Send(0)).value;
    StepReaches(p, s1, Send(1));
    var s2 := Step(p, s1, Send(1)).value;
    assert IsBatch(p, s2, [0, 1]);
    StepReaches(p, s2, Deliver([0, 1]));
    var s3 := Step(p, s2, Deliver([0, 1])).value;
    StepReaches(p, s3, Succeed([0, 1]));
    var s4 := Step(p, s3, Succeed([0, 1])).value;
    assert [0, 1][1..] == [1] && 1 in Members([1]);
    assert 1 in s4.deleted;
  }

  // Handlers of the first record lose nothing, exactly if batches hold one record.
  lemma NothingIsLostExactly(p: Params)
    requires p.retry > 0
    ensures (forall s :: Reachable(p, s) ==> s.deleted == {}) <==> p.size <= SINGLE
  {
    if p.size <= 1 {
      forall s | Reachable(p, s) ensures s.deleted == {} {
        var events :| Run(p, events) == Some(s);
        MessagesAreConserved(p, events);
      }
    } else {
      SecondRecordIsLost(p);
    }
  }

  // The size SQS defaults to loses messages, whatever the retries.
  lemma DefaultBatchLoses(retry: nat)
    requires retry > 0
    ensures exists s :: Reachable(Params(SQS_DEFAULT, retry), s) && s.deleted != {}
  {
    SecondRecordIsLost(Params(SQS_DEFAULT, retry));
  }
}
