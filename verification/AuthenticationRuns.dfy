/** All interleavings of the interceptor's steps. */
module AuthenticationRuns {
  import opened Wrappers
  import opened AuthenticationInterceptor

  /** A call of a completion. */
  datatype Call = Call(caller: Caller, outcome: Outcome)

  /** The interceptor together with its callers: retries between their two steps, completions that are about to be
      called, and those that have been; and the history of what was issued, deferred and replayed. */
  datatype World = World(
    state: State,
    pending: seq<(Caller, Credential)>,
    ready: seq<Call>,
    called: seq<Call>,
    clock: real,
    issued: seq<Caller>,
    deferredAdapts: seq<Caller>,
    replayedAdapts: seq<Caller>,
    deferredRetries: seq<Caller>,
    replayedRetries: seq<Caller>)

  datatype Step =
    | Adapt(n: nat, requiresRefresh: bool, checked: real, recorded: real)
    | RetrySnapshot(n: nat, hasResponse: bool, authError: bool, current: bool)
    | RetryEnqueue(k: nat, checked: real, recorded: real)
    | RefreshCompletes(k: nat, result: Option<Credential>, code: int)
    | RunItem(requiresRefresh: bool, checked: real, recorded: real)
    | CallCompletion(k: nat)
    | SetCredential(credential: Option<Credential>)
    | Tick(time: real)

  function Initial(credential: Option<Credential>, window: Option<RefreshWindow>, clock: real): World {
    World(State(credential, false, [], window, [], [], [], []), [], [], [], clock, [], [], [], [], [])
  }

  function Remove<T>(s: seq<T>, k: nat): seq<T>
    requires k < |s|
  {
    s[..k] + s[k + 1..]
  }

  // ----- Steps -----

  /** A caller has passed the locked part of adapt: it waits, or its completion is about to be called. */
  function AdaptStep(w: World, caller: Caller, requiresRefresh: bool, checked: real, recorded: real): World {
    var (s, result) := Adapting(w.state, caller, requiresRefresh, checked, recorded);
    if result.None? then w.(state := s, clock := recorded, deferredAdapts := w.deferredAdapts + [caller])
    else w.(state := s, clock := recorded, ready := w.ready + [Call(caller, result.value)])
  }

  function SnapshotStep(w: World, caller: Caller, hasResponse: bool, authError: bool, current: bool): World {
    var answer := RetryAnswer(w.state.credential, hasResponse, authError, current);
    if answer.None? then w.(pending := w.pending + [(caller, w.state.credential.value)])
    else w.(ready := w.ready + [Call(caller, answer.value)])
  }

  function EnqueueStep(w: World, k: nat, checked: real, recorded: real): World
    requires k < |w.pending|
  {
    var (caller, credential) := w.pending[k];
    w.(state := Enqueueing(w.state, caller, credential, checked, recorded), clock := recorded,
       pending := Remove(w.pending, k), deferredRetries := w.deferredRetries + [caller])
  }

  /** The serial queue runs its first item. */
  function ItemStep(w: World, requiresRefresh: bool, checked: real, recorded: real): World
    requires w.state.queue != []
  {
    var item, s := w.state.queue[0], Ran(w.state, requiresRefresh, checked, recorded);
    match item
    case AdaptAgain(caller) =>
      var again := Adapting(w.state.(queue := w.state.queue[1..]), caller, requiresRefresh, checked, recorded).1.None?;
      w.(state := s, clock := recorded, replayedAdapts := w.replayedAdapts + [caller],
         deferredAdapts := if again then w.deferredAdapts + [caller] else w.deferredAdapts)
    case Finish(caller, outcome) =>
      w.(state := s, called := w.called + [Call(caller, outcome)])
    case FailAdapt(caller, outcome) =>
      w.(state := s, called := w.called + [Call(caller, outcome)], replayedAdapts := w.replayedAdapts + [caller])
    case AnswerRetry(caller, outcome) =>
      w.(state := s, called := w.called + [Call(caller, outcome)], replayedRetries := w.replayedRetries + [caller])
  }

  /** Time does not run backwards. */
  predicate InOrder(w: World, checked: real, recorded: real) {
    w.clock <= checked <= recorded
  }

  /** One step, if it can be taken. */
  function Next(w: World, step: Step): Option<World> {
    match step
    case Adapt(n, requiresRefresh, checked, recorded) =>
      if InOrder(w, checked, recorded) then
        Some(AdaptStep(w.(issued := w.issued + [AdaptCaller(n)]), AdaptCaller(n), requiresRefresh, checked, recorded))
      else None
    case RetrySnapshot(n, hasResponse, authError, current) =>
      Some(SnapshotStep(w.(issued := w.issued + [RetryCaller(n)]), RetryCaller(n), hasResponse, authError, current))
    case RetryEnqueue(k, checked, recorded) =>
      if k < |w.pending| && InOrder(w, checked, recorded) then Some(EnqueueStep(w, k, checked, recorded)) else None
    case RefreshCompletes(k, result, code) =>
      if k < |w.state.refreshes| then Some(w.(state := Completed(w.state, k, result, code))) else None
    case RunItem(requiresRefresh, checked, recorded) =>
      if w.state.queue != [] && InOrder(w, checked, recorded) then Some(ItemStep(w, requiresRefresh, checked, recorded))
      else None
    case CallCompletion(k) =>
      if k < |w.ready| then Some(w.(ready := Remove(w.ready, k), called := w.called + [w.ready[k]])) else None
    case SetCredential(credential) =>
      Some(w.(state := w.state.(credential := credential)))
    case Tick(time) =>
      if w.clock <= time then Some(w.(clock := time)) else None
  }

  /** A whole run. */
  function Run(w: World, steps: seq<Step>): Option<World> {
    if steps == [] then Some(w)
    else
      match Run(w, steps[..|steps| - 1])
      case None => None
      case Some(w') => Next(w', steps[|steps| - 1])
  }

  // ----- Single flight -----

  lemma NextSingleFlight(w: World, step: Step)
    requires SingleFlight(w.state) && Next(w, step).Some?
    ensures SingleFlight(Next(w, step).value.state)
  {}

  lemma {:induction false} RunSingleFlight(credential: Option<Credential>, window: Option<RefreshWindow>, clock: real,
                                           steps: seq<Step>)
    requires Run(Initial(credential, window, clock), steps).Some?
    ensures SingleFlight(Run(Initial(credential, window, clock), steps).value.state)
  {
    if steps != [] {
      RunSingleFlight(credential, window, clock, steps[..|steps| - 1]);
      NextSingleFlight(Run(Initial(credential, window, clock), steps[..|steps| - 1]).value, steps[|steps| - 1]);
    }
  }

  // ----- Exactly-once completion -----

  function CountCalls(calls: seq<Call>, c: Caller): nat {
    if calls == [] then 0 else (if calls[0].caller == c then 1 else 0) + CountCalls(calls[1..], c)
  }

  function CountPending(pending: seq<(Caller, Credential)>, c: Caller): nat {
    if pending == [] then 0 else (if pending[0].0 == c then 1 else 0) + CountPending(pending[1..], c)
  }

  lemma {:induction false} CountCallsConcat(a: seq<Call>, b: seq<Call>, c: Caller)
    ensures CountCalls(a + b, c) == CountCalls(a, c) + CountCalls(b, c)
  {
    if a == [] {
      assert a + b == b;
    } else {
      assert (a + b)[1..] == a[1..] + b;
      CountCallsConcat(a[1..], b, c);
    }
  }

  lemma {:induction false} CountPendingConcat(a: seq<(Caller, Credential)>, b: seq<(Caller, Credential)>, c: Caller)
    ensures CountPending(a + b, c) == CountPending(a, c) + CountPending(b, c)
  {
    if a == [] {
      assert a + b == b;
    } else {
      assert (a + b)[1..] == a[1..] + b;
      CountPendingConcat(a[1..], b, c);
    }
  }

  /** How often it is anywhere: waiting, between the two steps of retry, about to be called, or called. */
  function Places(w: World, c: Caller): nat {
    Waiting(w.state, c) + CountPending(w.pending, c) + CountCalls(w.ready, c) + CountCalls(w.called, c)
  }

  lemma {:induction false} ItemConserves(w: World, requiresRefresh: bool, checked: real, recorded: real, c: Caller)
    requires w.state.queue != []
    ensures Places(ItemStep(w, requiresRefresh, checked, recorded), c) == Places(w, c)
  {
    RanWaiting(w.state, requiresRefresh, checked, recorded, c);
    var item := w.state.queue[0];
    if !item.AdaptAgain? {
      CountCallsConcat(w.called, [Call(item.caller, item.outcome)], c);
    }
  }

  lemma {:induction false} RemoveCall(calls: seq<Call>, k: nat, c: Caller)
    requires k < |calls|
    ensures CountCalls(calls, c) == CountCalls(Remove(calls, k), c) + One(calls[k].caller, c)
  {
    assert calls == calls[..k] + ([calls[k]] + calls[k + 1..]);
    CountCallsConcat(calls[..k], [calls[k]] + calls[k + 1..], c);
    CountCallsConcat([calls[k]], calls[k + 1..], c);
    CountCallsConcat(calls[..k], calls[k + 1..], c);
  }

  lemma {:induction false} RemovePending(pending: seq<(Caller, Credential)>, k: nat, c: Caller)
    requires k < |pending|
    ensures CountPending(pending, c) == CountPending(Remove(pending, k), c) + One(pending[k].0, c)
  {
    assert pending == pending[..k] + ([pending[k]] + pending[k + 1..]);
    CountPendingConcat(pending[..k], [pending[k]] + pending[k + 1..], c);
    CountPendingConcat([pending[k]], pending[k + 1..], c);
    CountPendingConcat(pending[..k], pending[k + 1..], c);
  }

  lemma {:induction false} AdaptConserves(w: World, caller: Caller, requiresRefresh: bool, checked: real,
                                          recorded: real, c: Caller)
    ensures Places(AdaptStep(w, caller, requiresRefresh, checked, recorded), c) == Places(w, c) + One(caller, c)
  {
    AdaptingWaiting(w.state, caller, requiresRefresh, checked, recorded, c);
    var (s, result) := Adapting(w.state, caller, requiresRefresh, checked, recorded);
    if result.Some? {
      CountCallsConcat(w.ready, [Call(caller, result.value)], c);
    }
  }

  lemma {:induction false} SnapshotConserves(w: World, caller: Caller, hasResponse: bool, authError: bool,
                                             current: bool, c: Caller)
    ensures Places(SnapshotStep(w, caller, hasResponse, authError, current), c) == Places(w, c) + One(caller, c)
  {
    var answer := RetryAnswer(w.state.credential, hasResponse, authError, current);
    if answer.None? {
      CountPendingConcat(w.pending, [(caller, w.state.credential.value)], c);
    } else {
      CountCallsConcat(w.ready, [Call(caller, answer.value)], c);
    }
  }

  lemma {:induction false} EnqueueConserves(w: World, k: nat, checked: real, recorded: real, c: Caller)
    requires k < |w.pending|
    ensures Places(EnqueueStep(w, k, checked, recorded), c) == Places(w, c)
  {
    RemovePending(w.pending, k, c);
    EnqueueingWaiting(w.state, w.pending[k].0, w.pending[k].1, checked, recorded, c);
  }

  lemma {:induction false} CallConserves(w: World, k: nat, c: Caller)
    requires k < |w.ready|
    ensures Places(w.(ready := Remove(w.ready, k), called := w.called + [w.ready[k]]), c) == Places(w, c)
  {
    RemoveCall(w.ready, k, c);
    CountCallsConcat(w.called, [w.ready[k]], c);
  }

  lemma {:induction false} Issuing(w: World, caller: Caller, c: Caller)
    ensures Count(w.issued + [caller], c) == Count(w.issued, c) + One(caller, c)
    ensures Places(w.(issued := w.issued + [caller]), c) == Places(w, c)
  {
    CountConcat(w.issued, [caller], c);
  }

  /** A completion is in as many places as it was issued. */
  predicate Balanced(w: World, c: Caller) {
    Places(w, c) == Count(w.issued, c)
  }

  lemma {:induction false} AdaptBalanced(w: World, n: nat, requiresRefresh: bool, checked: real, recorded: real,
                                         c: Caller)
    requires Balanced(w, c)
    ensures var before := w.(issued := w.issued + [AdaptCaller(n)]);
            Balanced(AdaptStep(before, AdaptCaller(n), requiresRefresh, checked, recorded), c)
  {
    Issuing(w, AdaptCaller(n), c);
    AdaptConserves(w.(issued := w.issued + [AdaptCaller(n)]), AdaptCaller(n), requiresRefresh, checked, recorded, c);
  }

  lemma {:induction false} SnapshotBalanced(w: World, n: nat, hasResponse: bool, authError: bool, current: bool,
                                            c: Caller)
    requires Balanced(w, c)
    ensures var before := w.(issued := w.issued + [RetryCaller(n)]);
            Balanced(SnapshotStep(before, RetryCaller(n), hasResponse, authError, current), c)
  {
    Issuing(w, RetryCaller(n), c);
    SnapshotConserves(w.(issued := w.issued + [RetryCaller(n)]), RetryCaller(n), hasResponse, authError, current, c);
  }

  lemma {:induction false} EnqueueBalanced(w: World, k: nat, checked: real, recorded: real, c: Caller)
    requires Balanced(w, c) && k < |w.pending|
    ensures Balanced(EnqueueStep(w, k, checked, recorded), c)
  {
    EnqueueConserves(w, k, checked, recorded, c);
  }

  lemma {:induction false} CompletedBalanced(w: World, k: nat, result: Option<Credential>, code: int, c: Caller)
    requires Balanced(w, c) && k < |w.state.refreshes|
    ensures Balanced(w.(state := Completed(w.state, k, result, code)), c)
  {
    CompletedWaiting(w.state, k, result, code, c);
  }

  lemma {:induction false} ItemBalanced(w: World, requiresRefresh: bool, checked: real, recorded: real, c: Caller)
    requires Balanced(w, c) && w.state.queue != []
    ensures Balanced(ItemStep(w, requiresRefresh, checked, recorded), c)
  {
    ItemConserves(w, requiresRefresh, checked, recorded, c);
  }

  lemma {:induction false} CallBalanced(w: World, k: nat, c: Caller)
    requires Balanced(w, c) && k < |w.ready|
    ensures Balanced(w.(ready := Remove(w.ready, k), called := w.called + [w.ready[k]]), c)
  {
    CallConserves(w, k, c);
  }

  /** Every step keeps each completion in as many places as it was issued. */
  lemma {:induction false} NextConserves(w: World, step: Step, c: Caller)
    requires Next(w, step).Some? && Balanced(w, c)
    ensures Balanced(Next(w, step).value, c)
  {
    match step
    case Adapt(n, requiresRefresh, checked, recorded) => AdaptBalanced(w, n, requiresRefresh, checked, recorded, c);
    case RetrySnapshot(n, hasResponse, authError, current) =>
      SnapshotBalanced(w, n, hasResponse, authError, current, c);
    case RetryEnqueue(k, checked, recorded) => EnqueueBalanced(w, k, checked, recorded, c);
    case RefreshCompletes(k, result, code) => CompletedBalanced(w, k, result, code, c);
    case RunItem(requiresRefresh, checked, recorded) => ItemBalanced(w, requiresRefresh, checked, recorded, c);
    case CallCompletion(k) => CallBalanced(w, k, c);
    case SetCredential(credential) =>
    case Tick(time) =>
  }

  /** In every run each issued completion is in exactly one place for each time it was issued; in particular it is
      never called more often. */
  lemma {:induction false} CompletedAtMostOnce(credential: Option<Credential>, window: Option<RefreshWindow>,
                                               clock: real, steps: seq<Step>, c: Caller)
    requires Run(Initial(credential, window, clock), steps).Some?
    ensures var w := Run(Initial(credential, window, clock), steps).value;
            Places(w, c) == Count(w.issued, c) && CountCalls(w.called, c) <= Count(w.issued, c)
  {
    if steps != [] {
      CompletedAtMostOnce(credential, window, clock, steps[..|steps| - 1], c);
      NextConserves(Run(Initial(credential, window, clock), steps[..|steps| - 1]).value, steps[|steps| - 1], c);
    }
  }

  /** No step other than an outside one is possible: nothing is about to happen. */
  predicate Quiescent(w: World) {
    w.state.refreshes == [] && w.state.queue == [] && w.pending == [] && w.ready == []
  }

  /** Nothing is lost: when all refreshes have called back and the queue has run, every completion has been called,
      each exactly as often as it was issued.  Nobody is left waiting. */
  lemma {:induction false} CompletedExactlyOnce(credential: Option<Credential>, window: Option<RefreshWindow>,
                                                clock: real, steps: seq<Step>, c: Caller)
    requires Run(Initial(credential, window, clock), steps).Some?
    requires Quiescent(Run(Initial(credential, window, clock), steps).value)
    ensures var w := Run(Initial(credential, window, clock), steps).value; CountCalls(w.called, c) == Count(w.issued, c)
  {
    CompletedAtMostOnce(credential, window, clock, steps, c);
    RunSingleFlight(credential, window, clock, steps);
  }

  // ----- Progress -----

  /** Steps that go on with what has been issued: no new calls, and the credential does not ask for one more refresh. */
  predicate Internal(step: Step) {
    match step
    case RetryEnqueue(_, _, _) => true
    case RefreshCompletes(_, _, _) => true
    case RunItem(requiresRefresh, _, _) => !requiresRefresh
    case CallCompletion(_) => true
    case _ => false
  }

  function Work(items: seq<Item>): nat {
    if items == [] then 0 else (if items[0].AdaptAgain? then 2 else 1) + Work(items[1..])
  }

  /** Refreshes that are outstanding or may still be started. */
  function RefreshesToCome(w: World): nat {
    2 * |w.pending| + |w.state.refreshes|
  }

  /** Calls that are to be made before the next refresh ends. */
  function CallsToMake(w: World): nat {
    Work(w.state.queue) + |w.ready|
  }

  predicate Closer(w: World, w': World) {
    || RefreshesToCome(w') < RefreshesToCome(w)
    || (RefreshesToCome(w') == RefreshesToCome(w) && CallsToMake(w') < CallsToMake(w))
  }

  /** Every internal step brings the end closer, so no run of internal steps goes on for ever. */
  lemma {:induction false} InternalStepsEnd(w: World, step: Step)
    requires Internal(step) && Next(w, step).Some?
    ensures Closer(w, Next(w, step).value) && Next(w, step).value.issued == w.issued
  {
    match step
    case RetryEnqueue(k, checked, recorded) =>
    case RefreshCompletes(k, result, code) =>
    case RunItem(requiresRefresh, checked, recorded) =>
      var item := w.state.queue[0];
      assert Work(w.state.queue) == (if item.AdaptAgain? then 2 else 1) + Work(w.state.queue[1..]);
      assert item.AdaptAgain? ==>
               forall o :: ([Finish(item.caller, o)] + w.state.queue[1..])[1..] == w.state.queue[1..];
    case CallCompletion(k) =>
  }

  /** As long as the run is not at its end, there is an internal step to take. */
  lemma {:induction false} StepToTake(w: World) returns (step: Step)
    requires !Quiescent(w)
    ensures Internal(step) && Next(w, step).Some?
  {
    if w.pending != [] {
      step := RetryEnqueue(0, w.clock, w.clock);
    } else if w.ready != [] {
      step := CallCompletion(0);
    } else if w.state.queue != [] {
      step := RunItem(false, w.clock, w.clock);
    } else {
      step := RefreshCompletes(0, None, 0);
    }
  }

  lemma {:induction false} RunFirst(w: World, step: Step, steps: seq<Step>)
    requires Next(w, step).Some?
    ensures Run(w, [step] + steps) == Run(Next(w, step).value, steps)
  {
    var all := [step] + steps;
    if steps == [] {
      assert all[..0] == [] && all == [step];
      assert Run(w, all[..|all| - 1]) == Some(w);
    } else {
      assert all[..|all| - 1] == [step] + steps[..|steps| - 1];
      RunFirst(w, step, steps[..|steps| - 1]);
    }
  }

  lemma {:induction false} RunConcat(w: World, first: seq<Step>, second: seq<Step>)
    requires Run(w, first).Some?
    ensures Run(w, first + second) == Run(Run(w, first).value, second)
  {
    var all := first + second;
    if second == [] {
      assert all == first;
    } else {
      assert all[..|all| - 1] == first + second[..|second| - 1];
      RunConcat(w, first, second[..|second| - 1]);
    }
  }

  lemma {:induction false} RunToTheEnd(w: World) returns (steps: seq<Step>)
    ensures Run(w, steps).Some? && Quiescent(Run(w, steps).value) && Run(w, steps).value.issued == w.issued
    ensures forall k | 0 <= k < |steps| :: Internal(steps[k])
    decreases RefreshesToCome(w), CallsToMake(w)
  {
    if Quiescent(w) {
      steps := [];
    } else {
      var step := StepToTake(w);
      InternalStepsEnd(w, step);
      var rest := RunToTheEnd(Next(w, step).value);
      RunFirst(w, step, rest);
      steps := [step] + rest;
    }
  }

  /** From every reachable state the steps that are left serve everybody: every completion issued so far has then
      been called exactly as often as it was issued. */
  lemma {:induction false} EverybodyIsServed(credential: Option<Credential>, window: Option<RefreshWindow>, clock: real,
                                             steps: seq<Step>) returns (rest: seq<Step>)
    requires Run(Initial(credential, window, clock), steps).Some?
    ensures forall k | 0 <= k < |rest| :: Internal(rest[k])
    ensures var w := Run(Initial(credential, window, clock), steps).value;
            var w' := Run(Initial(credential, window, clock), steps + rest);
            w'.Some? && forall c :: CountCalls(w'.value.called, c) == Count(w.issued, c)
  {
    var start := Initial(credential, window, clock);
    var w := Run(start, steps).value;
    rest := RunToTheEnd(w);
    RunConcat(start, steps, rest);
    forall c ensures CountCalls(Run(w, rest).value.called, c) == Count(w.issued, c) {
      CompletedExactlyOnce(credential, window, clock, steps + rest, c);
    }
  }

  // ----- Arrival order -----

  /** Deferred operations leave in the order in which they came: those replayed, followed by those on the queue
      and those that wait for the refresh, are all that were ever deferred. */
  predicate InArrivalOrder(w: World) {
    && w.deferredAdapts == w.replayedAdapts + AdaptsOn(w.state.queue) + w.state.adaptOperations
    && w.deferredRetries == w.replayedRetries + RetriesOn(w.state.queue) + w.state.requestsToRetry
  }

  /** The same invariant, in terms of the lines. */
  predicate Lines(w: World) {
    && w.deferredAdapts == w.replayedAdapts + AdaptLine(w.state)
    && w.deferredRetries == w.replayedRetries + RetryLine(w.state)
  }

  lemma {:induction false} ItemLines(w: World, requiresRefresh: bool, checked: real, recorded: real)
    requires w.state.queue != [] && Lines(w)
    ensures Lines(ItemStep(w, requiresRefresh, checked, recorded))
  {
    var item, s := w.state.queue[0], w.state.(queue := w.state.queue[1..]);
    TakeItem(w, item, s);
    if item.AdaptAgain? {
      AdaptingLines(s, item.caller, requiresRefresh, checked, recorded);
      var (s', result) := Adapting(s, item.caller, requiresRefresh, checked, recorded);
      if result.Some? {
        SecondHalf(s', item.caller, result.value);
      }
    }
  }

  lemma {:induction false} TakeItem(w: World, item: Item, s: State)
    requires w.state.queue != [] && Lines(w) && item == w.state.queue[0] && s == w.state.(queue := w.state.queue[1..])
    ensures w.deferredAdapts == w.replayedAdapts + AdaptOf(item) + AdaptLine(s)
    ensures w.deferredRetries == w.replayedRetries + RetryOf(item) + RetryLine(s)
    ensures w.replayedAdapts + [] == w.replayedAdapts && w.replayedRetries + [] == w.replayedRetries
  {
    assert AdaptLine(w.state) == AdaptOf(item) + AdaptLine(s);
    assert RetryLine(w.state) == RetryOf(item) + RetryLine(s);
    assert w.replayedAdapts + (AdaptOf(item) + AdaptLine(s)) == w.replayedAdapts + AdaptOf(item) + AdaptLine(s);
    assert w.replayedRetries + (RetryOf(item) + RetryLine(s)) == w.replayedRetries + RetryOf(item) + RetryLine(s);
  }

  lemma {:induction false} SecondHalf(s: State, caller: Caller, outcome: Outcome)
    ensures var s' := s.(queue := [Finish(caller, outcome)] + s.queue);
            AdaptLine(s') == AdaptLine(s) && RetryLine(s') == RetryLine(s)
  {
    OnCons(Finish(caller, outcome), s.queue);
  }

  lemma {:induction false} NextLines(w: World, step: Step)
    requires Next(w, step).Some? && Lines(w)
    ensures Lines(Next(w, step).value)
  {
    match step
    case Adapt(n, requiresRefresh, checked, recorded) =>
      AdaptingLines(w.state, AdaptCaller(n), requiresRefresh, checked, recorded);
    case RetrySnapshot(n, hasResponse, authError, current) =>
    case RetryEnqueue(k, checked, recorded) =>
      EnqueueingLines(w.state, w.pending[k].0, w.pending[k].1, checked, recorded);
    case RefreshCompletes(k, result, code) =>
      CompletedLines(w.state, k, result, code);
    case RunItem(requiresRefresh, checked, recorded) =>
      ItemLines(w, requiresRefresh, checked, recorded);
    case CallCompletion(k) =>
    case SetCredential(credential) =>
    case Tick(time) =>
  }

  lemma {:induction false} ReplayedInOrder(credential: Option<Credential>, window: Option<RefreshWindow>, clock: real,
                                           steps: seq<Step>)
    requires Run(Initial(credential, window, clock), steps).Some?
    ensures InArrivalOrder(Run(Initial(credential, window, clock), steps).value)
    ensures Lines(Run(Initial(credential, window, clock), steps).value)
  {
    if steps != [] {
      ReplayedInOrder(credential, window, clock, steps[..|steps| - 1]);
      NextLines(Run(Initial(credential, window, clock), steps[..|steps| - 1]).value, steps[|steps| - 1]);
    }
    SameOrder(Run(Initial(credential, window, clock), steps).value);
  }

  lemma SameOrder(w: World)
    requires Lines(w)
    ensures InArrivalOrder(w)
  {}

  // ----- The refresh window -----

  /** Refreshes started in the closed interval from `a` to `b`. */
  function Started(timestamps: seq<real>, a: real, b: real): nat {
    if timestamps == [] then 0
    else Started(timestamps[..|timestamps| - 1], a, b) + (if a <= timestamps[|timestamps| - 1] <= b then 1 else 0)
  }

  lemma {:induction false} StartedAttempts(timestamps: seq<real>, a: real, b: real, from: real)
    requires from <= a
    ensures Started(timestamps, a, b) <= Attempts(timestamps, from)
  {
    if timestamps != [] {
      StartedAttempts(timestamps[..|timestamps| - 1], a, b, from);
    }
  }

  function Limit(window: RefreshWindow): nat {
    if window.maximumAttempts > 0 then window.maximumAttempts else 0
  }

  /** In no interval as long as the window have more refreshes started than the window allows. */
  predicate Bounded(s: State, window: RefreshWindow, a: real) {
    s.refreshWindow == Some(window) && Started(s.refreshTimestamps, a, a + window.interval) <= Limit(window)
  }

  lemma {:induction false} RefreshingBounded(s: State, credential: Credential, checked: real, recorded: real,
                                             window: RefreshWindow, a: real)
    requires Bounded(s, window, a) && checked <= recorded
    ensures Bounded(Refreshing(s, credential, checked, recorded), window, a)
  {
    if !Excessive(s, checked) {
      var timestamps := s.refreshTimestamps + [recorded];
      assert timestamps[..|timestamps| - 1] == s.refreshTimestamps;
      if a <= recorded <= a + window.interval {
        StartedAttempts(s.refreshTimestamps, a, a + window.interval, checked - window.interval);
      }
    }
  }

  lemma {:induction false} AdaptingBounded(s: State, caller: Caller, requiresRefresh: bool, checked: real,
                                           recorded: real, window: RefreshWindow, a: real)
    requires Bounded(s, window, a) && checked <= recorded
    ensures Bounded(Adapting(s, caller, requiresRefresh, checked, recorded).0, window, a)
  {
    if s.credential.Some? {
      var deferred := s.(adaptOperations := s.adaptOperations + [caller]);
      RefreshingBounded(deferred, s.credential.value, checked, recorded, window, a);
    }
  }

  lemma {:induction false} NextBounded(w: World, step: Step, window: RefreshWindow, a: real)
    requires Next(w, step).Some? && Bounded(w.state, window, a)
    ensures Bounded(Next(w, step).value.state, window, a)
  {
    match step
    case Adapt(n, requiresRefresh, checked, recorded) =>
      AdaptingBounded(w.state, AdaptCaller(n), requiresRefresh, checked, recorded, window, a);
    case RetrySnapshot(n, hasResponse, authError, current) =>
    case RetryEnqueue(k, checked, recorded) =>
      var (caller, credential) := w.pending[k];
      var deferred := w.state.(requestsToRetry := w.state.requestsToRetry + [caller]);
      RefreshingBounded(deferred, credential, checked, recorded, window, a);
    case RefreshCompletes(k, result, code) =>
    case RunItem(requiresRefresh, checked, recorded) =>
      var s := w.state.(queue := w.state.queue[1..]);
      AdaptingBounded(s, w.state.queue[0].caller, requiresRefresh, checked, recorded, window, a);
    case CallCompletion(k) =>
    case SetCredential(credential) =>
    case Tick(time) =>
  }

  /** The rate bound, for every run and every closed interval as long as the window. */
  lemma {:induction false} RefreshRate(credential: Option<Credential>, window: RefreshWindow, clock: real,
                                       steps: seq<Step>, a: real)
    requires Run(Initial(credential, Some(window), clock), steps).Some?
    ensures Bounded(Run(Initial(credential, Some(window), clock), steps).value.state, window, a)
  {
    if steps != [] {
      RefreshRate(credential, window, clock, steps[..|steps| - 1], a);
      var before := Run(Initial(credential, Some(window), clock), steps[..|steps| - 1]).value;
      NextBounded(before, steps[|steps| - 1], window, a);
    }
  }

  // ----- When a refresh starts -----

  /** When the step asks for a refresh, with none outstanding. */
  function Asked(w: World, step: Step): Option<real> {
    if w.state.isRefreshing then None
    else
      match step
      case Adapt(_, true, checked, _) => if w.state.credential.Some? then Some(checked) else None
      case RetryEnqueue(_, checked, _) => Some(checked)
      case RunItem(true, checked, _) =>
        if w.state.credential.Some? && w.state.queue != [] && w.state.queue[0].AdaptAgain? then Some(checked) else None
      case _ => None
  }

  /** Nothing is recorded that is still to come. */
  predicate Past(w: World) {
    forall k | 0 <= k < |w.state.refreshTimestamps| :: w.state.refreshTimestamps[k] <= w.clock
  }

  lemma {:induction false} RunPast(credential: Option<Credential>, window: Option<RefreshWindow>, clock: real,
                                   steps: seq<Step>)
    requires Run(Initial(credential, window, clock), steps).Some?
    ensures Past(Run(Initial(credential, window, clock), steps).value)
    ensures Run(Initial(credential, window, clock), steps).value.state.refreshWindow == window
  {
    if steps != [] {
      RunPast(credential, window, clock, steps[..|steps| - 1]);
      NextPast(Run(Initial(credential, window, clock), steps[..|steps| - 1]).value, steps[|steps| - 1]);
    }
  }

  lemma {:induction false} NextPast(w: World, step: Step)
    requires Past(w) && Next(w, step).Some?
    ensures Past(Next(w, step).value) && Next(w, step).value.state.refreshWindow == w.state.refreshWindow
  {
    match step
    case RetryEnqueue(k, checked, recorded) =>
      var (caller, credential) := w.pending[k];
    case _ =>
  }

  /** In a run, the recorded refreshes within the window's length before now are those started since then. */
  lemma {:induction false} StartedAreRecent(timestamps: seq<real>, a: real, b: real)
    requires forall k | 0 <= k < |timestamps| :: timestamps[k] <= b
    ensures Started(timestamps, a, b) == |Recent(timestamps, a)|
  {
    AttemptsAreRecent(timestamps, a);
    StartedAreAttempts(timestamps, a, b);
  }

  lemma {:induction false} StartedAreAttempts(timestamps: seq<real>, a: real, b: real)
    requires forall k | 0 <= k < |timestamps| :: timestamps[k] <= b
    ensures Started(timestamps, a, b) == Attempts(timestamps, a)
  {
    if timestamps != [] {
      StartedAreAttempts(timestamps[..|timestamps| - 1], a, b);
    }
  }

  /** The step starts a refresh exactly if it asks for one while fewer refreshes than the window allows were started
      within its length. */
  predicate StartsRefresh(w: World, step: Step, after: World, window: Option<RefreshWindow>) {
    var now := Asked(w, step);
    !w.state.isRefreshing && after.state.isRefreshing
    <==> now.Some? && (window.Some? ==>
                         Started(w.state.refreshTimestamps, now.value - window.value.interval, now.value)
                         < window.value.maximumAttempts)
  }

  /** Every step of every run does so. */
  lemma {:induction false} RefreshStarts(credential: Option<Credential>, window: Option<RefreshWindow>, clock: real,
                                         steps: seq<Step>, step: Step)
    requires Run(Initial(credential, window, clock), steps + [step]).Some?
    ensures var before := Run(Initial(credential, window, clock), steps);
            before.Some?
            && StartsRefresh(before.value, step, Run(Initial(credential, window, clock), steps + [step]).value, window)
  {
    RunLast(Initial(credential, window, clock), steps, step);
    RunPast(credential, window, clock, steps);
    StepStarts(Run(Initial(credential, window, clock), steps).value, step, window);
  }

  lemma RunLast(w: World, steps: seq<Step>, step: Step)
    ensures Run(w, steps + [step]) == if Run(w, steps).None? then None else Next(Run(w, steps).value, step)
  {
    assert (steps + [step])[..|steps|] == steps;
  }

  lemma {:induction false} StepStarts(w: World, step: Step, window: Option<RefreshWindow>)
    requires Past(w) && w.state.refreshWindow == window && Next(w, step).Some?
    ensures StartsRefresh(w, step, Next(w, step).value, window)
  {
    var now := Asked(w, step);
    if now.Some? {
      AskedStarts(w, step);
      if window.Some? {
        StartedAreRecent(w.state.refreshTimestamps, now.value - window.value.interval, now.value);
      }
    } else if !w.state.isRefreshing {
      NotAsked(w, step);
    }
  }

  lemma {:induction false} AskedStarts(w: World, step: Step)
    requires Next(w, step).Some? && Asked(w, step).Some?
    ensures w.clock <= Asked(w, step).value
    ensures Next(w, step).value.state.isRefreshing
            <==> Permitted(w.state.refreshWindow, w.state.refreshTimestamps, Asked(w, step).value)
  {
    var s := match step
             case Adapt(n, _, _, _) => w.state.(adaptOperations := w.state.adaptOperations + [AdaptCaller(n)])
             case RetryEnqueue(k, _, _) => w.state.(requestsToRetry := w.state.requestsToRetry + [w.pending[k].0])
             case _ => w.state;
    ExcessiveExactly(s, Asked(w, step).value);
    if step.RunItem? {
      var s' := w.state.(queue := w.state.queue[1..],
                         adaptOperations := w.state.adaptOperations + [w.state.queue[0].caller]);
      ExcessiveExactly(s', Asked(w, step).value);
    }
  }

  lemma {:induction false} NotAsked(w: World, step: Step)
    requires Next(w, step).Some? && Asked(w, step).None? && !w.state.isRefreshing
    ensures !Next(w, step).value.state.isRefreshing
  {}
}
