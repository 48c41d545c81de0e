/** The interceptor at work: its methods, called in any order by any number of callers. */
module AuthenticationSystem {
  import opened Wrappers
  import opened AuthenticationInterceptor
  import opened AuthenticationRuns

  /** An interceptor with its callers and its history. */
  class System {
    const interceptor: Interceptor
    var pending: seq<(Caller, Credential)>
    var ready: seq<Call>
    var called: seq<Call>
    var clock: real
    ghost var issued: seq<Caller>
    ghost var deferredAdapts: seq<Caller>
    ghost var replayedAdapts: seq<Caller>
    ghost var deferredRetries: seq<Caller>
    ghost var replayedRetries: seq<Caller>

    ghost function Now(): World
      reads this, interceptor
    {
      World(interceptor.Current(), pending, ready, called, clock, issued, deferredAdapts, replayedAdapts,
            deferredRetries, replayedRetries)
    }

    constructor (credential: Option<Credential>, window: Option<RefreshWindow>, clock: real)
      ensures Now() == Initial(credential, window, clock) && fresh(interceptor) && interceptor.Valid()
    {
      interceptor := new Interceptor(credential, window);
      pending, ready, called, this.clock := [], [], [], clock;
      issued, deferredAdapts, replayedAdapts, deferredRetries, replayedRetries := [], [], [], [], [];
    }

    /** adapt: the locked part, and the answer if there is one. */
    method Adapt(n: nat, requiresRefresh: bool, checked: real, recorded: real)
      requires interceptor.Valid() && InOrder(Now(), checked, recorded)
      modifies this, interceptor
      ensures interceptor.Valid()
      ensures Some(Now()) == Next(old(Now()), Step.Adapt(n, requiresRefresh, checked, recorded))
    {
      var caller := AdaptCaller(n);
      issued := issued + [caller];
      var result := interceptor.Adapt(caller, requiresRefresh, checked, recorded);
      clock := recorded;
      if result.None? {
        deferredAdapts := deferredAdapts + [caller];
      } else {
        ready := ready + [Call(caller, result.value)];
      }
    }

    /** retry, up to the lock. */
    method RetrySnapshot(n: nat, hasResponse: bool, authError: bool, current: bool)
      requires interceptor.Valid()
      modifies this
      ensures Some(Now()) == Next(old(Now()), Step.RetrySnapshot(n, hasResponse, authError, current))
    {
      var caller := RetryCaller(n);
      issued := issued + [caller];
      var answer, snapshot := interceptor.RetrySnapshot(hasResponse, authError, current);
      if answer.None? {
        pending := pending + [(caller, snapshot.value)];
      } else {
        ready := ready + [Call(caller, answer.value)];
      }
    }

    /** retry, under the lock. */
    method RetryEnqueue(k: nat, checked: real, recorded: real)
      requires interceptor.Valid() && k < |pending| && InOrder(Now(), checked, recorded)
      modifies this, interceptor
      ensures interceptor.Valid()
      ensures Some(Now()) == Next(old(Now()), Step.RetryEnqueue(k, checked, recorded))
    {
      var (caller, snapshot) := pending[k];
      interceptor.RetryEnqueue(caller, snapshot, checked, recorded);
      clock := recorded;
      pending := pending[..k] + pending[k + 1..];
      deferredRetries := deferredRetries + [caller];
    }

    /** The queue goes on with its blocks. */
    method RunItem(requiresRefresh: bool, checked: real, recorded: real)
      requires interceptor.Valid() && interceptor.queue != [] && InOrder(Now(), checked, recorded)
      modifies this, interceptor
      ensures interceptor.Valid()
      ensures Some(Now()) == Next(old(Now()), Step.RunItem(requiresRefresh, checked, recorded))
    {
      var item := interceptor.queue[0];
      ghost var s := interceptor.Current().(queue := interceptor.queue[1..]);
      var call := interceptor.RunItem(requiresRefresh, checked, recorded);
      if call.Some? {
        called := called + [Call(call.value.0, call.value.1)];
      }
      match item
      case AdaptAgain(caller) =>
        clock := recorded;
        replayedAdapts := replayedAdapts + [caller];
        if Adapting(s, caller, requiresRefresh, checked, recorded).1.None? {
          deferredAdapts := deferredAdapts + [caller];
        }
      case Finish(caller, outcome) =>
      case FailAdapt(caller, outcome) =>
        replayedAdapts := replayedAdapts + [caller];
      case AnswerRetry(caller, outcome) =>
        replayedRetries := replayedRetries + [caller];
    }

    /** Any step that can be taken. */
    method Take(step: Step)
      requires interceptor.Valid() && Next(Now(), step).Some?
      modifies this, interceptor
      ensures interceptor.Valid() && Some(Now()) == Next(old(Now()), step)
    {
      match step
      case Adapt(n, requiresRefresh, checked, recorded) => Adapt(n, requiresRefresh, checked, recorded);
      case RetrySnapshot(n, hasResponse, authError, current) => RetrySnapshot(n, hasResponse, authError, current);
      case RetryEnqueue(k, checked, recorded) => RetryEnqueue(k, checked, recorded);
      case RefreshCompletes(k, result, code) => interceptor.RefreshCompletes(k, result, code);
      case RunItem(requiresRefresh, checked, recorded) => RunItem(requiresRefresh, checked, recorded);
      case CallCompletion(k) =>
        called := called + [ready[k]];
        ready := ready[..k] + ready[k + 1..];
      case SetCredential(credential) => interceptor.credential := credential;
      case Tick(time) => clock := time;
    }
  }

  /** The interceptor's own methods, through any run: at most one refresh is outstanding, every completion is in one
      place for each time it was issued, deferred operations keep their order, and no window holds too many
      refreshes. */
  method Play(credential: Option<Credential>, window: Option<RefreshWindow>, clock: real, steps: seq<Step>)
    returns (system: System)
    requires Run(Initial(credential, window, clock), steps).Some?
    ensures system.interceptor.Valid() && Some(system.Now()) == Run(Initial(credential, window, clock), steps)
    ensures forall c :: Balanced(system.Now(), c)
    ensures InArrivalOrder(system.Now())
    ensures window.Some? ==> forall a :: Bounded(system.interceptor.Current(), window.value, a)
  {
    system := new System(credential, window, clock);
    ghost var start := Initial(credential, window, clock);
    for i := 0 to |steps|
      invariant fresh(system) && fresh(system.interceptor) && system.interceptor.Valid()
      invariant Some(system.Now()) == Run(start, steps[..i])
    {
      RunPrefix(start, steps, i + 1);
      assert steps[..i + 1][..i] == steps[..i];
      system.Take(steps[i]);
    }
    assert steps[..|steps|] == steps;
    forall c { CompletedAtMostOnce(credential, window, clock, steps, c); }
    ReplayedInOrder(credential, window, clock, steps);
    if window.Some? {
      forall a { RefreshRate(credential, window.value, clock, steps, a); }
    }
  }

  lemma {:induction false} RunPrefix(w: World, steps: seq<Step>, i: nat)
    requires i <= |steps| && Run(w, steps).Some?
    ensures Run(w, steps[..i]).Some?
    decreases |steps|
  {
    if i < |steps| {
      assert steps[..|steps| - 1][..i] == steps[..i];
      RunPrefix(w, steps[..|steps| - 1], i);
    } else {
      assert steps[..i] == steps;
    }
  }
}
