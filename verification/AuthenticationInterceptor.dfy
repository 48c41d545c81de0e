/** Alamofire's AuthenticationInterceptor: requests that need a new credential wait for one refresh. */
module AuthenticationInterceptor {
  import opened Wrappers

  /** The caller of `adapt` or `retry` whose completion is still to be called. */
  datatype Caller = AdaptCaller(n: nat) | RetryCaller(n: nat)

  datatype Credential = Credential(token: string)

  datatype AuthError = MissingCredential | ExcessiveRefresh | RefreshError(code: int)

  /** What a completion is called with. */
  datatype Outcome = Adapted(credential: Credential) | NotAdapted(error: AuthError)
                   | Retry | DoNotRetry | DoNotRetryWithError(error: AuthError)

  datatype RefreshWindow = RefreshWindow(interval: real, maximumAttempts: int)

  /** The work of the blocks on the dispatch queue, in order: adapting again, the second half of that, and
      completions to call. */
  datatype Item = AdaptAgain(caller: Caller) | Finish(caller: Caller, outcome: Outcome)
                | FailAdapt(caller: Caller, outcome: Outcome) | AnswerRetry(caller: Caller, outcome: Outcome)

  /** MutableState, with what has been handed to the dispatch queue and to the authenticator. */
  datatype State = State(
    credential: Option<Credential>,
    isRefreshing: bool,
    refreshTimestamps: seq<real>,
    refreshWindow: Option<RefreshWindow>,
    adaptOperations: seq<Caller>,
    requestsToRetry: seq<Caller>,
    queue: seq<Item>,
    refreshes: seq<Credential>)

  // ----- What each operation does to the state -----

  /** Refreshes recorded at or after `from`. */
  function Attempts(timestamps: seq<real>, from: real): nat {
    if timestamps == [] then 0
    else Attempts(timestamps[..|timestamps| - 1], from) + (if from <= timestamps[|timestamps| - 1] then 1 else 0)
  }

  predicate Excessive(s: State, now: real) {
    s.refreshWindow.Some?
    && Attempts(s.refreshTimestamps, now - s.refreshWindow.value.interval) >= s.refreshWindow.value.maximumAttempts
  }

  /** The recorded refreshes, by their numbers, that are not older than `from`. */
  ghost function Recent(timestamps: seq<real>, from: real): set<nat> {
    set k: nat | k < |timestamps| && from <= timestamps[k]
  }

  /** A refresh may start: fewer of them than the window allows are recorded within its length. */
  ghost predicate Permitted(window: Option<RefreshWindow>, timestamps: seq<real>, now: real) {
    window.Some? ==> |Recent(timestamps, now - window.value.interval)| < window.value.maximumAttempts
  }

  lemma {:induction false} AttemptsAreRecent(timestamps: seq<real>, from: real)
    ensures Attempts(timestamps, from) == |Recent(timestamps, from)|
  {
    if timestamps != [] {
      var n := |timestamps| - 1;
      AttemptsAreRecent(timestamps[..n], from);
      if from <= timestamps[n] {
        assert Recent(timestamps, from) == Recent(timestamps[..n], from) + {n};
      } else {
        assert Recent(timestamps, from) == Recent(timestamps[..n], from);
      }
    }
  }

  lemma ExcessiveExactly(s: State, now: real)
    ensures Excessive(s, now) <==> !Permitted(s.refreshWindow, s.refreshTimestamps, now)
  {
    if s.refreshWindow.Some? {
      AttemptsAreRecent(s.refreshTimestamps, now - s.refreshWindow.value.interval);
    }
  }

  function AdaptItems(callers: seq<Caller>, error: Option<AuthError>): seq<Item> {
    if callers == [] then []
    else
      [if error.Some? then FailAdapt(callers[0], NotAdapted(error.value)) else AdaptAgain(callers[0])]
      + AdaptItems(callers[1..], error)
  }

  function RetryItems(callers: seq<Caller>, outcome: Outcome): seq<Item> {
    if callers == [] then [] else [AnswerRetry(callers[0], outcome)] + RetryItems(callers[1..], outcome)
  }

  /** The end of a refresh: all that waited goes to the queue. */
  function Flushed(s: State, error: Option<AuthError>): State {
    s.(isRefreshing := false, adaptOperations := [], requestsToRetry := [],
       queue := s.queue + AdaptItems(s.adaptOperations, error)
                + RetryItems(s.requestsToRetry, if error.Some? then DoNotRetryWithError(error.value) else Retry))
  }

  /** refresh: the clock is read for the check, and again for the record. */
  function Refreshing(s: State, credential: Credential, checked: real, recorded: real): State {
    if Excessive(s, checked) then Flushed(s, Some(ExcessiveRefresh))
    else s.(refreshTimestamps := s.refreshTimestamps + [recorded], isRefreshing := true,
            refreshes := s.refreshes + [credential])
  }

  /** The locked part of adapt; None is .adaptDeferred. */
  function Adapting(s: State, caller: Caller, requiresRefresh: bool, checked: real,
                    recorded: real): (State, Option<Outcome>) {
    var deferred := s.(adaptOperations := s.adaptOperations + [caller]);
    if s.isRefreshing then (deferred, None)
    else if s.credential.None? then (s, Some(NotAdapted(MissingCredential)))
    else if requiresRefresh then (Refreshing(deferred, s.credential.value, checked, recorded), None)
    else (s, Some(Adapted(s.credential.value)))
  }

  /** The locked part of retry, with the credential that was read before. */
  function Enqueueing(s: State, caller: Caller, credential: Credential, checked: real, recorded: real): State {
    var deferred := s.(requestsToRetry := s.requestsToRetry + [caller]);
    if s.isRefreshing then deferred else Refreshing(deferred, credential, checked, recorded)
  }

  /** The authenticator calls back. */
  function Completed(s: State, k: nat, result: Option<Credential>, code: int): State
    requires k < |s.refreshes|
  {
    var s' := s.(refreshes := s.refreshes[..k] + s.refreshes[k + 1..]);
    if result.Some? then Flushed(s'.(credential := result), None) else Flushed(s', Some(RefreshError(code)))
  }

  /** The unlocked checks of retry, on the credential it reads; None goes on to the locked part. */
  function RetryAnswer(credential: Option<Credential>, hasResponse: bool, authError: bool,
                       current: bool): Option<Outcome> {
    if !hasResponse || !authError then Some(DoNotRetry)
    else if credential.None? then Some(DoNotRetryWithError(MissingCredential))
    else if !current then Some(Retry)
    else None
  }

  // ----- Who is waiting -----

  /** A refresh is outstanding exactly while `isRefreshing`, never more than one, and nobody waits without it. */
  predicate SingleFlight(s: State) {
    && |s.refreshes| == (if s.isRefreshing then 1 else 0)
    && (s.adaptOperations != [] || s.requestsToRetry != [] ==> s.isRefreshing)
  }

  function Count(callers: seq<Caller>, c: Caller): nat {
    if callers == [] then 0 else (if callers[0] == c then 1 else 0) + Count(callers[1..], c)
  }

  function CountItems(items: seq<Item>, c: Caller): nat {
    if items == [] then 0 else (if items[0].caller == c then 1 else 0) + CountItems(items[1..], c)
  }

  /** How often a completion is waiting inside the interceptor. */
  function Waiting(s: State, c: Caller): nat {
    Count(s.adaptOperations, c) + Count(s.requestsToRetry, c) + CountItems(s.queue, c)
  }

  lemma {:induction false} CountConcat(a: seq<Caller>, b: seq<Caller>, c: Caller)
    ensures Count(a + b, c) == Count(a, c) + Count(b, c)
  {
    if a == [] {
      assert a + b == b;
    } else {
      assert (a + b)[1..] == a[1..] + b;
      CountConcat(a[1..], b, c);
    }
  }

  lemma {:induction false} CountItemsConcat(a: seq<Item>, b: seq<Item>, c: Caller)
    ensures CountItems(a + b, c) == CountItems(a, c) + CountItems(b, c)
  {
    if a == [] {
      assert a + b == b;
    } else {
      assert (a + b)[1..] == a[1..] + b;
      CountItemsConcat(a[1..], b, c);
    }
  }

  lemma {:induction false} CountNewItems(callers: seq<Caller>, error: Option<AuthError>, outcome: Outcome, c: Caller)
    ensures CountItems(AdaptItems(callers, error), c) == Count(callers, c)
    ensures CountItems(RetryItems(callers, outcome), c) == Count(callers, c)
  {
    if callers != [] {
      CountNewItems(callers[1..], error, outcome, c);
      assert AdaptItems(callers, error)[1..] == AdaptItems(callers[1..], error);
      assert RetryItems(callers, outcome)[1..] == RetryItems(callers[1..], outcome);
    }
  }

  lemma {:induction false} FlushedWaiting(s: State, error: Option<AuthError>, c: Caller)
    ensures Waiting(Flushed(s, error), c) == Waiting(s, c)
  {
    var outcome := if error.Some? then DoNotRetryWithError(error.value) else Retry;
    var a, r := AdaptItems(s.adaptOperations, error), RetryItems(s.requestsToRetry, outcome);
    CountItemsConcat(s.queue + a, r, c);
    CountItemsConcat(s.queue, a, c);
    CountNewItems(s.adaptOperations, error, outcome, c);
    CountNewItems(s.requestsToRetry, error, outcome, c);
  }

  lemma {:induction false} RefreshingWaiting(s: State, credential: Credential, checked: real, recorded: real, c: Caller)
    ensures Waiting(Refreshing(s, credential, checked, recorded), c) == Waiting(s, c)
  {
    FlushedWaiting(s, Some(ExcessiveRefresh), c);
  }

  function One(a: Caller, c: Caller): nat {
    if a == c then 1 else 0
  }

  lemma {:induction false} AdaptingWaiting(s: State, caller: Caller, requiresRefresh: bool, checked: real,
                                           recorded: real, c: Caller)
    ensures var (s', result) := Adapting(s, caller, requiresRefresh, checked, recorded);
            Waiting(s', c) == Waiting(s, c) + if result.None? then One(caller, c) else 0
  {
    var deferred := s.(adaptOperations := s.adaptOperations + [caller]);
    CountConcat(s.adaptOperations, [caller], c);
    if s.credential.Some? {
      RefreshingWaiting(deferred, s.credential.value, checked, recorded, c);
    }
  }

  lemma {:induction false} EnqueueingWaiting(s: State, caller: Caller, credential: Credential, checked: real,
                                             recorded: real, c: Caller)
    ensures Waiting(Enqueueing(s, caller, credential, checked, recorded), c) == Waiting(s, c) + One(caller, c)
  {
    var deferred := s.(requestsToRetry := s.requestsToRetry + [caller]);
    CountConcat(s.requestsToRetry, [caller], c);
    RefreshingWaiting(deferred, credential, checked, recorded, c);
  }

  lemma {:induction false} CompletedWaiting(s: State, k: nat, result: Option<Credential>, code: int, c: Caller)
    requires k < |s.refreshes|
    ensures Waiting(Completed(s, k, result, code), c) == Waiting(s, c)
  {
    var s' := s.(refreshes := s.refreshes[..k] + s.refreshes[k + 1..]);
    FlushedWaiting(s'.(credential := result), None, c);
    FlushedWaiting(s', Some(RefreshError(code)), c);
  }

  // ----- In which order -----

  /** The adapt operations that a queue is to replay, in order; the second half of one is not a new one. */
  function AdaptsOn(items: seq<Item>): seq<Caller> {
    if items == [] then []
    else AdaptOf(items[0]) + AdaptsOn(items[1..])
  }

  function RetriesOn(items: seq<Item>): seq<Caller> {
    if items == [] then [] else RetryOf(items[0]) + RetriesOn(items[1..])
  }

  /** What one item contributes. */
  function AdaptOf(item: Item): seq<Caller> {
    if item.AdaptAgain? || item.FailAdapt? then [item.caller] else []
  }

  function RetryOf(item: Item): seq<Caller> {
    if item.AnswerRetry? then [item.caller] else []
  }

  lemma OnCons(item: Item, items: seq<Item>)
    ensures AdaptsOn([item] + items) == AdaptOf(item) + AdaptsOn(items)
    ensures RetriesOn([item] + items) == RetryOf(item) + RetriesOn(items)
  {
    assert ([item] + items)[1..] == items;
  }

  lemma Regroup(a: seq<Caller>, b: seq<Caller>, c: seq<Caller>)
    ensures a + (b + c) == a + b + c
  {}

  lemma {:induction false} AdaptsOnConcat(a: seq<Item>, b: seq<Item>)
    ensures AdaptsOn(a + b) == AdaptsOn(a) + AdaptsOn(b)
  {
    if a == [] {
      assert a + b == b;
    } else {
      assert AdaptsOn(a + b) == AdaptOf(a[0]) + AdaptsOn(a[1..] + b) by {
        assert a + b == [a[0]] + (a[1..] + b);
        OnCons(a[0], a[1..] + b);
      }
      AdaptsOnConcat(a[1..], b);
      Regroup(AdaptOf(a[0]), AdaptsOn(a[1..]), AdaptsOn(b));
    }
  }

  lemma {:induction false} RetriesOnConcat(a: seq<Item>, b: seq<Item>)
    ensures RetriesOn(a + b) == RetriesOn(a) + RetriesOn(b)
  {
    if a == [] {
      assert a + b == b;
    } else {
      assert RetriesOn(a + b) == RetryOf(a[0]) + RetriesOn(a[1..] + b) by {
        assert a + b == [a[0]] + (a[1..] + b);
        OnCons(a[0], a[1..] + b);
      }
      RetriesOnConcat(a[1..], b);
      Regroup(RetryOf(a[0]), RetriesOn(a[1..]), RetriesOn(b));
    }
  }

  lemma {:induction false} OnNewItems(callers: seq<Caller>, error: Option<AuthError>, outcome: Outcome)
    ensures AdaptsOn(AdaptItems(callers, error)) == callers && RetriesOn(AdaptItems(callers, error)) == []
    ensures AdaptsOn(RetryItems(callers, outcome)) == [] && RetriesOn(RetryItems(callers, outcome)) == callers
  {
    if callers != [] {
      OnNewItems(callers[1..], error, outcome);
      assert AdaptItems(callers, error)[1..] == AdaptItems(callers[1..], error);
      assert RetryItems(callers, outcome)[1..] == RetryItems(callers[1..], outcome);
    }
  }

  /** What is still to be replayed, in order. */
  function AdaptLine(s: State): seq<Caller> {
    AdaptsOn(s.queue) + s.adaptOperations
  }

  function RetryLine(s: State): seq<Caller> {
    RetriesOn(s.queue) + s.requestsToRetry
  }

  lemma {:induction false} FlushedLines(s: State, error: Option<AuthError>)
    ensures AdaptLine(Flushed(s, error)) == AdaptLine(s) && RetryLine(Flushed(s, error)) == RetryLine(s)
  {
    var outcome := if error.Some? then DoNotRetryWithError(error.value) else Retry;
    FlushedAdapts(s.queue, s.adaptOperations, s.requestsToRetry, error, outcome);
    FlushedRetries(s.queue, s.adaptOperations, s.requestsToRetry, error, outcome);
    NoneMore(AdaptLine(s));
    NoneMore(RetryLine(s));
  }

  lemma NoneMore(a: seq<Caller>)
    ensures a + [] == a
  {}

  lemma {:induction false} FlushedAdapts(queue: seq<Item>, adapts: seq<Caller>, retries: seq<Caller>,
                                         error: Option<AuthError>, outcome: Outcome)
    ensures AdaptsOn(queue + AdaptItems(adapts, error) + RetryItems(retries, outcome)) == AdaptsOn(queue) + adapts
  {
    AdaptsOnConcat(queue + AdaptItems(adapts, error), RetryItems(retries, outcome));
    AdaptsOnConcat(queue, AdaptItems(adapts, error));
    OnNewItems(adapts, error, outcome);
    OnNewItems(retries, error, outcome);
    NoneMore(AdaptsOn(queue) + adapts);
  }

  lemma {:induction false} FlushedRetries(queue: seq<Item>, adapts: seq<Caller>, retries: seq<Caller>,
                                          error: Option<AuthError>, outcome: Outcome)
    ensures RetriesOn(queue + AdaptItems(adapts, error) + RetryItems(retries, outcome)) == RetriesOn(queue) + retries
  {
    RetriesOnConcat(queue + AdaptItems(adapts, error), RetryItems(retries, outcome));
    RetriesOnConcat(queue, AdaptItems(adapts, error));
    OnNewItems(adapts, error, outcome);
    OnNewItems(retries, error, outcome);
    NoneMore(RetriesOn(queue));
  }

  lemma {:induction false} AdaptingLines(s: State, caller: Caller, requiresRefresh: bool, checked: real, recorded: real)
    ensures var (s', result) := Adapting(s, caller, requiresRefresh, checked, recorded);
            AdaptLine(s') == AdaptLine(s) + (if result.None? then [caller] else []) && RetryLine(s') == RetryLine(s)
  {
    var deferred := s.(adaptOperations := s.adaptOperations + [caller]);
    assert AdaptLine(deferred) == AdaptLine(s) + [caller];
    FlushedLines(deferred, Some(ExcessiveRefresh));
  }

  lemma {:induction false} EnqueueingLines(s: State, caller: Caller, credential: Credential, checked: real,
                                           recorded: real)
    ensures var s' := Enqueueing(s, caller, credential, checked, recorded);
            AdaptLine(s') == AdaptLine(s) && RetryLine(s') == RetryLine(s) + [caller]
  {
    var deferred := s.(requestsToRetry := s.requestsToRetry + [caller]);
    assert RetryLine(deferred) == RetryLine(s) + [caller];
    FlushedLines(deferred, Some(ExcessiveRefresh));
  }

  lemma {:induction false} CompletedLines(s: State, k: nat, result: Option<Credential>, code: int)
    requires k < |s.refreshes|
    ensures AdaptLine(Completed(s, k, result, code)) == AdaptLine(s)
    ensures RetryLine(Completed(s, k, result, code)) == RetryLine(s)
  {
    var s' := s.(refreshes := s.refreshes[..k] + s.refreshes[k + 1..]);
    FlushedLines(s'.(credential := result), None);
    FlushedLines(s', Some(RefreshError(code)));
  }

  /** Callers have joined the ends of the lines, and nobody else has come or gone. */
  ghost predicate Joined(before: State, after: State, adapts: seq<Caller>, retries: seq<Caller>) {
    && AdaptLine(after) == AdaptLine(before) + adapts
    && RetryLine(after) == RetryLine(before) + retries
    && forall c :: Waiting(after, c) == Waiting(before, c) + Count(adapts, c) + Count(retries, c)
  }

  lemma AdaptingJoins(s: State, caller: Caller, requiresRefresh: bool, checked: real, recorded: real)
    ensures var (s', result) := Adapting(s, caller, requiresRefresh, checked, recorded);
            Joined(s, s', if result.None? then [caller] else [], [])
  {
    AdaptingLines(s, caller, requiresRefresh, checked, recorded);
    var (s', result) := Adapting(s, caller, requiresRefresh, checked, recorded);
    forall c ensures Waiting(s', c) == Waiting(s, c) + Count(if result.None? then [caller] else [], c) {
      AdaptingWaiting(s, caller, requiresRefresh, checked, recorded, c);
    }
    NoneMore(RetryLine(s));
  }

  lemma EnqueueingJoins(s: State, caller: Caller, credential: Credential, checked: real, recorded: real)
    ensures Joined(s, Enqueueing(s, caller, credential, checked, recorded), [], [caller])
  {
    EnqueueingLines(s, caller, credential, checked, recorded);
    forall c
      ensures Waiting(Enqueueing(s, caller, credential, checked, recorded), c) == Waiting(s, c) + Count([caller], c)
    {
      EnqueueingWaiting(s, caller, credential, checked, recorded, c);
    }
    NoneMore(AdaptLine(s));
  }

  lemma FlushedJoins(s: State, error: Option<AuthError>)
    ensures Joined(s, Flushed(s, error), [], [])
  {
    FlushedLines(s, error);
    forall c ensures Waiting(Flushed(s, error), c) == Waiting(s, c) {
      FlushedWaiting(s, error, c);
    }
    NoneMore(AdaptLine(s));
    NoneMore(RetryLine(s));
  }

  lemma CompletedJoins(s: State, k: nat, result: Option<Credential>, code: int)
    requires k < |s.refreshes|
    ensures Joined(s, Completed(s, k, result, code), [], [])
  {
    CompletedLines(s, k, result, code);
    forall c ensures Waiting(Completed(s, k, result, code), c) == Waiting(s, c) {
      CompletedWaiting(s, k, result, code, c);
    }
    NoneMore(AdaptLine(s));
    NoneMore(RetryLine(s));
  }

  // ----- What those who waited are told -----

  /** The end of a refresh for one caller: with success, adapt again or retry; with an error, that error. */
  predicate Tells(item: Item, error: Option<AuthError>) {
    match item
    case AdaptAgain(_) => error.None?
    case FailAdapt(_, outcome) => error.Some? && outcome == NotAdapted(error.value)
    case AnswerRetry(_, outcome) => outcome == if error.Some? then DoNotRetryWithError(error.value) else Retry
    case Finish(_, _) => false
  }

  /** All of the items added to a queue say so. */
  predicate TellsAll(before: seq<Item>, after: seq<Item>, error: Option<AuthError>) {
    before <= after && forall k | |before| <= k < |after| :: Tells(after[k], error)
  }

  lemma {:induction false} ItemsTell(adapts: seq<Caller>, retries: seq<Caller>, error: Option<AuthError>,
                                     outcome: Outcome)
    requires outcome == if error.Some? then DoNotRetryWithError(error.value) else Retry
    ensures forall k | 0 <= k < |AdaptItems(adapts, error)| :: Tells(AdaptItems(adapts, error)[k], error)
    ensures forall k | 0 <= k < |RetryItems(retries, outcome)| :: Tells(RetryItems(retries, outcome)[k], error)
    decreases |adapts| + |retries|
  {
    if adapts != [] {
      ItemsTell(adapts[1..], retries, error, outcome);
    } else if retries != [] {
      ItemsTell(adapts, retries[1..], error, outcome);
    }
  }

  /** What has become of the wish for a refresh: one is outstanding, with this credential, and recorded; or the queue
      tells everybody in line that there were too many. */
  predicate Answered(before: State, after: State, credential: Credential, recorded: real) {
    if after.isRefreshing then
      after.refreshes == [credential] && after.refreshTimestamps == before.refreshTimestamps + [recorded]
      && after.queue == before.queue
    else
      after.refreshes == [] && after.refreshTimestamps == before.refreshTimestamps
      && TellsAll(before.queue, after.queue, Some(ExcessiveRefresh))
  }

  lemma FlushedTells(s: State, error: Option<AuthError>)
    ensures TellsAll(s.queue, Flushed(s, error).queue, error)
  {
    var outcome := if error.Some? then DoNotRetryWithError(error.value) else Retry;
    ItemsTell(s.adaptOperations, s.requestsToRetry, error, outcome);
  }

  // ----- The interceptor -----

  class Interceptor {
    var credential: Option<Credential>
    var isRefreshing: bool
    var refreshTimestamps: seq<real>
    var refreshWindow: Option<RefreshWindow>
    var adaptOperations: seq<Caller>
    var requestsToRetry: seq<Caller>
    var queue: seq<Item>
    var refreshes: seq<Credential>

    function Current(): State
      reads this
    {
      State(credential, isRefreshing, refreshTimestamps, refreshWindow, adaptOperations, requestsToRetry, queue,
            refreshes)
    }

    /** A refresh is outstanding exactly while `isRefreshing`, and nobody waits without it. */
    predicate Valid()
      reads this
    {
      SingleFlight(Current())
    }

    constructor (credential: Option<Credential>, refreshWindow: Option<RefreshWindow>)
      ensures Valid() && Current() == State(credential, false, [], refreshWindow, [], [], [], [])
    {
      this.credential, this.refreshWindow := credential, refreshWindow;
      isRefreshing, refreshTimestamps, adaptOperations, requestsToRetry, queue, refreshes := false, [], [], [], [], [];
    }

    /** The locked part of adapt.  A caller that gets no answer has joined the line of those to be adapted, which
        happens during a refresh, or if the credential has to be refreshed first. */
    method Adapt(caller: Caller, requiresRefresh: bool, checked: real, recorded: real) returns (result: Option<Outcome>)
      requires Valid()
      modifies this
      ensures Valid() && Joined(old(Current()), Current(), if result.None? then [caller] else [], [])
      ensures result.None? <==> old(isRefreshing) || (old(credential).Some? && requiresRefresh)
      ensures result.Some? ==> Current() == old(Current())
                               && result.value == if credential.Some? then Adapted(credential.value)
                                                  else NotAdapted(MissingCredential)
      ensures !old(isRefreshing) && old(credential).Some? && result.None? ==>
                (isRefreshing <==> Permitted(refreshWindow, old(refreshTimestamps), checked))
                && Answered(old(Current()), Current(), old(credential).value, recorded)
      ensures (Current(), result) == Adapting(old(Current()), caller, requiresRefresh, checked, recorded)
    {
      AdaptingJoins(Current(), caller, requiresRefresh, checked, recorded);
      if isRefreshing {
        adaptOperations := adaptOperations + [caller];
        return None;
      }
      if credential.None? {
        return Some(NotAdapted(MissingCredential));
      }
      if requiresRefresh {
        adaptOperations := adaptOperations + [caller];
        Refresh(credential.value, checked, recorded);
        return None;
      }
      return Some(Adapted(credential.value));
    }

    /** The part of retry outside the lock: it answers, or goes on with the credential it has read, which is then the
        one that the request was sent with and that the server has refused. */
    method RetrySnapshot(hasResponse: bool, authError: bool, current: bool)
      returns (answer: Option<Outcome>, snapshot: Option<Credential>)
      ensures snapshot == credential
      ensures answer.None? <==> hasResponse && authError && current && credential.Some?
      ensures answer == Some(Outcome.Retry) <==> hasResponse && authError && !current && credential.Some?
      ensures answer == Some(DoNotRetry) <==> !hasResponse || !authError
      ensures answer == RetryAnswer(credential, hasResponse, authError, current)
    {
      snapshot := credential;
      if !hasResponse {
        return Some(DoNotRetry), snapshot;
      }
      if !authError {
        return Some(DoNotRetry), snapshot;
      }
      if snapshot.None? {
        return Some(DoNotRetryWithError(MissingCredential)), snapshot;
      }
      if !current {
        return Some(Outcome.Retry), snapshot;
      }
      answer := None;
    }

    /** The locked part of retry: the caller joins the line of those to be retried. */
    method RetryEnqueue(caller: Caller, snapshot: Credential, checked: real, recorded: real)
      requires Valid()
      modifies this
      ensures Valid() && Joined(old(Current()), Current(), [], [caller])
      ensures old(isRefreshing) ==> refreshes == old(refreshes) && refreshTimestamps == old(refreshTimestamps)
      ensures !old(isRefreshing) ==>
                (isRefreshing <==> Permitted(refreshWindow, old(refreshTimestamps), checked))
                && Answered(old(Current()), Current(), snapshot, recorded)
      ensures Current() == Enqueueing(old(Current()), caller, snapshot, checked, recorded)
    {
      EnqueueingJoins(Current(), caller, snapshot, checked, recorded);
      requestsToRetry := requestsToRetry + [caller];
      if isRefreshing {
        return;
      }
      Refresh(snapshot, checked, recorded);
    }

    /** Called with somebody waiting and no refresh under way: afterwards one is, or nobody waits any more. */
    method Refresh(c: Credential, checked: real, recorded: real)
      requires !isRefreshing && refreshes == []
      modifies this
      ensures Valid() && Joined(old(Current()), Current(), [], [])
      ensures isRefreshing <==> Permitted(refreshWindow, old(refreshTimestamps), checked)
      ensures Answered(old(Current()), Current(), c, recorded)
      ensures Current() == Refreshing(old(Current()), c, checked, recorded)
    {
      ExcessiveExactly(Current(), checked);
      var excessive := IsRefreshExcessive(checked);
      if excessive {
        HandleRefreshFailure(ExcessiveRefresh);
        return;
      }
      NoneMore(AdaptLine(Current()));
      NoneMore(RetryLine(Current()));
      refreshTimestamps := refreshTimestamps + [recorded];
      isRefreshing := true;
      refreshes := refreshes + [c];
    }

    method IsRefreshExcessive(now: real) returns (excessive: bool)
      ensures excessive <==> !Permitted(refreshWindow, refreshTimestamps, now)
    {
      ExcessiveExactly(Current(), now);
      if refreshWindow.None? {
        return false;
      }
      var refreshWindowMin := now - refreshWindow.value.interval;
      var attempts := 0;
      for i := 0 to |refreshTimestamps|
        invariant attempts == Attempts(refreshTimestamps[..i], refreshWindowMin)
      {
        assert refreshTimestamps[..i + 1][..i] == refreshTimestamps[..i];
        if refreshWindowMin <= refreshTimestamps[i] {
          attempts := attempts + 1;
        }
      }
      assert refreshTimestamps[..|refreshTimestamps|] == refreshTimestamps;
      excessive := attempts >= refreshWindow.value.maximumAttempts;
    }

    /** Everybody who waited keeps the place in line, but waits no more: the queue will adapt or retry them. */
    method HandleRefreshSuccess(c: Credential)
      requires refreshes == []
      modifies this
      ensures Valid() && !isRefreshing && adaptOperations == [] && requestsToRetry == []
      ensures Joined(old(Current()), Current(), [], []) && TellsAll(old(queue), queue, None) && credential == Some(c)
      ensures Current() == Flushed(old(Current()).(credential := Some(c)), None)
    {
      FlushedJoins(Current().(credential := Some(c)), None);
      FlushedTells(Current().(credential := Some(c)), None);
      credential := Some(c);
      var adapts, retries := adaptOperations, requestsToRetry;
      adaptOperations, requestsToRetry := [], [];
      isRefreshing := false;
      queue := queue + AdaptItems(adapts, None) + RetryItems(retries, Outcome.Retry);
    }

    /** The same, but the queue will give them the error. */
    method HandleRefreshFailure(error: AuthError)
      requires refreshes == []
      modifies this
      ensures Valid() && !isRefreshing && adaptOperations == [] && requestsToRetry == []
      ensures Joined(old(Current()), Current(), [], []) && TellsAll(old(queue), queue, Some(error))
      ensures credential == old(credential)
      ensures Current() == Flushed(old(Current()), Some(error))
    {
      FlushedJoins(Current(), Some(error));
      FlushedTells(Current(), Some(error));
      var adapts, retries := adaptOperations, requestsToRetry;
      adaptOperations, requestsToRetry := [], [];
      isRefreshing := false;
      queue := queue + AdaptItems(adapts, Some(error)) + RetryItems(retries, DoNotRetryWithError(error));
    }

    /** The completion that `refresh` gives to the authenticator: the refresh is over, and nobody waits. */
    method RefreshCompletes(k: nat, result: Option<Credential>, code: int)
      requires Valid() && k < |refreshes|
      modifies this
      ensures Valid() && refreshes == [] && adaptOperations == [] && requestsToRetry == []
      ensures Joined(old(Current()), Current(), [], [])
      ensures TellsAll(old(queue), queue, if result.Some? then None else Some(RefreshError(code)))
      ensures credential == if result.Some? then result else old(credential)
      ensures Current() == Completed(old(Current()), k, result, code)
    {
      CompletedJoins(Current(), k, result, code);
      refreshes := refreshes[..k] + refreshes[k + 1..];
      if result.Some? {
        HandleRefreshSuccess(result.value);
      } else {
        HandleRefreshFailure(RefreshError(code));
      }
    }

    /** The next piece of the blocks on the serial queue: the completion that it calls, if any. */
    method RunItem(requiresRefresh: bool, checked: real, recorded: real) returns (called: Option<(Caller, Outcome)>)
      requires Valid() && queue != []
      modifies this
      ensures Valid()
      ensures forall c :: Waiting(Current(), c) + (if called.Some? then Count([called.value.0], c) else 0)
                          == old(Waiting(Current(), c))
      ensures called == Calls(old(queue)[0])
      ensures !old(queue)[0].AdaptAgain? ==> queue == old(queue)[1..]
      ensures old(queue)[0].AdaptAgain? && old(isRefreshing) ==>
                adaptOperations == old(adaptOperations) + [old(queue)[0].caller] && queue == old(queue)[1..]
      ensures old(queue)[0].AdaptAgain? && !old(isRefreshing) && (old(credential).None? || !requiresRefresh) ==>
                var outcome := if credential.Some? then Adapted(credential.value) else NotAdapted(MissingCredential);
                queue == [Finish(old(queue)[0].caller, outcome)] + old(queue)[1..]
      ensures Current() == Ran(old(Current()), requiresRefresh, checked, recorded)
    {
      forall c { RanWaiting(Current(), requiresRefresh, checked, recorded, c); }
      var item := queue[0];
      queue := queue[1..];
      match item
      case AdaptAgain(caller) =>
        // adapt, called from the block: its completion comes before anything else on the queue.
        var result := Adapt(caller, requiresRefresh, checked, recorded);
        if result.Some? {
          queue := [Finish(caller, result.value)] + queue;
        }
        called := None;
      case Finish(caller, outcome) =>
        called := Some((caller, outcome));
      case FailAdapt(caller, outcome) =>
        called := Some((caller, outcome));
      case AnswerRetry(caller, outcome) =>
        called := Some((caller, outcome));
    }
  }

  /** The completion that an item calls. */
  function Calls(item: Item): Option<(Caller, Outcome)> {
    if item.AdaptAgain? then None else Some((item.caller, item.outcome))
  }

  /** The serial queue has run its first item.  Adapting again defers the caller once more, or leaves its completion
      to be called before anything else on the queue. */
  function Ran(s: State, requiresRefresh: bool, checked: real, recorded: real): State
    requires s.queue != []
  {
    var item, s' := s.queue[0], s.(queue := s.queue[1..]);
    if !item.AdaptAgain? then s'
    else
      var (s'', result) := Adapting(s', item.caller, requiresRefresh, checked, recorded);
      if result.None? then s'' else s''.(queue := [Finish(item.caller, result.value)] + s''.queue)
  }

  lemma {:induction false} RanWaiting(s: State, requiresRefresh: bool, checked: real, recorded: real, c: Caller)
    requires s.queue != []
    ensures Waiting(Ran(s, requiresRefresh, checked, recorded), c)
            == Waiting(s, c) - (if s.queue[0].AdaptAgain? then 0 else One(s.queue[0].caller, c))
  {
    var item, s' := s.queue[0], s.(queue := s.queue[1..]);
    assert Waiting(s, c) == Waiting(s', c) + One(item.caller, c);
    if item.AdaptAgain? {
      AdaptingWaiting(s', item.caller, requiresRefresh, checked, recorded, c);
      var (s'', result) := Adapting(s', item.caller, requiresRefresh, checked, recorded);
      if result.Some? {
        CountItemsConcat([Finish(item.caller, result.value)], s''.queue, c);
      }
    }
  }
}
