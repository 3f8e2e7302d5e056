/** The inline bootstrap script: it creates `window.__elmInitQueue` and turns
    `window.onElmInit` into an accessor over a private slot `fn`. The setter
    ignores non-functions, installs the first function and replays the
    queue to it in FIFO order, and throws on every later installation. */
module Bootstrap {

  import opened Wrappers
  import opened Js

  /** An initialised Elm app (what `init` returned); opaque here. */
  datatype App = App(id: nat)

  /** `{ elmModuleName, app }`, as pushed onto `window.__elmInitQueue`. */
  datatype QueueEntry = QueueEntry(elmModuleName: string, app: App)

  /** `window.__elmInitQueue` and the slot `fn` behind `window.onElmInit`. */
  datatype BootState = BootState(queue: seq<QueueEntry>, fn: Option<JsValue>)

  /** `fn` only ever holds a function. */
  predicate Valid(st: BootState) {
    st.fn.Some? ==> IsFunction(st.fn.value)
  }

  /** What calling a user callback with an entry does: return normally
      (`None`) or throw. Calling foreign code is not modelled otherwise. */
  type Behaviour = (JsValue, QueueEntry) -> Option<Thrown>

  /** Running the script: an empty queue, and `fn` taken over from an
      `onElmInit` defined before the script ran only if it is a function. */
  function Start(existing: JsValue): (st: BootState)
    ensures Valid(st)
    ensures st.queue == []
    ensures IsFunction(existing) ==> st.fn == Some(existing)
    ensures !IsFunction(existing) ==> st.fn.None?
  {
    BootState([], if IsFunction(existing) then Some(existing) else None)
  }

  /** The getter: the installed function, or `undefined`. */
  function Get(st: BootState): (v: JsValue)
    requires Valid(st)
    ensures st.fn.Some? ==> v == st.fn.value
    ensures st.fn.None? ==> v == Undefined
    ensures IsFunction(v) <==> st.fn.Some?
  {
    match st.fn
    case Some(f) => f
    case None => Undefined
  }

  /** The calls the replay loop made, in order, and what escaped it. */
  datatype Replay = Replay(calls: seq<QueueEntry>, thrown: Option<Thrown>)

  /** `for (const { elmModuleName, app } of window.__elmInitQueue) fn(...)`:
      one call per entry in queue order, stopping at the first call that
      throws, whose exception escapes the loop. */
  function ReplayQueue(f: JsValue, queue: seq<QueueEntry>, behave: Behaviour): (r: Replay)
    ensures |r.calls| <= |queue| && r.calls == queue[..|r.calls|]
    ensures r.thrown.None? <==> (forall k :: 0 <= k < |queue| ==> behave(f, queue[k]).None?)
    ensures r.thrown.None? ==> r.calls == queue
    ensures r.thrown.Some? ==>
              && r.calls != []
              && behave(f, r.calls[|r.calls| - 1]) == r.thrown
              && forall k :: 0 <= k < |r.calls| - 1 ==> behave(f, r.calls[k]).None?
  {
    if queue == [] then Replay([], None)
    else
      match behave(f, queue[0])
      case Some(e) => Replay([queue[0]], Some(e))
      case None =>
        var rest := ReplayQueue(f, queue[1..], behave);
        assert forall k :: 1 <= k < |queue| ==> queue[k] == queue[1..][k - 1];
        Replay([queue[0]] + rest.calls, rest.thrown)
  }

  /** What an assignment to `window.onElmInit` did. */
  datatype SetOutcome =
    | Ignored
    | Installed(calls: seq<QueueEntry>, thrown: Option<Thrown>)
    | AlreadyDefined(message: string)

  datatype SetResult = SetResult(state: BootState, outcome: SetOutcome)

  const OnlyOnceMessage := "`window.onElmInit` should only be defined once."

  /** The setter. Installing the first function replays the queue to it;
      an exception from a queued call escapes the assignment (`thrown`),
      after the entries before it were delivered, and the function stays
      installed. */
  function Set(st: BootState, v: JsValue, behave: Behaviour): (r: SetResult)
    requires Valid(st)
    ensures Valid(r.state)
    ensures !IsFunction(v) ==> r == SetResult(st, Ignored)
    ensures IsFunction(v) && st.fn.None? ==>
              && r.state == BootState(st.queue, Some(v))
              && r.outcome.Installed?
              && |r.outcome.calls| <= |st.queue|
              && r.outcome.calls == st.queue[..|r.outcome.calls|]
              && r.outcome.calls == ReplayQueue(v, st.queue, behave).calls
              && r.outcome.thrown == ReplayQueue(v, st.queue, behave).thrown
              && ((forall k :: 0 <= k < |st.queue| ==> behave(v, st.queue[k]).None?)
                  ==> r.outcome == Installed(st.queue, None))
    ensures IsFunction(v) && st.fn.Some? ==> r == SetResult(st, AlreadyDefined(OnlyOnceMessage))
  {
    if !IsFunction(v) then SetResult(st, Ignored)
    else if st.fn.None? then
      var replay := ReplayQueue(v, st.queue, behave);
      SetResult(BootState(st.queue, Some(v)), Installed(replay.calls, replay.thrown))
    else SetResult(st, AlreadyDefined(OnlyOnceMessage))
  }

  /** Once installed, the callback can never be replaced, and the getter
      keeps returning it whatever is assigned. */
  lemma InstalledCallbackIsPermanent(st: BootState, v: JsValue, behave: Behaviour)
    requires Valid(st) && st.fn.Some?
    ensures Set(st, v, behave).state == st
    ensures Get(Set(st, v, behave).state) == st.fn.value
  {
  }
}
