/** The client-side renderer: it recognises a compiled Elm module, runs its
    `init` on the island's element, hands the app to `window.onElmInit` (now
    or later, through the bootstrap queue) and turns an exception into a
    visible error block inside that element. */
module Client {

  import opened Wrappers
  import opened Js
  import opened Bootstrap

  /** The host element of an island: its identity and the text of the
      `<pre>` error blocks appended to it, in order. */
  datatype Element = Element(id: nat, errorBlocks: seq<string>)

  /** The options object passed to `init`: `node` is the host element and
      `flags` the component's props. */
  datatype InitOptions = InitOptions(node: nat, flags: map<string, JsValue>)

  /** What calling `init` did: return an app or throw. */
  datatype InitOutcome = Returned(app: App) | InitThrew(exception: Thrown)

  /** What calling an `init` function value with options does. */
  type InitBehaviour = (JsValue, InitOptions) -> InitOutcome

  /** The duck-typing test: an object (not a function, not `null`) with a
      string `__name` and a function `init`. */
  predicate IsElmModule(c: JsValue) {
    && c.Object?
    && "__name" in c.props && IsString(c.props["__name"])
    && "init" in c.props && IsFunction(c.props["init"])
  }

  /** Every Elm module is truthy, so the `!Component` early return never
      hides one. */
  lemma ElmModuleIsTruthy(c: JsValue)
    requires IsElmModule(c)
    ensures Truthy(c)
  {
  }

  /** `registerInitCallback`, together with what it did. */
  datatype Registration = Registration(state: BootState, calls: seq<QueueEntry>, thrown: Option<Thrown>)

  /** `registerInitCallback(elmModuleName, app)`: with a callback installed,
      call it once with the entry (and let its exception escape); otherwise
      append the entry to the queue and call nothing. */
  function RegisterInitCallback(st: BootState, entry: QueueEntry, behave: Behaviour): (r: Registration)
    requires Valid(st)
    ensures Valid(r.state)
    ensures r.state.fn == st.fn
    ensures st.fn.Some? ==> r.state.queue == st.queue && r.calls == [entry] && r.thrown == behave(st.fn.value, entry)
    ensures st.fn.None? ==> r.state.queue == st.queue + [entry] && r.calls == [] && r.thrown.None?
  {
    if IsFunction(Get(st)) then Registration(st, [entry], behave(Get(st), entry))
    else Registration(BootState(st.queue + [entry], st.fn), [], None)
  }

  /** The text after the headline, as the template literal renders it: an
      `Error`'s `stack` (the text `undefined` when it has none), or any
      other thrown value's string form; `None` for a value without a string
      form, where building the text throws a `TypeError`. */
  function Diagnostic(e: Thrown): (d: Option<string>)
    ensures d.None? <==> e.NoStringForm?
    ensures e.ErrorInstance? && e.stack.Some? ==> d == Some(e.stack.value)
    ensures e.ErrorInstance? && e.stack.None? ==> d == Some("undefined")
    ensures e.OtherValue? ==> d == Some(e.text)
  {
    match e
    case ErrorInstance(_, stack) => (match stack case Some(s) => Some(s) case None => Some("undefined"))
    case OtherValue(text) => Some(text)
    case NoStringForm => None
  }

  const ErrorHeadlineStart := "Module \""
  const ErrorHeadlineEnd := "\" cannot be initialized.\n\n"

  /** The text of the `<pre>` block `renderError` appends: the headline
      naming the module, a blank line, then the diagnostic, each readable
      back at a fixed offset. */
  function ErrorText(name: string, diagnostic: string): (t: string)
    ensures |t| == |ErrorHeadlineStart| + |name| + |ErrorHeadlineEnd| + |diagnostic|
    ensures t[..|ErrorHeadlineStart|] == ErrorHeadlineStart
    ensures t[|ErrorHeadlineStart|..|ErrorHeadlineStart| + |name|] == name
    ensures t[|ErrorHeadlineStart| + |name|..|ErrorHeadlineStart| + |name| + |ErrorHeadlineEnd|] == ErrorHeadlineEnd
    ensures t[|ErrorHeadlineStart| + |name| + |ErrorHeadlineEnd|..] == diagnostic
  {
    var t := ErrorHeadlineStart + name + ErrorHeadlineEnd + diagnostic;
    var a := |ErrorHeadlineStart|;
    var b := a + |name|;
    var c := b + |ErrorHeadlineEnd|;
    assert t[..a] == ErrorHeadlineStart;
    assert t[a..b] == name;
    assert t[b..c] == ErrorHeadlineEnd;
    assert t[c..] == diagnostic;
    t
  }

  /** `renderError(element, elmModuleName, exception)`: append one block and
      leave the existing ones alone. `None` when the exception has no string
      form: building the text throws before anything is appended. */
  function RenderError(element: Element, name: string, e: Thrown): (r: Option<Element>)
    ensures r.None? <==> Diagnostic(e).None?
    ensures r.Some? ==>
              && r.value.id == element.id
              && |r.value.errorBlocks| == |element.errorBlocks| + 1
              && r.value.errorBlocks[..|element.errorBlocks|] == element.errorBlocks
              && r.value.errorBlocks[|element.errorBlocks|] == ErrorText(name, Diagnostic(e).value)
  {
    match Diagnostic(e)
    case Some(d) => Some(Element(element.id, element.errorBlocks + [ErrorText(name, d)]))
    case None => None
  }

  /** One rendering of an island: the element and bootstrap state
      afterwards, the calls made to `init`, the calls made to the installed
      `onElmInit` callback, and whether an exception escaped the renderer. */
  datatype RenderStep = RenderStep(element: Element, state: BootState, initCalls: seq<InitOptions>,
                                   callbackCalls: seq<QueueEntry>, escaped: bool)

  /** What the `catch` block leaves for exception `e`: the element with the
      error block appended; or, when `e` has no string form, the element
      unchanged and a `TypeError` escaping. */
  predicate Caught(element: Element, name: string, e: Thrown, r: RenderStep) {
    match RenderError(element, name, e)
    case Some(el) => r.element == el && !r.escaped
    case None => r.element == element && r.escaped
  }

  /** The renderer returned by `clientSideRenderer(element)`, applied to
      `(Component, props)`. Anything falsy or not shaped like an Elm module
      is ignored. Otherwise `init` runs once on the element with the props
      as flags; the app is registered under the module's `__name`; and an
      exception from `init` or from the callback is caught and shown in the
      element. It escapes only when it has no string form. */
  function Render(element: Element, component: JsValue, props: map<string, JsValue>,
                  st: BootState, init: InitBehaviour, behave: Behaviour): (r: RenderStep)
    requires Valid(st)
    ensures Valid(r.state)
    ensures r.element.id == element.id
    ensures !Truthy(component) ==> r == RenderStep(element, st, [], [], false)
    ensures !IsElmModule(component) ==> r == RenderStep(element, st, [], [], false)
    ensures IsElmModule(component) ==>
              var name := component.props["__name"].s;
              var opts := InitOptions(element.id, props);
              && r.initCalls == [opts]
              && match init(component.props["init"], opts)
                 case InitThrew(e) =>
                   && r.state == st && r.callbackCalls == []
                   && Caught(element, name, e, r)
                 case Returned(app) =>
                   var reg := RegisterInitCallback(st, QueueEntry(name, app), behave);
                   && r.state == reg.state && r.callbackCalls == reg.calls
                   && (reg.thrown.None? ==> r.element == element && !r.escaped)
                   && (reg.thrown.Some? ==> Caught(element, name, reg.thrown.value, r))
  {
    if !Truthy(component) then RenderStep(element, st, [], [], false)
    else if !IsElmModule(component) then RenderStep(element, st, [], [], false)
    else
      var name := component.props["__name"].s;
      var opts := InitOptions(element.id, props);
      match init(component.props["init"], opts)
      case InitThrew(e) => CatchBlock(element, name, e, st, [opts], [])
      case Returned(app) =>
        var reg := RegisterInitCallback(st, QueueEntry(name, app), behave);
        match reg.thrown
        case None => RenderStep(element, reg.state, [opts], reg.calls, false)
        case Some(e) => CatchBlock(element, name, e, reg.state, [opts], reg.calls)
  }

  /** The `catch (exception) { renderError(...) }` block. */
  function CatchBlock(element: Element, name: string, e: Thrown, st: BootState,
                      initCalls: seq<InitOptions>, callbackCalls: seq<QueueEntry>): (r: RenderStep)
    ensures r.state == st && r.initCalls == initCalls && r.callbackCalls == callbackCalls
    ensures r.element.id == element.id
    ensures Caught(element, name, e, r)
  {
    match RenderError(element, name, e)
    case Some(el) => RenderStep(el, st, initCalls, callbackCalls, false)
    case None => RenderStep(element, st, initCalls, callbackCalls, true)
  }

  /** The exception the `try` block raises, if any: from `init`, or from the
      installed callback the app is handed to. */
  function Raised(element: Element, component: JsValue, props: map<string, JsValue>,
                  st: BootState, init: InitBehaviour, behave: Behaviour): Option<Thrown>
    requires Valid(st)
  {
    if !IsElmModule(component) then None
    else
      match init(component.props["init"], InitOptions(element.id, props))
      case InitThrew(e) => Some(e)
      case Returned(app) =>
        if st.fn.Some? then behave(st.fn.value, QueueEntry(component.props["__name"].s, app)) else None
  }

  /** Error isolation: a rendering appends at most one error block and never
      removes or rewrites an earlier one. It appends one exactly when `init`
      or the callback threw a value with a string form, and lets an
      exception escape exactly when the thrown value has none. */
  lemma RenderAppendsAtMostOneBlock(element: Element, component: JsValue, props: map<string, JsValue>,
                                    st: BootState, init: InitBehaviour, behave: Behaviour)
    requires Valid(st)
    ensures var r := Render(element, component, props, st, init, behave);
            && |element.errorBlocks| <= |r.element.errorBlocks| <= |element.errorBlocks| + 1
            && r.element.errorBlocks[..|element.errorBlocks|] == element.errorBlocks
    ensures var r := Render(element, component, props, st, init, behave);
            var raised := Raised(element, component, props, st, init, behave);
            (|r.element.errorBlocks| == |element.errorBlocks| + 1) <==> (raised.Some? && !raised.value.NoStringForm?)
    ensures var r := Render(element, component, props, st, init, behave);
            var raised := Raised(element, component, props, st, init, behave);
            r.escaped <==> (raised.Some? && raised.value.NoStringForm?)
  {
  }

  /** One thing that happens on a page after the bootstrap script ran: an
      island registers its app, or the page assigns `window.onElmInit`. */
  datatype PageEvent = Registered(entry: QueueEntry) | Assigned(value: JsValue)

  /** The bootstrap state after a sequence of events and every callback
      call made along the way, in order. */
  datatype Trace = Trace(state: BootState, delivered: seq<QueueEntry>)

  /** One event. A registration is delivered at once when a callback is
      installed and queued otherwise; an assignment that installs the first
      callback delivers (a prefix of) the queue; any other assignment
      changes nothing and delivers nothing. */
  function Step(st: BootState, ev: PageEvent, behave: Behaviour): (r: Trace)
    requires Valid(st)
    ensures Valid(r.state)
    ensures ev.Registered? && st.fn.None? ==> r == Trace(BootState(st.queue + [ev.entry], None), [])
    ensures ev.Registered? && st.fn.Some? ==> r == Trace(st, [ev.entry])
    ensures (ev.Assigned? && (st.fn.Some? || !IsFunction(ev.value))) ==> r == Trace(st, [])
    ensures (ev.Assigned? && st.fn.None? && IsFunction(ev.value)) ==>
              && r.state == BootState(st.queue, Some(ev.value))
              && |r.delivered| <= |st.queue|
              && r.delivered == st.queue[..|r.delivered|]
    ensures (ev.Assigned? && st.fn.None? && IsFunction(ev.value) && NeverThrows(behave)) ==> r.delivered == st.queue
  {
    match ev
    case Registered(e) =>
      var reg := RegisterInitCallback(st, e, behave);
      Trace(reg.state, reg.calls)
    case Assigned(v) =>
      var assignment := Set(st, v, behave);
      Trace(assignment.state, if assignment.outcome.Installed? then assignment.outcome.calls else [])
  }

  /** The state and deliveries after a sequence of events, folding `Step`. */
  function Run(st: BootState, events: seq<PageEvent>, behave: Behaviour): (r: Trace)
    requires Valid(st)
    ensures Valid(r.state)
    decreases |events|
  {
    if events == [] then Trace(st, [])
    else
      var before := Run(st, events[..|events| - 1], behave);
      var last := Step(before.state, events[|events| - 1], behave);
      Trace(last.state, before.delivered + last.delivered)
  }

  /** The entries registered by a sequence of events, in order: exactly
      the entries of its `Registered` events, one per such event. */
  function Registrations(events: seq<PageEvent>): (es: seq<QueueEntry>)
    ensures |es| <= |events|
    ensures forall e :: e in es <==> Registered(e) in events
    decreases |events|
  {
    if events == [] then []
    else
      var init := Registrations(events[..|events| - 1]);
      assert events == events[..|events| - 1] + [events[|events| - 1]];
      match events[|events| - 1]
      case Registered(e) => init + [e]
      case Assigned(_) => init
  }

  /** Registrations of consecutive event sequences follow one another, so
      the order of the registered entries is the order of their events. */
  lemma {:induction false} RegistrationsAppend(a: seq<PageEvent>, b: seq<PageEvent>)
    ensures Registrations(a + b) == Registrations(a) + Registrations(b)
    decreases |b|
  {
    if b == [] {
      assert a + b == a;
    } else {
      var b' := b[..|b| - 1];
      assert (a + b)[..|a + b| - 1] == a + b';
      assert (a + b)[|a + b| - 1] == b[|b| - 1];
      RegistrationsAppend(a, b');
    }
  }

  /** A single event registers its entry, or nothing. */
  lemma RegistrationsOfOne(ev: PageEvent)
    ensures ev.Registered? ==> Registrations([ev]) == [ev.entry]
    ensures ev.Assigned? ==> Registrations([ev]) == []
  {
    assert [ev][..0] == [];
  }

  /** Every callback call returns normally. */
  ghost predicate NeverThrows(behave: Behaviour) {
    forall f, e :: behave(f, e).None?
  }

  /** How a trace `r` that started in `st` relates to the entries `regs`
      registered along the way (see `DeliveryInOrder`). */
  predicate DeliveredInOrder(st: BootState, r: Trace, regs: seq<QueueEntry>) {
    && (r.state.fn.None? ==> st.fn.None? && r.delivered == [] && r.state.queue == st.queue + regs)
    && (st.fn.Some? ==> r.state == st && r.delivered == regs)
    && ((st.fn.None? && r.state.fn.Some?) ==> r.delivered == st.queue + regs)
  }

  /** One more event keeps `DeliveredInOrder`. */
  lemma DeliveredInOrderStep(st: BootState, before: Trace, ev: PageEvent, regs: seq<QueueEntry>, behave: Behaviour)
    requires Valid(st) && Valid(before.state)
    requires NeverThrows(behave)
    requires DeliveredInOrder(st, before, regs)
    ensures var last := Step(before.state, ev, behave);
            DeliveredInOrder(st, Trace(last.state, before.delivered + last.delivered),
                             regs + (if ev.Registered? then [ev.entry] else []))
  {
    var last := Step(before.state, ev, behave);
    if ev.Registered? {
      assert st.queue + regs + [ev.entry] == st.queue + (regs + [ev.entry]);
    } else {
      assert regs + [] == regs;
      if before.state.fn.None? && IsFunction(ev.value) {
        assert before.delivered + last.delivered == st.queue + regs;
      }
    }
  }

  /** The delivery guarantee of the bootstrap protocol, for callbacks that
      never throw. While no callback is installed, registrations only
      accumulate in the queue, in order. Once one is installed it stays
      installed, the queue never grows again, and the callback has received
      every app registered so far exactly once, in registration order,
      whether the app was registered before or after the assignment. */
  lemma DeliveryInOrder(st: BootState, events: seq<PageEvent>, behave: Behaviour)
    requires Valid(st)
    requires NeverThrows(behave)
    ensures var r := Run(st, events, behave);
            r.state.fn.None? ==>
              && st.fn.None?
              && r.delivered == []
              && r.state.queue == st.queue + Registrations(events)
    ensures var r := Run(st, events, behave);
            st.fn.Some? ==> r.state == st && r.delivered == Registrations(events)
    ensures var r := Run(st, events, behave);
            (st.fn.None? && r.state.fn.Some?) ==> r.delivered == st.queue + Registrations(events)
  {
    DeliveredInOrderHolds(st, events, behave);
  }

  lemma {:induction false} DeliveredInOrderHolds(st: BootState, events: seq<PageEvent>, behave: Behaviour)
    requires Valid(st)
    requires NeverThrows(behave)
    ensures DeliveredInOrder(st, Run(st, events, behave), Registrations(events))
    decreases |events|
  {
    if events == [] {
      assert st.queue + [] == st.queue;
    } else {
      var prefix := events[..|events| - 1];
      DeliveredInOrderHolds(st, prefix, behave);
      DeliveredInOrderStep(st, Run(st, prefix, behave), events[|events| - 1], Registrations(prefix), behave);
    }
  }

  /** The scenario the bootstrap protocol exists for: two islands register
      before the page assigns `window.onElmInit`, and the callback then
      receives both apps, in registration order. */
  lemma TwoIslandsThenCallback(e1: QueueEntry, e2: QueueEntry, k: JsValue, behave: Behaviour)
    requires IsFunction(k)
    requires NeverThrows(behave)
    ensures var r := Run(Start(Undefined), [Registered(e1), Registered(e2), Assigned(k)], behave);
            && r.delivered == [e1, e2]
            && r.state.fn == Some(k)
  {
    var st := Start(Undefined);
    var events := [Registered(e1), Registered(e2), Assigned(k)];
    assert events[..2][..1] == [Registered(e1)];
    assert events[..2][..1][..0] == [];
    assert Run(st, events[..2][..1], behave) == Trace(BootState([e1], None), []);
    assert Run(st, events[..2], behave) == Trace(BootState([e1, e2], None), []);
  }
}
