/** The synchronous event registry (`Event`) that links the controllers: event
    names map to lists of handlers, which `trigger` calls in registration order.
    The controller, the local controller and the host shell each carry a copy;
    registration is the same in all three and dispatch differs in how a failing
    handler is treated, so one model covers the three with a `Variant`.
    Handlers are opaque ids; what a handler does is not modelled, only how it
    returns. */
module Events {
  import opened Wrappers
  import opened Seqs

  type Handler = nat

  /** The class attributes `activated` and `events`. */
  datatype Registry = Registry(activated: bool, events: map<string, seq<Handler>>)

  const Initial := Registry(false, map[])

  /** The handlers of an event, `events.get(event, [])`. */
  function HandlersOf(reg: Registry, event: string): seq<Handler> {
    if event in reg.events then reg.events[event] else []
  }

  /** `activate`: dispatch is enabled; handlers stay. */
  function Activate(reg: Registry): (r: Registry)
    ensures r.activated && r.events == reg.events
  {
    reg.(activated := true)
  }

  /** `deactivate`: dispatch is disabled and every handler is forgotten. */
  function Deactivate(reg: Registry): (r: Registry)
    ensures !r.activated && r.events == map[]
  {
    Registry(false, map[])
  }

  /** `on(event, *handlers)`: appends the handlers, in order and duplicates
      included; the event gets a key even when no handler is given. */
  function On(reg: Registry, event: string, hs: seq<Handler>): (r: Registry)
    ensures r.activated == reg.activated
    ensures event in r.events && r.events[event] == HandlersOf(reg, event) + hs
    ensures forall e :: e != event ==> (e in r.events <==> e in reg.events) && HandlersOf(r, e) == HandlersOf(reg, e)
  {
    reg.(events := reg.events[event := HandlersOf(reg, event) + hs])
  }

  /** `while cb in list: list.remove(cb)`: every occurrence of the handler
      removed, the rest in order. */
  function Without(hs: seq<Handler>, h: Handler): (r: seq<Handler>)
    ensures forall x :: x in r <==> x in hs && x != h
    ensures |r| <= |hs|
  {
    if hs == [] then []
    else
      assert forall x :: x in hs <==> x == hs[0] || x in hs[1..];
      (if hs[0] == h then [] else [hs[0]]) + Without(hs[1..], h)
  }

  /** The loop of `off` over the given handlers, on the event's list: each
      handler must still be registered (so a handler named twice fails the
      second time) and loses every occurrence; at a missing one the loop stops
      with `false`, keeping the removals made before it. */
  function RemoveAll(list: seq<Handler>, hs: seq<Handler>): (r: (seq<Handler>, bool))
    ensures r.1 <==> NoDuplicates(hs) && forall h :: h in hs ==> h in list
    ensures r.1 ==> forall x :: x in r.0 <==> x in list && x !in hs
    decreases |hs|
  {
    if hs == [] then (list, true)
    else if hs[0] !in list then (list, false)
    else
      var r := RemoveAll(Without(list, hs[0]), hs[1..]);
      assert forall h :: h in hs <==> h == hs[0] || h in hs[1..];
      NoDuplicatesSplit(hs);
      r
  }

  lemma NoDuplicatesSplit(hs: seq<Handler>)
    requires hs != []
    ensures NoDuplicates(hs) <==> NoDuplicates(hs[1..]) && hs[0] !in hs[1..]
  {
    if NoDuplicates(hs) {
      NoDuplicatesTail(hs);
    }
    if NoDuplicates(hs[1..]) && hs[0] !in hs[1..] {
      NoDuplicatesCons(hs[0], hs[1..]);
      assert [hs[0]] + hs[1..] == hs;
    }
  }

  /** The loop stopped at position `k` of `hs`, at a handler missing from
      `list` or named again, and `result` lacks exactly the handlers before it. */
  ghost predicate StopsAt(list: seq<Handler>, hs: seq<Handler>, k: int, result: seq<Handler>) {
    && 0 <= k < |hs| && (hs[k] !in list || hs[k] in hs[..k])
    && forall x :: x in result <==> x in list && x !in hs[..k]
  }

  /** When the loop stops, it stopped at the first handler that was missing or
      named again, and exactly the handlers before it were removed. */
  lemma {:induction false} RemoveAllStops(list: seq<Handler>, hs: seq<Handler>)
    requires !RemoveAll(list, hs).1
    ensures exists k :: StopsAt(list, hs, k, RemoveAll(list, hs).0)
    decreases |hs|
  {
    if hs[0] !in list {
      assert hs[..0] == [];
      assert StopsAt(list, hs, 0, RemoveAll(list, hs).0);
    } else {
      var l1 := Without(list, hs[0]);
      var res := RemoveAll(l1, hs[1..]).0;
      assert RemoveAll(list, hs).0 == res;
      RemoveAllStops(l1, hs[1..]);
      var k :| StopsAt(l1, hs[1..], k, res);
      StopsShift(list, hs, k, res);
    }
  }

  /** A stop in the tail, after the first handler was removed, is a stop one
      position later in the whole list. */
  lemma StopsShift(list: seq<Handler>, hs: seq<Handler>, k: int, res: seq<Handler>)
    requires hs != [] && hs[0] in list
    requires StopsAt(Without(list, hs[0]), hs[1..], k, res)
    ensures StopsAt(list, hs, k + 1, res)
  {
    assert hs[..k + 1] == [hs[0]] + hs[1..][..k];
    assert hs[k + 1] == hs[1..][k];
  }

  /** `RemoveAll` applied to the registered event; a stop raises
      HandlerNotFound. */
  function RemoveHandlers(reg: Registry, event: string, hs: seq<Handler>): (r: (Registry, Option<Error>))
    requires event in reg.events
    ensures r.0.activated == reg.activated && event in r.0.events
    ensures forall e :: e != event ==> (e in r.0.events <==> e in reg.events) && HandlersOf(r.0, e) == HandlersOf(reg, e)
    ensures r.1.None? <==> NoDuplicates(hs) && forall h :: h in hs ==> h in reg.events[event]
    ensures r.1.None? ==> forall x :: x in r.0.events[event] <==> x in reg.events[event] && x !in hs
    ensures r.1.Some? ==> r.1 == Some(HandlerNotFound)
  {
    var (list, ok) := RemoveAll(reg.events[event], hs);
    (reg.(events := reg.events[event := list]), if ok then None else Some(HandlerNotFound))
  }

  /** `off(event, *handlers)`. A falsy event clears the registry; an unknown
      one raises EventNotFound; with no handlers the event is dropped;
      otherwise the handlers are removed as `RemoveHandlers` says. */
  function Off(reg: Registry, event: Option<string>, hs: seq<Handler>): (r: (Registry, Option<Error>))
    ensures r.0.activated == reg.activated
    ensures event.None? || event.value == "" ==> r == (reg.(events := map[]), None)
    ensures event.Some? && event.value != "" && event.value !in reg.events ==> r == (reg, Some(EventNotFound))
    ensures event.Some? && event.value != "" && event.value in reg.events && hs == [] ==>
      r == (reg.(events := reg.events - {event.value}), None)
    ensures event.Some? && event.value != "" && event.value in reg.events && r.1.None? ==>
      forall h :: h in hs ==> h !in HandlersOf(r.0, event.value)
  {
    if event.None? || event.value == "" then (reg.(events := map[]), None)
    else if event.value !in reg.events then (reg, Some(EventNotFound))
    else if hs == [] then (reg.(events := reg.events - {event.value}), None)
    else RemoveHandlers(reg, event.value, hs)
  }

  /** Removing a handler keeps the order of the others. */
  lemma {:induction false} WithoutAppend(a: seq<Handler>, h: Handler)
    requires h !in a
    ensures Without(a + [h], h) == a
  {
    if a != [] {
      assert (a + [h])[1..] == a[1..] + [h];
      WithoutAppend(a[1..], h);
      assert a == [a[0]] + a[1..];
    } else {
      assert [] + [h] == [h];
    }
  }

  /** `off` undoes `on`: a handler that was not registered for the event, once
      registered and removed again, leaves the event's handler list as it was. */
  lemma OffUndoesOn(reg: Registry, event: string, h: Handler)
    requires event != "" && h !in HandlersOf(reg, event)
    ensures Off(On(reg, event, [h]), Some(event), [h]).1 == None
    ensures HandlersOf(Off(On(reg, event, [h]), Some(event), [h]).0, event) == HandlersOf(reg, event)
    ensures forall e :: e != event ==> HandlersOf(Off(On(reg, event, [h]), Some(event), [h]).0, e) == HandlersOf(reg, e)
  {
    var list := HandlersOf(reg, event);
    var reg1 := On(reg, event, [h]);
    WithoutAppend(list, h);
    assert RemoveAll(list + [h], [h]) == RemoveAll(Without(list + [h], h), [h][1..]);
    assert [h][1..] == [];
    assert RemoveAll(reg1.events[event], [h]).0 == list;
  }

  /** How a handler returns when called with keyword arguments (`true`) or with
      positional ones only (`false`). */
  datatype Reaction = Returns | RaisesTypeError | RaisesOther

  /** Which copy of the registry dispatches. */
  datatype Variant = ControllerEvents | LocalEvents | HostCliEvents

  /** What dispatch does, in order: a handler call (with or without the keyword
      arguments), a nested trigger of an event that reports a failure, or an
      error written to the log. */
  datatype Step = Call(handler: Handler, withKeywords: bool) | Report(event: string) | LogError

  /** The value `trigger` returns (None for its bare `return`), the steps it
      took, and whether an exception escaped it. */
  datatype Dispatch = Dispatch(result: Option<bool>, steps: seq<Step>, escaped: bool)

  /** One handler of the snapshot. The controller reports any exception through
      the `log_to_input` event and the local controller logs it. The host
      shell retries a handler that raised TypeError once with positional
      arguments only, outside any handler of exceptions, so a failing retry
      escapes; other exceptions are reported through `log_to_output`. */
  function RunOne(v: Variant, react: (Handler, bool) -> Reaction, h: Handler): (r: (seq<Step>, bool))
    ensures r.0 != [] && r.0[0] == Call(h, true)
    ensures r.1 <==> v == HostCliEvents && react(h, true) == RaisesTypeError && react(h, false) != Returns
  {
    if react(h, true) == Returns then ([Call(h, true)], false)
    else match v
      case ControllerEvents => ([Call(h, true), Report("log_to_input")], false)
      case LocalEvents => ([Call(h, true), LogError], false)
      case HostCliEvents =>
        if react(h, true) == RaisesTypeError then ([Call(h, true), Call(h, false)], react(h, false) != Returns)
        else ([Call(h, true), Report("log_to_output")], false)
  }

  /** The handlers called with the given kind of arguments, in order. */
  function Called(steps: seq<Step>, withKeywords: bool): seq<Handler> {
    if steps == [] then []
    else (if steps[0].Call? && steps[0].withKeywords == withKeywords then [steps[0].handler] else []) + Called(steps[1..], withKeywords)
  }

  /** The number of failures reported or logged. */
  function Reported(steps: seq<Step>): nat {
    if steps == [] then 0 else (if steps[0].Call? then 0 else 1) + Reported(steps[1..])
  }

  lemma {:induction false} CalledAppend(a: seq<Step>, b: seq<Step>, kw: bool)
    ensures Called(a + b, kw) == Called(a, kw) + Called(b, kw)
    ensures Reported(a + b) == Reported(a) + Reported(b)
  {
    if a == [] {
      assert a + b == b;
    } else {
      assert (a + b)[0] == a[0];
      assert (a + b)[1..] == a[1..] + b;
      CalledAppend(a[1..], b, kw);
    }
  }

  /** The handlers whose keyword call raises. */
  function Failing(react: (Handler, bool) -> Reaction, hs: seq<Handler>): (r: seq<Handler>)
    ensures forall h :: h in r <==> h in hs && react(h, true) != Returns
  {
    if hs == [] then []
    else
      assert forall h :: h in hs <==> h == hs[0] || h in hs[1..];
      (if react(hs[0], true) != Returns then [hs[0]] else []) + Failing(react, hs[1..])
  }

  /** The handlers whose keyword call raises TypeError. */
  function TypeErrors(react: (Handler, bool) -> Reaction, hs: seq<Handler>): (r: seq<Handler>)
    ensures forall h :: h in r <==> h in hs && react(h, true) == RaisesTypeError
  {
    if hs == [] then []
    else
      assert forall h :: h in hs <==> h == hs[0] || h in hs[1..];
      (if react(hs[0], true) == RaisesTypeError then [hs[0]] else []) + TypeErrors(react, hs[1..])
  }

  /** Every handler that raises TypeError succeeds when retried. */
  predicate Retriable(react: (Handler, bool) -> Reaction, hs: seq<Handler>) {
    forall h :: h in hs && react(h, true) == RaisesTypeError ==> react(h, false) == Returns
  }

  /** The loop of `trigger` over the snapshot, up to an escaping exception. A
      failing handler does not stop the rest. */
  function RunAll(v: Variant, react: (Handler, bool) -> Reaction, hs: seq<Handler>): (r: (seq<Step>, bool))
    ensures r.1 <==> v == HostCliEvents && !Retriable(react, hs)
    decreases |hs|
  {
    if hs == [] then ([], false)
    else
      var (first, esc) := RunOne(v, react, hs[0]);
      if esc then (first, true)
      else
        var (rest, esc2) := RunAll(v, react, hs[1..]);
        assert forall h :: h in hs <==> h == hs[0] || h in hs[1..];
        (first + rest, esc2)
  }

  /** In the controller and the local controller every handler of the
      snapshot is called once with the keyword arguments, in order, and every
      failure is reported. */
  lemma {:induction false} RunAllCalls(v: Variant, react: (Handler, bool) -> Reaction, hs: seq<Handler>)
    requires v != HostCliEvents
    ensures Called(RunAll(v, react, hs).0, true) == hs
    ensures Called(RunAll(v, react, hs).0, false) == []
    ensures Reported(RunAll(v, react, hs).0) == |Failing(react, hs)|
    decreases |hs|
  {
    if hs != [] {
      var first := RunOne(v, react, hs[0]).0;
      var rest := RunAll(v, react, hs[1..]).0;
      RunOneOnce(v, react, hs[0]);
      assert RunAll(v, react, hs).0 == first + rest;
      RunAllCalls(v, react, hs[1..]);
      CalledAppend(first, rest, true);
      CalledAppend(first, rest, false);
    }
  }

  /** One handler in the controller or the local controller: called once with
      the keyword arguments and reported when it raised. */
  lemma RunOneOnce(v: Variant, react: (Handler, bool) -> Reaction, h: Handler)
    requires v != HostCliEvents
    ensures var (first, esc) := RunOne(v, react, h);
      && !esc
      && Called(first, true) == [h]
      && Called(first, false) == []
      && Reported(first) == (if react(h, true) != Returns then 1 else 0)
  {
    var first := RunOne(v, react, h).0;
    if react(h, true) == Returns {
      assert first[1..] == [];
    } else {
      var tail := first[1..];
      assert |tail| == 1 && tail[1..] == [];
      assert Called(tail, true) == [] && Called(tail, false) == [] && Reported(tail) == 1;
    }
  }

  /** In the host shell, when every retry succeeds, every handler is called
      once with the keyword arguments, the TypeError ones once more without,
      and the other failures are reported. */
  lemma {:induction false} RunAllRetries(react: (Handler, bool) -> Reaction, hs: seq<Handler>)
    requires Retriable(react, hs)
    ensures Called(RunAll(HostCliEvents, react, hs).0, true) == hs
    ensures Called(RunAll(HostCliEvents, react, hs).0, false) == TypeErrors(react, hs)
    ensures Reported(RunAll(HostCliEvents, react, hs).0) == |Failing(react, hs)| - |TypeErrors(react, hs)|
    decreases |hs|
  {
    if hs != [] {
      var first := RunOne(HostCliEvents, react, hs[0]).0;
      var rest := RunAll(HostCliEvents, react, hs[1..]).0;
      assert hs[0] in hs;
      assert forall h :: h in hs[1..] ==> h in hs;
      RunOneRetry(react, hs[0]);
      assert RunAll(HostCliEvents, react, hs).0 == first + rest;
      RunAllRetries(react, hs[1..]);
      CalledAppend(first, rest, true);
      CalledAppend(first, rest, false);
      FailingCount(react, hs[1..]);
    }
  }

  /** One handler in the host shell whose retry succeeds: called once with the
      keyword arguments, once more without when it raised TypeError, and
      reported when it raised anything else. */
  lemma RunOneRetry(react: (Handler, bool) -> Reaction, h: Handler)
    requires react(h, true) == RaisesTypeError ==> react(h, false) == Returns
    ensures var (first, esc) := RunOne(HostCliEvents, react, h);
      && !esc
      && Called(first, true) == [h]
      && Called(first, false) == (if react(h, true) == RaisesTypeError then [h] else [])
      && Reported(first) == (if react(h, true) == RaisesOther then 1 else 0)
  {
    var first := RunOne(HostCliEvents, react, h).0;
    if react(h, true) == Returns {
      assert first[1..] == [];
    } else {
      var tail := first[1..];
      assert |tail| == 1 && tail[1..] == [];
      assert Called(tail, true) == [];
      assert Called(tail, false) == (if react(h, true) == RaisesTypeError then [h] else []);
      assert Reported(tail) == (if react(h, true) == RaisesOther then 1 else 0);
    }
  }

  /** A handler raising TypeError is among the failing ones. */
  lemma {:induction false} FailingCount(react: (Handler, bool) -> Reaction, hs: seq<Handler>)
    ensures |TypeErrors(react, hs)| <= |Failing(react, hs)|
  {
    if hs != [] {
      FailingCount(react, hs[1..]);
    }
  }

  /** `trigger(event)`: nothing while inactive; False when the event has no
      handlers; otherwise the snapshot of its handlers is run in order and the
      result is True, unless an exception escaped. */
  function Trigger(v: Variant, reg: Registry, event: string, react: (Handler, bool) -> Reaction): (r: Dispatch)
    ensures !reg.activated ==> r == Dispatch(None, [], false)
    ensures reg.activated && HandlersOf(reg, event) == [] ==> r == Dispatch(Some(false), [], false)
    ensures r.escaped <==> r.result.None? && reg.activated
    ensures v != HostCliEvents && reg.activated && HandlersOf(reg, event) != [] ==>
      (r.result == Some(true) && Called(r.steps, true) == HandlersOf(reg, event)
      && Reported(r.steps) == |Failing(react, HandlersOf(reg, event))|)
    ensures v == HostCliEvents && reg.activated && HandlersOf(reg, event) != [] ==>
      (r.escaped <==> !Retriable(react, HandlersOf(reg, event)))
    ensures v == HostCliEvents && reg.activated && HandlersOf(reg, event) != [] && !r.escaped ==>
      (r.result == Some(true) && Called(r.steps, true) == HandlersOf(reg, event)
      && Called(r.steps, false) == TypeErrors(react, HandlersOf(reg, event)))
  {
    if !reg.activated then Dispatch(None, [], false)
    else
      var cbs := HandlersOf(reg, event);
      if cbs == [] then Dispatch(Some(false), [], false)
      else
        var (steps, esc) := RunAll(v, react, cbs);
        if v == HostCliEvents then
          (if esc then Dispatch(None, steps, esc) else RunAllRetries(react, cbs); Dispatch(Some(true), steps, esc))
        else
          RunAllCalls(v, react, cbs);
          Dispatch(if esc then None else Some(true), steps, esc)
  }
}
