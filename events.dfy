/**
 * The application's event registry: callbacks registered per event name,
 * appended by `dispatch` and run in registration order by `triggerEvent`.
 *
 * A callback is the `[class, method]` pair `triggerEvent` expects. Running
 * one creates a new instance of the class, sets its `action` to the method
 * name and hands it to `call_user_func`; the model records each instance
 * handed over in `calls`, since what the method then does is application
 * code. Which methods throw is a parameter: an exception leaves the loop, so
 * the listeners after the one that threw never run.
 */
module Events {
  import opened Php

  const EVENT_BEFORE_REQUEST := "beforeRequest"
  const EVENT_AFTER_REQUEST := "afterRequest"

  datatype Callback = Callback(cls: string, action: string)

  type Listeners = map<string, seq<Callback>>

  /** `$this->eventListeners[$eventName] ?? []`. */
  function ListenersOf(listeners: Listeners, eventName: string): seq<Callback> {
    if eventName in listeners then listeners[eventName] else []
  }

  /** The registry after `dispatch`: the callback joins the end of its event's list. */
  function Dispatched(listeners: Listeners, eventName: string, callback: Callback): Listeners {
    listeners[eventName := ListenersOf(listeners, eventName) + [callback]]
  }

  /** Dispatching keeps the event's earlier callbacks, puts the new one last and leaves other events alone. */
  lemma DispatchAppends(listeners: Listeners, eventName: string, callback: Callback, other: string)
    requires other != eventName
    ensures var after := Dispatched(listeners, eventName, callback);
      ListenersOf(after, eventName) == ListenersOf(listeners, eventName) + [callback] &&
      ListenersOf(after, eventName)[|ListenersOf(after, eventName)| - 1] == callback &&
      ListenersOf(after, other) == ListenersOf(listeners, other) &&
      (other in after <==> other in listeners)
  {
  }

  /** The registry after dispatching several callbacks to one event, in order. */
  function DispatchedAll(listeners: Listeners, eventName: string, callbacks: seq<Callback>): Listeners
    decreases |callbacks|
  {
    if callbacks == [] then listeners
    else DispatchedAll(Dispatched(listeners, eventName, callbacks[0]), eventName, callbacks[1..])
  }

  /** Callbacks dispatched one after another run in that order, after those already there. */
  lemma {:induction false} DispatchOrder(listeners: Listeners, eventName: string, callbacks: seq<Callback>)
    ensures ListenersOf(DispatchedAll(listeners, eventName, callbacks), eventName) ==
      ListenersOf(listeners, eventName) + callbacks
    decreases |callbacks|
  {
    if callbacks != [] {
      DispatchOrder(Dispatched(listeners, eventName, callbacks[0]), eventName, callbacks[1..]);
      assert ListenersOf(listeners, eventName) + callbacks ==
        (ListenersOf(listeners, eventName) + [callbacks[0]]) + callbacks[1..];
    }
  }

  /** Dispatching the same callback twice makes it run twice more per trigger. */
  lemma DispatchTwiceRunsTwice(listeners: Listeners, eventName: string, callback: Callback)
    ensures var after := Dispatched(Dispatched(listeners, eventName, callback), eventName, callback);
      multiset(ListenersOf(after, eventName))[callback] == multiset(ListenersOf(listeners, eventName))[callback] + 2
  {
    var before := ListenersOf(listeners, eventName);
    assert ListenersOf(Dispatched(Dispatched(listeners, eventName, callback), eventName, callback), eventName)
      == before + [callback] + [callback];
  }

  /** The first callback whose method throws, if any. */
  function FirstFailing(callbacks: seq<Callback>, failing: set<Callback>): (r: Option<nat>)
    ensures r.Some? ==> r.value < |callbacks| && callbacks[r.value] in failing
    ensures r.Some? ==> forall j :: 0 <= j < r.value ==> callbacks[j] !in failing
    ensures r.None? <==> forall j :: 0 <= j < |callbacks| ==> callbacks[j] !in failing
  {
    if callbacks == [] then None
    else if callbacks[0] in failing then Some(0)
    else
      var rest := FirstFailing(callbacks[1..], failing);
      assert forall j :: 1 <= j < |callbacks| ==> callbacks[1..][j - 1] == callbacks[j];
      if rest.Some? then Some(rest.value + 1) else None
  }

  /**
   * How many listeners `triggerEvent` instantiates and calls: all of them, or
   * those up to and including the first that throws.
   */
  function Handed(callbacks: seq<Callback>, failing: set<Callback>): (n: nat)
    ensures n <= |callbacks|
    ensures n == |callbacks| <== forall j :: 0 <= j < |callbacks| ==> callbacks[j] !in failing
    ensures n < |callbacks| ==> n > 0 && callbacks[n - 1] in failing
    ensures forall j :: 0 <= j < n - 1 ==> callbacks[j] !in failing
  {
    var f := FirstFailing(callbacks, failing);
    if f.Some? then f.value + 1 else |callbacks|
  }

  /** The trigger stops right after the `i`-th listener when it throws and none before it did. */
  lemma StopsAfter(callbacks: seq<Callback>, failing: set<Callback>, i: nat)
    requires 0 < i <= |callbacks| && callbacks[i - 1] in failing
    requires forall k :: 0 <= k < i - 1 ==> callbacks[k] !in failing
    ensures FirstFailing(callbacks, failing) == Some(i - 1) && Handed(callbacks, failing) == i
  {
  }

  /** Once a listener throws, callbacks dispatched later to the same event never run. */
  lemma {:induction false} FailingFirstIsKept(callbacks: seq<Callback>, more: seq<Callback>, failing: set<Callback>)
    requires FirstFailing(callbacks, failing).Some?
    ensures FirstFailing(callbacks + more, failing) == FirstFailing(callbacks, failing)
    ensures Handed(callbacks + more, failing) == Handed(callbacks, failing)
  {
    var u := FirstFailing(callbacks, failing).value;
    assert (callbacks + more)[u] == callbacks[u];
    assert forall j :: 0 <= j < u ==> (callbacks + more)[j] == callbacks[j];
  }

  /** Dispatching more callbacks after one that throws changes nothing a trigger runs. */
  lemma DispatchAfterFailureNeverRuns(listeners: Listeners, eventName: string, callbacks: seq<Callback>,
                                      failing: set<Callback>)
    requires FirstFailing(ListenersOf(listeners, eventName), failing).Some?
    ensures Handed(ListenersOf(DispatchedAll(listeners, eventName, callbacks), eventName), failing) ==
      Handed(ListenersOf(listeners, eventName), failing)
  {
    DispatchOrder(listeners, eventName, callbacks);
    FailingFirstIsKept(ListenersOf(listeners, eventName), callbacks, failing);
  }

  /** The object `triggerEvent` creates for one callback. */
  class Listener {
    const cls: string
    var action: string

    constructor (cls: string)
      ensures this.cls == cls && action == ""
    {
      this.cls := cls;
      action := "";
    }
  }

  /**
   * `made` are distinct listeners for the first `|made|` callbacks, in order,
   * each of its callback's class and with `action` set to its method.
   */
  predicate Instances(made: seq<Listener>, callbacks: seq<Callback>)
    reads made
  {
    |made| <= |callbacks| &&
    (forall k :: 0 <= k < |made| ==> made[k].cls == callbacks[k].cls && made[k].action == callbacks[k].action) &&
    (forall k, m :: 0 <= k < m < |made| ==> made[k] != made[m])
  }

  /** `Event` together with its subclass `EventDispatcher`, the registry the application holds. */
  class EventDispatcher {
    var eventListeners: Listeners
    var calls: seq<Listener>

    constructor ()
      ensures eventListeners == map[] && calls == []
    {
      eventListeners := map[];
      calls := [];
    }

    /** `dispatch`. */
    method Dispatch(eventName: string, callback: Callback)
      modifies this`eventListeners
      ensures eventListeners == Dispatched(old(eventListeners), eventName, callback)
    {
      var current := if eventName in eventListeners then eventListeners[eventName] else [];
      eventListeners := eventListeners[eventName := current + [callback]];
    }

    /** `new $callback[0]` with its `action` set to `$callback[1]`. */
    method Instantiate(callback: Callback) returns (event: Listener)
      ensures fresh(event) && event.cls == callback.cls && event.action == callback.action
    {
      event := new Listener(callback.cls);
      event.action := callback.action;
    }

    /**
     * The `foreach` of `triggerEvent`: one new listener per callback, in order,
     * up to and including the first whose method throws, which is `thrown`.
     */
    method RunListeners(callbacks: seq<Callback>, failing: set<Callback>)
      returns (made: seq<Listener>, thrown: Option<Callback>)
      ensures var f := FirstFailing(callbacks, failing);
        thrown == (if f.Some? then Some(callbacks[f.value]) else None)
      ensures |made| == Handed(callbacks, failing)
      ensures forall k :: 0 <= k < |made| ==> fresh(made[k])
      ensures Instances(made, callbacks)
    {
      made := [];
      thrown := None;
      var i := 0;
      while i < |callbacks| && thrown.None?
        invariant 0 <= i <= |callbacks| && |made| == i
        invariant thrown.None? ==> forall k :: 0 <= k < i ==> callbacks[k] !in failing
        invariant thrown.Some? ==> 0 < i && thrown == Some(callbacks[i - 1]) && callbacks[i - 1] in failing
        invariant thrown.Some? ==> forall k :: 0 <= k < i - 1 ==> callbacks[k] !in failing
        invariant forall k :: 0 <= k < i ==> fresh(made[k])
        invariant forall k :: 0 <= k < i ==> made[k].cls == callbacks[k].cls && made[k].action == callbacks[k].action
        invariant forall k, m :: 0 <= k < m < i ==> made[k] != made[m]
      {
        var event := Instantiate(callbacks[i]);
        made := made + [event];
        if callbacks[i] in failing {
          thrown := Some(callbacks[i]);
        }
        i := i + 1;
      }
      if thrown.Some? {
        StopsAfter(callbacks, failing, i);
      }
    }

    /**
     * `triggerEvent`: one new listener per callback, in registration order,
     * each with its `action` set to the callback's method name, until a method
     * in `failing` throws; `thrown` is that callback, and the listeners after it
     * never run. The registry is not touched.
     */
    method TriggerEvent(eventName: string, failing: set<Callback>) returns (thrown: Option<Callback>)
      modifies this`calls
      ensures eventListeners == old(eventListeners)
      ensures var callbacks := ListenersOf(eventListeners, eventName);
        var f := FirstFailing(callbacks, failing);
        thrown == (if f.Some? then Some(callbacks[f.value]) else None)
      ensures |calls| == |old(calls)| + Handed(ListenersOf(eventListeners, eventName), failing)
      ensures calls[..|old(calls)|] == old(calls)
      ensures forall k :: |old(calls)| <= k < |calls| ==> fresh(calls[k])
      ensures Instances(calls[|old(calls)|..], ListenersOf(eventListeners, eventName))
    {
      var callbacks := if eventName in eventListeners then eventListeners[eventName] else [];
      assert callbacks == ListenersOf(eventListeners, eventName);
      var made;
      made, thrown := RunListeners(callbacks, failing);
      var start := |calls|;
      calls := calls + made;
      assert calls[..start] == old(calls) && calls[start..] == made;
    }
  }
}
