/**
  The open/closed state of the refresh menu
  (widgets/refreshMenu/controller/menuState.ts): a boolean observable cell
  with an extra `toggle`, a singleton that starts closed, and the three
  commands the rest of the shell uses on it.
 */
module MenuState {
  import Observable

  /** `toggle`: negates the value and notifies every subscriber, without the
      equality check `set` makes. */
  function Toggled(c: Observable.Cell<bool>): (r: Observable.Cell<bool>)
    ensures r.value == !c.value && r.subscribers == c.subscribers
    ensures c.calls <= r.calls && |r.calls| == |c.calls| + |c.subscribers|
  {
    Observable.Cell(!c.value, c.subscribers, c.calls + Observable.Notifications(c.subscribers, !c.value))
  }

  /** `openMenu`: set(true). */
  function Opened(c: Observable.Cell<bool>): (r: Observable.Cell<bool>)
    ensures r.value && r.subscribers == c.subscribers
  {
    Observable.Assign(c, true)
  }

  /** `closeMenu`: set(false). */
  function Closed(c: Observable.Cell<bool>): (r: Observable.Cell<bool>)
    ensures !r.value && r.subscribers == c.subscribers
  {
    Observable.Assign(c, false)
  }

  /** Since a boolean always differs from its negation, `toggle` does what
      `set(!value)` does: it never skips the notification. */
  lemma {:induction false} ToggleIsSetOfNegation(c: Observable.Cell<bool>)
    ensures Toggled(c) == Observable.Assign(c, !c.value)
  {
  }

  /** `toggle` calls every subscriber exactly once, in subscription order,
      with the new value, and calls nobody else. */
  lemma {:induction false} ToggleNotifies(c: Observable.Cell<bool>)
    requires Observable.Valid(c)
    ensures var r := Toggled(c);
      && (forall i :: 0 <= i < |c.subscribers| ==> r.calls[|c.calls| + i] == Observable.Call(c.subscribers[i], !c.value))
      && (forall cb :: Observable.CallsTo(r.calls, cb) == Observable.CallsTo(c.calls, cb) + (if cb in c.subscribers then 1 else 0))
  {
    ToggleIsSetOfNegation(c);
    Observable.AssignNotifies(c, !c.value);
  }

  /** Two toggles restore the value and the subscribers; each subscriber has
      been called twice more. */
  lemma {:induction false} ToggleTwice(c: Observable.Cell<bool>)
    requires Observable.Valid(c)
    ensures var r := Toggled(Toggled(c));
      && r.value == c.value && r.subscribers == c.subscribers
      && (forall cb :: Observable.CallsTo(r.calls, cb) == Observable.CallsTo(c.calls, cb) + (if cb in c.subscribers then 2 else 0))
  {
    ToggleNotifies(c);
    ToggleNotifies(Toggled(c));
  }

  /** Opening or closing an already open or closed menu changes nothing and
      calls nobody, so both are idempotent. */
  lemma {:induction false} OpenCloseIdempotent(c: Observable.Cell<bool>)
    ensures c.value ==> Opened(c) == c
    ensures !c.value ==> Closed(c) == c
    ensures Opened(Opened(c)) == Opened(c) && Closed(Closed(c)) == Closed(c)
  {
  }

  /** Opening a closed menu (or closing an open one) notifies every
      subscriber exactly once with the new state. */
  lemma {:induction false} OpenCloseNotify(c: Observable.Cell<bool>, cb: Observable.CallbackId)
    requires Observable.Valid(c)
    ensures !c.value ==> Observable.CallsTo(Opened(c).calls, cb) == Observable.CallsTo(c.calls, cb) + (if cb in c.subscribers then 1 else 0)
    ensures c.value ==> Observable.CallsTo(Closed(c).calls, cb) == Observable.CallsTo(c.calls, cb) + (if cb in c.subscribers then 1 else 0)
  {
    if c.value {
      Observable.AssignNotifies(c, false);
    } else {
      Observable.AssignNotifies(c, true);
    }
  }

  /** The operations on the boolean cell: those of any cell, and toggle. */
  datatype MenuOp = CellOp(op: Observable.Op<bool>) | ToggleOp

  function Step(c: Observable.Cell<bool>, op: MenuOp): Observable.Cell<bool> {
    match op
    case CellOp(o) => Observable.Step(c, o)
    case ToggleOp => Toggled(c)
  }

  function Run(c: Observable.Cell<bool>, ops: seq<MenuOp>): Observable.Cell<bool>
    decreases |ops|
  {
    if ops == [] then c else Run(Step(c, ops[0]), ops[1..])
  }

  lemma {:induction false} SilentRun(c: Observable.Cell<bool>, cb: Observable.CallbackId, ops: seq<MenuOp>)
    requires Observable.Valid(c) && cb !in c.subscribers
    requires forall i :: 0 <= i < |ops| ==> ops[i] != CellOp(Observable.SubscribeOp(cb))
    ensures Observable.StaysSilent(c, Run(c, ops), cb)
    decreases |ops|
  {
    if ops != [] {
      match ops[0] {
        case CellOp(o) =>
          Observable.StepStaysSilent(c, o, cb);
          Observable.StepPreservesValid(c, o);
        case ToggleOp =>
          ToggleNotifies(c);
      }
      SilentRun(Step(c, ops[0]), cb, ops[1..]);
    }
  }

  /** Once the function returned by `subscribe(cb)` has run, no later `set`,
      `toggle`, unsubscribe or subscription of another callback calls `cb`. */
  lemma {:induction false} UnsubscribedNeverCalled(c: Observable.Cell<bool>, cb: Observable.CallbackId, ops: seq<MenuOp>)
    requires Observable.Valid(c)
    requires forall i :: 0 <= i < |ops| ==> ops[i] != CellOp(Observable.SubscribeOp(cb))
    ensures Observable.StaysSilent(c, Run(Observable.Unsubscribe(c, cb), ops), cb)
  {
    Observable.OperationsPreserveValid(c, c.value, cb);
    SilentRun(Observable.Unsubscribe(c, cb), cb, ops);
  }

  /** createBooleanVariable. `calls` records every callback invocation,
      oldest first. */
  class BooleanVariable {
    var value: bool
    var subscribers: seq<Observable.CallbackId>
    ghost var calls: seq<Observable.Call<bool>>

    ghost function State(): Observable.Cell<bool>
      reads this
    {
      Observable.Cell(value, subscribers, calls)
    }

    ghost predicate Valid()
      reads this
    {
      Observable.Valid(State())
    }

    constructor (initial: bool)
      ensures Valid() && State() == Observable.Initial(initial)
    {
      value := initial;
      subscribers := [];
      calls := [];
    }

    method Get() returns (v: bool)
      ensures v == State().value
    {
      v := value;
    }

    /** Calls every subscriber with the current value, in iteration order.
        In the source this is a closure private to the cell; here it is a
        method of the class. */
    method Notify()
      modifies this`calls
      ensures calls == old(calls) + Observable.Notifications(subscribers, value)
    {
      var i := 0;
      while i < |subscribers|
        invariant 0 <= i <= |subscribers|
        invariant calls == old(calls) + Observable.Notifications(subscribers[..i], value)
      {
        calls := calls + [Observable.Call(subscribers[i], value)];
        i := i + 1;
      }
      assert subscribers[..i] == subscribers;
    }

    method Set(next: bool)
      requires Valid()
      modifies this
      ensures Valid() && State() == Observable.Assign(old(State()), next)
    {
      if value == next {
        return;
      }
      value := next;
      Notify();
    }

    method Toggle()
      requires Valid()
      modifies this
      ensures Valid() && State() == Toggled(old(State()))
    {
      value := !value;
      Notify();
    }

    method Subscribe(callback: Observable.CallbackId)
      requires Valid()
      modifies this
      ensures Valid() && State() == Observable.Subscribe(old(State()), callback)
    {
      subscribers := Observable.SetAdd(subscribers, callback);
      calls := calls + [Observable.Call(callback, value)];
    }

    /** The function Subscribe returns in the source. */
    method Unsubscribe(callback: Observable.CallbackId)
      requires Valid()
      modifies this
      ensures Valid() && State() == Observable.Unsubscribe(old(State()), callback)
    {
      subscribers := Observable.SetDelete(subscribers, callback);
    }
  }

  /** The `menuState` singleton: a cell that starts closed, with no
      subscribers and no calls made. */
  method CreateMenuState() returns (menuState: BooleanVariable)
    ensures fresh(menuState) && menuState.Valid()
    ensures menuState.State() == Observable.Initial(false) && !menuState.value
  {
    menuState := new BooleanVariable(false);
  }

  method OpenMenu(menuState: BooleanVariable)
    requires menuState.Valid()
    modifies menuState
    ensures menuState.Valid() && menuState.State() == Opened(old(menuState.State()))
  {
    menuState.Set(true);
  }

  method CloseMenu(menuState: BooleanVariable)
    requires menuState.Valid()
    modifies menuState
    ensures menuState.Valid() && menuState.State() == Closed(old(menuState.State()))
  {
    menuState.Set(false);
  }

  method ToggleMenu(menuState: BooleanVariable)
    requires menuState.Valid()
    modifies menuState
    ensures menuState.Valid() && menuState.State() == Toggled(old(menuState.State()))
  {
    menuState.Toggle();
  }
}
