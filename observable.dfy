/**
  A value model of the observable cell that layout.ts (createVariable) and
  menuState.ts (createBooleanVariable) each build: one current value and a
  JavaScript `Set` of subscriber callbacks.

  A callback is an opaque id. Calling it has one effect that can be seen
  from outside: a `Call(id, value)` is appended to the cell's trace. A
  JavaScript `Set` iterates in insertion order and holds no duplicates, so
  the subscribers are a sequence of distinct ids, oldest first.
 */
module Observable {

  type CallbackId = nat

  /** One invocation `callback(value)`. */
  datatype Call<T> = Call(callback: CallbackId, value: T)

  /** The cell: its current value, its subscribers in insertion order, and
      every callback invocation made so far, oldest first. */
  datatype Cell<T> = Cell(value: T, subscribers: seq<CallbackId>, calls: seq<Call<T>>)

  predicate Distinct(s: seq<CallbackId>) {
    forall i, j :: 0 <= i < j < |s| ==> s[i] != s[j]
  }

  /** Set.prototype.add: a callback already present keeps its place; a new
      one goes last. */
  function SetAdd(s: seq<CallbackId>, cb: CallbackId): (r: seq<CallbackId>)
    ensures cb in r
    ensures forall x :: x in r <==> x in s || x == cb
    ensures s <= r
    ensures cb in s ==> r == s
    ensures Distinct(s) ==> Distinct(r)
  {
    if cb in s then s else s + [cb]
  }

  /** `s` with every occurrence of `cb` left out, the rest in order. */
  function Without(s: seq<CallbackId>, cb: CallbackId): seq<CallbackId> {
    if s == [] then []
    else if s[0] == cb then Without(s[1..], cb)
    else [s[0]] + Without(s[1..], cb)
  }

  lemma {:induction false} WithoutMembers(s: seq<CallbackId>, cb: CallbackId)
    ensures forall x :: x in Without(s, cb) <==> x in s && x != cb
  {
    if s != [] {
      WithoutMembers(s[1..], cb);
      assert forall x :: x in s <==> x == s[0] || x in s[1..];
    }
  }

  lemma {:induction false} WithoutAbsent(s: seq<CallbackId>, cb: CallbackId)
    requires cb !in s
    ensures Without(s, cb) == s
  {
    if s != [] {
      assert s[0] != cb && cb !in s[1..];
      WithoutAbsent(s[1..], cb);
      assert [s[0]] + s[1..] == s;
    }
  }

  lemma {:induction false} WithoutDistinct(s: seq<CallbackId>, cb: CallbackId)
    requires Distinct(s)
    ensures Distinct(Without(s, cb))
  {
    if s != [] {
      DistinctTail(s);
      WithoutDistinct(s[1..], cb);
      if s[0] != cb {
        WithoutMembers(s[1..], cb);
        DistinctCons(s[0], Without(s[1..], cb));
      }
    }
  }

  /** Leaving `cb` out of a concatenation leaves it out of each part. */
  lemma {:induction false} WithoutAppend(a: seq<CallbackId>, b: seq<CallbackId>, cb: CallbackId)
    ensures Without(a + b, cb) == Without(a, cb) + Without(b, cb)
  {
    if a == [] {
      assert a + b == b;
    } else {
      assert (a + b)[0] == a[0] && (a + b)[1..] == a[1..] + b;
      WithoutAppend(a[1..], b, cb);
    }
  }

  /** Leaving out a callback that occurs once removes just that
      occurrence. */
  lemma {:induction false} WithoutSingle(a: seq<CallbackId>, cb: CallbackId, b: seq<CallbackId>)
    requires cb !in a && cb !in b
    ensures Without(a + [cb] + b, cb) == a + b
  {
    WithoutAppend(a + [cb], b, cb);
    WithoutAppend(a, [cb], cb);
    WithoutAbsent(a, cb);
    WithoutAbsent(b, cb);
    assert Without([cb], cb) == [];
  }

  /** In a sequence without duplicates, the member at index `k` occurs
      neither before nor after `k`. */
  lemma {:induction false} DistinctSplit(s: seq<CallbackId>, k: nat)
    requires Distinct(s) && k < |s|
    ensures s == s[..k] + [s[k]] + s[k + 1..]
    ensures s[k] !in s[..k] && s[k] !in s[k + 1..]
  {
    assert s == s[..k] + [s[k]] + s[k + 1..];
    forall i | 0 <= i < k ensures s[..k][i] != s[k] {
      assert s[..k][i] == s[i];
    }
    var after := s[k + 1..];
    forall i | 0 <= i < |after| ensures after[i] != s[k] {
      assert after[i] == s[k + 1 + i];
    }
  }

  /** With distinct members, leaving out the member at index `k` removes
      it from there and keeps the others in the same order. */
  lemma {:induction false} WithoutAt(s: seq<CallbackId>, k: nat)
    requires Distinct(s) && k < |s|
    ensures Without(s, s[k]) == s[..k] + s[k + 1..]
  {
    DistinctSplit(s, k);
    WithoutSingle(s[..k], s[k], s[k + 1..]);
  }

  /** Set.prototype.delete: removes `cb`, keeping the others in order. */
  function SetDelete(s: seq<CallbackId>, cb: CallbackId): (r: seq<CallbackId>)
    ensures cb !in r
    ensures forall x :: x in r <==> x in s && x != cb
    ensures cb !in s ==> r == s
    ensures Distinct(s) ==> Distinct(r)
    ensures Distinct(s) ==> forall k :: 0 <= k < |s| && s[k] == cb ==> r == s[..k] + s[k + 1..]
    ensures Distinct(s) && cb in s ==> |r| == |s| - 1
  {
    WithoutMembers(s, cb);
    if cb !in s then
      WithoutAbsent(s, cb);
      s
    else
      var r := Without(s, cb);
      assert Distinct(s) ==> Distinct(r) && forall k :: 0 <= k < |s| && s[k] == cb ==> r == s[..k] + s[k + 1..] by {
        if Distinct(s) {
          WithoutDistinct(s, cb);
          forall k | 0 <= k < |s| && s[k] == cb ensures r == s[..k] + s[k + 1..] {
            WithoutAt(s, k);
          }
        }
      }
      r
  }

  lemma {:induction false} DistinctTail(s: seq<CallbackId>)
    requires Distinct(s) && s != []
    ensures Distinct(s[1..]) && s[0] !in s[1..]
  {
    forall j | 0 <= j < |s[1..]| ensures s[1..][j] != s[0] {
      assert s[1..][j] == s[j + 1];
    }
    forall i, j | 0 <= i < j < |s[1..]| ensures s[1..][i] != s[1..][j] {
      assert s[1..][i] == s[i + 1] && s[1..][j] == s[j + 1];
    }
  }

  lemma {:induction false} DistinctCons(x: CallbackId, s: seq<CallbackId>)
    requires Distinct(s) && x !in s
    ensures Distinct([x] + s)
  {
    forall i, j | 0 <= i < j < |[x] + s| ensures ([x] + s)[i] != ([x] + s)[j] {
      assert ([x] + s)[j] == s[j - 1];
      if i > 0 {
        assert ([x] + s)[i] == s[i - 1];
      }
    }
  }

  /** The calls one round of `notify` makes: every subscriber, in iteration
      order, with the value `v`. */
  function Notifications<T>(s: seq<CallbackId>, v: T): (r: seq<Call<T>>)
    ensures |r| == |s|
    ensures forall i :: 0 <= i < |s| ==> r[i] == Call(s[i], v)
  {
    if s == [] then [] else [Call(s[0], v)] + Notifications(s[1..], v)
  }

  /** How many of `calls` went to `cb`. */
  function CallsTo<T>(calls: seq<Call<T>>, cb: CallbackId): nat {
    if calls == [] then 0
    else (if calls[0].callback == cb then 1 else 0) + CallsTo(calls[1..], cb)
  }

  lemma {:induction false} CallsToAppend<T>(a: seq<Call<T>>, b: seq<Call<T>>, cb: CallbackId)
    ensures CallsTo(a + b, cb) == CallsTo(a, cb) + CallsTo(b, cb)
  {
    if a == [] {
      assert a + b == b;
    } else {
      assert (a + b)[1..] == a[1..] + b;
      CallsToAppend(a[1..], b, cb);
    }
  }

  /** One round of notification reaches each subscriber exactly once and
      nobody else. */
  lemma {:induction false} NotifiesEachOnce<T>(s: seq<CallbackId>, v: T, cb: CallbackId)
    requires Distinct(s)
    ensures CallsTo(Notifications(s, v), cb) == if cb in s then 1 else 0
  {
    if s != [] {
      assert Notifications(s, v)[1..] == Notifications(s[1..], v);
      DistinctTail(s);
      NotifiesEachOnce(s[1..], v, cb);
      assert cb in s <==> cb == s[0] || cb in s[1..];
    }
  }

  function Initial<T>(v: T): (c: Cell<T>)
    ensures c.value == v && c.subscribers == [] && c.calls == []
  {
    Cell(v, [], [])
  }

  /** The invariant every cell keeps: no callback is subscribed twice. */
  predicate Valid<T>(c: Cell<T>) {
    Distinct(c.subscribers)
  }

  /** `set(next)`: a value equal to the current one (Object.is, which for
      booleans and strings is equality) changes nothing; any other value is
      stored and then every subscriber is notified with it. */
  function Assign<T(==)>(c: Cell<T>, next: T): (r: Cell<T>)
    ensures r.value == next && r.subscribers == c.subscribers
    ensures c.calls <= r.calls
    ensures c.value == next ==> r == c
    ensures c.value != next ==> |r.calls| == |c.calls| + |c.subscribers|
  {
    if c.value == next then c else Cell(next, c.subscribers, c.calls + Notifications(c.subscribers, next))
  }

  /** `subscribe(cb)`: adds `cb` to the set, then calls it once with the
      current value. The returned unsubscribe function is Unsubscribe. */
  function Subscribe<T>(c: Cell<T>, cb: CallbackId): (r: Cell<T>)
    ensures r.value == c.value
    ensures cb in r.subscribers && c.subscribers <= r.subscribers
    ensures forall x :: x in r.subscribers <==> x in c.subscribers || x == cb
    ensures r.calls == c.calls + [Call(cb, c.value)]
  {
    Cell(c.value, SetAdd(c.subscribers, cb), c.calls + [Call(cb, c.value)])
  }

  /** The function `subscribe(cb)` returns: deletes `cb` from the set and
      calls nobody. */
  function Unsubscribe<T>(c: Cell<T>, cb: CallbackId): (r: Cell<T>)
    ensures r.value == c.value && r.calls == c.calls
    ensures cb !in r.subscribers
    ensures forall x :: x in r.subscribers <==> x in c.subscribers && x != cb
    ensures Valid(c) ==> forall k :: 0 <= k < |c.subscribers| && c.subscribers[k] == cb ==>
      r.subscribers == c.subscribers[..k] + c.subscribers[k + 1..]
    ensures cb !in c.subscribers ==> r == c
  {
    Cell(c.value, SetDelete(c.subscribers, cb), c.calls)
  }

  lemma {:induction false} InitialValid<T>(v: T)
    ensures Valid(Initial(v))
  {
  }

  /** Each operation keeps the subscribers distinct. */
  lemma {:induction false} OperationsPreserveValid<T>(c: Cell<T>, next: T, cb: CallbackId)
    requires Valid(c)
    ensures Valid(Assign(c, next)) && Valid(Subscribe(c, cb)) && Valid(Unsubscribe(c, cb))
  {
  }

  /** `set` of a different value: the current subscribers are called in
      subscription order with the new value, each exactly once, and nobody
      else is called. */
  lemma {:induction false} AssignNotifies<T>(c: Cell<T>, next: T)
    requires Valid(c) && c.value != next
    ensures var r := Assign(c, next);
      && (forall i :: 0 <= i < |c.subscribers| ==> r.calls[|c.calls| + i] == Call(c.subscribers[i], next))
      && (forall cb :: CallsTo(r.calls, cb) == CallsTo(c.calls, cb) + (if cb in c.subscribers then 1 else 0))
  {
    forall cb ensures CallsTo(Assign(c, next).calls, cb) == CallsTo(c.calls, cb) + (if cb in c.subscribers then 1 else 0) {
      CallsToAppend(c.calls, Notifications(c.subscribers, next), cb);
      NotifiesEachOnce(c.subscribers, next, cb);
    }
  }

  /** `subscribe(cb)` calls `cb` once, with the current value, and no other
      callback; subscribing again does not add `cb` a second time. */
  lemma {:induction false} SubscribeCallsOnce<T>(c: Cell<T>, cb: CallbackId)
    ensures CallsTo(Subscribe(c, cb).calls, cb) == CallsTo(c.calls, cb) + 1
    ensures forall x :: x != cb ==> CallsTo(Subscribe(c, cb).calls, x) == CallsTo(c.calls, x)
    ensures cb in c.subscribers ==> Subscribe(c, cb).subscribers == c.subscribers
  {
    forall x ensures CallsTo(Subscribe(c, cb).calls, x) == CallsTo(c.calls, x) + (if x == cb then 1 else 0) {
      CallsToAppend(c.calls, [Call(cb, c.value)], x);
    }
  }

  /** The operations a client can perform on a cell. */
  datatype Op<T> = SetOp(next: T) | SubscribeOp(cb: CallbackId) | UnsubscribeOp(cb: CallbackId)

  function Step<T(==)>(c: Cell<T>, op: Op<T>): Cell<T> {
    match op
    case SetOp(next) => Assign(c, next)
    case SubscribeOp(cb) => Subscribe(c, cb)
    case UnsubscribeOp(cb) => Unsubscribe(c, cb)
  }

  /** `cb` is not subscribed, and a step from `c` to `c'` neither subscribes
      it nor calls it. */
  predicate StaysSilent<T>(c: Cell<T>, c': Cell<T>, cb: CallbackId) {
    cb !in c'.subscribers && CallsTo(c'.calls, cb) == CallsTo(c.calls, cb)
  }

  /** No operation calls or subscribes a callback that is not subscribed,
      unless the operation is subscribing that very callback. */
  lemma {:induction false} StepStaysSilent<T>(c: Cell<T>, op: Op<T>, cb: CallbackId)
    requires Valid(c) && cb !in c.subscribers && op != SubscribeOp(cb)
    ensures StaysSilent(c, Step(c, op), cb)
  {
    match op
    case SetOp(next) =>
      if c.value != next {
        AssignNotifies(c, next);
      }
    case SubscribeOp(x) =>
      SubscribeCallsOnce(c, x);
    case UnsubscribeOp(x) =>
  }

  lemma {:induction false} StepPreservesValid<T>(c: Cell<T>, op: Op<T>)
    requires Valid(c)
    ensures Valid(Step(c, op))
  {
  }

  function Run<T(==)>(c: Cell<T>, ops: seq<Op<T>>): Cell<T>
    decreases |ops|
  {
    if ops == [] then c else Run(Step(c, ops[0]), ops[1..])
  }

  lemma {:induction false} RunPreservesValid<T>(c: Cell<T>, ops: seq<Op<T>>)
    requires Valid(c)
    ensures Valid(Run(c, ops))
    decreases |ops|
  {
    if ops != [] {
      StepPreservesValid(c, ops[0]);
      RunPreservesValid(Step(c, ops[0]), ops[1..]);
    }
  }

  /** After the function returned by `subscribe(cb)` has run, no later `set`,
      `subscribe` of another callback, or unsubscribe ever calls `cb`. */
  lemma {:induction false} UnsubscribedNeverCalled<T>(c: Cell<T>, cb: CallbackId, ops: seq<Op<T>>)
    requires Valid(c)
    requires forall i :: 0 <= i < |ops| ==> ops[i] != SubscribeOp(cb)
    ensures StaysSilent(c, Run(Unsubscribe(c, cb), ops), cb)
  {
    OperationsPreserveValid(c, c.value, cb);
    SilentRun(Unsubscribe(c, cb), cb, ops);
  }

  lemma {:induction false} SilentRun<T>(c: Cell<T>, cb: CallbackId, ops: seq<Op<T>>)
    requires Valid(c) && cb !in c.subscribers
    requires forall i :: 0 <= i < |ops| ==> ops[i] != SubscribeOp(cb)
    ensures StaysSilent(c, Run(c, ops), cb)
    decreases |ops|
  {
    if ops != [] {
      StepStaysSilent(c, ops[0], cb);
      StepPreservesValid(c, ops[0]);
      SilentRun(Step(c, ops[0]), cb, ops[1..]);
    }
  }
}
