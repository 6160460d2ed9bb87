/**
 * The client side of the bridge, `callUserFunc` in `cefClient.js`: three ways to call a
 * function the host (`window.ForcaApp`) exposes, and the table of pending promises that the
 * host completes through `cefResolve`. Promise scheduling is not modelled: resolving or
 * rejecting a promise is recorded as an outcome.
 */
module CefClient {
  import opened Wrappers
  import opened Decimal
  import opened V8Values

  /** What a host function does when called: return a value or throw an error with a message. */
  datatype HostBehaviour = Returns(value: JsValue) | Throws(message: string)

  /** A call made into the host: the function's name and the arguments passed. */
  datatype HostCall = HostCall(name: string, args: seq<JsValue>)

  /**
   * The `{resolve, reject}` pair stored for a pending promise, identified by the counter
   * value the promise was created with.
   */
  datatype PendingEntry = PendingEntry(serial: nat)

  /** How a pending promise was completed. */
  datatype Outcome = Resolved(serial: nat, value: JsValue) | Rejected(serial: nat, reason: JsValue)

  /** The errors the bridge throws (or rejects with). */
  datatype JsError =
    | NameNotString
    | ApiNotFound(name: string)
    | NotAFunction(name: string)
    | HostThrew(message: string)
    | PromiseNotFound(id: string)

  /** What `async` returns: an already rejected promise, or the promise registered under an id. */
  datatype Promise = AlreadyRejected(reason: JsError) | PromiseFor(id: string)

  const PROMISE_PREFIX: string := "promise-"

  /** The host function whose presence `sendToCpp` takes as the sign that the host is up. */
  const LIVENESS_MARKER: string := "salvarUsuario"

  /** The correlation id of the promise made with counter value `n`. */
  function PromiseId(n: nat): (r: string)
    ensures |r| > |PROMISE_PREFIX| && r[..|PROMISE_PREFIX|] == PROMISE_PREFIX
    ensures AllDigits(r[|PROMISE_PREFIX|..])
  {
    PROMISE_PREFIX + NatToString(n)
  }

  /** Ids made with different counter values differ. */
  lemma PromiseIdInjective(m: nat, n: nat)
    ensures PromiseId(m) == PromiseId(n) <==> m == n
  {
    if PromiseId(m) == PromiseId(n) {
      assert PromiseId(m)[|PROMISE_PREFIX|..] == NatToString(m);
      assert PromiseId(n)[|PROMISE_PREFIX|..] == NatToString(n);
      NatToStringInjective(m, n);
    }
  }

  /** Some completion in `outcomes` is for the promise made with counter value `n`. */
  ghost predicate Settled(outcomes: seq<Outcome>, n: nat)
  {
    exists i :: 0 <= i < |outcomes| && outcomes[i].serial == n
  }

  /**
   * The bookkeeping of the bridge: every pending id is the id of its own counter value,
   * below the counter; every completion is of an issued promise that is no longer pending;
   * no promise is completed twice; and every issued promise is pending or completed.
   */
  ghost predicate BridgeInvariant(counter: nat, pending: map<string, PendingEntry>, outcomes: seq<Outcome>)
  {
    (forall id | id in pending :: pending[id].serial < counter && id == PromiseId(pending[id].serial)) &&
    (forall i | 0 <= i < |outcomes| :: outcomes[i].serial < counter && PromiseId(outcomes[i].serial) !in pending) &&
    (forall i, j | 0 <= i < j < |outcomes| :: outcomes[i].serial != outcomes[j].serial) &&
    (forall n: nat | n < counter :: PromiseId(n) in pending || Settled(outcomes, n))
  }

  /** The id the counter is about to hand out is not pending. */
  lemma FreshIdNotPending(counter: nat, pending: map<string, PendingEntry>, outcomes: seq<Outcome>)
    requires BridgeInvariant(counter, pending, outcomes)
    ensures PromiseId(counter) !in pending
  {
    if PromiseId(counter) in pending {
      var e := pending[PromiseId(counter)];
      PromiseIdInjective(e.serial, counter);
    }
  }

  /** Ids below the counter that are pending are those of distinct counter values. */
  lemma PendingIdsDistinct(counter: nat, pending: map<string, PendingEntry>, outcomes: seq<Outcome>, a: string, b: string)
    requires BridgeInvariant(counter, pending, outcomes) && a in pending && b in pending
    ensures a != b <==> pending[a].serial != pending[b].serial
  {
  }

  /** Registering the fresh id and advancing the counter keeps the invariant. */
  lemma RegisterKeepsInvariant(counter: nat, pending: map<string, PendingEntry>, outcomes: seq<Outcome>)
    requires BridgeInvariant(counter, pending, outcomes)
    ensures BridgeInvariant(counter + 1, pending[PromiseId(counter) := PendingEntry(counter)], outcomes)
  {
    FreshIdNotPending(counter, pending, outcomes);
    var pending' := pending[PromiseId(counter) := PendingEntry(counter)];
    forall i | 0 <= i < |outcomes|
      ensures PromiseId(outcomes[i].serial) !in pending'
    {
      PromiseIdInjective(outcomes[i].serial, counter);
    }
  }

  /** Adding a fresh key and removing it again gives back the map. */
  lemma AddThenRemove<K, V>(m: map<K, V>, k: K, v: V)
    requires k !in m
    ensures m[k := v] - {k} == m
  {
  }

  /** Completing a pending promise and removing its entry keeps the invariant. */
  lemma SettleKeepsInvariant(counter: nat, pending: map<string, PendingEntry>, outcomes: seq<Outcome>, id: string, o: Outcome)
    requires BridgeInvariant(counter, pending, outcomes) && id in pending && o.serial == pending[id].serial
    ensures BridgeInvariant(counter, pending - {id}, outcomes + [o])
  {
    var pending' := pending - {id};
    var outcomes' := outcomes + [o];
    forall i | 0 <= i < |outcomes|
      ensures outcomes'[i].serial != o.serial
    {
      assert PromiseId(outcomes[i].serial) !in pending;
    }
    forall n: nat | n < counter
      ensures PromiseId(n) in pending' || Settled(outcomes', n)
    {
      if PromiseId(n) in pending {
        if PromiseId(n) == id {
          PromiseIdInjective(n, pending[id].serial);
          assert outcomes'[|outcomes|].serial == n;
        } else {
          assert PromiseId(n) in pending';
        }
      } else {
        var i :| 0 <= i < |outcomes| && outcomes[i].serial == n;
        assert outcomes'[i].serial == n;
      }
    }
  }

  /** `callUserFunc`, with the host it was loaded beside; `None` when `window.ForcaApp` is absent. */
  class CallUserFunc {
    const forcaApp: Option<map<string, HostBehaviour>>
    var promiseCounter: nat
    var pendingPromises: map<string, PendingEntry>
    /** The completions of promises, in order. */
    var outcomes: seq<Outcome>
    /** The calls made into the host, in order. */
    var hostCalls: seq<HostCall>

    ghost predicate Valid()
      reads this
    {
      BridgeInvariant(promiseCounter, pendingPromises, outcomes)
    }

    constructor(host: Option<map<string, HostBehaviour>>)
      ensures Valid() && forcaApp == host
      ensures promiseCounter == 0 && pendingPromises == map[] && outcomes == [] && hostCalls == []
    {
      forcaApp := host;
      promiseCounter := 0;
      pendingPromises := map[];
      outcomes := [];
      hostCalls := [];
    }

    /** `typeof ForcaApp[name] === 'function'`, with `ForcaApp` present. */
    predicate Available(name: string)
    {
      forcaApp.Some? && name in forcaApp.value
    }

    /**
     * `sendToCpp`: checks only that the name is a string and that the liveness marker is
     * present, then calls the named function; a name the host lacks then fails as a call of
     * a value that is not a function. Returns true once the call returns.
     */
    method SendToCpp(name: JsValue, args: seq<JsValue>) returns (r: Result<bool, JsError>)
      modifies this
      ensures promiseCounter == old(promiseCounter) && pendingPromises == old(pendingPromises)
      ensures outcomes == old(outcomes)
      ensures !name.Str? ==> r == Err(NameNotString) && hostCalls == old(hostCalls)
      ensures name.Str? && !Available(LIVENESS_MARKER) ==>
        r == Err(ApiNotFound(name.s)) && hostCalls == old(hostCalls)
      ensures name.Str? && Available(LIVENESS_MARKER) && !Available(name.s) ==>
        r == Err(NotAFunction(name.s)) && hostCalls == old(hostCalls)
      ensures name.Str? && Available(LIVENESS_MARKER) && Available(name.s) ==>
        hostCalls == old(hostCalls) + [HostCall(name.s, args)] &&
        r == match forcaApp.value[name.s]
          case Returns(_) => Ok(true)
          case Throws(m) => Err(HostThrew(m))
    {
      if !name.Str? {
        return Err(NameNotString);
      }
      if !Available(LIVENESS_MARKER) {
        return Err(ApiNotFound(name.s));
      }
      if !Available(name.s) {
        return Err(NotAFunction(name.s));
      }
      hostCalls := hostCalls + [HostCall(name.s, args)];
      match forcaApp.value[name.s]
      case Returns(_) =>
        r := Ok(true);
      case Throws(m) =>
        r := Err(HostThrew(m));
    }

    /**
     * `sync`: throws unless the name is a string naming a host function; otherwise returns
     * what the host returns, or passes on what it throws.
     */
    method Sync(name: JsValue, args: seq<JsValue>) returns (r: Result<JsValue, JsError>)
      modifies this
      ensures promiseCounter == old(promiseCounter) && pendingPromises == old(pendingPromises)
      ensures outcomes == old(outcomes)
      ensures !name.Str? ==> r == Err(NameNotString) && hostCalls == old(hostCalls)
      ensures name.Str? && !Available(name.s) ==> r == Err(ApiNotFound(name.s)) && hostCalls == old(hostCalls)
      ensures name.Str? && Available(name.s) ==>
        hostCalls == old(hostCalls) + [HostCall(name.s, args)] &&
        r == match forcaApp.value[name.s]
          case Returns(v) => Ok(v)
          case Throws(m) => Err(HostThrew(m))
    {
      if !name.Str? {
        return Err(NameNotString);
      }
      if !Available(name.s) {
        return Err(ApiNotFound(name.s));
      }
      hostCalls := hostCalls + [HostCall(name.s, args)];
      match forcaApp.value[name.s]
      case Returns(v) =>
        r := Ok(v);
      case Throws(m) =>
        r := Err(HostThrew(m));
    }

    /**
     * `async`: a non-string name throws; a missing host function gives an already rejected
     * promise with no change of state. Otherwise the next id is taken from the counter, the
     * promise is registered under it, and the host is called with the id ahead of the
     * arguments; if that call throws, the promise is rejected through `cefResolve` and its
     * entry removed.
     */
    method Async(name: JsValue, args: seq<JsValue>) returns (r: Result<Promise, JsError>)
      requires Valid()
      modifies this
      ensures Valid()
      ensures !name.Str? ==>
        r == Err(NameNotString) &&
        promiseCounter == old(promiseCounter) && pendingPromises == old(pendingPromises) &&
        outcomes == old(outcomes) && hostCalls == old(hostCalls)
      ensures name.Str? && !Available(name.s) ==>
        r == Ok(AlreadyRejected(ApiNotFound(name.s))) &&
        promiseCounter == old(promiseCounter) && pendingPromises == old(pendingPromises) &&
        outcomes == old(outcomes) && hostCalls == old(hostCalls)
      ensures name.Str? && Available(name.s) ==>
        var n := old(promiseCounter);
        var id := PromiseId(n);
        id !in old(pendingPromises) &&
        r == Ok(PromiseFor(id)) && promiseCounter == n + 1 &&
        hostCalls == old(hostCalls) + [HostCall(name.s, [Str(id)] + args)] &&
        match forcaApp.value[name.s]
        case Returns(_) =>
          pendingPromises == old(pendingPromises)[id := PendingEntry(n)] && outcomes == old(outcomes)
        case Throws(m) =>
          pendingPromises == old(pendingPromises) && outcomes == old(outcomes) + [Rejected(n, Str(m))]
    {
      if !name.Str? {
        return Err(NameNotString);
      }
      if !Available(name.s) {
        return Ok(AlreadyRejected(ApiNotFound(name.s)));
      }
      var n := promiseCounter;
      var promiseId := PromiseId(n);
      FreshIdNotPending(promiseCounter, pendingPromises, outcomes);
      RegisterKeepsInvariant(promiseCounter, pendingPromises, outcomes);
      promiseCounter := promiseCounter + 1;
      pendingPromises := pendingPromises[promiseId := PendingEntry(n)];
      hostCalls := hostCalls + [HostCall(name.s, [Str(promiseId)] + args)];
      match forcaApp.value[name.s] {
        case Returns(_) =>
        case Throws(m) =>
          var _ := CefResolve(promiseId, false, Str(m));
          AddThenRemove(old(pendingPromises), promiseId, PendingEntry(n));
      }
      return Ok(PromiseFor(promiseId));
    }

    /**
     * `cefResolve`: an id with no pending entry throws and changes nothing. Otherwise the
     * entry's promise is resolved with the value, or rejected with it, and exactly that
     * entry is removed.
     */
    method CefResolve(promiseId: string, success: bool, resultOrError: JsValue) returns (r: Result<(), JsError>)
      requires Valid()
      modifies this
      ensures Valid()
      ensures promiseCounter == old(promiseCounter) && hostCalls == old(hostCalls)
      ensures promiseId !in old(pendingPromises) ==>
        r == Err(PromiseNotFound(promiseId)) &&
        pendingPromises == old(pendingPromises) && outcomes == old(outcomes)
      ensures promiseId in old(pendingPromises) ==>
        var n := old(pendingPromises)[promiseId].serial;
        r.Ok? && promiseId == PromiseId(n) && pendingPromises == old(pendingPromises) - {promiseId} &&
        outcomes == old(outcomes) + [if success then Resolved(n, resultOrError) else Rejected(n, resultOrError)]
    {
      if promiseId !in pendingPromises {
        return Err(PromiseNotFound(promiseId));
      }
      var promise := pendingPromises[promiseId];
      var o := if success then Resolved(promise.serial, resultOrError) else Rejected(promise.serial, resultOrError);
      SettleKeepsInvariant(promiseCounter, pendingPromises, outcomes, promiseId, o);
      outcomes := outcomes + [o];
      pendingPromises := pendingPromises - {promiseId};
      r := Ok(());
    }
  }

  /** Completing the same id twice: the second completion fails and changes nothing. */
  method ResolveTwice(bridge: CallUserFunc, promiseId: string, first: bool, second: bool, value: JsValue)
    returns (r1: Result<(), JsError>, r2: Result<(), JsError>)
    requires bridge.Valid()
    modifies bridge
    ensures r1.Ok? <==> promiseId in old(bridge.pendingPromises)
    ensures r2 == Err(PromiseNotFound(promiseId))
  {
    r1 := bridge.CefResolve(promiseId, first, value);
    r2 := bridge.CefResolve(promiseId, second, value);
  }
}
