/**
 * The two halves of the bridge together: a promise made by `async` for `getUserData` is
 * completed by the statement the host's handler emits for the message that call sent.
 */
module Bridge {
  import opened Wrappers
  import opened Decimal
  import opened V8Values
  import opened CefClient
  import opened ForcaInterface

  /** A promise id holds plain text, so the host can quote it in the statement it emits. */
  lemma PromiseIdPlain(n: nat)
    ensures PlainLiteral(PromiseId(n))
  {
    var id := PromiseId(n);
    forall i | 0 <= i < |id|
      ensures id[i] != '\'' && id[i] != '\\' && id[i] != '\n' && id[i] != '\r'
    {
      if i >= |PROMISE_PREFIX| {
        assert IsDigit(id[|PROMISE_PREFIX|..][i - |PROMISE_PREFIX|]);
      } else {
        assert id[i] == PROMISE_PREFIX[i];
      }
    }
  }

  /**
   * `async("getUserData", userId)` registers a promise and calls the host with the id first;
   * the host packs that call, its handler emits a completion, and running the completion
   * settles exactly that promise: resolved with the user's JSON for user 123, rejected with
   * the not-found message otherwise. Nothing is left pending for it.
   */
  method GetUserDataRoundTrip(bridge: CallUserFunc, userId: int) returns (settled: Outcome)
    requires bridge.Valid() && bridge.Available("getUserData")
    requires bridge.forcaApp.value["getUserData"].Returns?
    requires INT32_MIN <= userId <= INT32_MAX
    modifies bridge
    ensures bridge.Valid()
    ensures settled == (if userId == 123 then Resolved(old(bridge.promiseCounter), Str(USER_123_JSON))
                        else Rejected(old(bridge.promiseCounter), Str(NotFoundMessage(userId))))
    ensures bridge.outcomes == old(bridge.outcomes) + [settled]
    ensures bridge.pendingPromises == old(bridge.pendingPromises)
    ensures bridge.promiseCounter == old(bridge.promiseCounter) + 1
  {
    var n := bridge.promiseCounter;
    var promise := bridge.Async(Str("getUserData"), [Int(userId)]);
    var promiseId := PromiseId(n);
    assert promise == Ok(PromiseFor(promiseId));
    var call := bridge.hostCalls[|bridge.hostCalls| - 1];
    assert call.args == [Str(promiseId), Int(userId)];
    var msg := Execute(call.name, call.args);
    var code := GetUserData(true, true, msg.args);
    PromiseIdPlain(n);
    GetUserDataCompletesPromise(promiseId, userId, msg.args);
    var completion := ParseCompletion(code[0]).value;
    var _ := bridge.CefResolve(completion.promiseId, completion.success, Str(completion.data));
    settled := bridge.outcomes[|bridge.outcomes| - 1];
    assert promiseId !in old(bridge.pendingPromises);
    assert bridge.pendingPromises == old(bridge.pendingPromises)[promiseId := PendingEntry(n)] - {promiseId};
    AddThenRemove(old(bridge.pendingPromises), promiseId, PendingEntry(n));
  }

}
