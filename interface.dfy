/**
 * The host side of the bridge in `forcaInterface.cpp`: the two routers from function name to
 * handler, the packing of a JavaScript call into a process message, the JavaScript text
 * that completes a pending promise, the `getUserData` handler, and the argument and index
 * rules of the `str_replace`, `str_replace_all` and `slice` handlers. Strings are sequences
 * of characters, one per byte of the UTF-8 text the handlers work on.
 */
module ForcaInterface {
  import opened Wrappers
  import opened Search
  import opened Decimal
  import opened V8Values

  // ---------------------------------------------------------------------------------------
  // Process messages
  // ---------------------------------------------------------------------------------------

  /** An entry of a `CefListValue`; setting past the end fills the gap with nulls. */
  datatype ListValue = LNull | LString(s: string) | LInt(i: int)

  /** A `CefProcessMessage`: its name and argument list. */
  datatype ProcessMessage = ProcessMessage(name: string, args: seq<ListValue>)

  const BRIDGE_MESSAGE: string := "ApiBridgeMsg"

  const INT32_MIN: int := -0x8000_0000
  const INT32_MAX: int := 0x7FFF_FFFF

  /** `IsInt()`: a number V8 holds as a 32-bit integer. */
  predicate IsInt32(v: JsValue)
  {
    v.Int? && INT32_MIN <= v.i <= INT32_MAX
  }

  /** The arguments `Execute` copies into the message: strings and 32-bit integers. */
  predicate Copied(v: JsValue)
  {
    v.Str? || IsInt32(v)
  }

  function ListValueOf(v: JsValue): ListValue
    requires Copied(v)
  {
    if v.Str? then LString(v.s) else LInt(v.i)
  }

  /** `SetString` / `SetInt` at `index`, growing the list with nulls when needed. */
  function SetAt(list: seq<ListValue>, index: nat, v: ListValue): (r: seq<ListValue>)
    ensures |r| == if index < |list| then |list| else index + 1
    ensures r[index] == v
    ensures forall k :: 0 <= k < |r| && k != index ==> r[k] == if k < |list| then list[k] else LNull
  {
    if index < |list| then list[index := v] else list + seq(index - |list|, _ => LNull) + [v]
  }

  /** `GetString(index)`: the string there, or the empty string for any other entry. */
  function GetString(list: seq<ListValue>, index: nat): string
  {
    if index < |list| && list[index].LString? then list[index].s else ""
  }

  /**
   * The argument list `Execute` builds: the function name at index 0, each copied argument
   * `i` at index `i + 1`, nulls in the places of the others, and nothing after the last
   * copied argument.
   */
  ghost predicate PackedArgs(name: string, arguments: seq<JsValue>, list: seq<ListValue>)
  {
    1 <= |list| <= |arguments| + 1 && list[0] == LString(name) &&
    (forall i :: 0 <= i < |arguments| && Copied(arguments[i]) ==> i + 1 < |list| && list[i + 1] == ListValueOf(arguments[i])) &&
    (forall i :: 0 <= i < |arguments| && !Copied(arguments[i]) && i + 1 < |list| ==> list[i + 1] == LNull) &&
    (|list| == 1 || Copied(arguments[|list| - 2]))
  }

  /** `ApiBridgeHandler::Execute`: packs the call into the message sent to the browser process. */
  method Execute(name: string, arguments: seq<JsValue>) returns (msg: ProcessMessage)
    ensures msg.name == BRIDGE_MESSAGE && PackedArgs(name, arguments, msg.args)
  {
    var args := SetAt([], 0, LString(name));
    for i := 0 to |arguments|
      invariant PackedArgs(name, arguments[..i], args)
    {
      if arguments[i].Str? {
        args := SetAt(args, i + 1, LString(arguments[i].s));
      } else if IsInt32(arguments[i]) {
        args := SetAt(args, i + 1, LInt(arguments[i].i));
      }
      assert arguments[..i + 1][..i] == arguments[..i];
    }
    assert arguments[..|arguments|] == arguments;
    msg := ProcessMessage(BRIDGE_MESSAGE, args);
  }

  // ---------------------------------------------------------------------------------------
  // Routers
  // ---------------------------------------------------------------------------------------

  /** A browser-side handler, given by the JavaScript it runs in the page for an argument list. */
  type ApiHandler = seq<ListValue> -> seq<string>

  /** `ApiRouter`: a name to handler map; a handler's effect is the JavaScript it runs. */
  class ApiRouter {
    var functionMap: map<string, ApiHandler>
    /** The JavaScript the handlers ran in the page, in order. */
    var executed: seq<string>

    constructor()
      ensures functionMap == map[] && executed == []
    {
      functionMap := map[];
      executed := [];
    }

    /** `RegisterFunction`: stores the handler, replacing any earlier one under the name. */
    method RegisterFunction(name: string, func: ApiHandler)
      modifies this
      ensures functionMap == old(functionMap)[name := func] && executed == old(executed)
    {
      functionMap := functionMap[name := func];
    }

    /** `HandleCall`: false, running nothing, for an unknown name; otherwise runs the handler once. */
    method HandleCall(name: string, args: seq<ListValue>) returns (handled: bool)
      modifies this
      ensures functionMap == old(functionMap)
      ensures handled <==> name in functionMap
      ensures executed == if handled then old(executed) + functionMap[name](args) else old(executed)
    {
      if name !in functionMap {
        return false;
      }
      executed := executed + functionMap[name](args);
      return true;
    }

    /** `OnProcessMessageReceived`: dispatches a bridge message by the name at index 0. */
    method Receive(msg: ProcessMessage) returns (r: bool)
      modifies this
      ensures functionMap == old(functionMap)
      ensures r <==> msg.name == BRIDGE_MESSAGE
      ensures var name := GetString(msg.args, 0);
        executed == if r && name in functionMap then old(executed) + functionMap[name](msg.args) else old(executed)
    {
      if msg.name == BRIDGE_MESSAGE {
        var _ := HandleCall(GetString(msg.args, 0), msg.args);
        return true;
      }
      return false;
    }
  }

  /** What a renderer-side handler leaves in its out-parameters. */
  datatype HandlerOutcome = Returned(value: JsValue) | Raised(error: HandlerError) | NoOutcome

  /** The exceptions the modelled handlers raise, one per message. */
  datatype HandlerError =
    | TooFewArguments
    | BadSearch
    | BadReplaceValue
    | BadOffset
    | BadLimit
    | BadStart
    | BadEnd
    | EndNotAfterStart

  /** A renderer-side handler's result: whether it handled the call, and what it set. */
  datatype NativeResult = NativeResult(handled: bool, outcome: HandlerOutcome)

  type NativeHandler = seq<JsValue> -> NativeResult

  /** A call a native handler received. */
  datatype NativeCall = NativeCall(name: string, args: seq<JsValue>)

  /** `NativeApiRouter`: a name to handler map whose handlers answer synchronously. */
  class NativeApiRouter {
    var functionMap: map<string, NativeHandler>
    /** The calls passed to handlers, in order. */
    var calls: seq<NativeCall>

    constructor()
      ensures functionMap == map[] && calls == []
    {
      functionMap := map[];
      calls := [];
    }

    /** `RegisterFunction`: stores the handler, replacing any earlier one under the name. */
    method RegisterFunction(name: string, func: NativeHandler)
      modifies this
      ensures functionMap == old(functionMap)[name := func] && calls == old(calls)
    {
      functionMap := functionMap[name := func];
    }

    /**
     * `HandleCall`: false with nothing set for an unknown name; otherwise the handler runs
     * once and its result is returned as it is.
     */
    method HandleCall(name: string, args: seq<JsValue>) returns (r: NativeResult)
      modifies this
      ensures functionMap == old(functionMap)
      ensures name !in functionMap ==> r == NativeResult(false, NoOutcome) && calls == old(calls)
      ensures name in functionMap ==> r == functionMap[name](args) && calls == old(calls) + [NativeCall(name, args)]
    {
      if name !in functionMap {
        return NativeResult(false, NoOutcome);
      }
      calls := calls + [NativeCall(name, args)];
      r := functionMap[name](args);
    }
  }

  /** Registering twice under one name: the second handler is the one called. */
  method LastRegistrationWins(name: string, first: NativeHandler, second: NativeHandler, args: seq<JsValue>)
    returns (r: NativeResult)
    ensures r == second(args)
  {
    var router := new NativeApiRouter();
    router.RegisterFunction(name, first);
    router.RegisterFunction(name, second);
    r := router.HandleCall(name, args);
  }

  // ---------------------------------------------------------------------------------------
  // Completing promises
  // ---------------------------------------------------------------------------------------

  const CALL_PREFIX: string := "callUserFunc.cefResolve('"
  const TRUE_SEPARATOR: string := "', true, '"
  const FALSE_SEPARATOR: string := "', false, '"
  const CALL_SUFFIX: string := "');"

  /** The JavaScript statement that completes promise `promiseId`. */
  function CompletionCall(promiseId: string, success: bool, data: string): string
  {
    CALL_PREFIX + promiseId + (if success then TRUE_SEPARATOR else FALSE_SEPARATOR) + data + CALL_SUFFIX
  }

  /** `ResolvePromise`: the completion, run only in a frame that is present and valid. */
  function ResolvePromise(frameValid: bool, promiseId: string, data: string): (r: seq<string>)
    ensures frameValid ==> r == [CompletionCall(promiseId, true, data)]
    ensures !frameValid ==> r == []
  {
    if frameValid then [CompletionCall(promiseId, true, data)] else []
  }

  /** `RejectPromise`: the failing completion, run only in a frame that is present and valid. */
  function RejectPromise(frameValid: bool, promiseId: string, message: string): (r: seq<string>)
    ensures frameValid ==> r == [CompletionCall(promiseId, false, message)]
    ensures !frameValid ==> r == []
  {
    if frameValid then [CompletionCall(promiseId, false, message)] else []
  }

  /** Text that a single-quoted JavaScript literal holds as it is: no quote, backslash or line break. */
  predicate PlainLiteral(s: string)
  {
    forall i :: 0 <= i < |s| ==> s[i] != '\'' && s[i] != '\\' && s[i] != '\n' && s[i] != '\r'
  }

  /** A call of `cefResolve` with literal arguments, as JavaScript reads it. */
  datatype Completion = Completion(promiseId: string, success: bool, data: string)

  /**
   * How JavaScript reads a statement `callUserFunc.cefResolve('<id>', true|false, '<data>');`
   * whose literals hold plain text; `None` for any other text.
   */
  function ParseCompletion(code: string): Option<Completion>
  {
    if |code| < |CALL_PREFIX| + |CALL_SUFFIX| || code[..|CALL_PREFIX|] != CALL_PREFIX
      || code[|code| - |CALL_SUFFIX|..] != CALL_SUFFIX then
      None
    else
      ParseArguments(code[|CALL_PREFIX|..|code| - |CALL_SUFFIX|])
  }

  /** The arguments between the call's opening quote and its closing `');`. */
  function ParseArguments(body: string): Option<Completion>
  {
    match Find(body, "'", 0)
    case None => None
    case Some(q) =>
      var rest := body[q..];
      if |rest| >= |TRUE_SEPARATOR| && rest[..|TRUE_SEPARATOR|] == TRUE_SEPARATOR then
        var data := rest[|TRUE_SEPARATOR|..];
        if PlainLiteral(data) then Some(Completion(body[..q], true, data)) else None
      else if |rest| >= |FALSE_SEPARATOR| && rest[..|FALSE_SEPARATOR|] == FALSE_SEPARATOR then
        var data := rest[|FALSE_SEPARATOR|..];
        if PlainLiteral(data) then Some(Completion(body[..q], false, data)) else None
      else
        None
  }

  /** The statement the host emits is read back by JavaScript as the call it stands for. */
  lemma CompletionRoundTrip(promiseId: string, success: bool, data: string)
    requires PlainLiteral(promiseId) && PlainLiteral(data)
    ensures ParseCompletion(CompletionCall(promiseId, success, data)) == Some(Completion(promiseId, success, data))
  {
    var sep := if success then TRUE_SEPARATOR else FALSE_SEPARATOR;
    var body := promiseId + sep + data;
    FrameStripped(body, CompletionCall(promiseId, success, data));
    ArgumentsRoundTrip(promiseId, success, data);
  }

  /** Stripping the call's frame leaves the arguments. */
  lemma FrameStripped(body: string, code: string)
    requires code == CALL_PREFIX + body + CALL_SUFFIX
    ensures ParseCompletion(code) == ParseArguments(body)
  {
    assert code[..|CALL_PREFIX|] == CALL_PREFIX;
    assert code[|code| - |CALL_SUFFIX|..] == CALL_SUFFIX;
    assert code[|CALL_PREFIX|..|code| - |CALL_SUFFIX|] == body;
  }

  /** The arguments are split at the first quote, which ends a plain id. */
  lemma ArgumentsRoundTrip(promiseId: string, success: bool, data: string)
    requires PlainLiteral(promiseId) && PlainLiteral(data)
    ensures var sep := if success then TRUE_SEPARATOR else FALSE_SEPARATOR;
      ParseArguments(promiseId + sep + data) == Some(Completion(promiseId, success, data))
  {
    var sep := if success then TRUE_SEPARATOR else FALSE_SEPARATOR;
    var body := promiseId + sep + data;
    FindSingle(body, '\'', 0);
    assert body[|promiseId|] == '\'';
    assert Find(body, "'", 0) == Some(|promiseId|);
    assert body[..|promiseId|] == promiseId;
    var rest := body[|promiseId|..];
    assert rest == sep + data;
    SeparatorSplit(sep, data, success);
  }

  /** After the id, the separator says which way the promise is completed, and the data follows. */
  lemma SeparatorSplit(sep: string, data: string, success: bool)
    requires sep == if success then TRUE_SEPARATOR else FALSE_SEPARATOR
    ensures var rest := sep + data;
      (|rest| >= |TRUE_SEPARATOR| && rest[..|TRUE_SEPARATOR|] == TRUE_SEPARATOR <==> success) &&
      (!success ==> rest[..|FALSE_SEPARATOR|] == FALSE_SEPARATOR) &&
      rest[|sep|..] == data
  {
    var rest := sep + data;
    assert rest[..|sep|] == sep;
    if !success && |rest| >= |TRUE_SEPARATOR| {
      assert rest[3] == 'f';
      assert rest[..|TRUE_SEPARATOR|][3] == 'f';
    }
  }

  /** Text with a quote does not come back as the same literal. */
  lemma QuotedDataNotReadBack(promiseId: string, success: bool, data: string)
    requires !PlainLiteral(data)
    ensures ParseCompletion(CompletionCall(promiseId, success, data)) != Some(Completion(promiseId, success, data))
  {
  }

  // ---------------------------------------------------------------------------------------
  // getUserData
  // ---------------------------------------------------------------------------------------

  const INVALID_ARGUMENTS: string := "Argumentos invalidos para getUserData"

  /** The JSON `nlohmann::json::dump` writes for user 123, its keys in sorted order. */
  const USER_123_JSON: string := "{\"id\":123,\"nivel\":99,\"nome\":\"Pedro Cef\"}"

  function NotFoundMessage(userId: int): string
  {
    "Usuario com ID " + IntToString(userId) + " nao encontrado."
  }

  /**
   * The `getUserData` handler: the promise id is at index 1 and the user id at index 2.
   * Missing or non-int user ids reject the promise when its id is non-empty; user 123
   * resolves with its JSON; any other user rejects with a not-found message.
   */
  function GetUserData(browserPresent: bool, frameValid: bool, args: seq<ListValue>): (r: seq<string>)
    ensures !browserPresent ==> r == []
    ensures browserPresent && (|args| < 3 || !args[2].LInt?) ==>
      r == if GetString(args, 1) == "" then [] else RejectPromise(frameValid, GetString(args, 1), INVALID_ARGUMENTS)
    ensures browserPresent && |args| >= 3 && args[2].LInt? && args[2].i == 123 ==>
      r == ResolvePromise(frameValid, GetString(args, 1), USER_123_JSON)
    ensures browserPresent && |args| >= 3 && args[2].LInt? && args[2].i != 123 ==>
      r == RejectPromise(frameValid, GetString(args, 1), NotFoundMessage(args[2].i))
  {
    if !browserPresent then []
    else if |args| < 3 || !args[2].LInt? then
      var promiseId := GetString(args, 1);
      if promiseId != "" then RejectPromise(frameValid, promiseId, INVALID_ARGUMENTS) else []
    else
      var userId := args[2].i;
      var promiseId := GetString(args, 1);
      if userId == 123 then ResolvePromise(frameValid, promiseId, USER_123_JSON)
      else RejectPromise(frameValid, promiseId, NotFoundMessage(userId))
  }

  lemma UserJsonPlain()
    ensures PlainLiteral(USER_123_JSON)
  {
  }

  lemma NotFoundMessagePlain(userId: int)
    ensures PlainLiteral(NotFoundMessage(userId))
  {
    var digits := IntToString(userId);
    assert forall i :: 0 <= i < |digits| ==> digits[i] == '-' || IsDigit(digits[i]) by {
      if userId < 0 {
        forall i | 0 <= i < |digits| ensures digits[i] == '-' || IsDigit(digits[i]) {
          if i > 0 {
            assert digits[i] == digits[1..][i - 1];
          }
        }
      }
    }
  }

  /**
   * The message `async("getUserData", promiseId, userId)` sends reaches the handler with the
   * promise id where it reads it, and the statement the handler emits completes that
   * promise: resolved with the JSON for user 123, rejected with the not-found message for
   * any other user.
   */
  lemma GetUserDataCompletesPromise(promiseId: string, userId: int, list: seq<ListValue>)
    requires PlainLiteral(promiseId) && INT32_MIN <= userId <= INT32_MAX
    requires PackedArgs("getUserData", [Str(promiseId), Int(userId)], list)
    ensures var code := GetUserData(true, true, list);
      |code| == 1 &&
      ParseCompletion(code[0]) ==
        if userId == 123 then Some(Completion(promiseId, true, USER_123_JSON))
        else Some(Completion(promiseId, false, NotFoundMessage(userId)))
  {
    var arguments := [Str(promiseId), Int(userId)];
    assert Copied(arguments[0]) && Copied(arguments[1]);
    assert list[1] == LString(promiseId) && list[2] == LInt(userId);
    if userId == 123 {
      UserJsonPlain();
      CompletionRoundTrip(promiseId, true, USER_123_JSON);
    } else {
      NotFoundMessagePlain(userId);
      CompletionRoundTrip(promiseId, false, NotFoundMessage(userId));
    }
  }

  // ---------------------------------------------------------------------------------------
  // str_replace and str_replace_all
  // ---------------------------------------------------------------------------------------

  /** `std::numeric_limits<size_t>::max()` on a 64-bit target: the default limit. */
  const SIZE_MAX: nat := 0xFFFF_FFFF_FFFF_FFFF

  /** What to search for: a string, or the text of a regular expression object. */
  datatype SearchValue = StringSearch(text: string) | RegexSearch(pattern: string)

  /**
   * The `search` argument: a string is searched as it is; an object is turned into text with
   * `String`, when that global is a function, and must look like `/expr/flags`.
   */
  function SearchArgument(search: JsValue, stringIsFunction: bool): (r: Result<SearchValue, HandlerError>)
    ensures search.Str? ==> r == Ok(StringSearch(search.s))
    ensures !search.Str? && !search.Object? ==> r == Err(BadSearch)
    ensures search.Object? ==>
      (r.Ok? <==> stringIsFunction && |search.text| >= 3 && search.text[0] == '/' &&
                  exists p :: 2 <= p < |search.text| && search.text[p] == '/')
    ensures search.Object? && r.Ok? ==> r.value == RegexSearch(search.text)
    ensures !r.Ok? ==> r == Err(BadSearch)
  {
    if search.Object? then
      if !stringIsFunction then Err(BadSearch)
      else
        var text := search.text;
        if |text| < 3 || text[0] != '/' then Err(BadSearch)
        else match FindLastOf(text, '/')
          case Some(p) => if p < 2 then Err(BadSearch) else Ok(RegexSearch(text))
          case None => Ok(RegexSearch(text))
    else if search.Str? then Ok(StringSearch(search.s))
    else Err(BadSearch)
  }

  /** Where the replacement starts, or that the offset is at or past the end of the string. */
  datatype OffsetValue = StartAt(offset: nat) | PastEnd

  /** The optional `offset` argument at index 3: a non-negative number, or `undefined`. */
  function OffsetArgument(args: seq<JsValue>, length: nat): (r: Result<OffsetValue, HandlerError>)
    ensures |args| <= 3 || args[3].Undefined? ==> r == Ok(StartAt(0))
    ensures |args| > 3 && !args[3].Int? && !args[3].Undefined? ==> r == Err(BadOffset)
    ensures |args| > 3 && args[3].Int? ==>
      r == if args[3].i < 0 then Err(BadOffset) else if args[3].i >= length then Ok(PastEnd) else Ok(StartAt(args[3].i))
  {
    if |args| > 3 then
      var a := args[3];
      if !a.Int? && !a.Undefined? then Err(BadOffset)
      else if a.Undefined? then Ok(StartAt(0))
      else if a.i < 0 then Err(BadOffset)
      else if a.i >= length then Ok(PastEnd)
      else Ok(StartAt(a.i))
    else Ok(StartAt(0))
  }

  /**
   * The optional `limit` argument at index 4: a non-negative number, or `undefined` for the
   * default. The handler's test for a zero limit compares the default, which is never zero,
   * so a zero argument is kept as the limit.
   */
  function LimitArgument(args: seq<JsValue>): (r: Result<nat, HandlerError>)
    ensures |args| <= 4 || args[4].Undefined? ==> r == Ok(SIZE_MAX)
    ensures |args| > 4 && !args[4].Int? && !args[4].Undefined? ==> r == Err(BadLimit)
    ensures |args| > 4 && args[4].Int? ==> r == if args[4].i < 0 then Err(BadLimit) else Ok(args[4].i)
  {
    if |args| > 4 then
      var a := args[4];
      if !a.Int? && !a.Undefined? then Err(BadLimit)
      else if a.Undefined? then Ok(SIZE_MAX)
      else if a.i < 0 then Err(BadLimit)
      else Ok(a.i)
    else Ok(SIZE_MAX)
  }

  /** The string branch of `str_replace`: the first match at or after `offset` is replaced. */
  function ReplaceFirst(s: string, search: string, rep: string, offset: nat): (r: string)
    requires offset <= |s|
  {
    match Find(s, search, offset)
    case None => s
    case Some(p) => s[..p] + rep + s[p + |search|..]
  }

  /** `str_replace` replaces as `str_replace_all` does with a limit of one. */
  lemma ReplaceFirstIsReplaceN(s: string, search: string, rep: string, offset: nat)
    requires offset <= |s|
    ensures ReplaceFirst(s, search, rep, offset) == s[..offset] + ReplaceN(s[offset..], search, rep, 1)
  {
    match Find(s, search, offset)
    case None =>
      ReplaceNNoMatch(s, search, rep, 1, offset);
    case Some(p) =>
      var tail := s[p + |search|..];
      ReplaceNAtFound(s, search, rep, 1, offset, p);
      assert ReplaceN(tail, search, rep, 0) == tail;
      Regroup(s[..offset], s[offset..p], rep, tail);
      assert s[..offset] + s[offset..p] == s[..p];
  }

  /**
   * The `str_replace` handler. An offset at or past the end returns the string unchanged;
   * a regular expression is handed to `pregReplace` with a limit of one.
   */
  function StrReplace(args: seq<JsValue>, stringIsFunction: bool, pregReplace: (string, string, string, nat, nat) -> string): (r: HandlerOutcome)
    ensures |args| < 3 ==> r == Raised(TooFewArguments)
    ensures r.Returned? ==> r.value.Str?
    ensures |args| >= 3 && args[1].Str? && args[2].Str? && OffsetArgument(args, |StringValue(args[0])|).Ok? ==>
      var s := StringValue(args[0]);
      r == match OffsetArgument(args, |s|).value
        case PastEnd => Returned(Str(s))
        case StartAt(o) => Returned(Str(s[..o] + ReplaceN(s[o..], args[1].s, args[2].s, 1)))
  {
    if |args| < 3 then Raised(TooFewArguments)
    else
      var s := StringValue(args[0]);
      match SearchArgument(args[1], stringIsFunction)
      case Err(e) => Raised(e)
      case Ok(search) =>
        if !args[2].Str? then Raised(BadReplaceValue)
        else
          var rep := args[2].s;
          match OffsetArgument(args, |s|)
          case Err(e) => Raised(e)
          case Ok(PastEnd) => Returned(Str(s))
          case Ok(StartAt(offset)) =>
            match search
            case RegexSearch(pattern) => Returned(Str(pregReplace(pattern, s, rep, offset, 1)))
            case StringSearch(text) =>
              ReplaceFirstIsReplaceN(s, text, rep, offset);
              Returned(Str(ReplaceFirst(s, text, rep, offset)))
  }

  /**
   * The replacement loop of `str_replace_all`: at most `limit` replacements, each search
   * resuming just after the text inserted by the previous one.
   */
  method ReplaceLoop(s: string, search: string, rep: string, offset: nat, limit: nat) returns (text: string)
    requires offset <= |s|
    ensures text == Progress(s, search, rep, offset, limit)
  {
    text := s;
    var searchPos := Find(text, search, offset);
    var count := 0;
    ghost var resume: nat := offset;
    while searchPos.Some? && count < limit
      invariant count <= limit && resume <= |text|
      invariant searchPos == Find(text, search, resume)
      invariant Progress(text, search, rep, resume, limit - count) == Progress(s, search, rep, offset, limit)
      decreases limit - count
    {
      var p := searchPos.value;
      ghost var before := text;
      text := text[..p] + rep + text[p + |search|..];
      ReplaceLoopStep(before, text, search, rep, limit - count, resume, p);
      resume := p + |rep|;
      searchPos := Find(text, search, p + |rep|);
      count := count + 1;
    }
    LoopExit(text, search, rep, limit - count, resume);
  }

  /**
   * The text up to `resume`, then the bounded replacement of the rest: the value the loop
   * keeps unchanged, and the result once the rest is left alone.
   */
  function Progress(text: string, search: string, rep: string, resume: nat, n: nat): string
    requires resume <= |text|
  {
    text[..resume] + ReplaceN(text[resume..], search, rep, n)
  }

  /** One replacement keeps the progress unchanged. */
  lemma ReplaceLoopStep(text: string, text': string, search: string, rep: string, n: nat, resume: nat, p: nat)
    requires n > 0 && resume <= p && MatchAt(text, search, p)
    requires forall j :: resume <= j < p ==> !MatchAt(text, search, j)
    requires text' == text[..p] + rep + text[p + |search|..]
    ensures p + |rep| <= |text'|
    ensures Progress(text', search, rep, p + |rep|, n - 1) == Progress(text, search, rep, resume, n)
  {
    var tail := ReplaceN(text[p + |search|..], search, rep, n - 1);
    ReplaceNAtFound(text, search, rep, n, resume, p);
    assert text'[..p + |rep|] == text[..resume] + text[resume..p] + rep;
    assert text'[p + |rep|..] == text[p + |search|..];
    Regroup(text[..resume], text[resume..p], rep, tail);
  }

  /** With no match left, or no replacement left, the progress is the text itself. */
  lemma LoopExit(text: string, search: string, rep: string, n: nat, resume: nat)
    requires resume <= |text|
    requires Find(text, search, resume).None? || n == 0
    ensures Progress(text, search, rep, resume, n) == text
  {
    if n > 0 {
      ReplaceNNoMatch(text, search, rep, n, resume);
    }
    assert text[..resume] + text[resume..] == text;
  }

  /** The value `str_replace_all` computes, with the loop given by its reference definition. */
  function StrReplaceAllSpec(args: seq<JsValue>, stringIsFunction: bool, pregReplace: (string, string, string, nat, nat) -> string): HandlerOutcome
  {
    if |args| < 3 then Raised(TooFewArguments)
    else
      var s := StringValue(args[0]);
      match SearchArgument(args[1], stringIsFunction)
      case Err(e) => Raised(e)
      case Ok(search) =>
        if !args[2].Str? then Raised(BadReplaceValue)
        else
          var rep := args[2].s;
          match OffsetArgument(args, |s|)
          case Err(e) => Raised(e)
          case Ok(PastEnd) => Returned(Str(s))
          case Ok(StartAt(offset)) =>
            match LimitArgument(args)
            case Err(e) => Raised(e)
            case Ok(limit) =>
              match search
              case RegexSearch(pattern) => Returned(Str(pregReplace(pattern, s, rep, offset, limit)))
              case StringSearch(text) => Returned(Str(Progress(s, text, rep, offset, limit)))
  }

  /** The `str_replace_all` handler. */
  method StrReplaceAll(args: seq<JsValue>, stringIsFunction: bool, pregReplace: (string, string, string, nat, nat) -> string)
    returns (r: HandlerOutcome)
    ensures r == StrReplaceAllSpec(args, stringIsFunction, pregReplace)
  {
    if |args| < 3 {
      return Raised(TooFewArguments);
    }
    var s := StringValue(args[0]);
    var search := SearchArgument(args[1], stringIsFunction);
    if search.Err? {
      return Raised(search.error);
    }
    if !args[2].Str? {
      return Raised(BadReplaceValue);
    }
    var rep := args[2].s;
    var offset := OffsetArgument(args, |s|);
    if offset.Err? {
      return Raised(offset.error);
    }
    if offset.value.PastEnd? {
      return Returned(Str(s));
    }
    var limit := LimitArgument(args);
    if limit.Err? {
      return Raised(limit.error);
    }
    match search.value
    case RegexSearch(pattern) =>
      r := Returned(Str(pregReplace(pattern, s, rep, offset.value.offset, limit.value)));
    case StringSearch(text) =>
      var replaced := ReplaceLoop(s, text, rep, offset.value.offset, limit.value);
      r := Returned(Str(replaced));
  }

  /** The arguments of a `str_replace` call passed to `str_replace_all` with a limit of one. */
  function WithLimitOne(args: seq<JsValue>): seq<JsValue>
    requires |args| >= 3
  {
    (if |args| == 3 then args + [Undefined] else args[..4]) + [Int(1)]
  }

  /** `str_replace` is `str_replace_all` with a limit of one, errors included. */
  lemma StrReplaceIsLimitOne(args: seq<JsValue>, stringIsFunction: bool, pregReplace: (string, string, string, nat, nat) -> string)
    requires |args| >= 3
    ensures StrReplace(args, stringIsFunction, pregReplace) == StrReplaceAllSpec(WithLimitOne(args), stringIsFunction, pregReplace)
  {
    var args' := WithLimitOne(args);
    assert args'[..3] == args[..3];
    assert args'[0] == args[0] && args'[1] == args[1] && args'[2] == args[2];
    assert OffsetArgument(args', |StringValue(args[0])|) == OffsetArgument(args, |StringValue(args[0])|);
    assert LimitArgument(args') == Ok(1);
  }

  /** With the default limit, every occurrence of a non-empty search string after the offset is replaced. */
  lemma DefaultLimitReplacesAll(s: string, search: string, rep: string, offset: nat)
    requires |search| > 0 && offset <= |s| <= SIZE_MAX
    ensures ReplaceN(s[offset..], search, rep, SIZE_MAX) == ReplaceAll(s[offset..], search, rep)
  {
    ReplaceNIsReplaceAll(s[offset..], search, rep, SIZE_MAX);
  }

  /** Inserted text is not searched again: doubling every "a" in "aa" stops at "aaaa". */
  lemma ReplacementNotRescanned()
    ensures ReplaceN("aa", "a", "aa", SIZE_MAX) == "aaaa"
  {
    var s: string := "aa";
    assert s[..1] == "a" && s[1..] == "a";
    var t: string := "a";
    assert t[..1] == "a" && t[1..] == "";
  }

  // ---------------------------------------------------------------------------------------
  // slice
  // ---------------------------------------------------------------------------------------

  /** The part of the string `slice` returns: none, or `count` characters from `start`. */
  datatype SliceRange = EmptySlice | Range(start: nat, count: nat)

  /** A negative index counts from the end, and is clamped at zero. */
  function FromEnd(index: int, length: nat): (r: nat)
    ensures index >= 0 ==> r == index
    ensures index < 0 ==> r == if length + index < 0 then 0 else length + index
  {
    if index < 0 then (if length + index < 0 then 0 else length + index) else index
  }

  /**
   * The index rules of the `slice` handler for a string of `length` characters: `start` at
   * index 1 must be a number, `end` at index 2 a number or `undefined`; a start at or past
   * the end gives the empty string, an end not after the start is an error, and the end is
   * capped at the length.
   */
  function SliceIndices(args: seq<JsValue>, length: nat): (r: Result<SliceRange, HandlerError>)
    ensures |args| < 2 ==> r == Err(TooFewArguments)
    ensures |args| >= 2 && !args[1].Int? ==> r == Err(BadStart)
    ensures |args| >= 2 && args[1].Int? && FromEnd(args[1].i, length) >= length ==> r == Ok(EmptySlice)
    ensures |args| > 2 && args[1].Int? && FromEnd(args[1].i, length) < length ==>
      (!args[2].Int? && !args[2].Undefined? ==> r == Err(BadEnd)) &&
      (args[2].Int? && FromEnd(args[2].i, length) <= FromEnd(args[1].i, length) ==> r == Err(EndNotAfterStart))
    ensures |args| >= 2 && args[1].Int? && FromEnd(args[1].i, length) < length && EndAccepted(args, length) ==>
      r.Ok? && r.value.Range?
    ensures r.Ok? && r.value.Range? ==>
      r.value.start == FromEnd(args[1].i, length) && r.value.start + r.value.count == SliceEnd(args, length) &&
      r.value.start < length && 0 < r.value.count && r.value.start + r.value.count <= length
  {
    if |args| < 2 then Err(TooFewArguments)
    else if !args[1].Int? then Err(BadStart)
    else
      var start := FromEnd(args[1].i, length);
      if start >= length then Ok(EmptySlice)
      else if |args| > 2 then
        if !args[2].Int? && !args[2].Undefined? then Err(BadEnd)
        else if args[2].Undefined? then Ok(Range(start, length - start))
        else
          var end := FromEnd(args[2].i, length);
          if end <= start then Err(EndNotAfterStart)
          else Ok(Range(start, (if end < length then end else length) - start))
      else Ok(Range(start, length - start))
  }

  /** The end argument is absent, `undefined`, or a number that lands after the start. */
  predicate EndAccepted(args: seq<JsValue>, length: nat)
    requires |args| >= 2 && args[1].Int?
  {
    |args| <= 2 || args[2].Undefined? ||
    (args[2].Int? && FromEnd(args[2].i, length) > FromEnd(args[1].i, length))
  }

  /** Where the slice ends: the end argument capped at the length, or the length without one. */
  function SliceEnd(args: seq<JsValue>, length: nat): nat
  {
    if |args| > 2 && args[2].Int? && FromEnd(args[2].i, length) < length then FromEnd(args[2].i, length)
    else length
  }

  /** The `slice` handler; the length and substring of the UTF-8 text are given as functions. */
  function Slice(args: seq<JsValue>, lengthOf: string -> nat, substring: (string, nat, nat) -> string): (r: HandlerOutcome)
    ensures |args| < 2 ==> r == Raised(TooFewArguments)
    ensures |args| >= 2 && !args[1].Int? ==> r == Raised(BadStart)
    ensures |args| >= 2 && args[1].Int? ==>
      var s := StringValue(args[0]);
      var length, start := lengthOf(s), FromEnd(args[1].i, lengthOf(s));
      (start >= length ==> r == Returned(Str(""))) &&
      (start < length && |args| > 2 && !args[2].Int? && !args[2].Undefined? ==> r == Raised(BadEnd)) &&
      (start < length && |args| > 2 && args[2].Int? && FromEnd(args[2].i, length) <= start ==>
         r == Raised(EndNotAfterStart)) &&
      (start < length && EndAccepted(args, length) ==>
         r == Returned(Str(substring(s, start, SliceEnd(args, length) - start))))
  {
    if |args| < 2 then Raised(TooFewArguments)
    else
      var s := StringValue(args[0]);
      match SliceIndices(args, lengthOf(s))
      case Err(e) => Raised(e)
      case Ok(EmptySlice) => Returned(Str(""))
      case Ok(Range(start, count)) => Returned(Str(substring(s, start, count)))
  }

  /** JavaScript's `String.prototype.slice` bounds for integer arguments: characters `from` to `to`. */
  function JsSliceBounds(length: nat, start: int, end: Option<int>): (nat, nat)
  {
    var from := if start < 0 then FromEnd(start, length) else if start < length then start else length;
    var e := if end.Some? then end.value else length;
    var to := if e < 0 then FromEnd(e, length) else if e < length then e else length;
    (from, to)
  }

  /**
   * The handler's slice agrees with JavaScript's wherever it returns a string: a start at or
   * past the end gives "" in both. An end not after a start inside the string, where
   * JavaScript gives "", is the one case the handler reports as an error.
   */
  lemma SliceAgreesWithJs(args: seq<JsValue>, length: nat)
    requires |args| >= 2 && args[1].Int?
    requires |args| > 2 ==> args[2].Int? || args[2].Undefined?
    ensures var end := if |args| > 2 && args[2].Int? then Some(args[2].i) else None;
      var (from, to) := JsSliceBounds(length, args[1].i, end);
      match SliceIndices(args, length)
      case Ok(Range(start, count)) => start == from && start + count == to
      case Ok(EmptySlice) => from == length && from >= to
      case Err(e) => e == EndNotAfterStart && from < length && to <= from
  {
  }
}
