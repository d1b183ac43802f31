/** `Context` of `nsi-ffi-wrap` (`context.rs`): the safe Rust side of the C
    API. Each method turns Rust strings and arguments into C strings and
    parameter records and makes one call into the renderer's C API; the
    context itself is shared by reference counting and ended when the last
    reference goes. The two trampolines are the C functions the renderer
    calls back into.

    The C API is an output: each method returns the call it makes. What
    the renderer answers to `NSIBegin` is a parameter. User closures are
    opaque tokens; calling one is an event. */
module Session {
  import opened Wrappers
  import opened Utf8
  import NsiHeader
  import opened NsiTrait
  import opened Argument
  import CApi
  import FfiNsiTrait

  /** The bytes of a text up to its first NUL: what C reads through a pointer to it. */
  function UntilNul(b: seq<byte>): (r: CChars)
    ensures |r| <= |b| && r == b[..|r|]
    ensures 0 in b ==> |r| < |b| && b[|r|] == 0
    ensures 0 !in b ==> r == b
    ensures 0 !in r
  {
    if |b| == 0 || b[0] == 0 then []
    else
      var rest := UntilNul(b[1..]);
      assert [b[0]] + rest == b[..|rest| + 1];
      [b[0]] + rest
  }

  /** `ustr(s).as_char_ptr()`: an interned copy with a NUL after it, so C
      sees the text cut at its first NUL. A text without U+0000 reads back
      whole; any other is cut short, to a NUL-free prefix of its UTF-8 form. */
  function UstrPtr(s: string): (c: CStr)
    ensures c.CText? && 0 !in c.bytes && c.bytes <= Encode(s)
    ensures 0 as char !in s ==> CApi.HandleToStr(c) == Some(s)
    ensures 0 as char in s <==> |c.bytes| < |Encode(s)|
  {
    EncodeHasNulIff(s);
    if 0 as char in s then CText(UntilNul(Encode(s)))
    else
      CApi.HandleToStrRoundTrip(s);
      CText(UntilNul(Encode(s)))
  }

  /** `HandleString::from(s).as_char_ptr()` (a `CString`): panics on a NUL. */
  function HandlePtr(s: string): (r: Outcome<CStr>)
    ensures r.Panic? <==> 0 as char in s
    ensures r.Ok? ==> CApi.HandleToStr(r.value) == Some(s)
  {
    EncodeHasNulIff(s);
    if 0 in Encode(s) then Panic
    else
      CApi.HandleToStrRoundTrip(s);
      Ok(CText(Encode(s)))
  }

  /** A text's UTF-8 form contains a zero byte exactly where the text contains U+0000. */
  lemma {:induction false} EncodeHasNulIff(s: string)
    ensures 0 in Encode(s) <==> 0 as char in s
  {
    if |s| > 0 {
      EncodeHasNulIff(s[1..]);
      assert s == [s[0]] + s[1..];
      assert 0 in EncodeChar(s[0]) <==> s[0] == 0 as char;
    }
  }

  /** A text without NUL reaches C intact through `ustr`, and the C API reads it back. */
  lemma UstrRoundTrip(s: string)
    requires 0 as char !in s
    ensures CApi.HandleToStr(UstrPtr(s)) == Some(s)
  {
    EncodeHasNulIff(s);
    CApi.HandleToStrRoundTrip(s);
  }

  /** A call into the renderer's C API. */
  datatype ApiCall =
    | ApiBegin(params: seq<Param>)
    | ApiEnd(ctx: int)
    | ApiCreate(ctx: int, handle: CStr, nodeType: CStr, params: seq<Param>)
    | ApiDelete(ctx: int, handle: CStr, params: seq<Param>)
    | ApiSetAttribute(ctx: int, handle: CStr, params: seq<Param>)
    | ApiSetAttributeAtTime(ctx: int, handle: CStr, time: bv64, params: seq<Param>)
    | ApiDeleteAttribute(ctx: int, handle: CStr, name: CStr)
    | ApiConnect(ctx: int, from: CStr, fromAttr: CStr, to: CStr, toAttr: CStr, params: seq<Param>)
    | ApiDisconnect(ctx: int, from: CStr, fromAttr: CStr, to: CStr, toAttr: CStr)
    | ApiEvaluate(ctx: int, params: seq<Param>)
    | ApiRenderControl(ctx: int, params: seq<Param>)

  /** The scene-editing methods of `Context`. */
  datatype Method =
    | Create(handle: string, nodeType: string, args: Option<seq<Arg>>)
    | Delete(handle: string, args: Option<seq<Arg>>)
    | SetAttribute(handle: string, attrs: seq<Arg>)
    | SetAttributeAtTime(handle: string, time: bv64, attrs: seq<Arg>)
    | DeleteAttribute(handle: string, name: string)
    | Connect(from: string, fromAttr: Option<string>, to: string, toAttr: string, args: Option<seq<Arg>>)
    | Disconnect(from: string, fromAttr: Option<string>, to: string, toAttr: string)
    | Evaluate(attrs: seq<Arg>)

  /** Whether a list of arguments makes `get_c_param_vec` panic. */
  predicate ZeroArrayLength(args: Option<seq<Arg>>)
  {
    args.Some? && exists i :: 0 <= i < |args.value| && args.value[i].arrayLength == 0
  }

  /** The node handles a method passes as `CString`s. */
  function Handles(m: Method): seq<string>
  {
    match m
    case Create(h, _, _) => [h]
    case Delete(h, _) => [h]
    case SetAttribute(h, _) => [h]
    case SetAttributeAtTime(h, _, _) => [h]
    case DeleteAttribute(h, _) => [h]
    case Connect(f, _, t, _, _) => [f, t]
    case Disconnect(f, _, t, _) => [f, t]
    case Evaluate(_) => []
  }

  /** Whether one of the method's handles contains U+0000. */
  predicate HasNul(m: Method)
  {
    exists i :: 0 <= i < |Handles(m)| && 0 as char in Handles(m)[i]
  }

  /** For one handle, `HasNul` is that handle's test; for two, either's. */
  lemma HasNulByHandles(m: Method)
    ensures |Handles(m)| == 1 ==> (HasNul(m) <==> 0 as char in Handles(m)[0])
    ensures |Handles(m)| == 2 ==> (HasNul(m) <==> 0 as char in Handles(m)[0] || 0 as char in Handles(m)[1])
  {
  }

  /** The arguments a method encodes (`None`: none). */
  function ArgsOf(m: Method): Option<seq<Arg>>
  {
    match m
    case Create(_, _, a) => a
    case Delete(_, a) => a
    case SetAttribute(_, a) => Some(a)
    case SetAttributeAtTime(_, _, a) => Some(a)
    case Connect(_, _, _, _, a) => a
    case Evaluate(a) => Some(a)
    case _ => None
  }

  /** The C call of one scene-editing method on context `ctx`. It panics iff
      a handle contains NUL or an argument has array length 0; otherwise
      each handle reaches the C API intact, and the records describe the
      arguments. */
  function Call(ctx: int, m: Method): (r: Outcome<ApiCall>)
    ensures r.Panic? <==> HasNul(m) || CParamVec(ArgsOf(m)).Panic?
    ensures r.Ok? ==> CallOf(m, r.value) && r.value.ctx == ctx
    ensures r.Ok? && !m.DeleteAttribute? && !m.Disconnect? ==> CParamVec(ArgsOf(m)) == Ok(r.value.params)
  {
    HasNulByHandles(m);
    match m
    case Create(h, t, args) =>
      (match (HandlePtr(h), CParamVec(args))
       case (Ok(hp), Ok(ps)) => Ok(ApiCreate(ctx, hp, UstrPtr(t), ps))
       case _ => Panic)
    case Delete(h, args) =>
      (match (HandlePtr(h), CParamVec(args))
       case (Ok(hp), Ok(ps)) => Ok(ApiDelete(ctx, hp, ps))
       case _ => Panic)
    case SetAttribute(h, args) =>
      (match (HandlePtr(h), CParamVec(Some(args)))
       case (Ok(hp), Ok(ps)) => Ok(ApiSetAttribute(ctx, hp, ps))
       case _ => Panic)
    case SetAttributeAtTime(h, time, args) =>
      (match (HandlePtr(h), CParamVec(Some(args)))
       case (Ok(hp), Ok(ps)) => Ok(ApiSetAttributeAtTime(ctx, hp, time, ps))
       case _ => Panic)
    case DeleteAttribute(h, name) =>
      (match HandlePtr(h)
       case Ok(hp) => Ok(ApiDeleteAttribute(ctx, hp, UstrPtr(name)))
       case _ => Panic)
    case Connect(f, fa, t, ta, args) =>
      (match (HandlePtr(f), HandlePtr(t), CParamVec(args))
       case (Ok(fp), Ok(tp), Ok(ps)) => Ok(ApiConnect(ctx, fp, UstrPtr(fa.GetOr("")), tp, UstrPtr(ta), ps))
       case _ => Panic)
    case Disconnect(f, fa, t, ta) =>
      (match (HandlePtr(f), HandlePtr(t))
       case (Ok(fp), Ok(tp)) => Ok(ApiDisconnect(ctx, fp, UstrPtr(fa.GetOr("")), tp, UstrPtr(ta)))
       case _ => Panic)
    case Evaluate(args) =>
      (match CParamVec(Some(args))
       case Ok(ps) => Ok(ApiEvaluate(ctx, ps))
       case _ => Panic)
  }

  /** A successful call hands every handle to the C API intact. */
  lemma CallCarriesHandles(ctx: int, m: Method)
    requires Call(ctx, m).Ok?
    ensures var c := Call(ctx, m).value;
      && (!m.Evaluate? ==> CApi.HandleToStr(CallHandle(c)) == Some(Handles(m)[0]))
      && ((m.Connect? || m.Disconnect?) ==> CApi.HandleToStr(c.to) == Some(m.to))
  {
    var c := Call(ctx, m).value;
    match m
    case Create(h, _, _) => assert CallHandle(c) == HandlePtr(h).value;
    case Delete(h, _) => assert CallHandle(c) == HandlePtr(h).value;
    case SetAttribute(h, _) => assert CallHandle(c) == HandlePtr(h).value;
    case SetAttributeAtTime(h, _, _) => assert CallHandle(c) == HandlePtr(h).value;
    case DeleteAttribute(h, _) => assert CallHandle(c) == HandlePtr(h).value;
    case Connect(f, _, t, _, _) => assert CallHandle(c) == HandlePtr(f).value && c.to == HandlePtr(t).value;
    case Disconnect(f, _, t, _) => assert CallHandle(c) == HandlePtr(f).value && c.to == HandlePtr(t).value;
    case Evaluate(_) =>
  }

  /** What else a successful call carries: names go through `ustr`, a
      missing `from_attr` is sent as the empty string, and the time is kept. */
  lemma CallCarriesNames(ctx: int, m: Method)
    requires Call(ctx, m).Ok?
    ensures var c := Call(ctx, m).value;
      && ((m.Connect? || m.Disconnect?) ==>
            c.fromAttr == UstrPtr(m.fromAttr.GetOr("")) && c.toAttr == UstrPtr(m.toAttr))
      && (m.DeleteAttribute? ==> c.name == UstrPtr(m.name))
      && (m.Create? ==> c.nodeType == UstrPtr(m.nodeType))
      && (m.SetAttributeAtTime? ==> c.time == m.time)
  {
    match m
    case Create(h, _, _) => assert HandlePtr(h).Ok?;
    case Delete(h, _) => assert HandlePtr(h).Ok?;
    case SetAttribute(h, _) => assert HandlePtr(h).Ok?;
    case SetAttributeAtTime(h, _, _) => assert HandlePtr(h).Ok?;
    case DeleteAttribute(h, _) => assert HandlePtr(h).Ok?;
    case Connect(f, _, t, _, _) => assert HandlePtr(f).Ok? && HandlePtr(t).Ok?;
    case Disconnect(f, _, t, _) => assert HandlePtr(f).Ok? && HandlePtr(t).Ok?;
    case Evaluate(_) =>
  }

  /** Whether `c` is the C function that method `m` calls. */
  predicate CallOf(m: Method, c: ApiCall)
  {
    match m
    case Create(_, _, _) => c.ApiCreate?
    case Delete(_, _) => c.ApiDelete?
    case SetAttribute(_, _) => c.ApiSetAttribute?
    case SetAttributeAtTime(_, _, _) => c.ApiSetAttributeAtTime?
    case DeleteAttribute(_, _) => c.ApiDeleteAttribute?
    case Connect(_, _, _, _, _) => c.ApiConnect?
    case Disconnect(_, _, _, _) => c.ApiDisconnect?
    case Evaluate(_) => c.ApiEvaluate?
  }

  /** The first C string of a call that names a node. */
  function CallHandle(c: ApiCall): CStr
  {
    match c
    case ApiCreate(_, h, _, _) => h
    case ApiDelete(_, h, _) => h
    case ApiSetAttribute(_, h, _) => h
    case ApiSetAttributeAtTime(_, h, _, _) => h
    case ApiDeleteAttribute(_, h, _) => h
    case ApiConnect(_, f, _, _, _, _) => f
    case ApiDisconnect(_, f, _, _, _) => f
    case _ => NullStr
  }

  /** A missing `from_attr` is sent as the empty string, which the C API
      reads as the empty name and not as an absent one. */
  lemma MissingFromAttrIsEmpty(ctx: int, f: string, t: string, ta: string)
    requires Call(ctx, Disconnect(f, None, t, ta)).Ok?
    ensures CApi.HandleToStr(Call(ctx, Disconnect(f, None, t, ta)).value.fromAttr) == Some("")
  {
    UstrRoundTrip("");
  }

  /** The position of the first argument called `name`. */
  function FindNamed(args: seq<Arg>, name: string): (r: Option<nat>)
    ensures r.Some? ==> r.value < |args| && args[r.value].name == name
    ensures r.Some? ==> forall j :: 0 <= j < r.value ==> args[j].name != name
    ensures r.None? <==> forall j :: 0 <= j < |args| ==> args[j].name != name
  {
    if |args| == 0 then None
    else if args[0].name == name then Some(0)
    else
      match FindNamed(args[1..], name)
      case None =>
        assert forall j :: 1 <= j < |args| ==> args[j] == args[1..][j - 1];
        None
      case Some(k) =>
        assert forall j :: 1 <= j < k + 1 ==> args[j] == args[1..][j - 1];
        Some(k + 1)
  }

  const PointerCode: int := Argument.TypeCode(TypePointer)
  const StringCode: int := Argument.TypeCode(TypeString)

  /** The records `Context::new` appends when an "errorhandler" argument is
      given: the trampoline, and the argument's own pointer as its payload. */
  function ErrorHandlerRecords(args: Option<seq<Arg>>): (ps: seq<Param>)
    ensures args.None? ==> ps == []
    ensures args.Some? ==> (|ps| == 0 <==> FindNamed(args.value, "errorhandler").None?)
    ensures args.Some? && FindNamed(args.value, "errorhandler").Some? ==>
      var arg := args.value[FindNamed(args.value, "errorhandler").value];
      && |ps| == 2
      && ps[0] == Param("errorhandler", FnSlot(ErrorHandlerFn), PointerCode, 0, 1, 0)
      && ps[1] == Param("errorhandlerdata", PointerSlot(DataPointer(arg.data)), PointerCode, 1, 1, 0)
  {
    if args.None? then []
    else
      match FindNamed(args.value, "errorhandler")
      case None => []
      case Some(i) =>
        [Param("errorhandler", FnSlot(ErrorHandlerFn), PointerCode, 0, 1, 0),
         Param("errorhandlerdata", PointerSlot(DataPointer(args.value[i].data)), PointerCode, 1, 1, 0)]
  }

  /** `Context::new`: the `NSIBegin` call, and the context it yields given
      the renderer's answer `handle`: none when the answer is `NSI_BAD_CONTEXT`. */
  function ContextNew(args: Option<seq<Arg>>, handle: int): (r: Outcome<(ApiCall, Option<int>)>)
    ensures r.Panic? <==> ZeroArrayLength(args)
    ensures r.Ok? ==> r.value.0.ApiBegin?
    ensures r.Ok? ==> CParamVec(args).Ok?
    ensures r.Ok? ==> r.value.0.params == CParamVec(args).value + ErrorHandlerRecords(args)
    ensures r.Ok? ==> (r.value.1.None? <==> handle == NsiHeader.BadContext)
    ensures r.Ok? && r.value.1.Some? ==> r.value.1.value == handle
  {
    match CParamVec(args)
    case Panic => Panic
    case Ok(ps) =>
      Ok((ApiBegin(ps + ErrorHandlerRecords(args)), if handle == 0 then None else Some(handle)))
  }

  /** The record `render_control` always appends: the action's name as a C string. */
  function ActionRecord(action: Action): (p: Param)
    ensures p.name == "action" && p.typ == StringCode && p.data.StringSlot? && 0 !in p.data.text
    ensures CApi.HandleToStr(CText(p.data.text)) == Some(ActionName(action))
  {
    UstrRoundTrip(ActionName(action));
    Param("action", StringSlot(UstrPtr(ActionName(action)).bytes), StringCode, 0, 1, 0)
  }

  /** The records `render_control` appends for a "callback" argument. */
  function CallbackRecords(args: Option<seq<Arg>>): (ps: seq<Param>)
    ensures args.None? ==> ps == []
    ensures args.Some? ==> (|ps| == 0 <==> FindNamed(args.value, "callback").None?)
    ensures args.Some? && FindNamed(args.value, "callback").Some? ==>
      var arg := args.value[FindNamed(args.value, "callback").value];
      && |ps| == 2
      && ps[0] == Param("stoppedcallback", FnSlot(RenderStatusFn), PointerCode, 0, 1, 0)
      && ps[1] == Param("stoppedcallbackdata", PointerSlot(DataPointer(arg.data)), PointerCode, 1, 1, 0)
  {
    if args.None? then []
    else
      match FindNamed(args.value, "callback")
      case None => []
      case Some(i) =>
        [Param("stoppedcallback", FnSlot(RenderStatusFn), PointerCode, 0, 1, 0),
         Param("stoppedcallbackdata", PointerSlot(DataPointer(args.value[i].data)), PointerCode, 1, 1, 0)]
  }

  /** `Context::render_control`: the arguments' records, the action record,
      then the callback records. */
  function RenderControl(ctx: int, action: Action, args: Option<seq<Arg>>): (r: Outcome<ApiCall>)
    ensures r.Panic? <==> ZeroArrayLength(args)
    ensures r.Ok? ==> r.value.ApiRenderControl? && r.value.ctx == ctx
    ensures r.Ok? ==> CParamVec(args).Ok?
    ensures r.Ok? ==> r.value.params == CParamVec(args).value + [ActionRecord(action)] + CallbackRecords(args)
  {
    match CParamVec(args)
    case Panic => Panic
    case Ok(ps) => Ok(ApiRenderControl(ctx, ps + [ActionRecord(action)] + CallbackRecords(args)))
  }

  /** The action record is the first record named "action" unless one of
      the caller's own arguments already carries that name. */
  lemma ActionRecordFirstUnlessShadowed(ctx: int, action: Action, args: Option<seq<Arg>>)
    requires RenderControl(ctx, action, args).Ok?
    requires args.Some? ==> FindNamed(args.value, "action").None?
    ensures var ps := RenderControl(ctx, action, args).value.params;
      var k := |CParamVec(args).value|;
      k < |ps| && ps[k] == ActionRecord(action) && forall j :: 0 <= j < k ==> ps[j].name != "action"
  {
  }

  /** One control call through a `Context`: a single `NSIRenderControl` on
      the context whose record after the caller's arguments names the action. */
  lemma ControlCallNamesAction(ctx: int, action: Action, args: Option<seq<Arg>>)
    requires !ZeroArrayLength(args)
    ensures var call := RenderControl(ctx, action, args);
      && call.Ok? && call.value.ctx == ctx
      && call.value.params[|CParamVec(args).value|] == ActionRecord(action)
  {
  }

  /** `render` on a `Context`: each call it issues becomes one
      `NSIRenderControl` on the context whose record after the caller's
      arguments names the call's action. */
  lemma RenderThroughContext<E>(ctx: int, args: Option<seq<Arg>>,
                                control: FfiNsiTrait.ControlCall<seq<Arg>> -> Option<E>)
    requires !ZeroArrayLength(args)
    ensures var calls := FfiNsiTrait.Render(args, control).0;
      forall i :: 0 <= i < |calls| ==>
        var call := RenderControl(ctx, calls[i].action, calls[i].args);
        && call.Ok? && call.value.ctx == ctx
        && call.value.params[|CParamVec(calls[i].args).value|] == ActionRecord(calls[i].action)
  {
    var calls := FfiNsiTrait.Render(args, control).0;
    forall i | 0 <= i < |calls|
      ensures var call := RenderControl(ctx, calls[i].action, calls[i].args);
        && call.Ok? && call.value.ctx == ctx
        && call.value.params[|CParamVec(calls[i].args).value|] == ActionRecord(calls[i].action)
    {
      assert calls[i].args == args || calls[i].args.None?;
      ControlCallNamesAction(ctx, calls[i].action, calls[i].args);
    }
  }

  /** `RenderStatus`: unknown codes read as `Completed`. */
  datatype RenderStatus = Completed | Aborted | Synchronized | Restarted

  function StatusOf(s: NsiHeader.StoppingStatus): RenderStatus
  {
    match s
    case RenderCompleted => Completed
    case RenderAborted => Aborted
    case RenderSynchronized => Synchronized
    case RenderRestarted => Restarted
  }

  /** `RenderStatus::from` (`num_enum` with `Completed` as the default). */
  function RenderStatusFrom(code: int): (r: RenderStatus)
    ensures r == Completed <==> code !in {1, 2, 3}
  {
    match code
    case 1 => Aborted
    case 2 => Synchronized
    case 3 => Restarted
    case _ => Completed
  }

  /** Every stopping status of the header converts to its namesake. */
  lemma RenderStatusFromHeader(s: NsiHeader.StoppingStatus)
    ensures RenderStatusFrom(NsiHeader.StoppingCode(s)) == StatusOf(s)
  {
  }

  /** `log::Level`. */
  datatype LogLevel = LogError | LogWarn | LogInfo | LogDebug | LogTrace

  /** The level `error_handler` logs an `NSIErrorLevel` at. */
  function LogLevelOf(l: NsiHeader.ErrorLevel): (r: LogLevel)
    ensures r != LogDebug
  {
    match l
    case ErrMessage => LogTrace
    case ErrInfo => LogInfo
    case ErrWarning => LogWarn
    case ErrError => LogError
  }

  /** Severity rank: 0 is the most severe. */
  function Rank(l: LogLevel): nat
  {
    match l
    case LogError => 0
    case LogWarn => 1
    case LogInfo => 2
    case LogDebug => 3
    case LogTrace => 4
  }

  /** The translation keeps levels apart and keeps their order. */
  lemma LogLevelOfMonotone(a: NsiHeader.ErrorLevel, b: NsiHeader.ErrorLevel)
    ensures LogLevelOf(a) == LogLevelOf(b) <==> a == b
    ensures NsiHeader.ErrorLevelCode(a) < NsiHeader.ErrorLevelCode(b) <==> Rank(LogLevelOf(b)) < Rank(LogLevelOf(a))
  {
  }

  /** A user closure, known only by identity. */
  datatype Closure = Closure(id: nat)

  /** What a trampoline does that can be seen: calling the user's closure,
      or ending a renderer context by dropping a `Context` that wraps it. */
  datatype Event =
    | StatusCalled(f: Closure, ctx: int, status: RenderStatus)
    | ErrorCalled(f: Closure, level: LogLevel, code: int, message: string)
    | ContextEnded(ctx: int)

  const NullMessage: string := "<null message>"

  /** The message text `error_handler` passes on: a placeholder for null,
      the text itself when well-formed, the lossy conversion otherwise. */
  function MessageText(message: CStr): (text: string)
    ensures message.NullStr? ==> text == NullMessage
    ensures message.CText? ==> text == Lossy(message.bytes)
    ensures message.CText? && Valid(message.bytes) ==> Encode(text) == message.bytes
  {
    match message
    case NullStr => NullMessage
    case CText(b) =>
      LossyAgreesWithDecode(b);
      DecodeSomeIffValid(b);
      match Decode(b)
      case Some(s) => EncodeDecode(b); s
      case None => Lossy(b)
  }

  /** The `error_handler` trampoline: nothing without a payload; otherwise
      the closure is called once, with the level translated and the message
      converted. */
  function ErrorTrampoline(payload: Option<Closure>, level: int, code: int, message: CStr)
    : (events: seq<Event>)
    ensures payload.None? <==> events == []
    ensures payload.Some? ==> |events| == 1 && events[0].ErrorCalled? && events[0].f == payload.value
    ensures payload.Some? ==> events[0].level == LogLevelOf(NsiHeader.ErrorLevelFrom(level)) && events[0].code == code
    ensures payload.Some? ==> events[0].message == MessageText(message)
  {
    match payload
    case None => []
    case Some(f) => [ErrorCalled(f, LogLevelOf(NsiHeader.ErrorLevelFrom(level)), code, MessageText(message))]
  }

  /** The `render_status` trampoline as written: nothing without a payload;
      otherwise the closure is called once on a temporary `Context` wrapping
      the renderer's handle. When the closure returns, that `Context` is
      forgotten. When it panics, unwinding drops it before `catch_unwind`
      stops the panic, and dropping the last reference to an `InnerContext`
      calls `NSIEnd` on the renderer's live context. `closure` is how the
      closure call ends. */
  function StatusTrampoline(payload: Option<Closure>, ctx: int, status: int, closure: Outcome<()>)
    : (events: seq<Event>)
    ensures payload.None? <==> events == []
    ensures payload.Some? ==> events[0] == StatusCalled(payload.value, ctx, RenderStatusFrom(status))
    ensures ContextEnded(ctx) in events <==> payload.Some? && closure.Panic?
    ensures forall i :: 0 <= i < |events| && events[i].ContextEnded? ==> events[i].ctx == ctx
  {
    match payload
    case None => []
    case Some(f) =>
      var called := StatusCalled(f, ctx, RenderStatusFrom(status));
      if closure.Panic? then [called, ContextEnded(ctx)] else [called]
  }

  /** `render_status` corrected: the temporary `Context` is forgotten on
      every path (for instance by wrapping it in `ManuallyDrop` before the
      call), so the callback never ends the context. */
  function StatusTrampolineFixed(payload: Option<Closure>, ctx: int, status: int, closure: Outcome<()>)
    : (events: seq<Event>)
    ensures closure.Ok? ==> events == StatusTrampoline(payload, ctx, status, closure)
    ensures forall i :: 0 <= i < |events| ==> !events[i].ContextEnded?
  {
    match payload
    case None => []
    case Some(f) => [StatusCalled(f, ctx, RenderStatusFrom(status))]
  }

  /** The renderer's error report reaches the user's closure intact: a
      level the header defines arrives as its `log` level, and a message
      sent as a C string arrives as the text it encodes. */
  lemma ErrorReportDelivered(f: Closure, l: NsiHeader.ErrorLevel, code: int, text: string)
    requires 0 as char !in text
    ensures ErrorTrampoline(Some(f), NsiHeader.ErrorLevelCode(l), code, UstrPtr(text))
      == [ErrorCalled(f, LogLevelOf(l), code, text)]
  {
    NsiHeader.ErrorLevelRoundTrip(l);
    EncodeHasNulIff(text);
    DecodeEncode(text);
  }

  /** The renderer's stopping status reaches the `render_control`
      callback as its namesake, on the context it concerns, however the
      callback ends; a callback that returns causes nothing else, and with
      the correction neither does one that panics. */
  lemma StatusReportDelivered(f: Closure, ctx: int, st: NsiHeader.StoppingStatus, closure: Outcome<()>)
    ensures StatusTrampoline(Some(f), ctx, NsiHeader.StoppingCode(st), closure)[0] == StatusCalled(f, ctx, StatusOf(st))
    ensures closure.Ok? ==> StatusTrampoline(Some(f), ctx, NsiHeader.StoppingCode(st), closure) == [StatusCalled(f, ctx, StatusOf(st))]
    ensures StatusTrampolineFixed(Some(f), ctx, NsiHeader.StoppingCode(st), closure) == [StatusCalled(f, ctx, StatusOf(st))]
  {
    RenderStatusFromHeader(st);
  }

  /** What the owners of a `Context` do with it: clone or drop a reference. */
  datatype RefOp = CloneRef | DropRef

  /** The shared `InnerContext` behind an `Arc`: its handle and reference count. */
  datatype Shared = Shared(ctx: int, refs: nat)

  /** One reference operation; the last drop ends the context. */
  function RefStep(s: Shared, op: RefOp): (r: (Shared, seq<ApiCall>))
    requires 0 < s.refs
    ensures r.0.ctx == s.ctx
    ensures op.CloneRef? ==> r.0.refs == s.refs + 1 && r.1 == []
    ensures op.DropRef? ==> r.0.refs == s.refs - 1
    ensures op.DropRef? && s.refs == 1 ==> r.1 == [ApiEnd(s.ctx)]
    ensures s.refs > 1 || op.CloneRef? ==> r.1 == []
    ensures r.1 != [] <==> r.0.refs == 0
  {
    match op
    case CloneRef => (s.(refs := s.refs + 1), [])
    case DropRef => (s.(refs := s.refs - 1), if s.refs == 1 then [ApiEnd(s.ctx)] else [])
  }

  /** Whether owners can perform the operations in turn: each one needs a
      live reference. */
  predicate Owned(refs: nat, ops: seq<RefOp>)
    decreases |ops|
  {
    |ops| == 0 || (0 < refs && Owned(if ops[0].CloneRef? then refs + 1 else refs - 1, ops[1..]))
  }

  function RunRefs(s: Shared, ops: seq<RefOp>): (r: (Shared, seq<ApiCall>))
    requires Owned(s.refs, ops)
    decreases |ops|
  {
    if |ops| == 0 then (s, [])
    else
      var (t, calls) := RefStep(s, ops[0]);
      var (z, more) := RunRefs(t, ops[1..]);
      (z, calls + more)
  }

  /** The context is ended exactly once, when the last reference is
      dropped, and never while a reference lives. */
  lemma {:induction false} EndedOnceAtLastDrop(s: Shared, ops: seq<RefOp>)
    requires Owned(s.refs, ops) && 0 < s.refs
    ensures var (z, calls) := RunRefs(s, ops);
      && (z.refs == 0 ==> calls == [ApiEnd(s.ctx)])
      && (z.refs > 0 ==> calls == [])
    decreases |ops|
  {
    if |ops| > 0 {
      var t := RefStep(s, ops[0]).0;
      if t.refs > 0 {
        EndedOnceAtLastDrop(t, ops[1..]);
      } else {
        assert Owned(t.refs, ops[1..]);
      }
    }
  }

  /** How many times the events end context `ctx`. */
  function Ends(events: seq<Event>, ctx: int): nat
    decreases |events|
  {
    if |events| == 0 then 0
    else (if events[0] == ContextEnded(ctx) then 1 else 0) + Ends(events[1..], ctx)
  }

  /** As written, a status callback that panics ends its context while the
      owners still hold it, and when they release their last reference the
      renderer is asked to end the same context again: `NSIEnd` reaches it
      twice. */
  lemma PanickingStatusEndsContextTwice(f: Closure, s: Shared, status: int, ops: seq<RefOp>)
    requires Owned(s.refs, ops) && 0 < s.refs && RunRefs(s, ops).0.refs == 0
    ensures Ends(StatusTrampoline(Some(f), s.ctx, status, Panic), s.ctx) + |RunRefs(s, ops).1| == 2
  {
    EndedOnceAtLastDrop(s, ops);
    var events := StatusTrampoline(Some(f), s.ctx, status, Panic);
    assert events == [StatusCalled(f, s.ctx, RenderStatusFrom(status)), ContextEnded(s.ctx)];
    assert events[1..][1..] == [];
    assert Ends(events[1..], s.ctx) == 1;
  }

  /** With the corrected trampoline, however the callback ends, the context
      is ended once in all: by its owners' last drop. */
  lemma FixedStatusEndsContextOnce(f: Closure, s: Shared, status: int, closure: Outcome<()>, ops: seq<RefOp>)
    requires Owned(s.refs, ops) && 0 < s.refs && RunRefs(s, ops).0.refs == 0
    ensures Ends(StatusTrampolineFixed(Some(f), s.ctx, status, closure), s.ctx) + |RunRefs(s, ops).1| == 1
  {
    EndedOnceAtLastDrop(s, ops);
  }
}
