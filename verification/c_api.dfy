/** The C entry points `define_nsi_c_api!` generates, and the helpers in
    `c_api.rs` that turn C parameter lists and C strings into Rust values
    before the adapter sees them.

    Memory is modelled by value: a `const char*` is a `CStr`, a parameter's
    `data` pointer is `None` when null and otherwise the cell it points at,
    read as whichever type the record claims. */
module CApi {
  import opened Wrappers
  import opened Utf8
  import NsiHeader
  import Node
  import opened NsiTrait
  import opened Argument
  import CAdapter

  /** The memory behind a non-null `data` pointer, as each type reads it. */
  datatype Cell = Cell(asFloat: bv32, asDouble: bv64, asInt: int, asString: CStr)

  /** `NSIParam_t` as a C caller passes it. */
  datatype RawParam = RawParam(name: CStr, data: Option<Cell>, typ: int,
                               arrayLength: int, count: int, flags: int)

  /** A `(nparams, params)` pair: the pointer is `None` when null. */
  datatype RawParams = RawParams(n: int, ptr: Option<seq<RawParam>>)

  /** The caller's side of the contract: a non-null `params` is valid for
      `nparams` elements, and an integer cell holds a C `int`. */
  predicate ValidParams(p: RawParams)
  {
    p.ptr.Some? && 0 < p.n ==>
      && p.n <= |p.ptr.value|
      && forall i :: 0 <= i < p.n && p.ptr.value[i].data.Some? ==>
           NsiHeader.IntMin <= p.ptr.value[i].data.value.asInt <= NsiHeader.IntMax
  }

  /** The records the helpers walk: none unless `nparams > 0` and the pointer is set. */
  function Records(p: RawParams): (rs: seq<RawParam>)
    requires ValidParams(p)
    ensures p.n <= 0 || p.ptr.None? ==> rs == []
    ensures 0 < p.n && p.ptr.Some? ==> |rs| == p.n && forall i :: 0 <= i < p.n ==> rs[i] == p.ptr.value[i]
  {
    if p.n <= 0 || p.ptr.None? then [] else p.ptr.value[..p.n]
  }

  /** `handle_to_str`: the text of a non-null, well-formed C string. */
  function HandleToStr(c: CStr): (r: Option<string>)
    ensures r.Some? <==> c.CText? && Valid(c.bytes)
    ensures r.Some? ==> Encode(r.value) == c.bytes
  {
    match c
    case NullStr => None
    case CText(b) =>
      DecodeSomeIffValid(b);
      if Decode(b).Some? then EncodeDecode(b); Decode(b) else None
  }

  /** `handle_to_str` accepts the C form of every text, and gives it back. */
  lemma HandleToStrRoundTrip(s: string)
    requires 0 !in Encode(s)
    ensures HandleToStr(CText(Encode(s))) == Some(s)
  {
    DecodeEncode(s);
  }

  /** `parse_node_type`. */
  function ParseNodeType(c: CStr): (r: Option<Node.NodeType>)
    ensures r.Some? ==> c.CText? && c.bytes == Encode(Node.NodeName(r.value))
  {
    match HandleToStr(c)
    case None => None
    case Some(s) => Node.NodeFromName(s)
  }

  /** Every node type is recognised from the C form of its name. */
  lemma ParseNodeTypeRoundTrip(t: Node.NodeType)
    requires 0 !in Encode(Node.NodeName(t))
    ensures ParseNodeType(CText(Encode(Node.NodeName(t)))) == Some(t)
  {
    HandleToStrRoundTrip(Node.NodeName(t));
    Node.NodeRoundTrip(t);
  }

  /** `parse_action`. */
  function ParseAction(c: CStr): (r: Option<Action>)
    ensures r.Some? ==> c.CText? && c.bytes == Encode(ActionName(r.value))
  {
    match HandleToStr(c)
    case None => None
    case Some(s) => ActionFromName(s)
  }

  /** Every action is recognised from the C form of its name. */
  lemma ParseActionRoundTrip(a: Action)
    requires 0 !in Encode(ActionName(a))
    ensures ParseAction(CText(Encode(ActionName(a)))) == Some(a)
  {
    HandleToStrRoundTrip(ActionName(a));
    ActionRoundTrip(a, ActionName(a));
  }

  /** The type codes `marshal_single_param` converts. */
  const FloatCode: int := NsiHeader.TypeCode(NsiHeader.TypeFloat)
  const DoubleCode: int := NsiHeader.TypeCode(NsiHeader.TypeDouble)
  const IntegerCode: int := NsiHeader.TypeCode(NsiHeader.TypeInteger)
  const StringCode: int := NsiHeader.TypeCode(NsiHeader.TypeString)

  /** Whether `marshal_single_param` keeps a record: both pointers set, a
      well-formed name, and a float, double, integer or well-formed string. */
  predicate Convertible(p: RawParam)
  {
    && p.name.CText? && Valid(p.name.bytes) && p.data.Some?
    && (|| p.typ in {FloatCode, DoubleCode, IntegerCode}
        || (p.typ == StringCode && p.data.value.asString.CText? && Valid(p.data.value.asString.bytes)))
  }

  /** The value `marshal_single_param` reads from a record's cell: one
      float, double, integer or well-formed string, as the type code says. */
  function CellData(typ: int, cell: Cell): (r: Option<ArgData>)
    ensures r.Some? <==> (|| typ in {FloatCode, DoubleCode, IntegerCode}
                          || (typ == StringCode && cell.asString.CText? && Valid(cell.asString.bytes)))
    ensures r.Some? ==> TypeCode(TypeOf(r.value)) == typ && Len(r.value) == 1
    ensures r.Some? && typ == FloatCode ==> r.value == ArgData.Float(cell.asFloat)
    ensures r.Some? && typ == DoubleCode ==> r.value == ArgData.Double(cell.asDouble)
    ensures r.Some? && typ == IntegerCode ==> r.value == ArgData.Integer(cell.asInt)
    ensures r.Some? && typ == StringCode ==> r.value == ArgData.String(cell.asString.bytes)
  {
    if typ == FloatCode then Some(ArgData.Float(cell.asFloat))
    else if typ == DoubleCode then Some(ArgData.Double(cell.asDouble))
    else if typ == IntegerCode then Some(ArgData.Integer(cell.asInt))
    else if typ == StringCode then
      match HandleToStr(cell.asString)
      case None => None
      case Some(_) =>
        match StringNew(cell.asString.bytes)
        case Panic => None
        case Ok(d) => Some(d)
    else None
  }

  /** `marshal_single_param`: one value of the record's type, read from its
      cell, under its name, with `Arg::new`'s defaults; the record's own
      array length, count and flags are not read. */
  function MarshalSingle(p: RawParam): (r: Option<Arg>)
    ensures r.Some? <==> Convertible(p)
    ensures r.Some? ==> Encode(r.value.name) == p.name.bytes
    ensures r.Some? ==> r.value.arrayLength == 1 && r.value.flags == 0
    ensures r.Some? ==> Some(r.value.data) == CellData(p.typ, p.data.value)
  {
    if p.name.NullStr? || p.data.None? then None
    else
      match HandleToStr(p.name)
      case None => None
      case Some(name) =>
        match CellData(p.typ, p.data.value)
        case None => None
        case Some(d) => Some(ArgNew(name, d))
  }

  /** The record's array length, count and flags never change the result. */
  lemma MarshalSingleIgnoresShape(p: RawParam, al: int, count: int, flags: int)
    ensures MarshalSingle(p.(arrayLength := al, count := count, flags := flags)) == MarshalSingle(p)
  {
  }

  /** The arguments of the convertible records, in order (the loop of
      `marshal_params_to_args`). */
  function Kept(rs: seq<RawParam>): (args: seq<Arg>)
    ensures |args| <= |rs|
  {
    if |rs| == 0 then []
    else
      var init := Kept(rs[..|rs| - 1]);
      match MarshalSingle(rs[|rs| - 1])
      case None => init
      case Some(a) => init + [a]
  }

  /** The positions of the convertible records, in order. */
  function KeptIndices(rs: seq<RawParam>): (ix: seq<nat>)
  {
    if |rs| == 0 then []
    else
      var init := KeptIndices(rs[..|rs| - 1]);
      if Convertible(rs[|rs| - 1]) then init + [|rs| - 1] else init
  }

  /** `KeptIndices` lists, in increasing order, exactly the positions of
      the convertible records. */
  lemma {:induction false} KeptIndicesExact(rs: seq<RawParam>)
    ensures forall k :: 0 <= k < |KeptIndices(rs)| ==> KeptIndices(rs)[k] < |rs|
    ensures forall k, l :: 0 <= k < l < |KeptIndices(rs)| ==> KeptIndices(rs)[k] < KeptIndices(rs)[l]
    ensures forall i :: 0 <= i < |rs| ==> (Convertible(rs[i]) <==> i in KeptIndices(rs))
  {
    if |rs| > 0 {
      var init := rs[..|rs| - 1];
      KeptIndicesExact(init);
      assert forall i :: 0 <= i < |init| ==> init[i] == rs[i];
    }
  }

  /** `Kept` is a filter-map: it holds exactly the arguments of the
      convertible records, each once, in the records' order. */
  lemma {:induction false} KeptIsFilterMap(rs: seq<RawParam>)
    ensures |Kept(rs)| == |KeptIndices(rs)|
    ensures forall k :: 0 <= k < |KeptIndices(rs)| ==> KeptIndices(rs)[k] < |rs|
    ensures forall k, l :: 0 <= k < l < |KeptIndices(rs)| ==> KeptIndices(rs)[k] < KeptIndices(rs)[l]
    ensures forall i :: 0 <= i < |rs| ==> (Convertible(rs[i]) <==> i in KeptIndices(rs))
    ensures forall k :: 0 <= k < |KeptIndices(rs)| ==>
      MarshalSingle(rs[KeptIndices(rs)[k]]) == Some(Kept(rs)[k])
  {
    KeptIndicesExact(rs);
    if |rs| > 0 {
      var init := rs[..|rs| - 1];
      KeptIsFilterMap(init);
      forall k | 0 <= k < |KeptIndices(init)|
        ensures rs[KeptIndices(init)[k]] == init[KeptIndices(init)[k]]
      {
      }
    }
  }

  /** `marshal_params_to_args`: `None` for an absent or empty list and when
      no record converts, otherwise the converted arguments. */
  function MarshalParams(p: RawParams): (r: Option<seq<Arg>>)
    requires ValidParams(p)
    ensures r.Some? ==> |r.value| > 0
    ensures r.None? <==> forall i :: 0 <= i < |Records(p)| ==> !Convertible(Records(p)[i])
    ensures r.Some? ==> r.value == Kept(Records(p))
  {
    var args := Kept(Records(p));
    KeptIsFilterMap(Records(p));
    if |args| == 0 then None
    else
      assert KeptIndices(Records(p))[0] in KeptIndices(Records(p));
      Some(args)
  }

  /** The record that decides `extract_action_from_params`: a well-formed
      name "action", the string type, and a non-null, well-formed text. */
  predicate Decisive(p: RawParam)
  {
    && HandleToStr(p.name) == Some("action") && p.typ == StringCode
    && p.data.Some? && HandleToStr(p.data.value.asString).Some?
  }

  /** The caller's side of `extract_action_from_params`: the `data` of a
      string record named "action" can be read. */
  predicate ActionDataReadable(p: RawParams)
    requires ValidParams(p)
  {
    forall i :: 0 <= i < |Records(p)| ==>
      (HandleToStr(Records(p)[i].name) == Some("action") && Records(p)[i].typ == StringCode ==>
         Records(p)[i].data.Some?)
  }

  /** `extract_action_from_params`: the first decisive record decides, even
      when its text names no action; without one the result is `None`. */
  function ExtractAction(p: RawParams): (r: Option<Action>)
    requires ValidParams(p) && ActionDataReadable(p)
    ensures r.Some? ==> exists i :: 0 <= i < |Records(p)| && Decisive(Records(p)[i])
    ensures forall i :: 0 <= i < |Records(p)| ==>
      (Decisive(Records(p)[i]) && (forall j :: 0 <= j < i ==> !Decisive(Records(p)[j])) ==>
         r == ActionFromName(HandleToStr(Records(p)[i].data.value.asString).value))
  {
    FirstAction(Records(p))
  }

  function FirstAction(rs: seq<RawParam>): (r: Option<Action>)
    ensures r.Some? ==> exists i :: 0 <= i < |rs| && Decisive(rs[i])
    ensures forall i :: 0 <= i < |rs| && Decisive(rs[i]) && (forall j :: 0 <= j < i ==> !Decisive(rs[j])) ==>
      r == ActionFromName(HandleToStr(rs[i].data.value.asString).value)
  {
    if |rs| == 0 then None
    else if Decisive(rs[0]) then ActionFromName(HandleToStr(rs[0].data.value.asString).value)
    else
      var r := FirstAction(rs[1..]);
      assert forall i :: 1 <= i < |rs| ==> rs[i] == rs[1..][i - 1];
      r
  }

  /** A call into one of the generated `extern "C"` functions. */
  datatype CCall =
    | CBegin(params: RawParams)
    | CEnd(ctx: int)
    | CCreate(ctx: int, handle: CStr, nodeType: CStr, params: RawParams)
    | CDelete(ctx: int, handle: CStr, params: RawParams)
    | CSetAttribute(ctx: int, node: CStr, params: RawParams)
    | CSetAttributeAtTime(ctx: int, node: CStr, time: bv64, params: RawParams)
    | CDeleteAttribute(ctx: int, node: CStr, name: CStr)
    | CConnect(ctx: int, from: CStr, fromAttr: CStr, to: CStr, toAttr: CStr, params: RawParams)
    | CDisconnect(ctx: int, from: CStr, fromAttr: CStr, to: CStr, toAttr: CStr)
    | CEvaluate(ctx: int, params: RawParams)
    | CRenderControl(ctx: int, params: RawParams)

  /** What the C caller guarantees about the call's parameter list. */
  predicate Callable(c: CCall)
  {
    match c
    case CEnd(_) | CDeleteAttribute(_, _, _) | CDisconnect(_, _, _, _, _) => true
    case CRenderControl(_, p) => ValidParams(p) && ActionDataReadable(p)
    case _ => ValidParams(c.params)
  }

  /** Whether a call edits nodes or attributes. */
  predicate EditsNodes(c: CCall)
  {
    c.CCreate? || c.CDelete? || c.CSetAttribute? || c.CSetAttributeAtTime? || c.CDeleteAttribute?
  }

  /** The operation of `NSICreate`, `NSIDelete`, `NSISetAttribute`,
      `NSISetAttributeAtTime` or `NSIDeleteAttribute`, if its guard lets
      it through: every handle and name must be readable, the node type
      must be known, and an attribute call needs an argument that
      converts. */
  function NodeOp(c: CCall): (r: Option<CAdapter.Op>)
    requires EditsNodes(c) && Callable(c)
    ensures c.CCreate? ==> (r.Some? <==> HandleToStr(c.handle).Some? && ParseNodeType(c.nodeType).Some?)
    ensures c.CDelete? ==> (r.Some? <==> HandleToStr(c.handle).Some?)
    ensures c.CSetAttribute? || c.CSetAttributeAtTime? ==>
      (r.Some? <==> HandleToStr(c.node).Some? && exists i :: 0 <= i < |Records(c.params)| && Convertible(Records(c.params)[i]))
    ensures c.CDeleteAttribute? ==> (r.Some? <==> HandleToStr(c.node).Some? && HandleToStr(c.name).Some?)
  {
    match c
    case CCreate(_, handle, nodeType, p) =>
      var args := MarshalParams(p);
      (match (HandleToStr(handle), ParseNodeType(nodeType))
       case (Some(h), Some(t)) => Some(CAdapter.Create(h, t, args))
       case _ => None)
    case CDelete(_, handle, p) =>
      var args := MarshalParams(p);
      (match HandleToStr(handle)
       case Some(h) => Some(CAdapter.Delete(h, args))
       case None => None)
    case CSetAttribute(_, node, p) =>
      (match (HandleToStr(node), MarshalParams(p))
       case (Some(h), Some(a)) => Some(CAdapter.SetAttribute(h, a))
       case _ => None)
    case CSetAttributeAtTime(_, node, time, p) =>
      (match (HandleToStr(node), MarshalParams(p))
       case (Some(h), Some(a)) => Some(CAdapter.SetAttributeAtTime(h, time, a))
       case _ => None)
    case CDeleteAttribute(_, node, name) =>
      (match (HandleToStr(node), HandleToStr(name))
       case (Some(h), Some(n)) => Some(CAdapter.DeleteAttribute(h, n))
       case _ => None)
  }

  /** The operation of `NSIConnect`, `NSIDisconnect`, `NSIEvaluate` or
      `NSIRenderControl`, if its guard lets it through: the two handles and
      the target attribute must be readable (the source attribute may be
      missing), and a render control needs an action. */
  function LinkOp(c: CCall): (r: Option<CAdapter.Op>)
    requires (c.CConnect? || c.CDisconnect? || c.CEvaluate? || c.CRenderControl?) && Callable(c)
    ensures c.CConnect? || c.CDisconnect? ==>
      (r.Some? <==> HandleToStr(c.from).Some? && HandleToStr(c.to).Some? && HandleToStr(c.toAttr).Some?)
    ensures c.CEvaluate? ==> r == Some(CAdapter.Evaluate(MarshalParams(c.params)))
    ensures c.CRenderControl? ==> (r.Some? <==> ExtractAction(c.params).Some?)
    ensures c.CRenderControl? && r.Some? ==>
      r.value == CAdapter.RenderControl(ExtractAction(c.params).value, MarshalParams(c.params))
  {
    match c
    case CConnect(_, from, fromAttr, to, toAttr, p) =>
      var args := MarshalParams(p);
      (match (HandleToStr(from), HandleToStr(to), HandleToStr(toAttr))
       case (Some(f), Some(t), Some(ta)) => Some(CAdapter.Connect(f, HandleToStr(fromAttr), t, ta, args))
       case _ => None)
    case CDisconnect(_, from, fromAttr, to, toAttr) =>
      (match (HandleToStr(from), HandleToStr(to), HandleToStr(toAttr))
       case (Some(f), Some(t), Some(ta)) => Some(CAdapter.Disconnect(f, HandleToStr(fromAttr), t, ta))
       case _ => None)
    case CEvaluate(_, p) => Some(CAdapter.Evaluate(MarshalParams(p)))
    case CRenderControl(_, p) =>
      (match ExtractAction(p)
       case Some(a) => Some(CAdapter.RenderControl(a, MarshalParams(p)))
       case None => None)
  }

  /** The adapter request a C call becomes, if it gets past its guard.
      `began` is what the renderer's `begin` answers. */
  function Translate<H>(c: CCall, began: Option<H>): (r: Option<CAdapter.Request<H>>)
    requires Callable(c)
    ensures c.CBegin? ==> r == Some(CAdapter.BeginReq(MarshalParams(c.params), began))
    ensures c.CEnd? ==> r == Some(CAdapter.EndReq(c.ctx))
    ensures EditsNodes(c) ==> (r.Some? <==> NodeOp(c).Some?)
    ensures EditsNodes(c) && r.Some? ==> r.value == CAdapter.OpReq(c.ctx, NodeOp(c).value)
    ensures !c.CBegin? && !c.CEnd? && !EditsNodes(c) ==> (r.Some? <==> LinkOp(c).Some?)
    ensures !c.CBegin? && !c.CEnd? && !EditsNodes(c) && r.Some? ==> r.value == CAdapter.OpReq(c.ctx, LinkOp(c).value)
  {
    if c.CBegin? then Some(CAdapter.BeginReq(MarshalParams(c.params), began))
    else if c.CEnd? then Some(CAdapter.EndReq(c.ctx))
    else
      var op := if EditsNodes(c) then NodeOp(c) else LinkOp(c);
      if op.Some? then Some(CAdapter.OpReq(c.ctx, op.value)) else None
  }

  /** A whole C call: the guard, then the adapter. The value is what the C
      function returns (only `NSIBegin` returns one; the others give 0).
      `NSIBegin` always asks the renderer and returns the id the counter
      held, or `NSI_BAD_CONTEXT` when the renderer failed. */
  function Invoke<H>(a: CAdapter.Adapter<H>, c: CCall, began: Option<H>)
    : (r: (CAdapter.Adapter<H>, int, seq<CAdapter.RendererCall<H>>))
    requires Callable(c) && NsiHeader.IntMin <= a.nextId <= NsiHeader.IntMax
    ensures Translate(c, began).None? ==> r == (a, 0, [])
    ensures !c.CBegin? && !c.CEnd? ==> r.0 == a
    ensures !c.CBegin? ==> r.1 == 0
    ensures c.CBegin? ==> r.2 == [CAdapter.RBegin(MarshalParams(c.params))]
    ensures c.CBegin? && began.None? ==> r.0 == a && r.1 == NsiHeader.BadContext
    ensures c.CBegin? && began.Some? ==>
      r.1 == a.nextId && r.0.contexts == a.contexts[a.nextId := began.value]
      && r.0.nextId == NsiHeader.AsCInt(a.nextId + 1)
  {
    match Translate(c, began)
    case None => (a, 0, [])
    case Some(q) =>
      if q.BeginReq? then CAdapter.Begin(a, q.args, began)
      else var (b, calls) := CAdapter.Step(a, q); (b, 0, calls)
  }

  /** A whole C call with the corrected `begin`: it differs from `Invoke`
      only on an `NSIBegin` once the counter is exhausted, which it refuses
      without asking the renderer. */
  function InvokeChecked<H>(a: CAdapter.Adapter<H>, c: CCall, began: Option<H>)
    : (r: (CAdapter.Adapter<H>, int, seq<CAdapter.RendererCall<H>>))
    requires Callable(c) && NsiHeader.IntMin <= a.nextId <= NsiHeader.IntMax
    ensures !(c.CBegin? && a.nextId == NsiHeader.IntMax) ==> r == Invoke(a, c, began)
    ensures c.CBegin? && a.nextId == NsiHeader.IntMax ==> r == (a, NsiHeader.BadContext, [])
  {
    match Translate(c, began)
    case None => (a, 0, [])
    case Some(q) =>
      if q.BeginReq? then CAdapter.BeginChecked(a, q.args, began)
      else var (b, calls) := CAdapter.StepChecked(a, q); (b, 0, calls)
  }

  /** A name or type that is null or not UTF-8 stops `NSICreate` before the
      adapter: nothing reaches the renderer and the table is unchanged. */
  lemma CreateWithBadHandleDoesNothing<H>(a: CAdapter.Adapter<H>, ctx: int, handle: CStr,
                                          nodeType: CStr, p: RawParams, began: Option<H>)
    requires ValidParams(p) && NsiHeader.IntMin <= a.nextId <= NsiHeader.IntMax
    requires handle.NullStr? || !Valid(handle.bytes)
    ensures Invoke(a, CCreate(ctx, handle, nodeType, p), began) == (a, 0, [])
  {
  }

  /** A render-control call whose parameters name an action becomes a
      request for that action, with the call's parameters, on its context. */
  lemma TranslateRenderControl<H>(ctx: int, p: RawParams, action: Action, began: Option<H>)
    requires ValidParams(p) && ActionDataReadable(p) && ExtractAction(p) == Some(action)
    ensures Translate(CRenderControl(ctx, p), began)
      == Some(CAdapter.OpReq(ctx, CAdapter.RenderControl(action, MarshalParams(p))))
  {
    var c := CRenderControl(ctx, p);
    assert !EditsNodes(c) && LinkOp(c) == Some(CAdapter.RenderControl(action, MarshalParams(p)));
  }

  /** A call that becomes a request on a context reaches the renderer as
      that one request, if the context is live, and changes nothing. */
  lemma InvokeForwardsOp<H>(a: CAdapter.Adapter<H>, c: CCall, ctx: int, op: CAdapter.Op, began: Option<H>)
    requires Callable(c) && NsiHeader.IntMin <= a.nextId <= NsiHeader.IntMax
    requires Translate(c, began) == Some(CAdapter.OpReq(ctx, op))
    ensures Invoke(a, c, began) == (a, 0, CAdapter.Forward(a, ctx, op))
  {
  }

  /** `NSIRenderControl` forwards exactly the action the first decisive
      record names, to the context the id maps to. */
  lemma RenderControlForwardsAction<H>(a: CAdapter.Adapter<H>, ctx: int, p: RawParams,
                                       i: nat, action: Action, began: Option<H>)
    requires ValidParams(p) && ActionDataReadable(p) && NsiHeader.IntMin <= a.nextId <= NsiHeader.IntMax
    requires i < |Records(p)| && Decisive(Records(p)[i])
    requires forall j :: 0 <= j < i ==> !Decisive(Records(p)[j])
    requires HandleToStr(Records(p)[i].data.value.asString) == Some(ActionName(action))
    requires ctx in a.contexts
    ensures Invoke(a, CRenderControl(ctx, p), began).2
      == [CAdapter.ROp(a.contexts[ctx], CAdapter.RenderControl(action, MarshalParams(p)))]
  {
    ActionRoundTrip(action, ActionName(action));
    assert ExtractAction(p) == Some(action);
    var op := CAdapter.RenderControl(action, MarshalParams(p));
    TranslateRenderControl(ctx, p, action, began);
    InvokeForwardsOp(a, CRenderControl(ctx, p), ctx, op, began);
  }
}
