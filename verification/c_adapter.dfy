/** `FfiApiAdapter` of `nsi-ffi-wrap`: the table that maps the C API's
    integer context ids to a renderer's own context handles.

    The mutex and the atomic counter are modelled sequentially: every
    operation takes the adapter's state and returns the new state, the value
    it returns to C, and the calls it makes into the renderer. The renderer
    is a parameter: its `begin` outcome is an input (`None`: it failed), and
    every other renderer result is discarded by the adapter, so it is not
    modelled. */
module CAdapter {
  import opened Wrappers
  import NsiHeader
  import Node
  import opened NsiTrait
  import opened Argument

  /** The renderer operations the adapter forwards once it has a handle. */
  datatype Op =
    | Create(handle: string, nodeType: Node.NodeType, args: Option<seq<Arg>>)
    | Delete(handle: string, args: Option<seq<Arg>>)
    | SetAttribute(handle: string, attrs: seq<Arg>)
    | SetAttributeAtTime(handle: string, time: bv64, attrs: seq<Arg>)
    | DeleteAttribute(handle: string, name: string)
    | Connect(from: string, fromAttr: Option<string>, to: string, toAttr: string, args: Option<seq<Arg>>)
    | Disconnect(from: string, fromAttr: Option<string>, to: string, toAttr: string)
    | Evaluate(args: Option<seq<Arg>>)
    | RenderControl(action: Action, args: Option<seq<Arg>>)

  /** A call the adapter makes into the renderer. */
  datatype RendererCall<H> = RBegin(args: Option<seq<Arg>>) | REnd(ctx: H) | ROp(ctx: H, op: Op)

  /** The adapter's state: the id table and the next id to issue. */
  datatype Adapter<H> = Adapter(contexts: map<int, H>, nextId: int)

  /** `FfiApiAdapter::new`: an adapter that knows no context, so nothing
      sent to it reaches the renderer until a `begin` succeeds. */
  function New<H>(): (a: Adapter<H>)
    ensures Fresh(a) && a.nextId != NsiHeader.BadContext
    ensures forall ctx, op :: Forward(a, ctx, op) == []
    ensures forall ctx :: End(a, ctx).1 == []
  {
    Adapter(map[], 1)
  }

  /** `FfiApiAdapter::begin`, as written: the counter is an `AtomicI32`
      whose `fetch_add` wraps around. `began` is the renderer's result. */
  function Begin<H>(a: Adapter<H>, args: Option<seq<Arg>>, began: Option<H>)
    : (r: (Adapter<H>, int, seq<RendererCall<H>>))
    requires NsiHeader.IntMin <= a.nextId <= NsiHeader.IntMax
    ensures r.2 == [RBegin(args)]
    ensures began.None? ==> r.0 == a && r.1 == NsiHeader.BadContext
    ensures began.Some? ==> r.1 == a.nextId && r.0.contexts == a.contexts[a.nextId := began.value]
    ensures began.Some? && a.nextId < NsiHeader.IntMax ==> r.0.nextId == a.nextId + 1
    ensures began.Some? && a.nextId == NsiHeader.IntMax ==> r.0.nextId == NsiHeader.IntMin
    ensures NsiHeader.IntMin <= r.0.nextId <= NsiHeader.IntMax
  {
    match began
    case None => (a, NsiHeader.BadContext, [RBegin(args)])
    case Some(h) =>
      (Adapter(a.contexts[a.nextId := h], NsiHeader.AsCInt(a.nextId + 1)), a.nextId, [RBegin(args)])
  }

  /** `FfiApiAdapter::end`: forgets the id, ending its renderer context once. */
  function End<H>(a: Adapter<H>, ctx: int): (r: (Adapter<H>, seq<RendererCall<H>>))
    ensures r.0.nextId == a.nextId
    ensures ctx !in r.0.contexts
    ensures forall k :: k != ctx ==> (k in r.0.contexts <==> k in a.contexts)
    ensures forall k :: k != ctx && k in a.contexts ==> r.0.contexts[k] == a.contexts[k]
    ensures ctx in a.contexts ==> r.1 == [REnd(a.contexts[ctx])]
    ensures ctx !in a.contexts <==> r.1 == []
  {
    if ctx in a.contexts then (a.(contexts := a.contexts - {ctx}), [REnd(a.contexts[ctx])])
    else (a, [])
  }

  /** Every other operation: forwarded iff the id is known, never changing the table. */
  function Forward<H>(a: Adapter<H>, ctx: int, op: Op): (calls: seq<RendererCall<H>>)
    ensures ctx in a.contexts ==> calls == [ROp(a.contexts[ctx], op)]
    ensures ctx !in a.contexts <==> calls == []
  {
    if ctx in a.contexts then [ROp(a.contexts[ctx], op)] else []
  }

  /** The table's invariant while the counter has not wrapped: the next id is
      positive and every id in use was issued earlier, so is below it. */
  predicate Fresh<H>(a: Adapter<H>)
  {
    && 0 < a.nextId <= NsiHeader.IntMax
    && forall k :: k in a.contexts ==> 0 < k < a.nextId
  }

  /** Before the counter wraps, a successful `begin` issues a new, non-zero id
      that no live context uses, and keeps the invariant. */
  lemma BeginIssuesFreshId<H>(a: Adapter<H>, args: Option<seq<Arg>>, h: H)
    requires Fresh(a) && a.nextId < NsiHeader.IntMax
    ensures var (b, id, _) := Begin(a, args, Some(h));
      id != NsiHeader.BadContext && id !in a.contexts && Fresh(b) && id < b.nextId
  {
  }

  /** `end` keeps the invariant. */
  lemma EndKeepsFresh<H>(a: Adapter<H>, ctx: int)
    requires Fresh(a)
    ensures Fresh(End(a, ctx).0)
  {
  }

  /** One request through the adapter, as `define_nsi_c_api!` issues it. */
  datatype Request<H> =
    | BeginReq(args: Option<seq<Arg>>, began: Option<H>)
    | EndReq(ctx: int)
    | OpReq(ctx: int, op: Op)

  /** One request against the table, as `define_nsi_c_api!` issues it:
      `begin` always asks the renderer, and its counter wraps. */
  function Step<H>(a: Adapter<H>, q: Request<H>): (r: (Adapter<H>, seq<RendererCall<H>>))
    requires NsiHeader.IntMin <= a.nextId <= NsiHeader.IntMax
    ensures NsiHeader.IntMin <= r.0.nextId <= NsiHeader.IntMax
    ensures q.BeginReq? ==> r.1 == [RBegin(q.args)]
    ensures !(q.BeginReq? && q.began.Some?) ==> r.0.nextId == a.nextId
  {
    match q
    case BeginReq(args, began) => var (b, _, calls) := Begin(a, args, began); (b, calls)
    case EndReq(ctx) => End(a, ctx)
    case OpReq(ctx, op) => (a, Forward(a, ctx, op))
  }

  /** Run a sequence of requests. */
  function Run<H>(a: Adapter<H>, qs: seq<Request<H>>): (r: (Adapter<H>, seq<RendererCall<H>>))
    requires NsiHeader.IntMin <= a.nextId <= NsiHeader.IntMax
    ensures NsiHeader.IntMin <= r.0.nextId <= NsiHeader.IntMax
    decreases |qs|
  {
    if |qs| == 0 then (a, [])
    else
      var (b, c) := Step(a, qs[0]);
      var (z, rest) := Run(b, qs[1..]);
      (z, c + rest)
  }

  /** The number of requests that create a renderer context. */
  function Begins<H>(qs: seq<Request<H>>): nat
    decreases |qs|
  {
    if |qs| == 0 then 0
    else (if qs[0].BeginReq? && qs[0].began.Some? then 1 else 0) + Begins(qs[1..])
  }

  /** Ids are not reused while the counter has room: once an id is ended,
      no later request brings it back, and every later operation on it
      reaches the renderer with nothing, as long as the requests create no
      more contexts than there are ids left below `i32::MAX`. The bound is
      deliberately conservative: after `i32::MAX` the wrapping counter goes
      on through the negative ids, which are still fresh, and only returns
      to 0 after 2^32 begins (`WrappedBeginReturnsBadContext`). The
      invariant used here, every live id below the counter, does not
      survive the step from `i32::MAX` to `i32::MIN`, so the negative ids
      of the as-written `begin` are not covered. `EndedIdStaysDeadChecked`
      covers any number of requests with the corrected `begin`. */
  lemma {:induction false} EndedIdStaysDead<H>(a: Adapter<H>, ctx: int, qs: seq<Request<H>>)
    requires Fresh(a)
    requires ctx !in a.contexts && ctx < a.nextId
    requires Begins(qs) <= NsiHeader.IntMax - a.nextId
    ensures Fresh(Run(a, qs).0) && ctx !in Run(a, qs).0.contexts
    ensures forall i :: 0 <= i < |qs| && qs[i].OpReq? && qs[i].ctx == ctx ==>
      Forward(Run(a, qs[..i]).0, ctx, qs[i].op) == []
    decreases |qs|
  {
    if |qs| > 0 {
      var b := Step(a, qs[0]).0;
      if qs[0].BeginReq? && qs[0].began.Some? {
        BeginIssuesFreshId(a, qs[0].args, qs[0].began.value);
      } else if qs[0].EndReq? {
        EndKeepsFresh(a, qs[0].ctx);
      }
      EndedIdStaysDead(b, ctx, qs[1..]);
      forall i | 0 <= i < |qs| && qs[i].OpReq? && qs[i].ctx == ctx
        ensures Forward(Run(a, qs[..i]).0, ctx, qs[i].op) == []
      {
        if i > 0 {
          assert qs[..i][1..] == qs[1..][..i - 1];
          assert qs[1..][i - 1] == qs[i];
        }
      }
    }
  }

  /** After `k` successful begins from a new adapter, the counter holds
      `1 + k` as a wrapped 32-bit integer. */
  lemma {:induction false} CounterAfterBegins<H>(k: nat, h: H)
    ensures NsiHeader.IntMin <= BeginsFrom(New<H>(), k, h).nextId <= NsiHeader.IntMax
    ensures BeginsFrom(New<H>(), k, h).nextId == NsiHeader.AsCInt(1 + k)
  {
    if k > 0 {
      CounterAfterBegins(k - 1, h);
      var a := BeginsFrom(New<H>(), k - 1, h);
      WrapStep(1 + (k - 1), a.nextId);
    }
  }

  /** Adding one to a wrapped value wraps the sum. */
  lemma WrapStep(n: int, w: int)
    requires w == NsiHeader.AsCInt(n)
    ensures NsiHeader.AsCInt(w + 1) == NsiHeader.AsCInt(n + 1)
  {
    var x := n - NsiHeader.IntMin;
    var q := x / 0x1_0000_0000;
    assert x == q * 0x1_0000_0000 + x % 0x1_0000_0000;
    assert x + 1 == q * 0x1_0000_0000 + (x % 0x1_0000_0000 + 1);
  }

  /** `k` successful begins in a row, all answered with the handle `h`. */
  function BeginsFrom<H>(a: Adapter<H>, k: nat, h: H): (r: Adapter<H>)
    requires NsiHeader.IntMin <= a.nextId <= NsiHeader.IntMax
    ensures NsiHeader.IntMin <= r.nextId <= NsiHeader.IntMax
  {
    if k == 0 then a else Begin(BeginsFrom(a, k - 1, h), None, Some(h)).0
  }

  /** The wrap-around: the 2^32-th successful `begin` of an adapter returns
      `NSI_BAD_CONTEXT`, which its C caller reads as failure although the
      renderer created a context that is now in the table. */
  lemma WrappedBeginReturnsBadContext<H>(h: H)
    ensures var a := BeginsFrom(New<H>(), NsiHeader.IntModulus - 1, h);
      var (b, id, _) := Begin(a, None, Some(h));
      id == NsiHeader.BadContext && NsiHeader.BadContext in b.contexts
  {
    CounterAfterBegins(NsiHeader.IntModulus - 1, h);
  }

  /** The corrected `begin`: it refuses before asking the renderer once the
      counter is exhausted, so it never wraps. The counter is an `i32` that
      holds the next id, so a checked increment (`fetch_update` with
      `checked_add`) cannot move it past `i32::MAX`: the last id it hands
      out is `i32::MAX - 1`, and at `i32::MAX` it refuses. */
  function BeginChecked<H>(a: Adapter<H>, args: Option<seq<Arg>>, began: Option<H>)
    : (r: (Adapter<H>, int, seq<RendererCall<H>>))
    requires NsiHeader.IntMin <= a.nextId <= NsiHeader.IntMax
    ensures a.nextId == NsiHeader.IntMax ==> r == (a, NsiHeader.BadContext, [])
    ensures a.nextId < NsiHeader.IntMax ==> r == Begin(a, args, began)
  {
    if a.nextId == NsiHeader.IntMax then (a, NsiHeader.BadContext, []) else Begin(a, args, began)
  }

  /** With the corrected `begin`, every issued id is non-zero and unused, and
      the invariant holds for all inputs, whatever the number of contexts. */
  lemma BeginCheckedIssuesFreshId<H>(a: Adapter<H>, args: Option<seq<Arg>>, began: Option<H>)
    requires Fresh(a)
    ensures var (b, id, _) := BeginChecked(a, args, began);
      Fresh(b) && (id != NsiHeader.BadContext ==> id !in a.contexts && b.contexts[id] == began.value)
  {
  }

  /** One request, with the corrected `begin`. */
  function StepChecked<H>(a: Adapter<H>, q: Request<H>): (r: (Adapter<H>, seq<RendererCall<H>>))
    requires NsiHeader.IntMin <= a.nextId <= NsiHeader.IntMax
    ensures NsiHeader.IntMin <= r.0.nextId <= NsiHeader.IntMax
    ensures !(q.BeginReq? && a.nextId == NsiHeader.IntMax) ==> r == Step(a, q)
    ensures q.BeginReq? && a.nextId == NsiHeader.IntMax ==> r == (a, [])
  {
    match q
    case BeginReq(args, began) => var (b, _, calls) := BeginChecked(a, args, began); (b, calls)
    case EndReq(ctx) => End(a, ctx)
    case OpReq(ctx, op) => (a, Forward(a, ctx, op))
  }

  /** Run a sequence of requests with the corrected `begin`. */
  function RunChecked<H>(a: Adapter<H>, qs: seq<Request<H>>): (r: (Adapter<H>, seq<RendererCall<H>>))
    requires NsiHeader.IntMin <= a.nextId <= NsiHeader.IntMax
    ensures NsiHeader.IntMin <= r.0.nextId <= NsiHeader.IntMax
    decreases |qs|
  {
    if |qs| == 0 then (a, [])
    else
      var (b, c) := StepChecked(a, qs[0]);
      var (z, rest) := RunChecked(b, qs[1..]);
      (z, c + rest)
  }

  /** With the corrected `begin`, ids are never reused, however many
      requests follow: an ended id stays out of the table, and every later
      operation on it reaches the renderer with nothing. */
  lemma {:induction false} EndedIdStaysDeadChecked<H>(a: Adapter<H>, ctx: int, qs: seq<Request<H>>)
    requires Fresh(a)
    requires ctx !in a.contexts && ctx < a.nextId
    ensures Fresh(RunChecked(a, qs).0) && ctx !in RunChecked(a, qs).0.contexts
    ensures forall i :: 0 <= i < |qs| && qs[i].OpReq? && qs[i].ctx == ctx ==>
      Forward(RunChecked(a, qs[..i]).0, ctx, qs[i].op) == []
    decreases |qs|
  {
    if |qs| > 0 {
      var b := StepChecked(a, qs[0]).0;
      if qs[0].BeginReq? {
        BeginCheckedIssuesFreshId(a, qs[0].args, qs[0].began);
      } else if qs[0].EndReq? {
        EndKeepsFresh(a, qs[0].ctx);
      }
      EndedIdStaysDeadChecked(b, ctx, qs[1..]);
      forall i | 0 <= i < |qs| && qs[i].OpReq? && qs[i].ctx == ctx
        ensures Forward(RunChecked(a, qs[..i]).0, ctx, qs[i].op) == []
      {
        if i > 0 {
          assert qs[..i][1..] == qs[1..][..i - 1];
          assert qs[1..][i - 1] == qs[i];
        }
      }
    }
  }
}
