/** The `nsi-ffi-wrap` crate's own copy of the node-type table, written
    with literal strings, and the `NsiExt::render` convenience method.
    Both crates declare the same 24 variants, so the variants are shared
    with `Node`; the tables are kept apart and proved equal. */
module FfiNsiTrait {
  import opened Wrappers
  import Node
  import opened NsiTrait

  /** `NodeType::as_str` of `nsi-ffi-wrap` (also what `Display` writes). */
  function FfiNodeName(t: Node.NodeType): string
  {
    match t
    case All => ".all"
    case Root => ".root"
    case Global => ".global"
    case Set => "set"
    case Shader => "shader"
    case Attributes => "attributes"
    case Transform => "transform"
    case Instances => "instances"
    case Plane => "plane"
    case Mesh => "mesh"
    case FaceSet => "faceset"
    case Curves => "curves"
    case Particles => "particles"
    case Procedural => "procedural"
    case Volume => "volume"
    case Environment => "environment"
    case OrthographicCamera => "orthographiccamera"
    case PerspectiveCamera => "perspectivecamera"
    case FisheyeCamera => "fisheyecamera"
    case CylindricalCamera => "cylindricalcamera"
    case SphericalCamera => "sphericalcamera"
    case OutputDriver => "outputdriver"
    case OutputLayer => "outputlayer"
    case Screen => "screen"
  }

  /** `NodeType::from_name` of `nsi-ffi-wrap`. */
  function FfiNodeFromName(s: string): (r: Option<Node.NodeType>)
    ensures r.Some? ==> FfiNodeName(r.value) == s
  {
    match s
    case ".all" => Some(Node.All)
    case ".root" => Some(Node.Root)
    case ".global" => Some(Node.Global)
    case "set" => Some(Node.Set)
    case "shader" => Some(Node.Shader)
    case "attributes" => Some(Node.Attributes)
    case "transform" => Some(Node.Transform)
    case "instances" => Some(Node.Instances)
    case "plane" => Some(Node.Plane)
    case "mesh" => Some(Node.Mesh)
    case "faceset" => Some(Node.FaceSet)
    case "curves" => Some(Node.Curves)
    case "particles" => Some(Node.Particles)
    case "procedural" => Some(Node.Procedural)
    case "volume" => Some(Node.Volume)
    case "environment" => Some(Node.Environment)
    case "orthographiccamera" => Some(Node.OrthographicCamera)
    case "perspectivecamera" => Some(Node.PerspectiveCamera)
    case "fisheyecamera" => Some(Node.FisheyeCamera)
    case "cylindricalcamera" => Some(Node.CylindricalCamera)
    case "sphericalcamera" => Some(Node.SphericalCamera)
    case "outputdriver" => Some(Node.OutputDriver)
    case "outputlayer" => Some(Node.OutputLayer)
    case "screen" => Some(Node.Screen)
    case _ => None
  }

  /** The two crates name and parse node types identically. */
  lemma FfiTableAgrees(t: Node.NodeType, s: string)
    ensures FfiNodeName(t) == Node.NodeName(t)
    ensures FfiNodeFromName(s) == Node.NodeFromName(s)
  {
  }

  /** Parsing inverts naming, and exactly the 24 names parse. */
  lemma FfiNodeRoundTrip(t: Node.NodeType, s: string)
    ensures FfiNodeFromName(FfiNodeName(t)) == Some(t)
    ensures FfiNodeFromName(s).None? <==> forall u: Node.NodeType :: FfiNodeName(u) != s
  {
    FfiTableAgrees(t, s);
    Node.NodeRoundTrip(t);
    Node.NodeFromNameNoneIff(s);
    forall u: Node.NodeType ensures FfiNodeName(u) == Node.NodeName(u) {
      FfiTableAgrees(u, s);
    }
  }

  /** One `render_control` call as the renderer receives it. */
  datatype ControlCall<A> = ControlCall(action: Action, args: Option<A>)

  /** `NsiExt::render`: start with the caller's arguments, then wait without
      any; a failing start is returned at once. `control` stands for the
      renderer's `render_control` (its result: `None` on success, else the
      error). The result is the calls issued, in order, and the outcome. */
  function Render<A, E>(args: Option<A>, control: ControlCall<A> -> Option<E>)
    : (r: (seq<ControlCall<A>>, Result<(), E>))
    ensures 1 <= |r.0| <= 2
    ensures r.0[0] == ControlCall(Start, args)
    ensures |r.0| == 1 <==> control(ControlCall(Start, args)).Some?
    ensures |r.0| == 2 ==> r.0[1] == ControlCall(Wait, None)
    ensures r.1.Failure? <==> control(r.0[|r.0| - 1]).Some?
    ensures r.1.Failure? ==> r.1.error == control(r.0[|r.0| - 1]).value
  {
    var start := ControlCall(Start, args);
    match control(start)
    case Some(e) => ([start], Failure(e))
    case None =>
      var wait := ControlCall(Wait, None);
      ([start, wait], if control(wait).Some? then Failure(control(wait).value) else Success(()))
  }

  /** `render` waits only on a started render: `Wait` is issued exactly
      when `Start` succeeded, and the render succeeds exactly when both
      calls do. */
  lemma RenderWaitsOnlyAfterStart<A, E>(args: Option<A>, control: ControlCall<A> -> Option<E>)
    ensures var (calls, result) := Render(args, control);
      var start, wait := ControlCall(Start, args), ControlCall(Wait, None);
      && (wait in calls <==> control(start).None?)
      && (result.Success? <==> control(start).None? && control(wait).None?)
  {
    var calls := Render(args, control).0;
    assert calls == [ControlCall(Start, args)] || calls == [ControlCall(Start, args), ControlCall(Wait, None)];
  }
}
