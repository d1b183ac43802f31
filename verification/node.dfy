/** Scene-graph node types of the `nsi-trait` crate: the node-name
    constants and the `NodeType` enum that names them. */
module Node {
  import opened Wrappers

  const AllName: string := ".all"
  const RootName: string := ".root"
  const GlobalName: string := ".global"
  const SetName: string := "set"
  const ShaderName: string := "shader"
  const AttributesName: string := "attributes"
  const TransformName: string := "transform"
  const InstancesName: string := "instances"
  const PlaneName: string := "plane"
  const MeshName: string := "mesh"
  const FacesetName: string := "faceset"
  const CurvesName: string := "curves"
  const ParticlesName: string := "particles"
  const ProceduralName: string := "procedural"
  const VolumeName: string := "volume"
  const EnvironmentName: string := "environment"
  const OrthographicCameraName: string := "orthographiccamera"
  const PerspectiveCameraName: string := "perspectivecamera"
  const FisheyeCameraName: string := "fisheyecamera"
  const CylindricalCameraName: string := "cylindricalcamera"
  const SphericalCameraName: string := "sphericalcamera"
  const OutputDriverName: string := "outputdriver"
  const OutputLayerName: string := "outputlayer"
  const ScreenName: string := "screen"

  /** `NodeType`, in declaration order. */
  datatype NodeType =
    | All | Root | Global | Set | Shader | Attributes
    | Transform | Instances | Plane | Mesh | FaceSet | Curves
    | Particles | Procedural | Volume | Environment | OrthographicCamera | PerspectiveCamera
    | FisheyeCamera | CylindricalCamera | SphericalCamera | OutputDriver | OutputLayer | Screen

  /** `NodeType::as_str` (also what `Display` writes): the node-name constant. */
  function NodeName(t: NodeType): string
  {
    match t
    case All => AllName
    case Root => RootName
    case Global => GlobalName
    case Set => SetName
    case Shader => ShaderName
    case Attributes => AttributesName
    case Transform => TransformName
    case Instances => InstancesName
    case Plane => PlaneName
    case Mesh => MeshName
    case FaceSet => FacesetName
    case Curves => CurvesName
    case Particles => ParticlesName
    case Procedural => ProceduralName
    case Volume => VolumeName
    case Environment => EnvironmentName
    case OrthographicCamera => OrthographicCameraName
    case PerspectiveCamera => PerspectiveCameraName
    case FisheyeCamera => FisheyeCameraName
    case CylindricalCamera => CylindricalCameraName
    case SphericalCamera => SphericalCameraName
    case OutputDriver => OutputDriverName
    case OutputLayer => OutputLayerName
    case Screen => ScreenName
  }

  /** `NodeType::from_name`. */
  function NodeFromName(s: string): (r: Option<NodeType>)
    ensures r.Some? ==> NodeName(r.value) == s
  {
    match s
    case ".all" => Some(All)
    case ".root" => Some(Root)
    case ".global" => Some(Global)
    case "set" => Some(Set)
    case "shader" => Some(Shader)
    case "attributes" => Some(Attributes)
    case "transform" => Some(Transform)
    case "instances" => Some(Instances)
    case "plane" => Some(Plane)
    case "mesh" => Some(Mesh)
    case "faceset" => Some(FaceSet)
    case "curves" => Some(Curves)
    case "particles" => Some(Particles)
    case "procedural" => Some(Procedural)
    case "volume" => Some(Volume)
    case "environment" => Some(Environment)
    case "orthographiccamera" => Some(OrthographicCamera)
    case "perspectivecamera" => Some(PerspectiveCamera)
    case "fisheyecamera" => Some(FisheyeCamera)
    case "cylindricalcamera" => Some(CylindricalCamera)
    case "sphericalcamera" => Some(SphericalCamera)
    case "outputdriver" => Some(OutputDriver)
    case "outputlayer" => Some(OutputLayer)
    case "screen" => Some(Screen)
    case _ => None
  }

  /** Parsing inverts naming for all 24 node types. */
  lemma NodeRoundTrip(t: NodeType)
    ensures NodeFromName(NodeName(t)) == Some(t)
  {
  }

  /** A string parses iff it is one of the 24 names. */
  lemma NodeFromNameNoneIff(s: string)
    ensures NodeFromName(s).None? <==> forall t: NodeType :: NodeName(t) != s
  {
    if NodeFromName(s).None? {
      forall t: NodeType ensures NodeName(t) != s {
        NodeRoundTrip(t);
      }
    }
  }

  /** The names are pairwise distinct, so naming is injective. */
  lemma NodeNameInjective(t: NodeType, u: NodeType)
    ensures NodeName(t) == NodeName(u) <==> t == u
  {
    if NodeName(t) == NodeName(u) {
      NodeRoundTrip(t);
      NodeRoundTrip(u);
    }
  }
}
