/** The renderer-independent vocabulary of the `nsi-trait` crate: the type
    discriminants, the parameter flags, the defaults of the `Parameter`
    abstraction and the render-control `Action`. */
module NsiTrait {
  import opened Wrappers
  import NsiHeader

  /** `Type`: the C type codes, with the header's `Pointer` called `Reference`. */
  datatype Type =
    | Invalid | Float | Double | Integer | String | Color
    | Point | Vector | Normal | Matrix | DoubleMatrix | Reference

  /** The `#[repr(i32)]` discriminant of each variant. */
  function Discriminant(t: Type): int
  {
    match t
    case Invalid => 0
    case Float => 1
    case Double => 0x11
    case Integer => 2
    case String => 3
    case Color => 4
    case Point => 5
    case Vector => 6
    case Normal => 7
    case Matrix => 8
    case DoubleMatrix => 0x18
    case Reference => 9
  }

  /** The header type each variant stands for. */
  function HeaderType(t: Type): NsiHeader.NsiType
  {
    match t
    case Invalid => NsiHeader.TypeInvalid
    case Float => NsiHeader.TypeFloat
    case Double => NsiHeader.TypeDouble
    case Integer => NsiHeader.TypeInteger
    case String => NsiHeader.TypeString
    case Color => NsiHeader.TypeColor
    case Point => NsiHeader.TypePoint
    case Vector => NsiHeader.TypeVector
    case Normal => NsiHeader.TypeNormal
    case Matrix => NsiHeader.TypeMatrix
    case DoubleMatrix => NsiHeader.TypeDoubleMatrix
    case Reference => NsiHeader.TypePointer
  }

  /** The discriminants are binary-compatible with `NSIType_t`: each equals the
      header code of the type it stands for, and no two variants share one. */
  lemma DiscriminantsMatchHeader(t: Type, u: Type)
    ensures Discriminant(t) == NsiHeader.TypeCode(HeaderType(t))
    ensures Discriminant(t) == Discriminant(u) <==> t == u
  {
  }

  /** `Flags`. */
  const IsArray: bv32 := 1
  const PerFace: bv32 := 2
  const PerVertex: bv32 := 4
  const InterpolateLinear: bv32 := 8

  /** `Flags::contains`. */
  predicate Contains(f: bv32, g: bv32)
  {
    f & g == g
  }

  /** The flags are the header's bits, and combining `PER_VERTEX` with
      `IS_ARRAY` gives 5, which contains both and not `PER_FACE`. */
  lemma FlagsMatchHeader()
    ensures IsArray == NsiHeader.ParamIsArray && PerFace == NsiHeader.ParamPerFace
    ensures PerVertex == NsiHeader.ParamPerVertex
    ensures InterpolateLinear == NsiHeader.ParamInterpolateLinear
    ensures PerVertex | IsArray == 5
    ensures Contains(PerVertex | IsArray, PerVertex) && Contains(PerVertex | IsArray, IsArray)
    ensures !Contains(PerVertex | IsArray, PerFace)
  {
  }

  /** What an implementor of `Parameter` supplies: its length, and optionally
      its own array length and flags (absent: the trait's default is used). */
  datatype ParameterImpl = ParameterImpl(len: nat, arrayLength: Option<nat>, flags: Option<int>)

  /** `Parameter::is_empty` (default method). */
  function IsEmpty(p: ParameterImpl): (r: bool)
    ensures r <==> p.len == 0
  {
    p.len == 0
  }

  /** `Parameter::array_length`: 1 unless overridden. */
  function ArrayLength(p: ParameterImpl): (r: nat)
    ensures p.arrayLength.None? ==> r == 1
    ensures p.arrayLength.Some? ==> r == p.arrayLength.value
  {
    p.arrayLength.GetOr(1)
  }

  /** `Parameter::flags`: no flag unless overridden. */
  function Flags(p: ParameterImpl): (r: int)
    ensures p.flags.None? ==> r == 0
    ensures p.flags.Some? ==> r == p.flags.value
  {
    p.flags.GetOr(0)
  }

  /** `Action`. */
  datatype Action = Start | Wait | Synchronize | Suspend | Resume | Stop

  /** `Action::as_str` (also what `Display` writes). */
  function ActionName(a: Action): string
  {
    match a
    case Start => "start"
    case Wait => "wait"
    case Synchronize => "synchronize"
    case Suspend => "suspend"
    case Resume => "resume"
    case Stop => "stop"
  }

  /** `Action::from_name`. */
  function ActionFromName(s: string): (r: Option<Action>)
    ensures r.Some? ==> ActionName(r.value) == s
  {
    match s
    case "start" => Some(Start)
    case "wait" => Some(Wait)
    case "synchronize" => Some(Synchronize)
    case "suspend" => Some(Suspend)
    case "resume" => Some(Resume)
    case "stop" => Some(Stop)
    case _ => None
  }

  /** Parsing inverts naming, for every action; and a string parses iff it is
      the name of some action, so every other string gives `None`. */
  lemma ActionRoundTrip(a: Action, s: string)
    ensures ActionFromName(ActionName(a)) == Some(a)
    ensures ActionFromName(s).None? <==> forall b: Action :: ActionName(b) != s
  {
    if ActionFromName(s).None? {
      forall b: Action ensures ActionName(b) != s {
      }
    }
  }
}
