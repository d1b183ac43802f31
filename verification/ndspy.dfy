/** The parts of the ndspy display-driver interface that the three output
    modules share: the callback error codes, the parameter records a
    driver receives, the channel records it may rewrite, and the queries
    the renderer asks. Numeric values of `ndspy.h` that the model needs are
    named here; `ndspy.h` itself is not part of this model. */
module Ndspy {
  import opened Wrappers
  import opened Utf8

  /** `Error`, the result type of every user callback. Its variant `None`
      ("no error") is `NoError` here, apart from the absent `Option`. */
  datatype Error = NoError | NoMemory | Unsupported | BadParameters | NoResource | Undefined | Stop

  /** `PtDspyError`, as ndspy declares it. */
  datatype PtDspyError =
    | PkDspyErrorNone | PkDspyErrorNoMemory | PkDspyErrorUnsupported | PkDspyErrorBadParams
    | PkDspyErrorNoResource | PkDspyErrorUndefined | PkDspyErrorStop

  /** `From<Error> for PtDspyError`. */
  function ToPtDspyError(e: Error): PtDspyError
  {
    match e
    case NoError => PkDspyErrorNone
    case NoMemory => PkDspyErrorNoMemory
    case Unsupported => PkDspyErrorUnsupported
    case BadParameters => PkDspyErrorBadParams
    case NoResource => PkDspyErrorNoResource
    case Undefined => PkDspyErrorUndefined
    case Stop => PkDspyErrorStop
  }

  /** The reverse reading of a `PtDspyError`. */
  function FromPtDspyError(p: PtDspyError): Error
  {
    match p
    case PkDspyErrorNone => NoError
    case PkDspyErrorNoMemory => NoMemory
    case PkDspyErrorUnsupported => Unsupported
    case PkDspyErrorBadParams => BadParameters
    case PkDspyErrorNoResource => NoResource
    case PkDspyErrorUndefined => Undefined
    case PkDspyErrorStop => Stop
  }

  /** The conversion is one-to-one and onto: every `PtDspyError` is the
      image of exactly one `Error`. */
  lemma ErrorConversionBijective(e: Error, f: Error, p: PtDspyError)
    ensures FromPtDspyError(ToPtDspyError(e)) == e
    ensures ToPtDspyError(FromPtDspyError(p)) == p
    ensures ToPtDspyError(e) == ToPtDspyError(f) <==> e == f
  {
  }

  /** What a trampoline guarded by `catch_unwind` returns to C: the body's
      error, or `Undefined` when the body panicked. */
  function Caught(o: Outcome<Error>): (r: PtDspyError)
    ensures o.Panic? ==> r == PkDspyErrorUndefined
    ensures o.Ok? ==> FromPtDspyError(r) == o.value
  {
    match o
    case Panic => PkDspyErrorUndefined
    case Ok(e) => ToPtDspyError(e)
  }

  /** A callback closure handed over as a raw pointer: an opaque token. */
  type Token = nat

  /** `UserParameter`: a named value the renderer passes to `image_open`. */
  datatype UserParameter = UserParameter(name: CStr, valueType: byte, valueCount: int, value: Option<Token>)

  /** The type byte of a pointer parameter, `b'p'`. */
  const PointerType: byte := 112

  /** `PtDspyDevFormat`: one channel's name and requested scalar type. */
  datatype DevFormat = DevFormat(name: CChars, typ: nat)

  /** `PkDspyFloat32`. */
  const Float32: nat := 1

  /** `PkDspyFlagsWantsEmptyBuckets`, the flag value of `ndspy.h`. */
  const WantsEmptyBuckets: bv32 := 2

  /** Whether `n` fits a C `int`, the type of every integer argument of the
      driver entry points. */
  predicate CInt(n: int)
  {
    -0x8000_0000 <= n < 0x8000_0000
  }

  /** Width of a pointer, and so of `usize`, on the 64-bit targets modelled. */
  const PointerBytes: nat := 8
  const UsizeModulus: int := 0x1_0000_0000_0000_0000
  /** `isize::MAX`: no allocation may span more bytes. */
  const IsizeMax: int := 0x7FFF_FFFF_FFFF_FFFF

  /** `n as usize` for a C `int`: a negative value wraps to a huge one. */
  function AsUsize(n: int): (r: nat)
    requires -0x8000_0000 <= n < UsizeModulus
    ensures n >= 0 ==> r == n
    ensures n < 0 ==> r >= UsizeModulus - 0x8000_0000 && r - n == UsizeModulus
  {
    if n < 0 then n + UsizeModulus else n
  }

  /** `PtDspyQueryType`; `Other` covers the queries no driver answers. */
  datatype QueryType = RenderProgress | Progressive | Thread | Cooked | StopQuery | Overwrite | Other(code: int)

  /** Whether parameter `p` has the given name, type byte and count. A
      null or non-UTF-8 name matches nothing. */
  predicate Matches(p: UserParameter, name: string, typ: byte, len: nat)
  {
    && p.name.CText? && Decode(p.name.bytes) == Some(name)
    && p.valueType == typ
    && -0x8000_0000 <= p.valueCount < UsizeModulus && AsUsize(p.valueCount) == len
  }

  /** Whether the first match of a search lies at index `i`. */
  predicate FirstMatchAt(params: seq<UserParameter>, name: string, typ: byte, len: nat, i: nat)
  {
    && i < |params| && Matches(params[i], name, typ, len)
    && forall j :: 0 <= j < i ==> !Matches(params[j], name, typ, len)
  }
}
