/** The C interface of the ɴsɪ renderer: the constants of `nsi.h` and the
    two small conversions the `nsi-sys` crate adds on top of them.

    Sizes are those of an LP64 platform (4-byte `float` and `int`, 8-byte
    `double` and pointers). */
module NsiHeader {
  import opened Wrappers

  /** `NSI_BAD_CONTEXT`: the context handle that means "no context". */
  const BadContext: int := 0

  const FloatBytes: nat := 4
  const IntBytes: nat := 4
  const DoubleBytes: nat := 8
  const PointerBytes: nat := 8

  /** C's `int` (and Rust's `i32`/`c_int`): 32-bit two's complement. */
  const IntModulus: int := 0x1_0000_0000
  const IntMin: int := -0x8000_0000
  const IntMax: int := 0x7FFF_FFFF

  /** An `as c_int` cast (or a wrapping `i32` operation): the value of the
      32-bit two's complement integer congruent to `n`. */
  function AsCInt(n: int): (r: int)
    ensures IntMin <= r <= IntMax
    ensures (r - n) % IntModulus == 0
    ensures IntMin <= n <= IntMax ==> r == n
  {
    (n - IntMin) % IntModulus + IntMin
  }

  /** `NSIType_t`. */
  datatype NsiType =
    | TypeInvalid | TypeFloat | TypeDouble | TypeInteger | TypeString | TypeColor
    | TypePoint | TypeVector | TypeNormal | TypeMatrix | TypeDoubleMatrix | TypePointer

  /** Flag bit that marks a type as the double-precision form of another. */
  const DoubleBit: bv32 := 0x10

  function TypeCode(t: NsiType): nat
  {
    match t
    case TypeInvalid => 0
    case TypeFloat => 1
    case TypeDouble => ((1 as bv32) | DoubleBit) as nat
    case TypeInteger => 2
    case TypeString => 3
    case TypeColor => 4
    case TypePoint => 5
    case TypeVector => 6
    case TypeNormal => 7
    case TypeMatrix => 8
    case TypeDoubleMatrix => ((8 as bv32) | DoubleBit) as nat
    case TypePointer => 9
  }

  /** The per-index table of `NSITypeSizeOf`, 25 entries. */
  const SizeTable: seq<nat> := [
    0, FloatBytes, IntBytes, PointerBytes,
    3 * FloatBytes, 3 * FloatBytes, 3 * FloatBytes, 3 * FloatBytes,
    16 * FloatBytes, PointerBytes, 0, 0,
    0, 0, 0, 0,
    0, DoubleBytes, 0, 0,
    0, 0, 0, 0,
    16 * DoubleBytes]

  /** `NSITypeSizeOf`: byte size of one value of type code `t` (0 for unknown codes). */
  function TypeSizeOf(t: nat): nat
  {
    if t <= 24 then SizeTable[t] else 0
  }

  /** Independent description of a type: how many scalars of how many bytes. */
  function Components(t: NsiType): nat
  {
    match t
    case TypeColor | TypePoint | TypeVector | TypeNormal => 3
    case TypeMatrix | TypeDoubleMatrix => 16
    case TypeInvalid => 0
    case _ => 1
  }

  function ScalarBytes(t: NsiType): nat
  {
    match t
    case TypeDouble | TypeDoubleMatrix => DoubleBytes
    case TypeInteger => IntBytes
    case TypeString | TypePointer => PointerBytes
    case _ => FloatBytes
  }

  /** Type codes are pairwise distinct, and the two double types are their
      single-precision partners with the 0x10 bit set. */
  lemma TypeCodesDistinct(a: NsiType, b: NsiType)
    ensures TypeCode(a) == TypeCode(b) <==> a == b
    ensures TypeCode(TypeDouble) == TypeCode(TypeFloat) + 16
    ensures TypeCode(TypeDoubleMatrix) == TypeCode(TypeMatrix) + 16
  {
  }

  /** The size table agrees with the component description of every type. */
  lemma TypeSizeOfMatchesComponents(t: NsiType)
    ensures TypeSizeOf(TypeCode(t)) == Components(t) * ScalarBytes(t)
  {
  }

  /** Exactly the codes of real types have a non-zero size. */
  lemma TypeSizeOfNonZeroIff(c: nat)
    ensures 0 < TypeSizeOf(c) <==> exists t: NsiType :: t != TypeInvalid && TypeCode(t) == c
  {
    if 0 < TypeSizeOf(c) {
      var t: NsiType :=
        if c == 1 then TypeFloat else if c == 2 then TypeInteger
        else if c == 3 then TypeString else if c == 4 then TypeColor
        else if c == 5 then TypePoint else if c == 6 then TypeVector
        else if c == 7 then TypeNormal else if c == 8 then TypeMatrix
        else if c == 9 then TypePointer else if c == 17 then TypeDouble
        else TypeDoubleMatrix;
      assert TypeCode(t) == c;
    }
  }

  /** The `NSIParam*` flag bits, shared by `NSIParamFlags` in `nsi-sys`. */
  const ParamIsArray: bv32 := 1
  const ParamPerFace: bv32 := 2
  const ParamPerVertex: bv32 := 4
  const ParamInterpolateLinear: bv32 := 8

  /** A set of flags, as the four independent switches the bits stand for. */
  datatype ParamFlags = ParamFlags(isArray: bool, perFace: bool, perVertex: bool, linear: bool)

  function FlagBits(f: ParamFlags): (r: bv32)
    ensures r & !0xF == 0
  {
    (if f.isArray then ParamIsArray else 0)
    | (if f.perFace then ParamPerFace else 0)
    | (if f.perVertex then ParamPerVertex else 0)
    | (if f.linear then ParamInterpolateLinear else 0)
  }

  function FlagsOf(bits: bv32): ParamFlags
  {
    ParamFlags(bits & ParamIsArray != 0, bits & ParamPerFace != 0,
               bits & ParamPerVertex != 0, bits & ParamInterpolateLinear != 0)
  }

  /** Each flag is its own bit: any combination can be read back, and the
      bits outside the four flags are never set. */
  lemma FlagsRoundTrip(f: ParamFlags)
    ensures FlagsOf(FlagBits(f)) == f
  {
  }

  /** Setting one flag bit turns that flag on and leaves every other bit,
      and so every other flag, as it was. */
  lemma SetFlagBit(bits: bv32, bit: bv32)
    requires bit == ParamIsArray || bit == ParamPerFace || bit == ParamPerVertex || bit == ParamInterpolateLinear
    ensures (bits | bit) & !bit == bits & !bit
    ensures ((bits | bit) & ParamIsArray != 0) == (bit == ParamIsArray || bits & ParamIsArray != 0)
    ensures ((bits | bit) & ParamPerFace != 0) == (bit == ParamPerFace || bits & ParamPerFace != 0)
    ensures ((bits | bit) & ParamPerVertex != 0) == (bit == ParamPerVertex || bits & ParamPerVertex != 0)
    ensures ((bits | bit) & ParamInterpolateLinear != 0) == (bit == ParamInterpolateLinear || bits & ParamInterpolateLinear != 0)
  {
  }

  lemma FlagBitsRoundTrip(bits: bv32)
    requires bits & !0xF == 0
    ensures FlagBits(FlagsOf(bits)) == bits
  {
  }

  /** `NSIStoppingStatus`. */
  datatype StoppingStatus = RenderCompleted | RenderAborted | RenderSynchronized | RenderRestarted

  function StoppingCode(s: StoppingStatus): int
  {
    match s
    case RenderCompleted => 0
    case RenderAborted => 1
    case RenderSynchronized => 2
    case RenderRestarted => 3
  }

  /** `NSIErrorLevel`. */
  datatype ErrorLevel = ErrMessage | ErrInfo | ErrWarning | ErrError

  function ErrorLevelCode(l: ErrorLevel): int
  {
    match l
    case ErrMessage => 0
    case ErrInfo => 1
    case ErrWarning => 2
    case ErrError => 3
  }

  /** `From<i32> for NSIErrorLevel`: every unknown level counts as an error. */
  function ErrorLevelFrom(level: int): (r: ErrorLevel)
    ensures r == ErrError <==> level !in {0, 1, 2}
  {
    match level
    case 0 => ErrMessage
    case 1 => ErrInfo
    case 2 => ErrWarning
    case _ => ErrError
  }

  /** The conversion inverts the level codes of the header. */
  lemma ErrorLevelRoundTrip(l: ErrorLevel)
    ensures ErrorLevelFrom(ErrorLevelCode(l)) == l
  {
  }

  /** On the codes the header defines, the conversion is the header's table. */
  lemma ErrorLevelFromKnownCode(level: int)
    requires 0 <= level <= 3
    ensures ErrorLevelCode(ErrorLevelFrom(level)) == level
  {
  }
}
