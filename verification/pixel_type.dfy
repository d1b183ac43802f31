/** The `PixelType` marker trait of `nsi-ffi-wrap` (`output/pixel_type.rs`):
    the Rust scalar types a typed display callback can receive, each with
    the ndspy type code of its memory layout. */
module PixelType {
  import opened Wrappers
  import PixelFormat

  /** The Rust types that implement `PixelType`. */
  datatype RustScalar = F32 | U32 | I32 | U16 | I16 | U8 | I8

  /** `PixelType::NDSPY_TYPE` of each implementation. */
  function NdspyType(t: RustScalar): (code: nat)
    ensures 1 <= code <= 7
  {
    match t
    case F32 => 1
    case U32 => 2
    case I32 => 3
    case U16 => 4
    case I16 => 5
    case U8 => 6
    case I8 => 7
  }

  /** `size_of` of each Rust type. */
  function RustSize(t: RustScalar): nat
  {
    match t
    case F32 | U32 | I32 => 4
    case U16 | I16 => 2
    case U8 | I8 => 1
  }

  /** The ndspy scalar type of the same name. */
  function ScalarOf(t: RustScalar): PixelFormat.ScalarType
  {
    match t
    case F32 => PixelFormat.Float32
    case U32 => PixelFormat.Unsigned32
    case I32 => PixelFormat.Signed32
    case U16 => PixelFormat.Unsigned16
    case I16 => PixelFormat.Signed16
    case U8 => PixelFormat.Unsigned8
    case I8 => PixelFormat.Signed8
  }

  /** The safety contract of the trait: each code names the scalar type of
      the Rust type's own layout, with the same size, and no two Rust types
      share a code. `Float16` has no implementation. */
  lemma NdspyTypeMatchesLayout(t: RustScalar, u: RustScalar)
    ensures PixelFormat.FromNdspyType(NdspyType(t)) == Some(ScalarOf(t))
    ensures PixelFormat.SizeBytes(ScalarOf(t)) == RustSize(t)
    ensures NdspyType(t) == NdspyType(u) <==> t == u
    ensures ScalarOf(t) != PixelFormat.Float16
  {
  }
}
