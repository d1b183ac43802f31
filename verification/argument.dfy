/** Optional arguments of the `nsi-core` crate and their encoding into the
    flat `NSIParam_t` records the C API takes.

    Raw addresses are abstract: `Null` or a location. A record's `data`
    pointer is described by what it points at (`ParamData`), since the
    renderer only ever reads through it. */
module Argument {
  import opened Wrappers
  import NsiHeader
  import NsiTrait
  import Utf8

  /** A raw `*const c_void`. */
  datatype Address = Null | At(loc: nat)

  /** `Type` of `nsi-core`: the header types an argument can carry. */
  datatype Type =
    | TypeFloat | TypeDouble | TypeInteger | TypeString | TypeColor | TypePoint
    | TypeVector | TypeNormal | TypeMatrix | TypeDoubleMatrix | TypePointer

  function HeaderType(t: Type): NsiHeader.NsiType
  {
    match t
    case TypeFloat => NsiHeader.TypeFloat
    case TypeDouble => NsiHeader.TypeDouble
    case TypeInteger => NsiHeader.TypeInteger
    case TypeString => NsiHeader.TypeString
    case TypeColor => NsiHeader.TypeColor
    case TypePoint => NsiHeader.TypePoint
    case TypeVector => NsiHeader.TypeVector
    case TypeNormal => NsiHeader.TypeNormal
    case TypeMatrix => NsiHeader.TypeMatrix
    case TypeDoubleMatrix => NsiHeader.TypeDoubleMatrix
    case TypePointer => NsiHeader.TypePointer
  }

  /** The `#[repr(i32)]` discriminant: the header's code. */
  function TypeCode(t: Type): int
  {
    NsiHeader.TypeCode(HeaderType(t))
  }

  /** `Type::elemensize`: number of scalar components of one value. */
  function ElemSize(t: Type): nat
  {
    match t
    case TypeFloat | TypeDouble | TypeInteger | TypeString | TypePointer => 1
    case TypeColor | TypePoint | TypeVector | TypeNormal => 3
    case TypeMatrix | TypeDoubleMatrix => 16
  }

  /** `elemensize` is the header's component count, so one value of type `t`
      occupies `elemensize` scalars of the header's scalar size, and no
      type is the header's `Invalid`. */
  lemma ElemSizeMatchesHeader(t: Type)
    ensures ElemSize(t) == NsiHeader.Components(HeaderType(t))
    ensures NsiHeader.TypeSizeOf(TypeCode(t)) == ElemSize(t) * NsiHeader.ScalarBytes(HeaderType(t))
    ensures 0 < ElemSize(t) && HeaderType(t) != NsiHeader.TypeInvalid
  {
    NsiHeader.TypeSizeOfMatchesComponents(HeaderType(t));
  }

  /** A C string's bytes (without the terminating NUL). */
  type CBytes = seq<Utf8.byte>

  /** `ArgData`. Floats are carried as their bits; tuple variants hold a
      fixed number of scalars (3 for Color, Point, Vector and Normal, 16 for
      the matrices), which Rust's array types guarantee. */
  datatype ArgData =
    | Float(f: bv32) | Floats(fs: seq<bv32>)
    | Double(d: bv64) | Doubles(ds: seq<bv64>)
    | Integer(i: int) | Integers(ints: seq<int>)
    | String(s: CBytes) | Strings(ss: seq<CBytes>)
    | Color(c: seq<bv32>) | Colors(cs: seq<bv32>)
    | Point(p: seq<bv32>) | Points(ps: seq<bv32>)
    | Vector(v: seq<bv32>) | Vectors(vs: seq<bv32>)
    | Normal(n: seq<bv32>) | Normals(ns: seq<bv32>)
    | Matrix(m: seq<bv32>) | Matrices(ms: seq<bv32>)
    | DoubleMatrix(dm: seq<bv64>) | DoubleMatrices(dms: seq<bv64>)
    | Reference(ref: Address) | References(refs: seq<Address>)
    | Callback(callback: Address)
    | Pointer(ptr: Address) | Pointers(ptrs: seq<Address>)

  /** `ArgDataMethods::type_`. */
  function TypeOf(d: ArgData): Type
  {
    match d
    case Float(_) | Floats(_) => TypeFloat
    case Double(_) | Doubles(_) => TypeDouble
    case Integer(_) | Integers(_) => TypeInteger
    case String(_) | Strings(_) => TypeString
    case Color(_) | Colors(_) => TypeColor
    case Point(_) | Points(_) => TypePoint
    case Vector(_) | Vectors(_) => TypeVector
    case Normal(_) | Normals(_) => TypeNormal
    case Matrix(_) | Matrices(_) => TypeMatrix
    case DoubleMatrix(_) | DoubleMatrices(_) => TypeDoubleMatrix
    case Reference(_) | References(_) | Callback(_) | Pointer(_) | Pointers(_) => TypePointer
  }

  /** The variants built from a slice of scalars by `nsi_data_array_def!`. */
  predicate IsArrayVariant(d: ArgData)
  {
    d.Floats? || d.Doubles? || d.Integers? || d.Colors? || d.Points? || d.Vectors?
    || d.Normals? || d.Matrices? || d.DoubleMatrices? || d.References? || d.Pointers?
  }

  /** Number of scalars an array variant holds. */
  function ScalarCount(d: ArgData): nat
  {
    match d
    case Floats(x) => |x|
    case Doubles(x) => |x|
    case Integers(x) => |x|
    case Colors(x) => |x|
    case Points(x) => |x|
    case Vectors(x) => |x|
    case Normals(x) => |x|
    case Matrices(x) => |x|
    case DoubleMatrices(x) => |x|
    case References(x) => |x|
    case Pointers(x) => |x|
    case Strings(x) => |x|
    case _ => 1
  }

  /** Tuple variants hold exactly `elemensize` scalars. */
  predicate WellFormed(d: ArgData)
  {
    match d
    case Color(x) => |x| == 3
    case Point(x) => |x| == 3
    case Vector(x) => |x| == 3
    case Normal(x) => |x| == 3
    case Matrix(x) => |x| == 16
    case DoubleMatrix(x) => |x| == 16
    case _ => true
  }

  /** `ArgDataMethods::len`: number of values (not scalars) the data holds. */
  function Len(d: ArgData): nat
  {
    if IsArrayVariant(d) then ScalarCount(d) / ElemSize(TypeOf(d))
    else if d.Strings? then |d.ss|
    else 1
  }

  /** The `debug_assert!` of the array constructors: a whole number of values. */
  function ArrayNew(d: ArgData): (r: Outcome<ArgData>)
    requires IsArrayVariant(d)
    ensures r.Panic? <==> ScalarCount(d) % ElemSize(TypeOf(d)) != 0
    ensures r.Ok? ==> r.value == d && Len(d) * ElemSize(TypeOf(d)) == ScalarCount(d)
  {
    if ScalarCount(d) % ElemSize(TypeOf(d)) != 0 then Panic else Ok(d)
  }

  /** `len` by variant: the whole value count for checked arrays, one for
      every single value, the number of strings for `Strings`. */
  lemma LenByVariant(d: ArgData)
    ensures IsArrayVariant(d) && ArrayNew(d).Ok? ==> Len(d) * ElemSize(TypeOf(d)) == ScalarCount(d)
    ensures d.References? || d.Pointers? ==> Len(d) == ScalarCount(d)
    ensures d.Strings? ==> Len(d) == |d.ss|
    ensures !IsArrayVariant(d) && !d.Strings? ==> Len(d) == 1
  {
  }

  /** `String::new`: `CString::new(..).unwrap()` panics on an interior NUL. */
  function StringNew(s: CBytes): (r: Outcome<ArgData>)
    ensures r.Panic? <==> 0 in s
    ensures r.Ok? ==> r.value == String(s) && TypeOf(r.value) == TypeString && Len(r.value) == 1
  {
    if 0 in s then Panic else Ok(String(s))
  }

  /** `Strings::new`: panics if any of the strings has an interior NUL. */
  function StringsNew(ss: seq<CBytes>): (r: Outcome<ArgData>)
    ensures r.Panic? <==> exists i :: 0 <= i < |ss| && 0 in ss[i]
    ensures r.Ok? ==> r.value == Strings(ss) && Len(r.value) == |ss|
  {
    if exists i :: 0 <= i < |ss| && 0 in ss[i] then Panic else Ok(Strings(ss))
  }

  /** A Rust `Option<&T>`: a reference to the location, or nothing. */
  function AddressOf(r: Option<nat>): (a: Address)
    ensures a.Null? <==> r.None?
    ensures a.At? ==> a.loc == r.value
  {
    match r
    case None => Null
    case Some(l) => At(l)
  }

  /** `Reference::new`: `None` becomes the null address. */
  function ReferenceNew(r: Option<nat>): (d: ArgData)
    ensures d.Reference? && (d.ref.Null? <==> r.None?)
    ensures TypeOf(d) == TypePointer && Len(d) == 1
  {
    Reference(AddressOf(r))
  }

  /** `References::new`: one address per entry, in order, `None` as null. */
  function ReferencesNew(rs: seq<Option<nat>>): (d: ArgData)
    ensures d.References? && |d.refs| == |rs| == Len(d)
    ensures forall i :: 0 <= i < |rs| ==> (d.refs[i].Null? <==> rs[i].None?)
    ensures forall i :: 0 <= i < |rs| && rs[i].Some? ==> d.refs[i] == At(rs[i].value)
    ensures TypeOf(d) == TypePointer
  {
    References(seq(|rs|, i requires 0 <= i < |rs| => AddressOf(rs[i])))
  }

  /** Every pointer-like variant is tagged `Pointer`, and every single value
      has length one. */
  lemma PointerVariantsTagPointer(d: ArgData)
    requires d.Reference? || d.References? || d.Callback? || d.Pointer? || d.Pointers?
    ensures TypeOf(d) == TypePointer
    ensures d.Reference? || d.Callback? || d.Pointer? ==> Len(d) == 1
  {
  }

  /** `Arg`: a named datum with its array length and flag bits. */
  datatype Arg = Arg(name: string, data: ArgData, arrayLength: nat, flags: bv32)

  /** `Arg::new`. */
  function ArgNew(name: string, data: ArgData): (a: Arg)
    ensures a.name == name && a.data == data
    ensures a.arrayLength == 1 && a.flags == 0
    ensures NsiHeader.FlagsOf(a.flags) == NsiHeader.ParamFlags(false, false, false, false)
  {
    Arg(name, data, 1, 0)
  }

  /** `Arg::array_len`: sets the per-element length and marks the argument as an array. */
  function ArrayLen(a: Arg, length: nat): (r: Arg)
    ensures r.name == a.name && r.data == a.data && r.arrayLength == length
    ensures NsiHeader.FlagsOf(r.flags) == NsiHeader.FlagsOf(a.flags).(isArray := true)
    ensures r.flags & !NsiHeader.ParamIsArray == a.flags & !NsiHeader.ParamIsArray
  {
    NsiHeader.SetFlagBit(a.flags, NsiHeader.ParamIsArray);
    a.(arrayLength := length, flags := a.flags | NsiHeader.ParamIsArray)
  }

  /** `Arg::per_face`. */
  function PerFace(a: Arg): (r: Arg)
    ensures r.name == a.name && r.data == a.data && r.arrayLength == a.arrayLength
    ensures NsiHeader.FlagsOf(r.flags) == NsiHeader.FlagsOf(a.flags).(perFace := true)
    ensures r.flags & !NsiHeader.ParamPerFace == a.flags & !NsiHeader.ParamPerFace
  {
    NsiHeader.SetFlagBit(a.flags, NsiHeader.ParamPerFace);
    a.(flags := a.flags | NsiHeader.ParamPerFace)
  }

  /** `Arg::per_vertex`. */
  function PerVertex(a: Arg): (r: Arg)
    ensures r.name == a.name && r.data == a.data && r.arrayLength == a.arrayLength
    ensures NsiHeader.FlagsOf(r.flags) == NsiHeader.FlagsOf(a.flags).(perVertex := true)
    ensures r.flags & !NsiHeader.ParamPerVertex == a.flags & !NsiHeader.ParamPerVertex
  {
    NsiHeader.SetFlagBit(a.flags, NsiHeader.ParamPerVertex);
    a.(flags := a.flags | NsiHeader.ParamPerVertex)
  }

  /** `Arg::linear_interpolation`. */
  function LinearInterpolation(a: Arg): (r: Arg)
    ensures r.name == a.name && r.data == a.data && r.arrayLength == a.arrayLength
    ensures NsiHeader.FlagsOf(r.flags) == NsiHeader.FlagsOf(a.flags).(linear := true)
    ensures r.flags & !NsiHeader.ParamInterpolateLinear == a.flags & !NsiHeader.ParamInterpolateLinear
  {
    NsiHeader.SetFlagBit(a.flags, NsiHeader.ParamInterpolateLinear);
    a.(flags := a.flags | NsiHeader.ParamInterpolateLinear)
  }

  /** Setting a flag twice is setting it once. */
  lemma FlagSettersIdempotent(a: Arg)
    ensures PerFace(PerFace(a)) == PerFace(a)
    ensures PerVertex(PerVertex(a)) == PerVertex(a)
    ensures LinearInterpolation(LinearInterpolation(a)) == LinearInterpolation(a)
  {
    PerFaceTwice(a);
    PerVertexTwice(a);
    LinearTwice(a);
  }

  /** The flag setters commute with each other. */
  lemma FlagSettersCommute(a: Arg)
    ensures PerFace(PerVertex(a)) == PerVertex(PerFace(a))
    ensures PerFace(LinearInterpolation(a)) == LinearInterpolation(PerFace(a))
    ensures PerVertex(LinearInterpolation(a)) == LinearInterpolation(PerVertex(a))
  {
    FaceVertexSwap(a);
    FaceLinearSwap(a);
    VertexLinearSwap(a);
  }

  lemma PerFaceTwice(a: Arg)
    ensures PerFace(PerFace(a)) == PerFace(a)
  {
    var x, y := PerFace(PerFace(a)), PerFace(a);
    assert x.flags == y.flags && x.name == y.name && x.data == y.data && x.arrayLength == y.arrayLength;
  }

  lemma PerVertexTwice(a: Arg)
    ensures PerVertex(PerVertex(a)) == PerVertex(a)
  {
    var x, y := PerVertex(PerVertex(a)), PerVertex(a);
    assert x.flags == y.flags && x.name == y.name && x.data == y.data && x.arrayLength == y.arrayLength;
  }

  lemma LinearTwice(a: Arg)
    ensures LinearInterpolation(LinearInterpolation(a)) == LinearInterpolation(a)
  {
    var x, y := LinearInterpolation(LinearInterpolation(a)), LinearInterpolation(a);
    assert x.flags == y.flags && x.name == y.name && x.data == y.data && x.arrayLength == y.arrayLength;
  }

  lemma FaceVertexSwap(a: Arg)
    ensures PerFace(PerVertex(a)) == PerVertex(PerFace(a))
  {
    var x, y := PerFace(PerVertex(a)), PerVertex(PerFace(a));
    assert x.flags == y.flags && x.name == y.name && x.data == y.data && x.arrayLength == y.arrayLength;
  }

  lemma FaceLinearSwap(a: Arg)
    ensures PerFace(LinearInterpolation(a)) == LinearInterpolation(PerFace(a))
  {
    var x, y := PerFace(LinearInterpolation(a)), LinearInterpolation(PerFace(a));
    assert x.flags == y.flags && x.name == y.name && x.data == y.data && x.arrayLength == y.arrayLength;
  }

  lemma VertexLinearSwap(a: Arg)
    ensures PerVertex(LinearInterpolation(a)) == LinearInterpolation(PerVertex(a))
  {
    var x, y := PerVertex(LinearInterpolation(a)), LinearInterpolation(PerVertex(a));
    assert x.flags == y.flags && x.name == y.name && x.data == y.data && x.arrayLength == y.arrayLength;
  }

  /** The defaults of the `Parameter` trait describe what `Arg::new`
      builds: a parameter that overrides neither `array_length` nor `flags`
      reaches the renderer as a record with array length 1 and no flag bit,
      counting one entry per element, so it is empty exactly when its record
      counts nothing. Overriding `array_length` is what `Arg::array_len` does. */
  lemma ParameterDefaultsMatchArgNew(name: string, data: ArgData, length: nat)
    ensures var a, p := ArgNew(name, data), NsiTrait.ParameterImpl(Len(data), None, None);
      && ToParam(a).Ok?
      && ToParam(a).value.arrayLength == NsiTrait.ArrayLength(p)
      && ToParam(a).value.flags as int == NsiTrait.Flags(p)
      && (NsiTrait.IsEmpty(p) <==> ToParam(a).value.count == 0)
      && NsiTrait.ArrayLength(p.(arrayLength := Some(length))) == ArrayLen(a, length).arrayLength
  {
  }

  /** Trampolines the wrapper hands to the renderer as function pointers. */
  datatype Trampoline = ErrorHandlerFn | RenderStatusFn

  /** What a record's `data` pointer points at. */
  datatype ParamData =
    | Storage(arg: ArgData)           // the argument's own values
    | Raw(addr: Address)              // the raw pointer an argument carries
    | StringSlot(text: CBytes)        // a slot holding a `char*` to this text
    | FnSlot(fn: Trampoline)          // a slot holding a function pointer
    | PointerSlot(target: ParamData)  // a slot holding the pointer `target` describes

  /** `ArgDataMethods::as_c_ptr`. */
  function DataPointer(d: ArgData): (p: ParamData)
    ensures d.Reference? ==> p == Raw(d.ref)
    ensures d.Callback? ==> p == Raw(d.callback)
    ensures d.Pointer? ==> p == Raw(d.ptr)
    ensures d.String? ==> p == StringSlot(d.s)
    ensures !(d.Reference? || d.Callback? || d.Pointer? || d.String?) ==> p == Storage(d)
  {
    match d
    case Reference(a) => Raw(a)
    case Callback(a) => Raw(a)
    case Pointer(a) => Raw(a)
    case String(s) => StringSlot(s)
    case _ => Storage(d)
  }

  /** `NSIParam_t` as the renderer receives it. */
  datatype Param = Param(name: string, data: ParamData, typ: int, arrayLength: int,
                         count: nat, flags: bv32)

  /** The record `get_c_param_vec` builds for one argument. The count is a
      `usize` division, which panics when the array length is 0. */
  function ToParam(a: Arg): Outcome<Param>
  {
    if a.arrayLength == 0 then Panic
    else Ok(Param(a.name, DataPointer(a.data), TypeCode(TypeOf(a.data)),
                  NsiHeader.AsCInt(a.arrayLength), Len(a.data) / a.arrayLength, a.flags))
  }

  /** How a record describes its argument: same name, data and flags, the
      header code of the data's type, the array length as a C `int`, and
      the number of whole arrays in the data as the count. */
  predicate Describes(p: Param, a: Arg)
  {
    && p.name == a.name && p.data == DataPointer(a.data) && p.flags == a.flags
    && p.typ == NsiHeader.TypeCode(HeaderType(TypeOf(a.data)))
    && p.arrayLength == NsiHeader.AsCInt(a.arrayLength)
    && p.count * a.arrayLength <= Len(a.data) < (p.count + 1) * a.arrayLength
  }

  /** `get_c_param_vec`: one record per argument, in order; no arguments give
      no records; it panics iff some argument has array length 0. */
  function CParamVec(args: Option<seq<Arg>>): (r: Outcome<seq<Param>>)
    ensures args.None? ==> r == Ok([])
    ensures args.Some? ==> (r.Panic? <==> exists i :: 0 <= i < |args.value| && args.value[i].arrayLength == 0)
    ensures args.Some? && r.Ok? ==> |r.value| == |args.value|
    ensures args.Some? && r.Ok? ==> forall i :: 0 <= i < |args.value| ==> Describes(r.value[i], args.value[i])
  {
    match args
    case None => Ok([])
    case Some(list) => ParamsOf(list)
  }

  function ParamsOf(list: seq<Arg>): (r: Outcome<seq<Param>>)
    ensures r.Panic? <==> exists i :: 0 <= i < |list| && list[i].arrayLength == 0
    ensures r.Ok? ==> |r.value| == |list|
    ensures r.Ok? ==> forall i :: 0 <= i < |list| ==> Describes(r.value[i], list[i])
  {
    if |list| == 0 then Ok([])
    else
      match ToParam(list[0])
      case Panic => Panic
      case Ok(p) =>
        DivisionBounds(Len(list[0].data), list[0].arrayLength);
        match ParamsOf(list[1..])
        case Panic => Panic
        case Ok(rest) =>
          assert forall i :: 1 <= i < |list| ==> list[i] == list[1..][i - 1];
          Ok([p] + rest)
  }

  /** Floor division in the form `Describes` states it. */
  lemma DivisionBounds(n: nat, d: nat)
    requires 0 < d
    ensures (n / d) * d <= n < (n / d + 1) * d
  {
  }

  /** The array length is carried unchanged whenever it fits a C `int`. */
  lemma ArrayLengthFits(a: Arg, p: Param)
    requires Describes(p, a) && a.arrayLength <= NsiHeader.IntMax
    ensures p.arrayLength == a.arrayLength
  {
  }
}
