/** The display-driver trampolines of `nsi-ffi-wrap` (`output/mod.rs`): the
    `extern "C"` functions the renderer calls with an image, and the
    accumulating callback pair offered to users. Raw pointers are `Option`s
    (or a flag when only their nullness matters), user closures are opaque
    tokens whose results are parameters, and a `catch_unwind` is `Caught`. */
module DisplayDriver {
  import opened Wrappers
  import opened Utf8
  import opened Ndspy
  import opened PixelFormat
  import PixelType
  import ScanlineCopy

  /** `DisplayData`, the image handle: no pixel buffer, only what the
      callbacks need. */
  datatype DisplayData = DisplayData(
    name: string, width: nat, height: nat, pixelFormat: seq<Layer>,
    fnWrite: Option<Token>, fnFinish: Option<Token>)

  /** The parameter names under which a driver's callbacks are passed. */
  const OpenCallback: string := "callback.open"
  const WriteCallback: string := "callback.write"
  const FinishCallback: string := "callback.finish"

  /** The scan of `extract_callback` from index `k` on: the first matching
      parameter decides, with its value, even when that is null. */
  function SearchFrom(name: string, typ: byte, len: nat, params: seq<UserParameter>, k: nat): (r: Option<Token>)
    requires k <= |params|
    ensures forall i :: (k <= i < |params| && Matches(params[i], name, typ, len)
      && forall j :: k <= j < i ==> !Matches(params[j], name, typ, len)) ==> r == params[i].value
    ensures (forall i :: k <= i < |params| ==> !Matches(params[i], name, typ, len)) ==> r == None
    decreases |params| - k
  {
    if k == |params| then None
    else if Matches(params[k], name, typ, len) then params[k].value
    else SearchFrom(name, typ, len, params, k + 1)
  }

  /** `extract_callback`: the value of the first parameter with this name,
      type byte and count; `None` when there is none. */
  function ExtractCallback(name: string, typ: byte, len: nat, params: seq<UserParameter>): (r: Option<Token>)
    ensures forall i: nat :: FirstMatchAt(params, name, typ, len, i) ==> r == params[i].value
    ensures (forall i :: 0 <= i < |params| ==> !Matches(params[i], name, typ, len)) ==> r == None
  {
    SearchFrom(name, typ, len, params, 0)
  }

  /** A parameter whose name is null or not UTF-8 is passed over. */
  lemma ExtractSkipsUnreadableNames(name: string, typ: byte, len: nat, p: UserParameter, params: seq<UserParameter>)
    requires p.name.NullStr? || !Valid(p.name.bytes)
    ensures ExtractCallback(name, typ, len, [p] + params) == ExtractCallback(name, typ, len, params)
  {
    if p.name.CText? {
      DecodeSomeIffValid(p.name.bytes);
    }
    assert !Matches(([p] + params)[0], name, typ, len);
    SearchShift(name, typ, len, p, params, 0);
  }

  /** Searching behind an extra first parameter, one index further on, is
      the same search. */
  lemma {:induction false} SearchShift(name: string, typ: byte, len: nat, p: UserParameter, params: seq<UserParameter>, k: nat)
    requires k <= |params|
    ensures SearchFrom(name, typ, len, [p] + params, k + 1) == SearchFrom(name, typ, len, params, k)
    decreases |params| - k
  {
    var ps := [p] + params;
    if k < |params| {
      assert ps[k + 1] == params[k];
      SearchShift(name, typ, len, p, params, k + 1);
      assert SearchFrom(name, typ, len, ps, k + 1) ==
        if Matches(params[k], name, typ, len) then params[k].value else SearchFrom(name, typ, len, ps, k + 2);
    } else {
      assert k + 1 == |ps|;
    }
  }

  /** `flags & !PkDspyFlagsWantsEmptyBuckets`. */
  function ClearWantsEmptyBuckets(flags: bv32): (r: bv32)
    ensures r & WantsEmptyBuckets == 0
    ensures r | (flags & WantsEmptyBuckets) == flags
  {
    flags & !WantsEmptyBuckets
  }

  /** The channel records with every type set to `code`. */
  function Retype(format: seq<DevFormat>, code: nat): (r: seq<DevFormat>)
    ensures |r| == |format|
    ensures forall i :: 0 <= i < |r| ==> r[i] == DevFormat(format[i].name, code)
  {
    seq(|format|, i requires 0 <= i < |format| => DevFormat(format[i].name, code))
  }

  /** The channel names of the records. */
  function FormatNames(format: seq<DevFormat>): (r: seq<CChars>)
    ensures |r| == |format| && forall i :: 0 <= i < |r| ==> r[i] == format[i].name
  {
    seq(|format|, i requires 0 <= i < |format| => format[i].name)
  }

  /** The parameter slice: empty when the count is not positive. */
  function ParamSlice(parametersCount: int, params: Option<seq<UserParameter>>): seq<UserParameter>
  {
    if parametersCount > 0 && params.Some? then params.value else []
  }

  /** What `image_open` leaves behind: its return code, the handle it wrote
      (`None` when it wrote none), the channel records and the flags. */
  datatype Opened = Opened(error: PtDspyError, handle: Option<DisplayData>, format: Option<seq<DevFormat>>, flags: bv32)

  /** The argument checks that make `image_open` refuse at once. */
  predicate OpenRejected(handleNull: bool, filename: CStr, parametersCount: int, params: Option<seq<UserParameter>>,
                         formatCount: int, format: Option<seq<DevFormat>>)
  {
    handleNull || filename.NullStr? || format.None? || formatCount <= 0 || (parametersCount > 0 && params.None?)
  }

  /** The channel grouping `image_open` applies: `PixelFormat::new` as
      written, or corrected when `fixed`. */
  function Grouped(format: seq<CChars>, fixed: bool): Outcome<seq<Layer>>
  {
    if fixed then NewFixed(format) else New(format)
  }

  /** `image_open::<T>` past its argument checks, on the parameter slice
      `ps` and the channel records `fmt`. */
  function OpenAccepted(t: PixelType.RustScalar, name: string, width: nat, height: nat,
                        ps: seq<UserParameter>, fmt: seq<DevFormat>, flags: bv32, onOpen: Outcome<Error>,
                        fixed: bool): (r: Opened)
    ensures r.format.Some? && |r.format.value| == |fmt|
    ensures forall i :: 0 <= i < |fmt| ==>
      r.format.value[i].name == fmt[i].name && r.format.value[i].typ == PixelType.NdspyType(t)
    ensures Grouped(FormatNames(fmt), fixed).Panic? ==> r.handle.None?
    ensures r.handle.None? ==> r.flags == flags && r.error == PkDspyErrorUndefined
    ensures r.handle.Some? ==>
      && r.flags == ClearWantsEmptyBuckets(flags)
      && Ok(r.handle.value.pixelFormat) == Grouped(FormatNames(fmt), fixed)
      && r.handle.value == DisplayData(name, width, height, r.handle.value.pixelFormat,
                                       ExtractCallback(WriteCallback, PointerType, 1, ps),
                                       ExtractCallback(FinishCallback, PointerType, 1, ps))
      && (ExtractCallback(OpenCallback, PointerType, 1, ps).None? ==> r.error == PkDspyErrorNone)
      && (ExtractCallback(OpenCallback, PointerType, 1, ps).Some? ==> Ok(FromPtDspyError(r.error)) == onOpen)
  {
    var typed := Retype(fmt, PixelType.NdspyType(t));
    assert FormatNames(typed) == FormatNames(fmt);
    match Grouped(FormatNames(typed), fixed)
    case Panic => Opened(PkDspyErrorUndefined, None, Some(typed), flags)
    case Ok(layers) =>
      var data := DisplayData(name, width, height, layers,
                              ExtractCallback(WriteCallback, PointerType, 1, ps),
                              ExtractCallback(FinishCallback, PointerType, 1, ps));
      var result := if ExtractCallback(OpenCallback, PointerType, 1, ps).Some? then onOpen else Ok(NoError);
      if result.Panic? then Opened(PkDspyErrorUndefined, None, Some(typed), flags)
      else Opened(Caught(result), Some(data), Some(typed), ClearWantsEmptyBuckets(flags))
  }

  /** What `image_open::<T>` guarantees, with the channels grouped as
      written or, when `fixed`, by the corrected grouping: a rejected call
      leaves everything as it was; an accepted one retypes every channel
      record to `T`, and a handle, when it writes one, holds the file name,
      the dimensions as `usize`, the grouped channels and the write and
      finish closures the parameters carry. */
  predicate OpenResult(r: Opened, t: PixelType.RustScalar, handleNull: bool, filename: CStr, width: int, height: int,
                       parametersCount: int, params: Option<seq<UserParameter>>,
                       formatCount: int, format: Option<seq<DevFormat>>, flags: bv32, onOpen: Outcome<Error>, fixed: bool)
    requires CInt(width) && CInt(height)
    requires format.Some? && formatCount > 0 ==> |format.value| == formatCount
  {
    && (OpenRejected(handleNull, filename, parametersCount, params, formatCount, format) ==>
          r == Opened(PkDspyErrorBadParams, None, format, flags))
    && (!OpenRejected(handleNull, filename, parametersCount, params, formatCount, format) ==>
          && r.format.Some? && |r.format.value| == formatCount
          && (forall i :: 0 <= i < formatCount ==>
                r.format.value[i].name == format.value[i].name && r.format.value[i].typ == PixelType.NdspyType(t))
          && (Grouped(FormatNames(format.value), fixed).Panic? ==> r.handle.None?)
          && (r.handle.None? ==> r.error == PkDspyErrorUndefined))
    && (r.handle.None? ==> r.flags == flags)
    && (r.handle.Some? ==> !OpenRejected(handleNull, filename, parametersCount, params, formatCount, format))
    && (r.handle.Some? && !OpenRejected(handleNull, filename, parametersCount, params, formatCount, format) ==>
          && r.flags == ClearWantsEmptyBuckets(flags)
          && var ps := ParamSlice(parametersCount, params);
          && Ok(r.handle.value.pixelFormat) == Grouped(FormatNames(format.value), fixed)
          && r.handle.value == DisplayData(Lossy(filename.bytes), AsUsize(width), AsUsize(height), r.handle.value.pixelFormat,
                                           ExtractCallback(WriteCallback, PointerType, 1, ps),
                                           ExtractCallback(FinishCallback, PointerType, 1, ps))
          && (ExtractCallback(OpenCallback, PointerType, 1, ps).None? ==> r.error == PkDspyErrorNone)
          && (ExtractCallback(OpenCallback, PointerType, 1, ps).Some? ==> Ok(FromPtDspyError(r.error)) == onOpen))
  }

  /** `image_open::<T>` with the grouping switch. */
  function Open(t: PixelType.RustScalar, handleNull: bool, filename: CStr, width: int, height: int,
                parametersCount: int, params: Option<seq<UserParameter>>,
                formatCount: int, format: Option<seq<DevFormat>>, flags: bv32, onOpen: Outcome<Error>, fixed: bool): (r: Opened)
    requires CInt(width) && CInt(height) && 0 <= parametersCount
    requires params.Some? && parametersCount > 0 ==> |params.value| == parametersCount
    requires format.Some? && formatCount > 0 ==> |format.value| == formatCount
    ensures OpenResult(r, t, handleNull, filename, width, height, parametersCount, params, formatCount, format, flags, onOpen, fixed)
  {
    if OpenRejected(handleNull, filename, parametersCount, params, formatCount, format) then
      Opened(PkDspyErrorBadParams, None, format, flags)
    else
      OpenAccepted(t, Lossy(filename.bytes), AsUsize(width), AsUsize(height),
                   ParamSlice(parametersCount, params), format.value, flags, onOpen, fixed)
  }

  /** `image_open::<T>` as written: the channels are grouped by
      `PixelFormat::new`, whose first step may open a spurious layer.
      `onOpen` is what the user's open closure returns (or `Panic`) if the
      parameters carry one. */
  function ImageOpen(t: PixelType.RustScalar, handleNull: bool, filename: CStr, width: int, height: int,
                     parametersCount: int, params: Option<seq<UserParameter>>,
                     formatCount: int, format: Option<seq<DevFormat>>, flags: bv32, onOpen: Outcome<Error>): (r: Opened)
    requires CInt(width) && CInt(height) && 0 <= parametersCount
    requires params.Some? && parametersCount > 0 ==> |params.value| == parametersCount
    requires format.Some? && formatCount > 0 ==> |format.value| == formatCount
    ensures OpenResult(r, t, handleNull, filename, width, height, parametersCount, params, formatCount, format, flags, onOpen, false)
    ensures r.handle.Some? ==> Ok(r.handle.value.pixelFormat) == New(FormatNames(format.value))
  {
    Open(t, handleNull, filename, width, height, parametersCount, params, formatCount, format, flags, onOpen, false)
  }

  /** `image_open::<T>` with the corrected grouping. */
  function ImageOpenFixed(t: PixelType.RustScalar, handleNull: bool, filename: CStr, width: int, height: int,
                          parametersCount: int, params: Option<seq<UserParameter>>,
                          formatCount: int, format: Option<seq<DevFormat>>, flags: bv32, onOpen: Outcome<Error>): (r: Opened)
    requires CInt(width) && CInt(height) && 0 <= parametersCount
    requires params.Some? && parametersCount > 0 ==> |params.value| == parametersCount
    requires format.Some? && formatCount > 0 ==> |format.value| == formatCount
    ensures OpenResult(r, t, handleNull, filename, width, height, parametersCount, params, formatCount, format, flags, onOpen, true)
    ensures r.handle.Some? ==> Ok(r.handle.value.pixelFormat) == NewFixed(FormatNames(format.value))
  {
    Open(t, handleNull, filename, width, height, parametersCount, params, formatCount, format, flags, onOpen, true)
  }

  /** ASCII text is read back from its bytes. */
  lemma AsciiDecodes(s: string, b: seq<byte>)
    requires |b| == |s| && forall i :: 0 <= i < |s| ==> s[i] as int < 0x80 && b[i] as int == s[i] as int
    ensures Decode(b) == Some(s)
  {
    EncodeAscii(s);
    assert Encode(s) == b;
    DecodeEncode(s);
  }

  /** The single channel record of a depth output, `z.000`, and the
      parameter carrying a write closure. */
  const DepthFormat: seq<DevFormat> := [DevFormat([122, 46, 48, 48, 48], 1)]
  function WriteParam(tok: Token): UserParameter
  {
    UserParameter(CText([99, 97, 108, 108, 98, 97, 99, 107, 46, 119, 114, 105, 116, 101]), PointerType, 1, Some(tok))
  }

  /** The depth record's channel id reads back as `z.000`. */
  lemma DepthChannelIds()
    ensures var names := FormatNames(DepthFormat);
      seq(|names|, i requires 0 <= i < |names| => ChannelName(names[i])) == ["z.000"]
  {
    var b := DepthFormat[0].name;
    AsciiDecodes("z.000", b);
    DecodeSomeIffValid(b);
    assert ChannelName(b) == "z.000";
  }

  /** The depth channel groups into two layers as written and one when fixed. */
  lemma DepthGroups()
    ensures New(FormatNames(DepthFormat)) == Ok([Layer("z", OneChannel, 0), Layer("z", OneChannel, 0)])
    ensures NewFixed(FormatNames(DepthFormat)) == Ok([Layer("z", OneChannel, 0)])
  {
    DepthChannelIds();
    ScalarFirstChannelDuplicated();
  }

  /** The same, through the grouping switch of `image_open`. */
  lemma DepthGrouped(fixed: bool)
    ensures Grouped(FormatNames(DepthFormat), fixed) == Ok(DepthLayers(fixed))
  {
    DepthGroups();
  }

  /** The write-closure parameter is found as the write closure, and as no other. */
  lemma WriteParamFound(tok: Token)
    ensures ExtractCallback(WriteCallback, PointerType, 1, [WriteParam(tok)]) == Some(tok)
    ensures ExtractCallback(OpenCallback, PointerType, 1, [WriteParam(tok)]) == None
    ensures ExtractCallback(FinishCallback, PointerType, 1, [WriteParam(tok)]) == None
  {
    AsciiDecodes(WriteCallback, WriteParam(tok).name.bytes);
    assert Matches(WriteParam(tok), WriteCallback, PointerType, 1);
  }

  /** The layers the depth channel groups into, as written or fixed. */
  function DepthLayers(fixed: bool): seq<Layer>
  {
    if fixed then [Layer("z", OneChannel, 0)] else [Layer("z", OneChannel, 0), Layer("z", OneChannel, 0)]
  }

  /** Opening the depth output with a write closure stores its layers. */
  lemma DepthOpened(t: PixelType.RustScalar, tok: Token, fixed: bool)
    ensures Open(t, false, CText([]), 1, 1, 1, Some([WriteParam(tok)]), 1, Some(DepthFormat), 0, Ok(NoError), fixed).handle
      == Some(DisplayData(Lossy([]), 1, 1, DepthLayers(fixed), Some(tok), None))
  {
    var ps := [WriteParam(tok)];
    assert !OpenRejected(false, CText([]), 1, Some(ps), 1, Some(DepthFormat));
    assert ParamSlice(1, Some(ps)) == ps;
    DepthAccepted(t, tok, fixed);
  }

  /** The accepted part of that open. */
  lemma DepthAccepted(t: PixelType.RustScalar, tok: Token, fixed: bool)
    ensures OpenAccepted(t, Lossy([]), 1, 1, [WriteParam(tok)], DepthFormat, 0, Ok(NoError), fixed).handle
      == Some(DisplayData(Lossy([]), 1, 1, DepthLayers(fixed), Some(tok), None))
  {
    var typed := Retype(DepthFormat, PixelType.NdspyType(t));
    assert FormatNames(typed) == FormatNames(DepthFormat);
    DepthGrouped(fixed);
    WriteParamFound(tok);
  }

  /** A one-pixel bucket on a handle with the depth layers. */
  lemma DepthBucket<T>(name: string, tok: Token, pixels: seq<T>, fixed: bool)
    requires |pixels| >= 2
    ensures var n := if fixed then 1 else 2;
      && TotalChannels(DepthLayers(fixed)) == n
      && ImageWrite(Some(DisplayData(name, 1, 1, DepthLayers(fixed), Some(tok), None)), 0, 1, 0, 1, Some(pixels), Ok(NoError)).bucket
         == Some(pixels[..n])
  {
    var one := [Layer("z", OneChannel, 0)];
    assert TotalChannels(one) == 1 by {
      assert one[..0] == [];
    }
    assert TotalChannels(DepthLayers(false)) == 2 by {
      assert DepthLayers(false)[..1] == one;
    }
  }

  /** A depth output as written: the renderer sends one channel, `z.000`,
      but `image_open` stores two layers, so `image_write` hands the write
      closure two values per pixel of a one-channel bucket. The corrected
      grouping stores one layer and hands over one value per pixel. */
  lemma DepthWriteReadsTwice<T>(t: PixelType.RustScalar, tok: Token, pixels: seq<T>)
    requires |pixels| >= 2
    ensures var d := ImageOpen(t, false, CText([]), 1, 1, 1, Some([WriteParam(tok)]), 1, Some(DepthFormat), 0, Ok(NoError)).handle;
      && d.Some? && TotalChannels(d.value.pixelFormat) == 2 * |DepthFormat|
      && ImageWrite(d, 0, 1, 0, 1, Some(pixels), Ok(NoError)).bucket == Some(pixels[..2])
    ensures var e := ImageOpenFixed(t, false, CText([]), 1, 1, 1, Some([WriteParam(tok)]), 1, Some(DepthFormat), 0, Ok(NoError)).handle;
      && e.Some? && TotalChannels(e.value.pixelFormat) == |DepthFormat|
      && ImageWrite(e, 0, 1, 0, 1, Some(pixels), Ok(NoError)).bucket == Some(pixels[..1])
  {
    DepthOpened(t, tok, false);
    DepthOpened(t, tok, true);
    DepthBucket(Lossy([]), tok, pixels, false);
    DepthBucket(Lossy([]), tok, pixels, true);
  }

  /** Open then close: the finish closure receives the file name, the
      dimensions and exactly the channel layers `image_open` grouped. */
  lemma OpenThenClose(t: PixelType.RustScalar, filename: CStr, width: int, height: int, params: seq<UserParameter>,
                      format: seq<DevFormat>, flags: bv32, onOpen: Outcome<Error>, onFinish: Outcome<Error>, fixed: bool)
    requires CInt(width) && CInt(height) && filename.CText? && |format| > 0
    requires Open(t, false, filename, width, height, |params|, Some(params), |format|, Some(format), flags, onOpen, fixed).handle.Some?
    requires Open(t, false, filename, width, height, |params|, Some(params), |format|, Some(format), flags, onOpen, fixed).handle.value.fnFinish.Some?
    ensures var d := Open(t, false, filename, width, height, |params|, Some(params), |format|, Some(format), flags, onOpen, fixed).handle;
      var r := ImageClose(d, onFinish);
      && Grouped(FormatNames(format), fixed).Ok?
      && r.1 == Some(Finished(Lossy(filename.bytes), AsUsize(width), AsUsize(height), Grouped(FormatNames(format), fixed).value))
      && (onFinish.Ok? ==> FromPtDspyError(r.0) == onFinish.value)
      && (onFinish.Panic? ==> r.0 == PkDspyErrorUndefined)
  {
  }

  /** The field a successful query sets in the renderer's struct. */
  datatype Answer = ProgressFunction | AcceptProgressive | Multithread | CookedPixels | OverwriteAllowed

  /** `size_of` the ndspy structs that the queries fill; `ndspy.h` fixes
      them, and it is not part of this model. */
  datatype StructSizes = StructSizes(progressive: nat, thread: nat, cooked: nat, overwrite: nat)

  /** The decision table of `image_query`: for each query that fills a
      struct, the struct's size and the field set. */
  function Fills(q: QueryType, sizes: StructSizes): Option<(nat, Answer)>
  {
    match q
    case RenderProgress => Some((PointerBytes, ProgressFunction))
    case Progressive => Some((sizes.progressive, AcceptProgressive))
    case Thread => Some((sizes.thread, Multithread))
    case Cooked => Some((sizes.cooked, CookedPixels))
    case Overwrite => Some((sizes.overwrite, OverwriteAllowed))
    case StopQuery => None
    case Other(_) => None
  }

  /** The guard every filling query applies before writing. */
  function Filled(dataLen: int, dataNull: bool, size: nat, field: Answer): (PtDspyError, Option<Answer>)
    requires CInt(dataLen)
  {
    if AsUsize(dataLen) < size || dataNull then (PkDspyErrorBadParams, None) else (PkDspyErrorNone, Some(field))
  }

  /** `image_query`: the return code, and the field written, if any. */
  function ImageQuery(q: QueryType, dataLen: int, dataNull: bool, sizes: StructSizes): (r: (PtDspyError, Option<Answer>))
    requires CInt(dataLen)
    ensures Fills(q, sizes).Some? ==>
      var (size, field) := Fills(q, sizes).value;
      r == if AsUsize(dataLen) < size || dataNull then (PkDspyErrorBadParams, None) else (PkDspyErrorNone, Some(field))
    ensures q == StopQuery ==> r == (PkDspyErrorNone, None)
    ensures q.Other? ==> r == (PkDspyErrorUnsupported, None)
    ensures r.1.Some? <==> r.0 == PkDspyErrorNone && q != StopQuery
  {
    match q
    case RenderProgress => Filled(dataLen, dataNull, PointerBytes, ProgressFunction)
    case Progressive => Filled(dataLen, dataNull, sizes.progressive, AcceptProgressive)
    case Thread => Filled(dataLen, dataNull, sizes.thread, Multithread)
    case Cooked => Filled(dataLen, dataNull, sizes.cooked, CookedPixels)
    case StopQuery => (PkDspyErrorNone, None)
    case Overwrite => Filled(dataLen, dataNull, sizes.overwrite, OverwriteAllowed)
    case Other(_) => (PkDspyErrorUnsupported, None)
  }

  /** A negative `data_len` wraps to a huge `usize`, so it passes every
      length check. */
  lemma NegativeLengthAccepted(q: QueryType, dataLen: int, sizes: StructSizes)
    requires CInt(dataLen) && dataLen < 0 && Fills(q, sizes).Some?
    requires sizes.progressive < 0x8000_0000 && sizes.thread < 0x8000_0000
    requires sizes.cooked < 0x8000_0000 && sizes.overwrite < 0x8000_0000
    ensures ImageQuery(q, dataLen, false, sizes) == (PkDspyErrorNone, Some(Fills(q, sizes).value.1))
  {
  }

  /** The arguments other than the bucket that `image_write` hands the write
      closure: the handle's name, size and layers, and the bucket corners
      cast with `as usize`. */
  datatype WriteArgs = WriteArgs(name: string, width: nat, height: nat,
                                 x0: nat, x1: nat, y0: nat, y1: nat, format: seq<Layer>)

  /** What `image_write` returned, and the bucket and other arguments it
      handed to the write closure, if it called one. */
  datatype Wrote<T> = Wrote(error: PtDspyError, bucket: Option<seq<T>>, args: Option<WriteArgs>)

  /** Whether the bucket dimensions overflow: the `c_int` subtractions, or
      the `usize` product of the value count. Either panics. */
  predicate WriteOverflows(x0: int, x1: int, y0: int, y1: int, channels: nat)
    requires x0 <= x1 && y0 <= y1
  {
    x1 - x0 >= 0x8000_0000 || y1 - y0 >= 0x8000_0000 || BucketValues(x0, x1, y0, y1, channels) >= UsizeModulus
  }

  /** The number of values in a bucket: `bucket_width·bucket_height·channels`. */
  function BucketValues(x0: int, x1: int, y0: int, y1: int, channels: nat): nat
    requires x0 <= x1 && y0 <= y1
  {
    (x1 - x0) * (y1 - y0) * channels
  }

  /** `image_write::<T>`. `pixels` is the bucket memory (`None` for a null
      pointer) and `onWrite` what the user's write closure returns. */
  function ImageWrite<T>(handle: Option<DisplayData>, x0: int, x1: int, y0: int, y1: int,
                         pixels: Option<seq<T>>, onWrite: Outcome<Error>): (r: Wrote<T>)
    requires CInt(x0) && CInt(x1) && CInt(y0) && CInt(y1) && x0 <= x1 && y0 <= y1
    requires handle.Some? && pixels.Some? ==> BucketValues(x0, x1, y0, y1, TotalChannels(handle.value.pixelFormat)) <= |pixels.value|
    ensures handle.None? ==> r == Wrote(PkDspyErrorBadParams, None, None)
    ensures handle.Some? && WriteOverflows(x0, x1, y0, y1, TotalChannels(handle.value.pixelFormat)) ==>
      r == Wrote(PkDspyErrorUndefined, None, None)
    ensures r.bucket.Some? <==>
      handle.Some? && pixels.Some? && handle.value.fnWrite.Some?
      && !WriteOverflows(x0, x1, y0, y1, TotalChannels(handle.value.pixelFormat))
    ensures r.bucket.Some? ==>
      && |r.bucket.value| == BucketValues(x0, x1, y0, y1, TotalChannels(handle.value.pixelFormat))
      && r.bucket.value == pixels.value[..|r.bucket.value|]
      && r.error == Caught(onWrite)
    ensures r.bucket.None? && handle.Some? && !WriteOverflows(x0, x1, y0, y1, TotalChannels(handle.value.pixelFormat)) ==>
      r.error == PkDspyErrorNone
    ensures r.args.Some? <==> r.bucket.Some?
    ensures r.args.Some? ==>
      var a, d := r.args.value, handle.value;
      && a.name == d.name && a.width == d.width && a.height == d.height && a.format == d.pixelFormat
      && a.x0 == AsUsize(x0) && a.x1 == AsUsize(x1) && a.y0 == AsUsize(y0) && a.y1 == AsUsize(y1)
  {
    if handle.None? then Wrote(PkDspyErrorBadParams, None, None)
    else
      var channels := TotalChannels(handle.value.pixelFormat);
      if WriteOverflows(x0, x1, y0, y1, channels) then Wrote(PkDspyErrorUndefined, None, None)
      else
        var count := BucketValues(x0, x1, y0, y1, channels);
        if pixels.None? then Wrote(PkDspyErrorNone, None, None)
        else if handle.value.fnWrite.None? then Wrote(PkDspyErrorNone, None, None)
        else
          var d := handle.value;
          var args := WriteArgs(d.name, d.width, d.height, AsUsize(x0), AsUsize(x1), AsUsize(y0), AsUsize(y1), d.pixelFormat);
          Wrote(Caught(onWrite), Some(pixels.value[..count]), Some(args))
  }

  /** A driver opened with a negative `c_int` width hands the write closure
      a width of at least `2^64 - 2^31` (the `as usize` cast of
      `image_open`), so the accumulating closure's first buffer cannot be
      allocated: that closure panics, and `image_write` answers `Undefined`. */
  lemma NegativeWidthPanicsFirstBucket<T>(d: DisplayData, w: int, x0: int, x1: int, y0: int, y1: int,
                                          pixels: seq<T>, elemBytes: nat)
    requires CInt(w) && w < 0 && d.width == AsUsize(w) && 0 < d.height && d.fnWrite.Some?
    requires 0 < TotalChannels(d.pixelFormat) && 0 < elemBytes
    requires CInt(x0) && CInt(x1) && CInt(y0) && CInt(y1) && x0 <= x1 && y0 <= y1
    requires BucketValues(x0, x1, y0, y1, TotalChannels(d.pixelFormat)) <= |pixels|
    requires !WriteOverflows(x0, x1, y0, y1, TotalChannels(d.pixelFormat))
    ensures var r := ImageWrite(Some(d), x0, x1, y0, y1, Some(pixels), Panic);
      && r.args.Some? && r.args.value.width == AsUsize(w)
      && AllocPanics(r.args.value.width, r.args.value.height, TotalChannels(r.args.value.format), elemBytes)
      && r.error == PkDspyErrorUndefined
  {
    var c := TotalChannels(d.pixelFormat);
    ScanlineCopy.MulMono(1, d.height, d.width);
    ScanlineCopy.MulMono(1, c, d.width * d.height);
    ScanlineCopy.MulMono(1, elemBytes, d.width * d.height * c);
  }

  /** What the finish closure receives from `image_close`. */
  datatype Finished = Finished(name: string, width: nat, height: nat, format: seq<Layer>)

  /** `image_close::<T>`: `onFinish` is what the user's finish closure returns. */
  function ImageClose(handle: Option<DisplayData>, onFinish: Outcome<Error>): (r: (PtDspyError, Option<Finished>))
    ensures handle.None? ==> r == (PkDspyErrorBadParams, None)
    ensures handle.Some? && handle.value.fnFinish.None? ==> r == (PkDspyErrorNone, None)
    ensures handle.Some? && handle.value.fnFinish.Some? ==>
      && r.1 == Some(Finished(handle.value.name, handle.value.width, handle.value.height, handle.value.pixelFormat))
      && (onFinish.Ok? ==> FromPtDspyError(r.0) == onFinish.value)
      && (onFinish.Panic? ==> r.0 == PkDspyErrorUndefined)
  {
    match handle
    case None => (PkDspyErrorBadParams, None)
    case Some(d) =>
      if d.fnFinish.None? then (PkDspyErrorNone, None)
      else (Caught(onFinish), Some(Finished(d.name, d.width, d.height, d.pixelFormat)))
  }

  /** The state the accumulating write and finish closures share. After a
      panic the lock is poisoned and every later lock panics. */
  datatype AccumState<T> = AccumState(buffer: seq<T>, width: nat, height: nat, channels: nat,
                                      initialized: bool, poisoned: bool)

  /** Whether allocating the first bucket's buffer panics: in a debug
      build, `width * height * channels` panics when a `usize` product
      overflows, and `vec!` panics with "capacity overflow" when the buffer
      would span more than `isize::MAX` bytes. `elemBytes` is
      `size_of::<T>()`. */
  predicate AllocPanics(width: nat, height: nat, channels: nat, elemBytes: nat)
  {
    width * height >= UsizeModulus || width * height * channels >= UsizeModulus
    || width * height * channels * elemBytes > IsizeMax
  }

  /** The state on the first bucket: the image dimensions and channel count
      are fixed, and the buffer holds `width·height·channels` defaults,
      unless that allocation panics. Later buckets keep the state. */
  function Initialized<T>(s: AccumState<T>, zero: T, width: nat, height: nat, format: seq<Layer>, elemBytes: nat)
    : (r: Outcome<AccumState<T>>)
    ensures s.initialized ==> r == Ok(s)
    ensures !s.initialized ==> (r.Panic? <==> AllocPanics(width, height, TotalChannels(format), elemBytes))
    ensures !s.initialized && r.Ok? ==>
      && r.value.width == width && r.value.height == height && r.value.channels == TotalChannels(format)
      && r.value.initialized && r.value.poisoned == s.poisoned
      && |r.value.buffer| == width * height * TotalChannels(format) < UsizeModulus
      && forall i :: 0 <= i < |r.value.buffer| ==> r.value.buffer[i] == zero
  {
    if s.initialized then Ok(s)
    else
      var channels := TotalChannels(format);
      if AllocPanics(width, height, channels, elemBytes) then Panic
      else
        Ok(s.(width := width, height := height, channels := channels,
              buffer := seq(width * height * channels, _ => zero), initialized := true))
  }

  /** The number of bucket rows: `y_min..y_max_plus_one` is empty when reversed. */
  function Rows(y0: nat, y1: nat): nat
  {
    if y0 < y1 then y1 - y0 else 0
  }

  /** Whether the accumulating write copies every row without panicking:
      `x_max_plus_one - x_min` does not underflow, and every row's slice
      lies inside the buffer and the bucket. */
  predicate WriteFits<T>(s: AccumState<T>, x0: nat, x1: nat, y0: nat, y1: nat, bucketLen: nat)
  {
    x0 <= x1 && ScanlineCopy.Fits(|s.buffer|, bucketLen, s.width, s.channels, x0, x1 - x0, y0, Rows(y0, y1))
  }

  /** The write closure of `AccumulatingCallbacks::new`. It returns the new
      shared state and the closure's result. `elemBytes` is
      `size_of::<T>()`. A panic while the lock is held poisons it. */
  method AccumulateWrite<T>(s: AccumState<T>, zero: T, elemBytes: nat, width: nat, height: nat,
                            x0: nat, x1: nat, y0: nat, y1: nat, format: seq<Layer>, bucket: seq<T>)
    returns (next: AccumState<T>, result: Outcome<Error>)
    ensures s.poisoned ==> next == s && result.Panic?
    ensures !s.poisoned ==>
      var init := Initialized(s, zero, width, height, format, elemBytes);
      && (result.Panic? <==> init.Panic? || !WriteFits(init.value, x0, x1, y0, y1, |bucket|))
      && (result.Panic? ==> next.poisoned)
      && (result.Ok? ==>
        && result.value == NoError && !next.poisoned
        && next.width == init.value.width && next.height == init.value.height
        && next.channels == init.value.channels && next.initialized
        && ScanlineCopy.KeepsUntouched(init.value.buffer, next.buffer, init.value.width, init.value.channels,
                                       x0, x1 - x0, y0, Rows(y0, y1))
        && (x1 - x0 <= init.value.width ==>
              ScanlineCopy.HoldsRows(next.buffer, bucket, init.value.width, init.value.channels,
                                     x0, x1 - x0, y0, Rows(y0, y1))))
  {
    if s.poisoned {
      return s, Panic;
    }
    var init := Initialized(s, zero, width, height, format, elemBytes);
    if init.Panic? {
      return s.(width := width, height := height, channels := TotalChannels(format), poisoned := true), Panic;
    }
    var st := init.value;
    if !WriteFits(st, x0, x1, y0, y1, |bucket|) {
      return st.(poisoned := true), Panic;
    }
    var buffer := ScanlineCopy.CopyRows(st.buffer, bucket, st.width, st.channels, x0, x1 - x0, y0, Rows(y0, y1));
    return st.(buffer := buffer), Ok(NoError);
  }

  /** The finish closure: it takes the whole buffer for `on_finish`, leaving
      the shared buffer empty. */
  function AccumulateFinish<T>(s: AccumState<T>): (r: Outcome<(AccumState<T>, seq<T>)>)
    ensures s.poisoned <==> r.Panic?
    ensures r.Ok? ==> r.value.1 == s.buffer && |r.value.0.buffer| == 0
    ensures r.Ok? ==> r.value.0 == s.(buffer := r.value.0.buffer)
  {
    if s.poisoned then Panic else Ok((s.(buffer := []), s.buffer))
  }

  /** A bucket inside the image fits the buffer the first write allocated. */
  lemma BucketInsideImageFits<T>(s: AccumState<T>, x0: nat, x1: nat, y0: nat, y1: nat, bucketLen: nat)
    requires |s.buffer| == s.width * s.height * s.channels
    requires x0 <= x1 <= s.width && y1 <= s.height
    requires (x1 - x0) * Rows(y0, y1) * s.channels <= bucketLen
    ensures WriteFits(s, x0, x1, y0, y1, bucketLen)
  {
    var rows, bw := Rows(y0, y1), x1 - x0;
    assert rows * (bw * s.channels) == bw * rows * s.channels;
    if rows > 0 {
      ScanlineCopy.InsideFits(|s.buffer|, bucketLen, s.width, s.height, s.channels, x0, bw, y0, rows);
    }
  }

  /** After finish, the buffer is empty but the state stays initialised, so
      a further non-empty bucket panics. */
  lemma WriteAfterFinishPanics<T>(s: AccumState<T>, x0: nat, x1: nat, y0: nat, y1: nat, bucketLen: nat)
    requires !s.poisoned && s.initialized && s.channels > 0 && x0 < x1 && y0 < y1
    requires AccumulateFinish(s).Ok?
    ensures !WriteFits(AccumulateFinish(s).value.0, x0, x1, y0, y1, bucketLen)
  {
    var e := AccumulateFinish(s).value.0;
    assert (x1 - x0) * e.channels > 0 by {
      ScanlineCopy.MulMono(1, x1 - x0, e.channels);
    }
  }
}
