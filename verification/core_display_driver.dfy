/** The display-driver trampolines of `nsi-core` (`output/mod.rs`). Unlike
    the `nsi-ffi-wrap` ones they keep a full `f32` image, copy each bucket
    into it, and hand the whole image to the write and finish closures.
    Nothing catches a panic here: `Panic` means the process aborts. */
module CoreDisplayDriver {
  import opened Wrappers
  import opened Utf8
  import opened Ndspy
  import PixelFormat
  import CorePixelFormat
  import ScanlineCopy
  import DisplayDriver

  /** An `f32` by its bit pattern; no arithmetic is done on pixel values. */
  type F32 = bv32

  /** The bit pattern of `0.0f32`. */
  const Zero: F32 := 0

  /** `DisplayData` of `nsi-core`: the handle, with the image buffer. */
  datatype CoreData = CoreData(
    name: string, width: nat, height: nat, pixelFormat: seq<PixelFormat.Layer>, pixelData: seq<F32>,
    fnWrite: Option<Token>, fnFinish: Option<Token>)

  /** Whether every parameter name is UTF-8. */
  predicate NamesValid(params: seq<UserParameter>)
  {
    forall i :: 0 <= i < |params| ==> params[i].name.CText? && Valid(params[i].name.bytes)
  }

  /** The scan of `get_parameter_triple_box` from index `k` on. It unwraps
      the UTF-8 conversion of every name it reaches, so it panics at a
      non-UTF-8 name that comes before the first match. */
  function SearchFrom(name: string, typ: byte, len: nat, params: seq<UserParameter>, k: nat): (r: Outcome<Option<Token>>)
    requires k <= |params|
    requires forall i :: 0 <= i < |params| ==> params[i].name.CText?
    ensures (forall i :: k <= i < |params| ==> Valid(params[i].name.bytes)) ==>
      r == Ok(DisplayDriver.SearchFrom(name, typ, len, params, k))
    ensures forall i :: (k <= i < |params| && !Valid(params[i].name.bytes)
      && forall j :: k <= j < i ==> !Matches(params[j], name, typ, len)) ==> r.Panic?
    decreases |params| - k
  {
    if k == |params| then Ok(None)
    else
      DecodeSomeIffValid(params[k].name.bytes);
      if Decode(params[k].name.bytes).None? then Panic
      else if Matches(params[k], name, typ, len) then Ok(params[k].value)
      else SearchFrom(name, typ, len, params, k + 1)
  }

  /** `get_parameter_triple_box`: where every name is UTF-8, the same first
      match rule as `extract_callback`. */
  function GetParameterTripleBox(name: string, typ: byte, len: nat, params: seq<UserParameter>): (r: Outcome<Option<Token>>)
    requires forall i :: 0 <= i < |params| ==> params[i].name.CText?
    ensures NamesValid(params) ==> r == Ok(DisplayDriver.ExtractCallback(name, typ, len, params))
    ensures forall i :: (0 <= i < |params| && !Valid(params[i].name.bytes)
      && forall j :: 0 <= j < i ==> !Matches(params[j], name, typ, len)) ==> r.Panic?
  {
    SearchFrom(name, typ, len, params, 0)
  }

  /** `(width * height * format_count) as usize` in `c_int` arithmetic: an
      overflow panics, and a negative product becomes a length too large
      for `vec!`, which panics too. */
  function BufferLen(width: int, height: int, count: int): (r: Outcome<nat>)
    ensures r.Ok? <==> CInt(width * height) && 0 <= width * height * count < 0x8000_0000
    ensures r.Ok? ==> r.value == width * height * count
  {
    var area := width * height;
    if !CInt(area) || !CInt(area * count) || area * count < 0 then Panic else Ok(area * count)
  }

  /** What `image_open` leaves behind when it returns. */
  datatype CoreOpened = CoreOpened(error: PtDspyError, handle: Option<CoreData>, format: seq<DevFormat>, flags: bv32)

  /** The three callback lookups of `image_open`, for the write, finish and
      open closures. */
  datatype Lookups = Lookups(write: Outcome<Option<Token>>, finish: Outcome<Option<Token>>, open: Outcome<Option<Token>>)

  /** Whether `image_open` panics after reading the file name: the buffer
      length, a callback lookup, the channel grouping or the open closure. */
  predicate SetupPanics(width: int, height: int, found: Lookups, format: seq<DevFormat>, onOpen: Outcome<Error>)
  {
    || BufferLen(width, height, |format|).Panic?
    || found.write.Panic? || found.finish.Panic? || found.open.Panic?
    || CorePixelFormat.New(DisplayDriver.FormatNames(format)).Panic?
    || (found.open.Ok? && found.open.value.Some? && onOpen.Panic?)
  }

  /** What a successful `image_open` leaves: the flags overwritten, every
      channel retyped to `f32`, a zeroed image of `width·height·channels`
      values, the grouped channels, the looked-up closures, and the open
      closure's result (or none). */
  predicate Opens(o: CoreOpened, width: int, height: int, found: Lookups, format: seq<DevFormat>, onOpen: Outcome<Error>)
    requires CInt(width) && CInt(height)
  {
    && o.handle.Some?
    && o.flags == WantsEmptyBuckets
    && |o.format| == |format|
    && (forall i :: 0 <= i < |format| ==> o.format[i].name == format[i].name && o.format[i].typ == Float32)
    && o.handle.value.width == AsUsize(width) && o.handle.value.height == AsUsize(height)
    && |o.handle.value.pixelData| == width * height * |format|
    && (forall i :: 0 <= i < |o.handle.value.pixelData| ==> o.handle.value.pixelData[i] == Zero)
    && Ok(o.handle.value.pixelFormat) == CorePixelFormat.New(DisplayDriver.FormatNames(format))
    && Ok(o.handle.value.fnWrite) == found.write && Ok(o.handle.value.fnFinish) == found.finish
    && (found.open == Ok(None) ==> o.error == PkDspyErrorNone)
    && (found.open.Ok? && found.open.value.Some? ==> Ok(FromPtDspyError(o.error)) == onOpen)
  }

  /** `image_open` past its pointer checks, given the callback lookups. */
  function OpenAccepted(name: string, width: int, height: int, found: Lookups, format: seq<DevFormat>,
                        onOpen: Outcome<Error>): (r: Outcome<CoreOpened>)
    requires CInt(width) && CInt(height)
    ensures r.Panic? <==> SetupPanics(width, height, found, format, onOpen)
    ensures r.Ok? ==> Opens(r.value, width, height, found, format, onOpen) && r.value.handle.value.name == name
  {
    var typed := DisplayDriver.Retype(format, Float32);
    assert DisplayDriver.FormatNames(typed) == DisplayDriver.FormatNames(format);
    var buffer, layers := BufferLen(width, height, |format|), CorePixelFormat.New(DisplayDriver.FormatNames(typed));
    if buffer.Panic? || found.write.Panic? || found.finish.Panic? || layers.Panic? || found.open.Panic? then Panic
    else
      var result := if found.open.value.Some? then onOpen else Ok(NoError);
      if result.Panic? then Panic
      else
        var data := CoreData(name, AsUsize(width), AsUsize(height), layers.value, seq(buffer.value, _ => Zero),
                             found.write.value, found.finish.value);
        Ok(CoreOpened(Caught(result), Some(data), typed, WantsEmptyBuckets))
  }

  /** The lookups `image_open` performs on its parameters. */
  function FindCallbacks(params: seq<UserParameter>): (r: Lookups)
    requires forall i :: 0 <= i < |params| ==> params[i].name.CText?
    ensures NamesValid(params) ==>
      && r.write == Ok(DisplayDriver.ExtractCallback(DisplayDriver.WriteCallback, PointerType, 1, params))
      && r.finish == Ok(DisplayDriver.ExtractCallback(DisplayDriver.FinishCallback, PointerType, 1, params))
      && r.open == Ok(DisplayDriver.ExtractCallback(DisplayDriver.OpenCallback, PointerType, 1, params))
  {
    Lookups(GetParameterTripleBox(DisplayDriver.WriteCallback, PointerType, 1, params),
            GetParameterTripleBox(DisplayDriver.FinishCallback, PointerType, 1, params),
            GetParameterTripleBox(DisplayDriver.OpenCallback, PointerType, 1, params))
  }

  /** `image_open` of `nsi-core`. Only the handle pointer and the file name
      are checked; a non-UTF-8 file name panics, and so does any of
      `SetupPanics`. */
  function ImageOpen(handleNull: bool, filename: CStr, width: int, height: int, params: seq<UserParameter>,
                     format: seq<DevFormat>, flags: bv32, onOpen: Outcome<Error>): (r: Outcome<CoreOpened>)
    requires CInt(width) && CInt(height)
    requires forall i :: 0 <= i < |params| ==> params[i].name.CText?
    ensures handleNull || filename.NullStr? ==> r == Ok(CoreOpened(PkDspyErrorBadParams, None, format, flags))
    ensures !handleNull && filename.CText? ==>
      (r.Panic? <==> !Valid(filename.bytes) || SetupPanics(width, height, FindCallbacks(params), format, onOpen))
    ensures !handleNull && filename.CText? && r.Ok? ==>
      && Opens(r.value, width, height, FindCallbacks(params), format, onOpen)
      && Encode(r.value.handle.value.name) == filename.bytes
  {
    if handleNull || filename.NullStr? then Ok(CoreOpened(PkDspyErrorBadParams, None, format, flags))
    else
      DecodeSomeIffValid(filename.bytes);
      match Decode(filename.bytes)
      case None => Panic
      case Some(name) =>
        EncodeDecode(filename.bytes);
        OpenAccepted(name, width, height, FindCallbacks(params), format, onOpen)
  }

  /** An empty format panics, since the channel grouping reads its first
      entry; a format with a non-UTF-8 channel name panics too. */
  lemma OpenNeedsReadableFormat(filename: CStr, width: int, height: int, params: seq<UserParameter>,
                                format: seq<DevFormat>, flags: bv32, onOpen: Outcome<Error>)
    requires CInt(width) && CInt(height)
    requires forall i :: 0 <= i < |params| ==> params[i].name.CText?
    requires filename.CText?
    requires |format| == 0 || exists i :: 0 <= i < |format| && !Valid(format[i].name)
    ensures ImageOpen(false, filename, width, height, params, format, flags, onOpen).Panic?
  {
    var names := DisplayDriver.FormatNames(format);
    if |format| > 0 {
      var i :| 0 <= i < |format| && !Valid(format[i].name);
      assert !Valid(names[i]);
    }
  }

  /** Where every parameter name is UTF-8, the closures `image_open` keeps
      are those `extract_callback` finds, and the only way the open closure
      is skipped is its absence. */
  lemma OpenFindsCallbacksLikeWrapper(filename: CStr, width: int, height: int, params: seq<UserParameter>,
                                      format: seq<DevFormat>, flags: bv32, onOpen: Outcome<Error>)
    requires CInt(width) && CInt(height)
    requires NamesValid(params) && filename.CText?
    requires ImageOpen(false, filename, width, height, params, format, flags, onOpen).Ok?
    ensures var d := ImageOpen(false, filename, width, height, params, format, flags, onOpen).value.handle.value;
      && d.fnWrite == DisplayDriver.ExtractCallback(DisplayDriver.WriteCallback, PointerType, 1, params)
      && d.fnFinish == DisplayDriver.ExtractCallback(DisplayDriver.FinishCallback, PointerType, 1, params)
  {
  }

  /** What a successful query writes: the progress function pointer. */
  datatype CoreAnswer = CoreAnswer(error: PtDspyError, wroteProgress: bool)

  /** `image_query` of `nsi-core`: only the progress query is answered, and
      the data pointer is not checked. */
  function ImageQuery(q: QueryType, dataLen: int): (r: CoreAnswer)
    requires CInt(dataLen)
    ensures q == RenderProgress ==>
      (r.error == PkDspyErrorNone <==> AsUsize(dataLen) >= PointerBytes)
      && (r.error != PkDspyErrorNone ==> r.error == PkDspyErrorBadParams)
    ensures q != RenderProgress ==> r.error == PkDspyErrorUnsupported
    ensures r.wroteProgress <==> r.error == PkDspyErrorNone
  {
    if q == RenderProgress then
      if AsUsize(dataLen) < PointerBytes then CoreAnswer(PkDspyErrorBadParams, false)
      else CoreAnswer(PkDspyErrorNone, true)
    else CoreAnswer(PkDspyErrorUnsupported, false)
  }

  /** On the progress query with a non-null pointer the two drivers agree;
      the `nsi-core` one refuses every other query, the stop query included. */
  lemma QueryAgreesOnProgress(q: QueryType, dataLen: int, sizes: DisplayDriver.StructSizes)
    requires CInt(dataLen)
    ensures q == RenderProgress ==>
      ImageQuery(q, dataLen).error == DisplayDriver.ImageQuery(q, dataLen, false, sizes).0
      && (ImageQuery(q, dataLen).wroteProgress <==> DisplayDriver.ImageQuery(q, dataLen, false, sizes).1.Some?)
    ensures q == StopQuery ==>
      ImageQuery(q, dataLen).error == PkDspyErrorUnsupported
      && DisplayDriver.ImageQuery(q, dataLen, false, sizes).0 == PkDspyErrorNone
  {
  }

  /** `entry_size >> 2`: an arithmetic shift, that is, division rounding down. */
  function Shr2(n: int): (r: int)
    ensures 4 * r <= n < 4 * r + 4
  {
    n / 4
  }

  /** `pixel_length * ((x1 - x0) * (y1 - y0)) as usize`, the value count of
      the bucket slice. */
  function CoreBucketLen(pl: nat, x0: int, x1: int, y0: int, y1: int): nat
    requires x0 <= x1 && y0 <= y1
  {
    pl * ((x1 - x0) * (y1 - y0))
  }

  /** Whether the bucket size overflows: the `c_int` product of its sides,
      or the `usize` product with the pixel length. */
  predicate CoreWriteOverflows(pl: nat, x0: int, x1: int, y0: int, y1: int)
    requires x0 <= x1 && y0 <= y1
  {
    !CInt((x1 - x0) * (y1 - y0)) || CoreBucketLen(pl, x0, x1, y0, y1) >= UsizeModulus
  }

  /** The outcome of `image_write`: the handle after the copy, the return
      code, and the image handed to the write closure, if any. */
  datatype CoreWrote = CoreWrote(data: CoreData, error: PtDspyError, passed: Option<seq<F32>>)

  /** `image_write` of `nsi-core`, in a debug build: the entry size must
      match the channel count, each bucket row is copied into the image,
      and the write closure sees the whole image. */
  method ImageWrite(d: CoreData, x0: int, x1: int, y0: int, y1: int, entrySize: int, pixels: seq<F32>,
                    onWrite: Outcome<Error>)
    returns (r: Outcome<CoreWrote>)
    requires CInt(x0) && CInt(x1) && CInt(y0) && CInt(y1) && CInt(entrySize)
    requires 0 <= x0 <= x1 && 0 <= y0 <= y1
    requires !CoreWriteOverflows(PixelFormat.TotalChannels(d.pixelFormat), x0, x1, y0, y1) ==>
      CoreBucketLen(PixelFormat.TotalChannels(d.pixelFormat), x0, x1, y0, y1) <= |pixels|
    ensures var pl := PixelFormat.TotalChannels(d.pixelFormat);
      r.Panic? <==>
        || Shr2(entrySize) != pl
        || CoreWriteOverflows(pl, x0, x1, y0, y1)
        || !ScanlineCopy.Fits(|d.pixelData|, CoreBucketLen(pl, x0, x1, y0, y1), d.width, pl, x0, x1 - x0, y0, y1 - y0)
        || (d.fnWrite.Some? && onWrite.Panic?)
    ensures r.Ok? ==>
      var pl, w := PixelFormat.TotalChannels(d.pixelFormat), r.value;
      && w.data == d.(pixelData := w.data.pixelData)
      && ScanlineCopy.KeepsUntouched(d.pixelData, w.data.pixelData, d.width, pl, x0, x1 - x0, y0, y1 - y0)
      && (x1 - x0 <= d.width ==>
            ScanlineCopy.HoldsRows(w.data.pixelData, pixels, d.width, pl, x0, x1 - x0, y0, y1 - y0))
      && (d.fnWrite.None? ==> w.error == PkDspyErrorNone && w.passed == None)
      && (d.fnWrite.Some? ==> Ok(FromPtDspyError(w.error)) == onWrite && w.passed == Some(w.data.pixelData))
  {
    var pl := PixelFormat.TotalChannels(d.pixelFormat);
    if Shr2(entrySize) != pl || CoreWriteOverflows(pl, x0, x1, y0, y1) {
      return Panic;
    }
    var count, bw, rows := CoreBucketLen(pl, x0, x1, y0, y1), x1 - x0, y1 - y0;
    if !ScanlineCopy.Fits(|d.pixelData|, count, d.width, pl, x0, bw, y0, rows) {
      return Panic;
    }
    var image := CopyBucket(d.pixelData, pixels, count, d.width, pl, x0, bw, y0, rows);
    var data := d.(pixelData := image);
    if d.fnWrite.None? {
      return Ok(CoreWrote(data, PkDspyErrorNone, None));
    }
    if onWrite.Panic? {
      return Panic;
    }
    return Ok(CoreWrote(data, Caught(onWrite), Some(image)));
  }

  /** The scanline loop of `image_write`, on the first `count` values of
      the bucket memory. */
  method CopyBucket(image: seq<F32>, pixels: seq<F32>, count: nat, width: nat, ch: nat, x0: nat, bw: nat, y0: nat, rows: nat)
    returns (out: seq<F32>)
    requires count <= |pixels| && count == ch * (bw * rows)
    requires ScanlineCopy.Fits(|image|, count, width, ch, x0, bw, y0, rows)
    ensures ScanlineCopy.KeepsUntouched(image, out, width, ch, x0, bw, y0, rows)
    ensures bw <= width ==> ScanlineCopy.HoldsRows(out, pixels, width, ch, x0, bw, y0, rows)
  {
    assert rows * (bw * ch) == count;
    out := ScanlineCopy.CopyRows(image, pixels[..count], width, ch, x0, bw, y0, rows);
    if bw <= width {
      PrefixHoldsRows(out, pixels, count, width, ch, x0, bw, y0, rows);
    }
  }

  /** Rows read from a prefix of the bucket memory are rows of the memory. */
  lemma PrefixHoldsRows(image: seq<F32>, pixels: seq<F32>, count: nat, width: nat, ch: nat, x0: nat, bw: nat, y0: nat, rows: nat)
    requires count <= |pixels| && ScanlineCopy.HoldsRows(image, pixels[..count], width, ch, x0, bw, y0, rows)
    ensures ScanlineCopy.HoldsRows(image, pixels, width, ch, x0, bw, y0, rows)
  {
    forall q, k | 0 <= q < rows && 0 <= k < bw * ch
      ensures ScanlineCopy.Dst(width, ch, x0, y0, q, k) < |image| && ScanlineCopy.Src(bw, ch, q, k) < |pixels|
      ensures image[ScanlineCopy.Dst(width, ch, x0, y0, q, k)] == pixels[ScanlineCopy.Src(bw, ch, q, k)]
    {
      assert pixels[..count][ScanlineCopy.Src(bw, ch, q, k)] == pixels[ScanlineCopy.Src(bw, ch, q, k)];
    }
  }

  /** What the finish closure receives from `image_close`. */
  datatype CoreFinished = CoreFinished(name: string, width: nat, height: nat, format: seq<PixelFormat.Layer>, pixels: seq<F32>)

  /** `image_close` of `nsi-core`: the finish closure, if any, receives the
      name, the dimensions, the channel layout and the whole image. */
  function ImageClose(d: CoreData, onFinish: Outcome<Error>): (r: Outcome<(PtDspyError, Option<CoreFinished>)>)
    ensures d.fnFinish.None? ==> r == Ok((PkDspyErrorNone, None))
    ensures d.fnFinish.Some? ==> (r.Panic? <==> onFinish.Panic?)
    ensures d.fnFinish.Some? && r.Ok? ==>
      && r.value.1 == Some(CoreFinished(d.name, d.width, d.height, d.pixelFormat, d.pixelData))
      && Ok(FromPtDspyError(r.value.0)) == onFinish
  {
    if d.fnFinish.None? then Ok((PkDspyErrorNone, None))
    else if onFinish.Panic? then Panic
    else Ok((Caught(onFinish), Some(CoreFinished(d.name, d.width, d.height, d.pixelFormat, d.pixelData))))
  }

  /** Open then close, with no bucket in between: the finish closure
      receives the file name, the dimensions, the channels as `image_open`
      grouped them and an image of `width·height·channels` zeros, and its
      result is what `image_close` returns. */
  lemma OpenThenClose(filename: CStr, width: int, height: int, params: seq<UserParameter>,
                      format: seq<DevFormat>, flags: bv32, onOpen: Outcome<Error>, e: Error)
    requires CInt(width) && CInt(height) && filename.CText?
    requires forall i :: 0 <= i < |params| ==> params[i].name.CText?
    requires ImageOpen(false, filename, width, height, params, format, flags, onOpen).Ok?
    requires ImageOpen(false, filename, width, height, params, format, flags, onOpen).value.handle.value.fnFinish.Some?
    ensures var d := ImageOpen(false, filename, width, height, params, format, flags, onOpen).value.handle.value;
      var r := ImageClose(d, Ok(e));
      && r.Ok? && r.value.1.Some? && FromPtDspyError(r.value.0) == e
      && var f := r.value.1.value;
      && Encode(f.name) == filename.bytes && f.width == AsUsize(width) && f.height == AsUsize(height)
      && Ok(f.format) == CorePixelFormat.New(DisplayDriver.FormatNames(format))
      && |f.pixels| == width * height * |format|
      && forall i :: 0 <= i < |f.pixels| ==> f.pixels[i] == Zero
  {
  }
}
