/** The older display-driver trampolines of `src/output/mod.rs`. Channels
    are not grouped into layers: the open closure sees the channel names as
    a double-ended queue it may reorder, and the driver then asks the
    renderer for the channels in that order. The image is kept whole, as in
    `nsi-core`, and nothing catches a panic: `Panic` means the process
    aborts. */
module LegacyOutput {
  import opened Wrappers
  import opened Utf8
  import opened Ndspy
  import PixelFormat
  import CorePixelFormat
  import ScanlineCopy
  import DisplayDriver
  import CoreDisplayDriver

  type F32 = CoreDisplayDriver.F32

  // ---------------------------------------------------------------------
  // Reading channel names

  /** `PixelFormat::get`: the channel name at `index`, if there is one. */
  function Get(f: seq<string>, index: nat): (r: Option<string>)
    ensures r.Some? <==> index < |f|
    ensures r.Some? ==> r.value == f[index]
  {
    if index < |f| then Some(f[index]) else None
  }

  /** The first `c` at or after `k`, as `splitn` finds it. */
  function FirstFrom(s: string, c: char, k: nat): (r: Option<nat>)
    requires k <= |s|
    ensures r.Some? ==> k <= r.value < |s| && s[r.value] == c
    ensures r.Some? ==> forall j :: k <= j < r.value ==> s[j] != c
    ensures r.None? ==> forall j :: k <= j < |s| ==> s[j] != c
    decreases |s| - k
  {
    if k == |s| then None
    else if s[k] == c then Some(k)
    else FirstFrom(s, c, k + 1)
  }

  /** `PixelFormat::layer_name`: the text before the first dot, or nothing
      when the name has no dot. Indexing past the end panics. */
  function LayerName(f: seq<string>, index: nat): (r: Outcome<Option<string>>)
    ensures r.Panic? <==> index >= |f|
    ensures r.Ok? ==> (r.value.None? <==> '.' !in f[index])
    ensures r.Ok? && r.value.Some? ==>
      var n := r.value.value;
      && |n| < |f[index]| && f[index][..|n|] == n && f[index][|n|] == '.'
      && '.' !in n
  {
    if index >= |f| then Panic
    else
      match FirstFrom(f[index], '.', 0)
      case None => Ok(None)
      case Some(i) => Ok(Some(f[index][..i]))
  }

  /** `PixelFormat::unique_layer_name_and_channel_id`, following `rsplitn`:
      the name splits at its last dot; a name without a dot is all channel
      id, with an empty layer name. Indexing past the end panics. */
  function UniqueLayerNameAndChannelId(f: seq<string>, index: nat): (r: Outcome<(string, string)>)
    ensures r.Panic? <==> index >= |f|
    ensures r.Ok? && '.' !in f[index] ==> r.value == ("", f[index])
    ensures r.Ok? && '.' in f[index] ==>
      r.value.0 + "." + r.value.1 == f[index] && '.' !in r.value.1
  {
    if index >= |f| then Panic
    else
      var s := f[index];
      match PixelFormat.LastBelow(s, '.', |s|)
      case None => Ok(("", s))
      case Some(i) =>
        assert s[..i] + "." + s[i + 1..] == s;
        Ok((s[..i], s[i + 1..]))
  }

  /** `PixelFormat::channel_id`: the text after the last dot, or the whole
      name when it has no dot. */
  function ChannelId(f: seq<string>, index: nat): (r: Outcome<string>)
    ensures r.Panic? <==> index >= |f|
    ensures r.Ok? ==>
      && '.' !in r.value && |r.value| <= |f[index]|
      && f[index][|f[index]| - |r.value|..] == r.value
    ensures r.Ok? ==> ('.' !in f[index] <==> r.value == f[index])
  {
    match UniqueLayerNameAndChannelId(f, index)
    case Panic => Panic
    case Ok(p) =>
      var s := f[index];
      assert s == p.0 + "." + p.1 ==> s[|s| - |p.1|..] == p.1;
      Ok(p.1)
  }

  /** The layer name ends at the first dot and the unique layer name at the
      last, so the first is a prefix of the second; they coincide exactly
      when the name has a single dot. */
  lemma LayerNameIsPrefixOfUnique(f: seq<string>, index: nat)
    requires index < |f| && '.' in f[index]
    ensures var n, u := LayerName(f, index).value.value, UniqueLayerNameAndChannelId(f, index).value.0;
      |n| <= |u| && u[..|n|] == n
  {
    var s := f[index];
    var n, u := LayerName(f, index).value.value, UniqueLayerNameAndChannelId(f, index).value.0;
    var last := PixelFormat.LastBelow(s, '.', |s|);
    assert u == s[..last.value];
    assert s[|n|] == '.';
    assert |n| <= last.value;
  }

  /** The channel name of the documentation splits as documented. */
  lemma DocumentedNames()
    ensures LayerName(["albedo.000.r"], 0) == Ok(Some("albedo"))
    ensures UniqueLayerNameAndChannelId(["albedo.000.r"], 0) == Ok(("albedo.000", "r"))
    ensures ChannelId(["albedo.000.r"], 0) == Ok("r")
  {
    var s := "albedo.000.r";
    assert FirstFrom(s, '.', 0) == Some(6) by {
      assert s[6] == '.';
      assert forall j :: 0 <= j < 6 ==> s[j] != '.';
    }
    assert s[..6] == "albedo";
    assert PixelFormat.LastBelow(s, '.', |s|) == Some(10) by {
      PixelFormat.LastBelowAt(s, '.', |s|, 10);
    }
    assert s[..10] == "albedo.000" && s[11..] == "r";
  }

  // ---------------------------------------------------------------------
  // Reordering channels

  /** `PixelFormat::move_back`: moves the channel at `index` to the end.
      `len() - 1` underflows, and so panics, on an empty format; an index at
      or past the last channel leaves the format as it is. */
  function MoveBack<T>(f: seq<T>, index: nat): (r: Outcome<seq<T>>)
    ensures r.Panic? <==> |f| == 0
    ensures r.Ok? ==> |r.value| == |f| && multiset(r.value) == multiset(f)
    ensures r.Ok? && index < |f| - 1 ==>
      && (forall i :: 0 <= i < index ==> r.value[i] == f[i])
      && (forall i :: index <= i < |f| - 1 ==> r.value[i] == f[i + 1])
      && r.value[|f| - 1] == f[index]
    ensures r.Ok? && index >= |f| - 1 ==> r.value == f
  {
    if |f| == 0 then Panic
    else if index < |f| - 1 then
      assert f == f[..index] + [f[index]] + f[index + 1..];
      Ok(f[..index] + f[index + 1..] + [f[index]])
    else Ok(f)
  }

  /** `PixelFormat::move_front`: moves the channel at `index` to the
      start. Index 0 is left alone, even on an empty format; any other
      index past the end panics in `remove(index).unwrap()`. */
  function MoveFront<T>(f: seq<T>, index: nat): (r: Outcome<seq<T>>)
    ensures r.Panic? <==> 0 < index && |f| <= index
    ensures r.Ok? ==> |r.value| == |f| && multiset(r.value) == multiset(f)
    ensures r.Ok? && 0 < index ==>
      && r.value[0] == f[index]
      && (forall i :: 0 < i <= index ==> r.value[i] == f[i - 1])
      && (forall i :: index < i < |f| ==> r.value[i] == f[i])
    ensures index == 0 ==> r == Ok(f)
  {
    if index == 0 then Ok(f)
    else if |f| <= index then Panic
    else
      assert f == f[..index] + [f[index]] + f[index + 1..];
      Ok([f[index]] + f[..index] + f[index + 1..])
  }

  /** `PixelFormat::swap`: exchanges two channels; either index past the
      end panics. */
  function Swap<T>(f: seq<T>, a: nat, b: nat): (r: Outcome<seq<T>>)
    ensures r.Panic? <==> a >= |f| || b >= |f|
    ensures r.Ok? ==>
      && |r.value| == |f| && r.value[a] == f[b] && r.value[b] == f[a]
      && (forall i :: 0 <= i < |f| && i != a && i != b ==> r.value[i] == f[i])
  {
    if a >= |f| || b >= |f| then Panic
    else Ok(f[a := f[b]][b := f[a]])
  }

  /** A swap keeps the channels, and undoes itself. */
  lemma SwapIsInvolution<T>(f: seq<T>, a: nat, b: nat)
    requires a < |f| && b < |f|
    ensures multiset(Swap(f, a, b).value) == multiset(f)
    ensures Swap(Swap(f, a, b).value, a, b) == Ok(f)
  {
    var g := Swap(f, a, b).value;
    assert g == f[a := f[b]][b := f[a]];
    var h := Swap(g, a, b).value;
    assert forall i :: 0 <= i < |f| ==> h[i] == f[i];
    assert h == f;
  }

  /** Moving the first channel to the back, then the last to the front,
      restores the format. */
  lemma BackThenFrontRestores<T>(f: seq<T>)
    requires |f| >= 1
    ensures MoveFront(MoveBack(f, 0).value, |f| - 1) == Ok(f)
  {
    if |f| >= 2 {
      var g := MoveBack(f, 0).value;
      assert g == f[1..] + [f[0]];
      assert g[|f| - 1] == f[0] && g[..|f| - 1] == f[1..] && g[|f|..] == [];
      assert MoveFront(g, |f| - 1) == Ok([g[|f| - 1]] + g[..|f| - 1] + g[|f|..]);
      assert [f[0]] + f[1..] + [] == f;
    }
  }

  /** Moving the last channel to the front, then the first to the back,
      restores the format. */
  lemma FrontThenBackRestores<T>(f: seq<T>)
    requires |f| >= 1
    ensures MoveBack(MoveFront(f, |f| - 1).value, 0) == Ok(f)
  {
    if |f| >= 2 {
      var n := |f| - 1;
      var g := MoveFront(f, n).value;
      assert g == [f[n]] + f[..n] + f[n + 1..];
      assert f[n + 1..] == [];
      assert g[1..] == f[..n] && g[0] == f[n];
      assert MoveBack(g, 0) == Ok(g[..0] + g[1..] + [g[0]]);
      assert [] + f[..n] + [f[n]] == f;
    }
  }

  /** Taking the moved channel out again leaves the others in their old
      order, for both moves. */
  lemma MovesKeepRelativeOrder<T>(f: seq<T>, index: nat)
    requires index < |f|
    ensures index < |f| - 1 ==> MoveBack(f, index).value[..|f| - 1] == f[..index] + f[index + 1..]
    ensures 0 < index ==> MoveFront(f, index).value[1..] == f[..index] + f[index + 1..]
  {
  }

  /** One of the reorderings an open closure may apply. */
  datatype Reorder = MoveBackOp(index: nat) | MoveFrontOp(index: nat) | SwapOp(a: nat, b: nat)

  /** A reordering applied to the channel names. */
  function Apply<T>(f: seq<T>, op: Reorder): (r: Outcome<seq<T>>)
    ensures r.Ok? ==> |r.value| == |f| && multiset(r.value) == multiset(f)
  {
    match op
    case MoveBackOp(i) => MoveBack(f, i)
    case MoveFrontOp(i) => MoveFront(f, i)
    case SwapOp(a, b) =>
      if a < |f| && b < |f| then SwapIsInvolution(f, a, b); Swap(f, a, b) else Panic
  }

  /** Reorderings applied one after another; the first to panic aborts. The
      result holds the same channels. */
  function ApplyAll<T>(f: seq<T>, ops: seq<Reorder>): (r: Outcome<seq<T>>)
    ensures r.Ok? ==> |r.value| == |f| && multiset(r.value) == multiset(f)
    decreases |ops|
  {
    if |ops| == 0 then Ok(f)
    else
      match Apply(f, ops[0])
      case Panic => Panic
      case Ok(g) => ApplyAll(g, ops[1..])
  }

  /** On an empty format only `move_front(0)` does not panic. */
  lemma {:induction false} EmptyFormatReorders<T>(ops: seq<Reorder>)
    requires forall i :: 0 <= i < |ops| ==> ops[i] == MoveFrontOp(0)
    ensures ApplyAll<T>([], ops) == Ok([])
    decreases |ops|
  {
    if |ops| > 0 {
      EmptyFormatReorders<T>(ops[1..]);
    }
  }

  // ---------------------------------------------------------------------
  // The driver entry points

  /** `PixelFormat::update_dspy_dev_format`: the format records take the
      channel names in their new order, as far as both sequences reach, and
      are retyped to `f32`; records past the names are left alone. */
  function UpdateDspyDevFormat(format: seq<DevFormat>, names: seq<CChars>): (r: seq<DevFormat>)
    ensures |r| == |format|
    ensures forall i :: 0 <= i < |format| && i < |names| ==> r[i] == DevFormat(names[i], Float32)
    ensures forall i :: |names| <= i < |format| ==> r[i] == format[i]
  {
    seq(|format|, i requires 0 <= i < |format| => if i < |names| then DevFormat(names[i], Float32) else format[i])
  }

  /** After a successful reordering of its own names, the update sends the
      renderer every channel it asked for, once each, all as `f32`, in the
      order the closure chose. */
  lemma UpdateAfterReorder(format: seq<DevFormat>, ops: seq<Reorder>)
    requires ApplyAll(DisplayDriver.FormatNames(format), ops).Ok?
    ensures var names := ApplyAll(DisplayDriver.FormatNames(format), ops).value;
      var r := UpdateDspyDevFormat(format, names);
      && DisplayDriver.FormatNames(r) == names
      && multiset(DisplayDriver.FormatNames(r)) == multiset(DisplayDriver.FormatNames(format))
      && forall i :: 0 <= i < |r| ==> r[i].typ == Float32
  {
    var names := ApplyAll(DisplayDriver.FormatNames(format), ops).value;
    var r := UpdateDspyDevFormat(format, names);
    assert DisplayDriver.FormatNames(r) == names;
  }

  /** Channels the same as those of an all-UTF-8 format are UTF-8. */
  lemma PermutedValid(a: seq<CChars>, b: seq<CChars>)
    requires CorePixelFormat.AllValid(a) && multiset(a) == multiset(b)
    ensures CorePixelFormat.AllValid(b)
  {
    forall i | 0 <= i < |b|
      ensures Valid(b[i])
    {
      assert b[i] in multiset(b);
      assert b[i] in a;
    }
  }

  /** `DisplayData` of `src/output/mod.rs`: the handle, with the channel
      names in the closure's order and the image buffer. */
  datatype LegacyData = LegacyData(
    name: string, width: nat, height: nat, pixelFormat: seq<string>, pixelData: seq<F32>,
    fnOpen: Option<Token>, fnWrite: Option<Token>, fnFinish: Option<Token>)

  /** What `image_open` leaves behind when it returns. */
  datatype LegacyOpened = LegacyOpened(error: PtDspyError, handle: Option<LegacyData>, format: seq<DevFormat>, flags: bv32)

  /** The open closure: the reorderings it applies to the channel names,
      then its result. */
  datatype OpenClosure = OpenClosure(reorder: seq<Reorder>, result: Outcome<Error>)

  /** Whether `image_open` panics after reading the file name: the buffer
      length, a callback lookup, a non-UTF-8 channel name, or the open
      closure. */
  predicate SetupPanics(width: int, height: int, found: CoreDisplayDriver.Lookups, format: seq<DevFormat>, open: OpenClosure)
  {
    || CoreDisplayDriver.BufferLen(width, height, |format|).Panic?
    || found.open.Panic? || found.write.Panic? || found.finish.Panic?
    || !CorePixelFormat.AllValid(DisplayDriver.FormatNames(format))
    || (found.open.Ok? && found.open.value.Some? &&
        (ApplyAll(DisplayDriver.FormatNames(format), open.reorder).Panic? || open.result.Panic?))
  }

  /** What a successful `image_open` leaves: the flags overwritten, a zeroed
      image, the looked-up closures, and channel names that are those the
      renderer sent, in the order the open closure chose, with the format
      records naming the same channels in the same order. With an open
      closure, every record is retyped to `f32`; without one, the records
      are those the renderer sent, unless `forceFloat` retypes them. */
  predicate Opens(o: LegacyOpened, width: int, height: int, found: CoreDisplayDriver.Lookups, format: seq<DevFormat>,
                  open: OpenClosure, forceFloat: bool)
    requires CInt(width) && CInt(height)
  {
    && o.handle.Some?
    && o.flags == WantsEmptyBuckets
    && |o.format| == |format|
    && o.handle.value.width == AsUsize(width) && o.handle.value.height == AsUsize(height)
    && |o.handle.value.pixelData| == width * height * |format|
    && (forall i :: 0 <= i < |o.handle.value.pixelData| ==> o.handle.value.pixelData[i] == CoreDisplayDriver.Zero)
    && Ok(o.handle.value.fnOpen) == found.open
    && Ok(o.handle.value.fnWrite) == found.write && Ok(o.handle.value.fnFinish) == found.finish
    && |o.handle.value.pixelFormat| == |format|
    && (forall i :: 0 <= i < |format| ==> Encode(o.handle.value.pixelFormat[i]) == o.format[i].name)
    && multiset(DisplayDriver.FormatNames(o.format)) == multiset(DisplayDriver.FormatNames(format))
    && (found.open == Ok(None) ==>
          && o.error == PkDspyErrorNone
          && (forall i :: 0 <= i < |format| ==> o.format[i].name == format[i].name)
          && (forceFloat ==> forall i :: 0 <= i < |format| ==> o.format[i].typ == Float32)
          && (!forceFloat ==> o.format == format))
    && (found.open.Ok? && found.open.value.Some? ==>
          && Ok(FromPtDspyError(o.error)) == open.result
          && Ok(DisplayDriver.FormatNames(o.format)) == ApplyAll(DisplayDriver.FormatNames(format), open.reorder)
          && (forall i :: 0 <= i < |format| ==> o.format[i].typ == Float32))
  }

  /** `image_open` past its pointer checks, given the callback lookups. */
  function OpenAccepted(name: string, width: int, height: int, found: CoreDisplayDriver.Lookups, format: seq<DevFormat>,
                        open: OpenClosure, forceFloat: bool): (r: Outcome<LegacyOpened>)
    requires CInt(width) && CInt(height)
    ensures r.Panic? <==> SetupPanics(width, height, found, format, open)
    ensures r.Ok? ==> Opens(r.value, width, height, found, format, open, forceFloat) && r.value.handle.value.name == name
  {
    var buffer, names := CoreDisplayDriver.BufferLen(width, height, |format|), DisplayDriver.FormatNames(format);
    if buffer.Panic? || found.open.Panic? || found.write.Panic? || found.finish.Panic? || !CorePixelFormat.AllValid(names) then Panic
    else if found.open.value.None? then
      var out := if forceFloat then DisplayDriver.Retype(format, Float32) else format;
      assert DisplayDriver.FormatNames(out) == names;
      var data := LegacyData(name, AsUsize(width), AsUsize(height), CorePixelFormat.Names(names), seq(buffer.value, _ => CoreDisplayDriver.Zero),
                             None, found.write.value, found.finish.value);
      Ok(LegacyOpened(PkDspyErrorNone, Some(data), out, WantsEmptyBuckets))
    else
      match ApplyAll(names, open.reorder)
      case Panic => Panic
      case Ok(reordered) =>
        if open.result.Panic? then Panic
        else
          PermutedValid(names, reordered);
          var out := UpdateDspyDevFormat(format, reordered);
          assert DisplayDriver.FormatNames(out) == reordered;
          var data := LegacyData(name, AsUsize(width), AsUsize(height), CorePixelFormat.Names(reordered),
                                 seq(buffer.value, _ => CoreDisplayDriver.Zero), found.open.value, found.write.value, found.finish.value);
          Ok(LegacyOpened(Caught(open.result), Some(data), out, WantsEmptyBuckets))
  }

  /** `image_open` with or without the retyping of records when there is no
      open closure. */
  function Open(handleNull: bool, filename: CStr, width: int, height: int, params: seq<UserParameter>,
                format: seq<DevFormat>, flags: bv32, open: OpenClosure, forceFloat: bool): (r: Outcome<LegacyOpened>)
    requires CInt(width) && CInt(height)
    requires forall i :: 0 <= i < |params| ==> params[i].name.CText?
    ensures handleNull || filename.NullStr? ==> r == Ok(LegacyOpened(PkDspyErrorBadParams, None, format, flags))
    ensures !handleNull && filename.CText? ==>
      (r.Panic? <==> !Valid(filename.bytes) || SetupPanics(width, height, CoreDisplayDriver.FindCallbacks(params), format, open))
    ensures !handleNull && filename.CText? && r.Ok? ==>
      && Opens(r.value, width, height, CoreDisplayDriver.FindCallbacks(params), format, open, forceFloat)
      && Encode(r.value.handle.value.name) == filename.bytes
  {
    if handleNull || filename.NullStr? then Ok(LegacyOpened(PkDspyErrorBadParams, None, format, flags))
    else
      DecodeSomeIffValid(filename.bytes);
      match Decode(filename.bytes)
      case None => Panic
      case Some(name) =>
        EncodeDecode(filename.bytes);
        OpenAccepted(name, width, height, CoreDisplayDriver.FindCallbacks(params), format, open, forceFloat)
  }

  /** `image_open` as written: without an open closure the format records
      keep the types the renderer asked for. */
  function ImageOpen(handleNull: bool, filename: CStr, width: int, height: int, params: seq<UserParameter>,
                     format: seq<DevFormat>, flags: bv32, open: OpenClosure): (r: Outcome<LegacyOpened>)
    requires CInt(width) && CInt(height)
    requires forall i :: 0 <= i < |params| ==> params[i].name.CText?
    ensures handleNull || filename.NullStr? ==> r == Ok(LegacyOpened(PkDspyErrorBadParams, None, format, flags))
    ensures !handleNull && filename.CText? ==>
      (r.Panic? <==> !Valid(filename.bytes) || SetupPanics(width, height, CoreDisplayDriver.FindCallbacks(params), format, open))
    ensures !handleNull && filename.CText? && r.Ok? ==>
      && Opens(r.value, width, height, CoreDisplayDriver.FindCallbacks(params), format, open, false)
      && Encode(r.value.handle.value.name) == filename.bytes
  {
    Open(handleNull, filename, width, height, params, format, flags, open, false)
  }

  /** `image_open` as its comments intend: every channel is sent as `f32`,
      whether or not there is an open closure. */
  function ImageOpenFixed(handleNull: bool, filename: CStr, width: int, height: int, params: seq<UserParameter>,
                          format: seq<DevFormat>, flags: bv32, open: OpenClosure): (r: Outcome<LegacyOpened>)
    requires CInt(width) && CInt(height)
    requires forall i :: 0 <= i < |params| ==> params[i].name.CText?
    ensures handleNull || filename.NullStr? ==> r == Ok(LegacyOpened(PkDspyErrorBadParams, None, format, flags))
    ensures !handleNull && filename.CText? ==>
      (r.Panic? <==> !Valid(filename.bytes) || SetupPanics(width, height, CoreDisplayDriver.FindCallbacks(params), format, open))
    ensures !handleNull && filename.CText? && r.Ok? ==>
      && Opens(r.value, width, height, CoreDisplayDriver.FindCallbacks(params), format, open, true)
      && Encode(r.value.handle.value.name) == filename.bytes
  {
    Open(handleNull, filename, width, height, params, format, flags, open, true)
  }

  /** A single 8-bit channel, and no parameters at all. */
  const ByteChannel: seq<DevFormat> := [DevFormat([114], 6)]

  /** As written, a renderer asking for an 8-bit channel, with no open
      closure given, is told nothing: the record keeps type 6, while
      `image_write` reads every value of the bucket as an `f32`. */
  lemma ByteChannelStaysByte()
    ensures var r := ImageOpen(false, CText([111]), 1, 1, [], ByteChannel, 0, OpenClosure([], Ok(NoError)));
      r.Ok? && r.value.handle.Some? && r.value.format[0].typ == 6
  {
    assert Valid([111]) by { EncodeAscii("o"); EncodeValid("o"); assert Encode("o") == [111]; }
    assert Valid([114]) by { EncodeAscii("r"); EncodeValid("r"); assert Encode("r") == [114]; }
    assert CorePixelFormat.AllValid(DisplayDriver.FormatNames(ByteChannel));
  }

  /** With the fix, every record the renderer receives back asks for `f32`,
      which is what `image_write` reads. */
  lemma FixedOpenSendsFloats(filename: CStr, width: int, height: int, params: seq<UserParameter>,
                             format: seq<DevFormat>, flags: bv32, open: OpenClosure)
    requires CInt(width) && CInt(height)
    requires forall i :: 0 <= i < |params| ==> params[i].name.CText?
    requires filename.CText?
    requires ImageOpenFixed(false, filename, width, height, params, format, flags, open).Ok?
    ensures var o := ImageOpenFixed(false, filename, width, height, params, format, flags, open).value;
      forall i :: 0 <= i < |o.format| ==> o.format[i].typ == Float32
  {
  }

  /** `image_query` of this driver is that of `nsi-core`. */
  function ImageQuery(q: QueryType, dataLen: int): (r: CoreDisplayDriver.CoreAnswer)
    requires CInt(dataLen)
    ensures r == CoreDisplayDriver.ImageQuery(q, dataLen)
    ensures r.wroteProgress <==> q == RenderProgress && AsUsize(dataLen) >= PointerBytes
  {
    CoreDisplayDriver.ImageQuery(q, dataLen)
  }

  /** The outcome of `image_write`: the handle after the copy, the return
      code, and the image handed to the write closure, if any. */
  datatype LegacyWrote = LegacyWrote(data: LegacyData, error: PtDspyError, passed: Option<seq<F32>>)

  /** `image_write`: the pixel length is the channel count, the entry size
      is ignored, each bucket row is copied into the image, and the write
      closure sees the whole image. */
  method ImageWrite(d: LegacyData, x0: int, x1: int, y0: int, y1: int, pixels: seq<F32>, onWrite: Outcome<Error>)
    returns (r: Outcome<LegacyWrote>)
    requires CInt(x0) && CInt(x1) && CInt(y0) && CInt(y1)
    requires 0 <= x0 <= x1 && 0 <= y0 <= y1
    requires !CoreDisplayDriver.CoreWriteOverflows(|d.pixelFormat|, x0, x1, y0, y1) ==>
      CoreDisplayDriver.CoreBucketLen(|d.pixelFormat|, x0, x1, y0, y1) <= |pixels|
    ensures var pl := |d.pixelFormat|;
      r.Panic? <==>
        || CoreDisplayDriver.CoreWriteOverflows(pl, x0, x1, y0, y1)
        || !ScanlineCopy.Fits(|d.pixelData|, CoreDisplayDriver.CoreBucketLen(pl, x0, x1, y0, y1), d.width, pl, x0, x1 - x0, y0, y1 - y0)
        || (d.fnWrite.Some? && onWrite.Panic?)
    ensures r.Ok? ==>
      var pl, w := |d.pixelFormat|, r.value;
      && w.data == d.(pixelData := w.data.pixelData)
      && ScanlineCopy.KeepsUntouched(d.pixelData, w.data.pixelData, d.width, pl, x0, x1 - x0, y0, y1 - y0)
      && (x1 - x0 <= d.width ==>
            ScanlineCopy.HoldsRows(w.data.pixelData, pixels, d.width, pl, x0, x1 - x0, y0, y1 - y0))
      && (d.fnWrite.None? ==> w.error == PkDspyErrorNone && w.passed == None)
      && (d.fnWrite.Some? ==> Ok(FromPtDspyError(w.error)) == onWrite && w.passed == Some(w.data.pixelData))
  {
    var pl := |d.pixelFormat|;
    if CoreDisplayDriver.CoreWriteOverflows(pl, x0, x1, y0, y1) {
      return Panic;
    }
    var count, bw, rows := CoreDisplayDriver.CoreBucketLen(pl, x0, x1, y0, y1), x1 - x0, y1 - y0;
    if !ScanlineCopy.Fits(|d.pixelData|, count, d.width, pl, x0, bw, y0, rows) {
      return Panic;
    }
    var image := CoreDisplayDriver.CopyBucket(d.pixelData, pixels, count, d.width, pl, x0, bw, y0, rows);
    var data := d.(pixelData := image);
    if d.fnWrite.None? {
      return Ok(LegacyWrote(data, PkDspyErrorNone, None));
    }
    if onWrite.Panic? {
      return Panic;
    }
    return Ok(LegacyWrote(data, Caught(onWrite), Some(image)));
  }

  /** What the finish closure receives from `image_close`. */
  datatype LegacyFinished = LegacyFinished(name: string, width: nat, height: nat, format: seq<string>, pixels: seq<F32>)

  /** `image_close`: the finish closure, if any, receives the name, the
      dimensions, the channel names in their final order and the whole
      image. */
  function ImageClose(d: LegacyData, onFinish: Outcome<Error>): (r: Outcome<(PtDspyError, Option<LegacyFinished>)>)
    ensures d.fnFinish.None? ==> r == Ok((PkDspyErrorNone, None))
    ensures d.fnFinish.Some? ==> (r.Panic? <==> onFinish.Panic?)
    ensures d.fnFinish.Some? && r.Ok? ==>
      && r.value.1 == Some(LegacyFinished(d.name, d.width, d.height, d.pixelFormat, d.pixelData))
      && Ok(FromPtDspyError(r.value.0)) == onFinish
  {
    if d.fnFinish.None? then Ok((PkDspyErrorNone, None))
    else if onFinish.Panic? then Panic
    else Ok((Caught(onFinish), Some(LegacyFinished(d.name, d.width, d.height, d.pixelFormat, d.pixelData))))
  }

  /** Open then close, with no bucket in between: the finish closure
      receives the file name, the dimensions, the channel names in the
      order the open closure left them (each the text of the record the
      renderer was told about, and together the renderer's channels), and
      an image of `width·height·channels` zeros. */
  lemma OpenThenClose(filename: CStr, width: int, height: int, params: seq<UserParameter>,
                      format: seq<DevFormat>, flags: bv32, open: OpenClosure, e: Error)
    requires CInt(width) && CInt(height) && filename.CText?
    requires forall i :: 0 <= i < |params| ==> params[i].name.CText?
    requires ImageOpen(false, filename, width, height, params, format, flags, open).Ok?
    requires ImageOpen(false, filename, width, height, params, format, flags, open).value.handle.value.fnFinish.Some?
    ensures var o := ImageOpen(false, filename, width, height, params, format, flags, open).value;
      var r := ImageClose(o.handle.value, Ok(e));
      && r.Ok? && r.value.1.Some? && FromPtDspyError(r.value.0) == e
      && var f := r.value.1.value;
      && Encode(f.name) == filename.bytes && f.width == AsUsize(width) && f.height == AsUsize(height)
      && |f.format| == |format|
      && (forall i :: 0 <= i < |format| ==> Encode(f.format[i]) == o.format[i].name)
      && multiset(DisplayDriver.FormatNames(o.format)) == multiset(DisplayDriver.FormatNames(format))
      && |f.pixels| == width * height * |format|
      && forall i :: 0 <= i < |f.pixels| ==> f.pixels[i] == CoreDisplayDriver.Zero
  {
  }
}
