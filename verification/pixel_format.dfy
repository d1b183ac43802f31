/** The pixel format a display driver receives (`output/pixel_format.rs` of
    `nsi-ffi-wrap`): the scalar types of the ndspy interface, the layer
    depths, and the parser that groups the renderer's channel names
    (`r`, `g`, `b`, `a`, `N_world.000.x`, ...) into layers. */
module PixelFormat {
  import opened Wrappers
  import opened Utf8

  /** `ScalarType`, with its `#[repr(u32)]` discriminants. */
  datatype ScalarType = Float32 | Float16 | Unsigned32 | Signed32 | Unsigned16 | Signed16 | Unsigned8 | Signed8

  function ScalarCode(t: ScalarType): nat
  {
    match t
    case Float32 => 1
    case Float16 => 12
    case Unsigned32 => 2
    case Signed32 => 3
    case Unsigned16 => 4
    case Signed16 => 5
    case Unsigned8 => 6
    case Signed8 => 7
  }

  /** `ScalarType::from_ndspy_type`: the type whose discriminant is `code`. */
  function FromNdspyType(code: int): (r: Option<ScalarType>)
    ensures r.Some? <==> (1 <= code <= 7 || code == 12)
    ensures r.Some? ==> ScalarCode(r.value) == code
  {
    match code
    case 1 => Some(Float32)
    case 2 => Some(Unsigned32)
    case 3 => Some(Signed32)
    case 4 => Some(Unsigned16)
    case 5 => Some(Signed16)
    case 6 => Some(Unsigned8)
    case 7 => Some(Signed8)
    case 12 => Some(Float16)
    case _ => None
  }

  /** Conversion inverts the discriminants, which are pairwise distinct. */
  lemma ScalarCodeRoundTrip(t: ScalarType, u: ScalarType)
    ensures FromNdspyType(ScalarCode(t)) == Some(t)
    ensures ScalarCode(t) == ScalarCode(u) <==> t == u
  {
  }

  /** Bits of one value of each type, from the type's name. */
  function Bits(t: ScalarType): nat
  {
    match t
    case Float32 | Unsigned32 | Signed32 => 32
    case Float16 | Unsigned16 | Signed16 => 16
    case Unsigned8 | Signed8 => 8
  }

  /** `ScalarType::size_bytes`. */
  function SizeBytes(t: ScalarType): (n: nat)
    ensures n * 8 == Bits(t)
  {
    match t
    case Float32 | Unsigned32 | Signed32 => 4
    case Float16 | Unsigned16 | Signed16 => 2
    case Unsigned8 | Signed8 => 1
  }

  /** `LayerDepth`. */
  datatype LayerDepth =
    | OneChannel | OneChannelAndAlpha | Color | ColorAndAlpha
    | Vector | VectorAndAlpha | FourChannels | FourChannelsAndAlpha

  /** `LayerDepth::channels`. */
  function Channels(d: LayerDepth): nat
  {
    match d
    case OneChannel => 1
    case OneChannelAndAlpha => 2
    case Color | Vector => 3
    case ColorAndAlpha | VectorAndAlpha | FourChannels => 4
    case FourChannelsAndAlpha => 5
  }

  /** `LayerDepth::has_alpha`. */
  predicate HasAlpha(d: LayerDepth)
  {
    d in {OneChannelAndAlpha, ColorAndAlpha, VectorAndAlpha, FourChannelsAndAlpha}
  }

  /** The depth a lone alpha channel upgrades a depth to; `None` where the
      parser hits `unreachable!`. */
  function WithAlpha(d: LayerDepth): (r: Option<LayerDepth>)
    ensures r.Some? <==> !HasAlpha(d)
    ensures r.Some? ==> HasAlpha(r.value) && Channels(r.value) == Channels(d) + 1
  {
    match d
    case OneChannel => Some(OneChannelAndAlpha)
    case Color => Some(ColorAndAlpha)
    case Vector => Some(VectorAndAlpha)
    case FourChannels => Some(FourChannelsAndAlpha)
    case _ => None
  }

  /** The alpha depths are exactly the upgrades of the others, each from one base. */
  lemma AlphaDepthsAreUpgrades(d: LayerDepth, e: LayerDepth)
    ensures HasAlpha(d) <==> exists b :: WithAlpha(b) == Some(d)
    ensures WithAlpha(d).Some? && WithAlpha(d) == WithAlpha(e) ==> d == e
  {
    if HasAlpha(d) {
      var b := match d
        case OneChannelAndAlpha => OneChannel
        case ColorAndAlpha => Color
        case VectorAndAlpha => Vector
        case _ => FourChannels;
      assert WithAlpha(b) == Some(d);
    }
  }

  /** `Layer`. */
  datatype Layer = Layer(name: string, depth: LayerDepth, offset: nat)

  /** Position of the last `c` in `s` below index `k`. */
  function LastBelow(s: string, c: char, k: nat): (r: Option<nat>)
    requires k <= |s|
    ensures r.Some? ==> r.value < k && s[r.value] == c
    ensures r.Some? ==> forall j :: r.value < j < k ==> s[j] != c
    ensures r.None? ==> forall j :: 0 <= j < k ==> s[j] != c
  {
    if k == 0 then None
    else if s[k - 1] == c then Some(k - 1)
    else LastBelow(s, c, k - 1)
  }

  /** The last `c` below `k` is the one with no `c` between it and `k`. */
  lemma LastBelowAt(s: string, c: char, k: nat, i: nat)
    requires i < k <= |s| && s[i] == c
    requires forall j :: i < j < k ==> s[j] != c
    ensures LastBelow(s, c, k) == Some(i)
  {
  }

  /** `split_into_layer_name_and_channel_id`, following `rsplitn`: a name
      without a dot is its own channel id; a last component `000` is the
      scalar id `s` of the name before it; otherwise the id is the last
      component and the layer name is what precedes the second-to-last dot.
      The two `unwrap`s panic on the name `000` and on a name with a single
      dot whose last component is not `000`. */
  function Split(name: string): (r: Outcome<(string, string)>)
    ensures '.' !in name ==> r == if name == "000" then Panic else Ok(("", name))
    ensures r.Ok? ==> '.' !in r.value.1
  {
    match LastBelow(name, '.', |name|)
    case None => if name == "000" then Panic else Ok(("", name))
    case Some(i) =>
      if name[i + 1..] == "000" then Ok((name[..i], "s"))
      else
        match LastBelow(name, '.', i)
        case None => Panic
        case Some(k) => Ok((name[..k], name[i + 1..]))
  }

  /** A last component `000` names the scalar channel of what precedes it. */
  lemma SplitScalar(layer: string)
    ensures Split(layer + ".000") == Ok((layer, "s"))
  {
    var name := layer + ".000";
    LastBelowAt(name, '.', |name|, |layer|);
    assert name[|layer| + 1..] == "000";
    assert name[..|layer|] == layer;
  }

  /** Three or more components: the last is the id, and everything before
      the second-to-last dot is the layer name. */
  lemma SplitComponents(layer: string, mid: string, id: string)
    requires '.' !in mid && '.' !in id && id != "000"
    ensures Split(layer + "." + mid + "." + id) == Ok((layer, id))
  {
    var name := layer + "." + mid + "." + id;
    var i := |layer| + 1 + |mid|;
    assert forall j :: i < j < |name| ==> name[j] == id[j - i - 1];
    LastBelowAt(name, '.', |name|, i);
    assert forall j :: |layer| < j < i ==> name[j] == mid[j - |layer| - 1];
    LastBelowAt(name, '.', i, |layer|);
    assert name[i + 1..] == id;
    assert name[..|layer|] == layer;
  }

  /** Two components whose last is not `000`: the second `unwrap` panics. */
  lemma SplitOneDotPanics(first: string, id: string)
    requires '.' !in first && '.' !in id && id != "000"
    ensures Split(first + "." + id).Panic?
  {
    var name := first + "." + id;
    var i := |first|;
    assert forall j :: i < j < |name| ==> name[j] == id[j - i - 1];
    LastBelowAt(name, '.', |name|, i);
    assert name[i + 1..] == id;
    assert forall j :: 0 <= j < i ==> name[j] == first[j];
  }

  /** Conversely, `Split` panics only on `000` and on those two-component
      names, and where it does not panic its parts reassemble the name. */
  lemma SplitShapes(name: string)
    requires '.' in name
    ensures Split(name).Panic? ==>
      exists first, id :: '.' !in first && '.' !in id && id != "000" && name == first + "." + id
    ensures Split(name).Ok? ==> var (layer, id) := Split(name).value;
      || (id == "s" && name == layer + ".000")
      || (exists mid :: '.' !in mid && id != "000" && name == layer + "." + mid + "." + id)
  {
    var i := LastBelow(name, '.', |name|).value;
    var last := name[i + 1..];
    assert '.' !in last;
    if last == "000" {
      assert name == name[..i] + ".000";
    } else {
      match LastBelow(name, '.', i)
      case None =>
        var first := name[..i];
        assert '.' !in first;
        assert name == first + "." + last;
      case Some(k) =>
        var mid := name[k + 1..i];
        assert '.' !in mid;
        assert name == name[..k] + "." + mid + "." + last;
    }
  }

  /** The ids that close a layer, and those that open the next one. */
  predicate Boundary(prevId: string, id: string)
  {
    prevId in {"b", "z", "s", "a"} && id in {"r", "x", "s"}
  }

  /** The parser's state between channels. */
  datatype Scan = Scan(prevName: string, prevId: string, depth: LayerDepth, offset: nat, layers: seq<Layer>)

  /** One channel of the scan, at format index `j`. `mayEmit` is false only
      for the corrected parser's first step. (Under the id `a` the source
      tests again for an empty layer name; that test can never hold there,
      because an empty name with id `a` was handled by the branch before.) */
  function Step(s: Scan, j: nat, part: (string, string), mayEmit: bool): (r: Outcome<Scan>)
    ensures r.Panic? <==> !(mayEmit && Boundary(s.prevId, part.1)) && part == ("", "a") && HasAlpha(s.depth)
    ensures r.Ok? ==> r.value.prevId == part.1
    ensures r.Ok? && mayEmit && Boundary(s.prevId, part.1) ==>
      && r.value.layers == s.layers + [Layer(if s.prevName == "" then "Ci" else s.prevName, s.depth, s.offset)]
      && r.value.offset == j && r.value.depth == OneChannel
    ensures r.Ok? && !(mayEmit && Boundary(s.prevId, part.1)) ==> r.value.layers == s.layers && r.value.offset == s.offset
  {
    var (name, id) := part;
    if mayEmit && Boundary(s.prevId, id) then
      var layer := Layer(if s.prevName == "" then "Ci" else s.prevName, s.depth, s.offset);
      Ok(Scan(name, id, OneChannel, j, s.layers + [layer]))
    else if name == "" && id == "a" then
      match WithAlpha(s.depth)
      case None => Panic
      case Some(d) => Ok(s.(prevId := id, depth := d))
    else if name == s.prevName then
      var d :=
        if id in {"r", "g", "b"} then Color
        else if id in {"x", "y", "z"} then Vector
        else if id == "a" then FourChannels
        else s.depth;
      Ok(s.(prevName := name, prevId := id, depth := d))
    else Ok(s.(prevName := name, prevId := id))
  }

  /** The format index of scan step `t`: every channel in turn, then channel 0 again. */
  function Pos(n: nat, t: nat): nat
  {
    if t < n then t else 0
  }

  /** The format index whose id is the previous id before step `t`. */
  function PrevPos(n: nat, t: nat): nat
  {
    if t == 0 then 0 else Pos(n, t - 1)
  }

  /** The scan after its first `k` steps. */
  function Fold(parts: seq<(string, string)>, k: nat, fixed: bool): (r: Outcome<Scan>)
    requires 0 < |parts| && k <= |parts| + 1
  {
    if k == 0 then Ok(Scan(parts[0].0, parts[0].1, OneChannel, 0, []))
    else
      match Fold(parts, k - 1, fixed)
      case Panic => Panic
      case Ok(s) =>
        var j := Pos(|parts|, k - 1);
        Step(s, j, parts[j], !fixed || k - 1 > 0)
  }

  /** The split of every name, panicking if any split does. */
  function Parts(names: seq<string>): (r: Outcome<seq<(string, string)>>)
    ensures r.Panic? <==> exists i :: 0 <= i < |names| && Split(names[i]).Panic?
    ensures r.Ok? ==> |r.value| == |names| && forall i :: 0 <= i < |names| ==> Ok(r.value[i]) == Split(names[i])
  {
    if |names| == 0 then Ok([])
    else
      match (Split(names[0]), Parts(names[1..]))
      case (Ok(p), Ok(ps)) =>
        assert forall i :: 1 <= i < |names| ==> names[i] == names[1..][i - 1];
        Ok([p] + ps)
      case _ =>
        assert forall i :: 1 <= i < |names| ==> names[i] == names[1..][i - 1];
        Panic
  }

  /** The grouping of `PixelFormat::new` over non-empty channel names, as
      written (`fixed` false) or with the first step's boundary test skipped. */
  function Group(names: seq<string>, fixed: bool): Outcome<seq<Layer>>
    requires 0 < |names|
  {
    match Parts(names)
    case Panic => Panic
    case Ok(parts) =>
      match Fold(parts, |parts| + 1, fixed)
      case Panic => Panic
      case Ok(s) => Ok(s.layers)
  }

  /** The text of a channel name: `<invalid>` when it is not UTF-8. */
  function ChannelName(b: CChars): (s: string)
    ensures Valid(b) ==> Encode(s) == b
    ensures !Valid(b) ==> s == "<invalid>"
  {
    DecodeSomeIffValid(b);
    match Decode(b)
    case Some(s) => EncodeDecode(b); s
    case None => "<invalid>"
  }

  /** `PixelFormat::new` as written: no layers for an empty format. */
  function New(format: seq<CChars>): (r: Outcome<seq<Layer>>)
    ensures |format| == 0 ==> r == Ok([])
  {
    if |format| == 0 then Ok([])
    else Group(seq(|format|, i requires 0 <= i < |format| => ChannelName(format[i])), false)
  }

  /** `PixelFormat::new` corrected: the first channel is compared with
      itself, so it never opens a layer. */
  function NewFixed(format: seq<CChars>): (r: Outcome<seq<Layer>>)
    ensures |format| == 0 ==> r == Ok([])
  {
    if |format| == 0 then Ok([])
    else Group(seq(|format|, i requires 0 <= i < |format| => ChannelName(format[i])), true)
  }

  /** Whether scan step `t` emits a layer, from the channel ids alone. */
  predicate Emits(ids: seq<string>, t: nat, fixed: bool)
    requires 0 < |ids| && t <= |ids|
  {
    (!fixed || t > 0) && Boundary(ids[PrevPos(|ids|, t)], ids[Pos(|ids|, t)])
  }

  /** The steps before `k` that emit a layer, in order. */
  function EmitSteps(ids: seq<string>, k: nat, fixed: bool): (ts: seq<nat>)
    requires 0 < |ids| && k <= |ids| + 1
    ensures forall i :: 0 <= i < |ts| ==> ts[i] < k
    ensures forall i, j :: 0 <= i < j < |ts| ==> ts[i] < ts[j]
    ensures fixed ==> forall i :: 0 <= i < |ts| ==> ts[i] > 0
  {
    if k == 0 then []
    else if Emits(ids, k - 1, fixed) then EmitSteps(ids, k - 1, fixed) + [k - 1]
    else EmitSteps(ids, k - 1, fixed)
  }

  /** The offset a layer opened by step `t` starts at. */
  function OpenedAt(ids: seq<string>, ts: seq<nat>, i: nat): nat
    requires 0 < |ids| && i <= |ts|
  {
    if i == 0 then 0 else Pos(|ids|, ts[i - 1])
  }

  function Ids(parts: seq<(string, string)>): (ids: seq<string>)
    ensures |ids| == |parts| && forall i :: 0 <= i < |parts| ==> ids[i] == parts[i].1
  {
    seq(|parts|, i requires 0 <= i < |parts| => parts[i].1)
  }

  /** What the scan has done after `k` steps: the previous id is that of
      the last channel seen, one layer was emitted per boundary step, and
      each layer starts where the boundary before it was. */
  ghost predicate ScanInvariant(parts: seq<(string, string)>, k: nat, fixed: bool)
    requires 0 < |parts| && k <= |parts| + 1 && Fold(parts, k, fixed).Ok?
  {
    var s, ids := Fold(parts, k, fixed).value, Ids(parts);
    var ts := EmitSteps(ids, k, fixed);
    && s.prevId == ids[if k <= |parts| then PrevPos(|parts|, k) else 0]
    && |s.layers| == |ts|
    && s.offset == OpenedAt(ids, ts, |ts|)
    && forall i :: 0 <= i < |ts| ==> s.layers[i].offset == OpenedAt(ids, ts, i)
  }

  /** The scan invariant holds after every step. */
  lemma {:induction false} FoldInvariant(parts: seq<(string, string)>, k: nat, fixed: bool)
    requires 0 < |parts| && k <= |parts| + 1 && Fold(parts, k, fixed).Ok?
    ensures ScanInvariant(parts, k, fixed)
  {
    if k > 0 {
      assert Fold(parts, k - 1, fixed).Ok?;
      FoldInvariant(parts, k - 1, fixed);
      FoldStepKeepsInvariant(parts, k, fixed);
    }
  }

  /** One step of the scan keeps the invariant. */
  lemma FoldStepKeepsInvariant(parts: seq<(string, string)>, k: nat, fixed: bool)
    requires 0 < |parts| && 0 < k <= |parts| + 1 && Fold(parts, k, fixed).Ok?
    requires Fold(parts, k - 1, fixed).Ok? && ScanInvariant(parts, k - 1, fixed)
    ensures ScanInvariant(parts, k, fixed)
  {
    var s, ids, n := Fold(parts, k - 1, fixed).value, Ids(parts), |parts|;
    var j := Pos(n, k - 1);
    var ts0 := EmitSteps(ids, k - 1, fixed);
    assert s.prevId == ids[PrevPos(n, k - 1)];
    assert Emits(ids, k - 1, fixed) <==> (!fixed || k - 1 > 0) && Boundary(s.prevId, parts[j].1);
    if Emits(ids, k - 1, fixed) {
      var ts := ts0 + [k - 1];
      assert forall i :: 0 <= i <= |ts0| ==> OpenedAt(ids, ts, i) == OpenedAt(ids, ts0, i);
    }
  }

  /** The grouping emits exactly one layer per boundary step of the scan,
      and each layer's offset is where the previous boundary was (0 for
      the first). */
  lemma LayersAtBoundaries(names: seq<string>, fixed: bool)
    requires 0 < |names| && Group(names, fixed).Ok?
    ensures var ids := Ids(Parts(names).value);
      var ts := EmitSteps(ids, |names| + 1, fixed);
      var layers := Group(names, fixed).value;
      && |layers| == |ts|
      && forall i :: 0 <= i < |ts| ==> layers[i].offset == OpenedAt(ids, ts, i)
  {
    FoldInvariant(Parts(names).value, |names| + 1, fixed);
  }

  /** With the first step fixed, layers start at strictly increasing
      channel offsets inside the format. */
  lemma FixedOffsetsIncrease(names: seq<string>)
    requires 0 < |names| && Group(names, true).Ok?
    ensures var layers := Group(names, true).value;
      && (forall i :: 0 <= i < |layers| ==> layers[i].offset < |names|)
      && (forall i, j :: 0 <= i < j < |layers| ==> layers[i].offset < layers[j].offset)
  {
    LayersAtBoundaries(names, true);
    var ids := Ids(Parts(names).value);
    OpenedAtIncrease(ids, EmitSteps(ids, |names| + 1, true));
  }

  /** Steps after the first, strictly increasing and inside the scan, open
      layers at strictly increasing offsets inside the format. */
  lemma OpenedAtIncrease(ids: seq<string>, ts: seq<nat>)
    requires 0 < |ids|
    requires forall i :: 0 <= i < |ts| ==> 0 < ts[i] <= |ids|
    requires forall i, j :: 0 <= i < j < |ts| ==> ts[i] < ts[j]
    ensures forall i :: 0 <= i < |ts| ==> OpenedAt(ids, ts, i) < |ids|
    ensures forall i, j :: 0 <= i < j < |ts| ==> OpenedAt(ids, ts, i) < OpenedAt(ids, ts, j)
  {
    forall i | 0 < i < |ts|
      ensures OpenedAt(ids, ts, i) == ts[i - 1] && 0 < ts[i - 1] < |ids|
    {
      assert ts[i - 1] < ts[|ts| - 1] <= |ids|;
    }
  }

  /** The two parsers differ only when the first channel's id is `s`. */
  lemma FixedAgreesUnlessFirstIsScalar(names: seq<string>)
    requires 0 < |names| && Parts(names).Ok? && Parts(names).value[0].1 != "s"
    ensures Group(names, true) == Group(names, false)
  {
    var parts := Parts(names).value;
    var s := Fold(parts, 0, true).value;
    assert Fold(parts, 0, false) == Ok(s);
    assert !Boundary(s.prevId, parts[0].1);
    assert Fold(parts, 1, true) == Step(s, 0, parts[0], false);
    assert Fold(parts, 1, false) == Step(s, 0, parts[0], true);
    FoldAgrees(parts, |parts| + 1);
  }

  lemma {:induction false} FoldAgrees(parts: seq<(string, string)>, k: nat)
    requires 0 < |parts| && 0 < k <= |parts| + 1 && Fold(parts, 1, true) == Fold(parts, 1, false)
    ensures Fold(parts, k, true) == Fold(parts, k, false)
  {
    if k > 1 {
      FoldAgrees(parts, k - 1);
    }
  }

  /** As written, a format whose single channel is the scalar `z.000` gives
      two identical layers at offset 0: the first step compares the channel
      with itself and finds a boundary. The corrected parser gives one. */
  lemma ScalarFirstChannelDuplicated()
    ensures Group(["z.000"], false) == Ok([Layer("z", OneChannel, 0), Layer("z", OneChannel, 0)])
    ensures Group(["z.000"], true) == Ok([Layer("z", OneChannel, 0)])
  {
    SplitScalar("z");
    assert "z" + ".000" == "z.000";
    var names, parts := ["z.000"], [("z", "s")];
    assert Split(names[0]) == Ok(parts[0]);
    assert Parts(names).Ok?;
    assert Parts(names).value == parts;
    ScalarScan();
  }

  lemma ScalarScan()
    ensures Fold([("z", "s")], 2, false) == Ok(Scan("z", "s", OneChannel, 0, [Layer("z", OneChannel, 0), Layer("z", OneChannel, 0)]))
    ensures Fold([("z", "s")], 2, true) == Ok(Scan("z", "s", OneChannel, 0, [Layer("z", OneChannel, 0)]))
  {
    var parts := [("z", "s")];
    var s0 := Scan("z", "s", OneChannel, 0, []);
    var s1 := Scan("z", "s", OneChannel, 0, [Layer("z", OneChannel, 0)]);
    assert Fold(parts, 0, false) == Fold(parts, 0, true) == Ok(s0);
    var r := Step(s0, 0, ("z", "s"), true);
    assert r.Ok? && r.value.layers == s1.layers;
    assert r == Ok(s1);
    assert Fold(parts, 1, false) == Ok(s1);
    var s2 := Scan("z", "s", OneChannel, 0, [Layer("z", OneChannel, 0), Layer("z", OneChannel, 0)]);
    var r2 := Step(s1, 0, ("z", "s"), true);
    assert r2.Ok? && r2.value.layers == s2.layers;
    assert r2 == Ok(s2);
    var u := Step(s0, 0, ("z", "s"), false);
    assert "s" !in {"r", "g", "b"} && "s" !in {"x", "y", "z"} && "s" != "a";
    assert u == Ok(s0);
    assert Fold(parts, 1, true) == Ok(s0);
  }

  /** `PixelFormat::channels`: the channels of all layers together. */
  function TotalChannels(layers: seq<Layer>): (n: nat)
    ensures |layers| <= n <= 5 * |layers|
  {
    if |layers| == 0 then 0 else TotalChannels(layers[..|layers| - 1]) + Channels(layers[|layers| - 1].depth)
  }

  /** The count is additive over concatenation. */
  lemma {:induction false} TotalChannelsAppend(a: seq<Layer>, b: seq<Layer>)
    ensures TotalChannels(a + b) == TotalChannels(a) + TotalChannels(b)
    decreases |b|
  {
    if |b| == 0 {
      assert a + b == a;
    } else {
      TotalChannelsAppend(a, b[..|b| - 1]);
      assert (a + b)[..|a + b| - 1] == a + b[..|b| - 1];
      assert (a + b)[|a + b| - 1] == b[|b| - 1];
    }
  }

  /** The documented example: an RGBA colour and a world-space normal give
      `Ci` (ColorAndAlpha, offset 0) and `N_world` (Vector, offset 4), seven
      channels in all. */
  lemma DocumentedExample()
    ensures Group(["r", "g", "b", "a", "N_world.000.x", "N_world.001.y", "N_world.002.z"], false)
      == Ok([Layer("Ci", ColorAndAlpha, 0), Layer("N_world", Vector, 4)])
    ensures TotalChannels([Layer("Ci", ColorAndAlpha, 0), Layer("N_world", Vector, 4)]) == 7
  {
    var layers := [Layer("Ci", ColorAndAlpha, 0), Layer("N_world", Vector, 4)];
    assert layers[..1] == [layers[0]];
    assert [layers[0]][..0] == [];
    assert TotalChannels([layers[0]]) == 4;
    assert TotalChannels(layers) == TotalChannels([layers[0]]) + 3;
    DocumentedGroup();
  }

  lemma DocumentedGroup()
    ensures Group(["r", "g", "b", "a", "N_world.000.x", "N_world.001.y", "N_world.002.z"], false)
      == Ok([Layer("Ci", ColorAndAlpha, 0), Layer("N_world", Vector, 4)])
  {
    var names: seq<string> := ["r", "g", "b", "a", "N_world.000.x", "N_world.001.y", "N_world.002.z"];
    var parts := [("", "r"), ("", "g"), ("", "b"), ("", "a"), ("N_world", "x"), ("N_world", "y"), ("N_world", "z")];
    DocumentedParts();
    assert Parts(names) == Ok(parts);
    DocumentedScan();
    assert Fold(parts, |parts| + 1, false).value.layers == [Layer("Ci", ColorAndAlpha, 0), Layer("N_world", Vector, 4)];
  }

  lemma DocumentedParts()
    ensures Parts(["r", "g", "b", "a", "N_world.000.x", "N_world.001.y", "N_world.002.z"])
      == Ok([("", "r"), ("", "g"), ("", "b"), ("", "a"), ("N_world", "x"), ("N_world", "y"), ("N_world", "z")])
  {
    var names: seq<string> := ["r", "g", "b", "a", "N_world.000.x", "N_world.001.y", "N_world.002.z"];
    var parts := [("", "r"), ("", "g"), ("", "b"), ("", "a"), ("N_world", "x"), ("N_world", "y"), ("N_world", "z")];
    forall i | 0 <= i < |names|
      ensures Split(names[i]) == Ok(parts[i])
    {
      if i < 4 {
        assert |names[i]| == 1 && names[i][0] != '.' && parts[i] == ("", names[i]);
      } else {
        VectorComponentSplit(i - 4);
        assert "N_world" + "." + VectorIndices[i - 4] + "." + VectorComponents[i - 4] == names[i];
      }
    }
    PartsFromSplits(names, parts);
  }

  /** Splits that all succeed make the parts. */
  lemma PartsFromSplits(names: seq<string>, parts: seq<(string, string)>)
    requires |names| == |parts| && forall i :: 0 <= i < |names| ==> Split(names[i]) == Ok(parts[i])
    ensures Parts(names) == Ok(parts)
  {
    var r := Parts(names).value;
    forall i | 0 <= i < |names|
      ensures r[i] == parts[i]
    {
      assert Ok(r[i]) == Split(names[i]);
    }
    assert r == parts;
  }

  const VectorIndices: seq<string> := ["000", "001", "002"]
  const VectorComponents: seq<string> := ["x", "y", "z"]

  /** Component `k` of the documented `N_world` vector layer splits into the layer and its letter. */
  lemma VectorComponentSplit(k: nat)
    requires k < 3
    ensures Split("N_world" + "." + VectorIndices[k] + "." + VectorComponents[k]) == Ok(("N_world", VectorComponents[k]))
  {
    SplitComponents("N_world", VectorIndices[k], VectorComponents[k]);
  }

  lemma DocumentedScan()
    ensures var parts := [("", "r"), ("", "g"), ("", "b"), ("", "a"), ("N_world", "x"), ("N_world", "y"), ("N_world", "z")];
      Fold(parts, 8, false) == Ok(Scan("", "r", OneChannel, 0, [Layer("Ci", ColorAndAlpha, 0), Layer("N_world", Vector, 4)]))
  {
    var parts := [("", "r"), ("", "g"), ("", "b"), ("", "a"), ("N_world", "x"), ("N_world", "y"), ("N_world", "z")];
    var s0 := Scan("", "r", OneChannel, 0, []);
    assert Fold(parts, 0, false) == Ok(s0);
    var s1 := Scan("", "r", Color, 0, []);
    var r1 := Step(s0, 0, ("", "r"), true);
    assert r1.Ok? && r1.value.layers == s1.layers;
    assert r1 == Ok(s1);
    assert Fold(parts, 1, false) == Ok(s1);
    var s2 := Scan("", "g", Color, 0, []);
    var r2 := Step(s1, 1, ("", "g"), true);
    assert r2.Ok? && r2.value.layers == s2.layers;
    assert r2 == Ok(s2);
    assert Fold(parts, 2, false) == Ok(s2);
    var s3 := Scan("", "b", Color, 0, []);
    var r3 := Step(s2, 2, ("", "b"), true);
    assert r3.Ok? && r3.value.layers == s3.layers;
    assert r3 == Ok(s3);
    assert Fold(parts, 3, false) == Ok(s3);
    var s4 := Scan("", "a", ColorAndAlpha, 0, []);
    var r4 := Step(s3, 3, ("", "a"), true);
    assert r4.Ok? && r4.value.layers == s4.layers;
    assert r4 == Ok(s4);
    assert Fold(parts, 4, false) == Ok(s4);
    var s5 := Scan("N_world", "x", OneChannel, 4, [Layer("Ci", ColorAndAlpha, 0)]);
    var r5 := Step(s4, 4, ("N_world", "x"), true);
    assert r5.Ok? && r5.value.layers == s5.layers;
    assert r5 == Ok(s5);
    assert Fold(parts, 5, false) == Ok(s5);
    var s6 := Scan("N_world", "y", Vector, 4, [Layer("Ci", ColorAndAlpha, 0)]);
    var r6 := Step(s5, 5, ("N_world", "y"), true);
    assert r6.Ok? && r6.value.layers == s6.layers;
    assert r6 == Ok(s6);
    assert Fold(parts, 6, false) == Ok(s6);
    var s7 := Scan("N_world", "z", Vector, 4, [Layer("Ci", ColorAndAlpha, 0)]);
    var r7 := Step(s6, 6, ("N_world", "z"), true);
    assert r7.Ok? && r7.value.layers == s7.layers;
    assert r7 == Ok(s7);
    assert Fold(parts, 7, false) == Ok(s7);
    var s8 := Scan("", "r", OneChannel, 0, [Layer("Ci", ColorAndAlpha, 0), Layer("N_world", Vector, 4)]);
    var r8 := Step(s7, 0, ("", "r"), true);
    assert r8.Ok? && r8.value.layers == s8.layers;
    assert r8 == Ok(s8);
    assert Fold(parts, 8, false) == Ok(s8);
  }
}
