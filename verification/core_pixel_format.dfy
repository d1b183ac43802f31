/** `PixelFormat::new` of `nsi-core` (`output/pixel_format.rs`). It groups
    channels exactly as the `nsi-ffi-wrap` parser does, and differs only at
    the edges: it indexes the first channel without checking that there is
    one, and it unwraps the UTF-8 conversion of every channel name. */
module CorePixelFormat {
  import opened Wrappers
  import opened Utf8
  import PixelFormat

  /** Whether every channel name is UTF-8. */
  predicate AllValid(format: seq<CChars>)
  {
    forall i :: 0 <= i < |format| ==> Valid(format[i])
  }

  /** The channel names as text, for an all-UTF-8 format. */
  function Names(format: seq<CChars>): (names: seq<string>)
    requires AllValid(format)
    ensures |names| == |format| && forall i :: 0 <= i < |format| ==> Encode(names[i]) == format[i]
  {
    seq(|format|, i requires 0 <= i < |format| => PixelFormat.ChannelName(format[i]))
  }

  /** `PixelFormat::new`: panics on an empty format and on a channel name
      that is not UTF-8; otherwise the shared grouping. */
  function New(format: seq<CChars>): (r: Outcome<seq<PixelFormat.Layer>>)
    ensures |format| == 0 ==> r.Panic?
    ensures (exists i :: 0 <= i < |format| && !Valid(format[i])) ==> r.Panic?
    ensures 0 < |format| && AllValid(format) ==> r == PixelFormat.Group(Names(format), false)
  {
    if |format| == 0 || !AllValid(format) then Panic
    else PixelFormat.Group(Names(format), false)
  }

  /** Where it does not panic on its input, the `nsi-core` parser agrees
      with the `nsi-ffi-wrap` one. */
  lemma AgreesWithWrapper(format: seq<CChars>)
    requires 0 < |format| && AllValid(format)
    ensures New(format) == PixelFormat.New(format)
  {
    var names := seq(|format|, i requires 0 <= i < |format| => PixelFormat.ChannelName(format[i]));
    assert Names(format) == names;
  }
}
