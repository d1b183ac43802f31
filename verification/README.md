# A Dafny model of the ɴsɪ Rust bindings and their display drivers

This project models the self-contained logic of a Rust binding to the ɴsɪ
renderer interface (`nsi.h`) and to its ndspy display-driver callbacks. The
logic is modelled in Dafny, and properties of it are proved.

What is modelled:

- **The C header and its Rust mirrors** (`nsi_header.dfy`, `nsi_trait.dfy`, `node.dfy`, `ffi_nsi_trait.dfy`):
  - type codes, the `NSITypeSizeOf` table, the parameter flags and the bad-context sentinel;
  - error levels;
  - the `Type`, `Flags`, `Action` and `NodeType` tables, with their name round trips.
- **Argument encoding** (`argument.dfy`): the `Arg` builder, `elemensize`, `len` of every argument variant, and the flat `NSIParam` records that `get_c_param_vec` builds.
- **The C-facing side of `nsi-ffi-wrap`**:
  - `c_api.dfy`: raw parameter records filtered into typed arguments, and the guards of the generated C entry points;
  - `c_adapter.dfy`: the table mapping integer context ids to handles;
  - `session.dfy`: the record lists that `Context` builds, the error-handler and render-status translations, and the shared-ownership rule for ending a context.
- **Pixel formats**:
  - `pixel_type.dfy`, `pixel_format.dfy`: the ndspy scalar types and the parser that groups channel names into layers;
  - `core_pixel_format.dfy`: the older copy of that parser in `nsi-core`.
- **Display drivers**:
  - `ndspy.dfy` holds what all three drivers share;
  - `scanline_copy.dfy` holds the bucket-into-image copy;
  - `display_driver.dfy` models the drivers of `nsi-ffi-wrap`, including the accumulating callback pair;
  - `core_display_driver.dfy` models those of `nsi-core`;
  - `legacy_output.dfy` models those of `src/output`, with the reorderable channel list.
- **Support**: `wrappers.dfy` defines `Option`, `Outcome` and `Result`; `utf8.dfy` defines UTF-8 validity, decoding, encoding and lossy conversion after section 3.9 of the Unicode Standard.

How the foreign side is represented:

- A Rust panic, `unwrap` on `None` and `unreachable!` are the `Panic` outcome.
- `catch_unwind` is `Ndspy.Caught`, which turns a panic into `Undefined`.
- Raw pointers are `Option`s, or flags where only their nullness matters.
- A C string is `NullStr`, or the bytes before its terminating NUL.
- User closures are opaque tokens. What they return is a parameter.
- A call into the renderer is the list of records handed to it.
- Integers are unbounded. The casts and overflows of `c_int` and `usize` are written out where the code depends on them: `NsiHeader.AsCInt`, `Ndspy.AsUsize`, and the overflow predicates of the drivers.

Where the code has a defect (see "## Findings"), the operations follow the
code as written. The corrected version sits beside them under its own name
(`PixelFormat.NewFixed`, `DisplayDriver.ImageOpenFixed`,
`CAdapter.BeginChecked`, `CAdapter.StepChecked`, `CApi.InvokeChecked`,
`LegacyOutput.ImageOpenFixed`, `Session.StatusTrampolineFixed`), with the intended property proved about it.

## Model

| member | source | states |
|---|---|---|
| NsiHeader.AsCInt | crates/nsi-ffi-wrap/src/c_adapter.rs:84-95 | an `i32` wrapping operation yields the unique C `int` congruent to the exact result, and leaves in-range values alone |
| NsiHeader.TypeCodesDistinct | crates/nsi-sys/include/nsi.h:27-41 | no two `NSIType_t` values share a code, and each double type is its single-precision partner with bit 0x10 set |
| NsiHeader.TypeSizeOfMatchesComponents | crates/nsi-sys/include/nsi.h:43-57 | `NSITypeSizeOf` of every type's code is its component count times the size of one component |
| NsiHeader.TypeSizeOfNonZeroIff | crates/nsi-sys/include/nsi.h:43-57 | a code has a non-zero size exactly when it is the code of a real (non-invalid) type |
| NsiHeader.FlagBits | crates/nsi-sys/include/nsi.h:59-66 | any combination of the four parameter flags sets no bit outside the low four |
| NsiHeader.FlagsRoundTrip | crates/nsi-sys/src/lib.rs:78-86 | every combination of the four flags can be read back from its bits |
| NsiHeader.FlagBitsRoundTrip | crates/nsi-sys/src/lib.rs:78-86 | every bit pattern within the four flags is the bits of the flags it holds |
| NsiHeader.SetFlagBit | crates/nsi-sys/src/lib.rs:78-86 | inserting one flag turns that flag on and keeps every other bit and flag as it was |
| NsiHeader.ErrorLevelFrom | crates/nsi-sys/src/lib.rs:88-97 | `From<i32> for NSIErrorLevel` gives `Error` exactly for the levels other than 0, 1 and 2 |
| NsiHeader.ErrorLevelRoundTrip | crates/nsi-sys/src/lib.rs:88-97 | converting the header code of any level gives that level back |
| NsiHeader.ErrorLevelFromKnownCode | crates/nsi-sys/include/nsi.h:88-95 | on the four codes `NSIErrorLevel` defines, the conversion is the header's own table |
| NsiTrait.DiscriminantsMatchHeader | crates/nsi-trait/src/nsi_trait.rs:10-26 | each `Type` discriminant is the `nsi.h` code of the type it stands for, and no two variants share one |
| NsiTrait.FlagsMatchHeader | crates/nsi-trait/src/nsi_trait.rs:30-39 | the `Flags` bits are the header's; `PER_VERTEX \| IS_ARRAY` is 5, contains both and not `PER_FACE` (the test at lines 314-320) |
| NsiTrait.ActionFromName | crates/nsi-trait/src/nsi_trait.rs:150-161 | a parsed action's name is the parsed string |
| NsiTrait.ActionRoundTrip | crates/nsi-trait/src/nsi_trait.rs:136-162 | parsing inverts `as_str` for all six actions, and exactly the six names parse |
| Node.NodeFromName | crates/nsi-trait/src/node.rs:189-216 | a parsed node type's name is the parsed string |
| Node.NodeRoundTrip | crates/nsi-trait/src/node.rs:156-216 | parsing inverts `as_str` for all 24 node types |
| Node.NodeFromNameNoneIff | crates/nsi-trait/src/node.rs:189-216 | a string fails to parse exactly when it is the name of no node type |
| Node.NodeNameInjective | crates/nsi-trait/src/node.rs:159-186 | no two node types share a name |
| FfiNsiTrait.FfiNodeFromName | crates/nsi-ffi-wrap/src/nsi_trait.rs:74-101 | a node type parsed by the `nsi-ffi-wrap` table has the parsed string as its name |
| FfiNsiTrait.FfiTableAgrees | crates/nsi-ffi-wrap/src/nsi_trait.rs:41-101 | the `nsi-ffi-wrap` table names and parses every node type exactly as the `nsi-trait` table does |
| FfiNsiTrait.FfiNodeRoundTrip | crates/nsi-ffi-wrap/src/nsi_trait.rs:41-101 | the `nsi-ffi-wrap` parser inverts its `as_str`, and exactly the 24 names parse |
| FfiNsiTrait.Render | crates/nsi-ffi-wrap/src/nsi_trait.rs:193-201 | `render` issues `Start` with the caller's arguments, then `Wait` without any only if `Start` succeeded; it fails exactly when the last call failed, with that call's error |
| FfiNsiTrait.RenderWaitsOnlyAfterStart | crates/nsi-ffi-wrap/src/nsi_trait.rs:193-201 | `Wait` is issued exactly when `Start` succeeded, and `render` succeeds exactly when both calls do |
| Argument.ElemSizeMatchesHeader | crates/nsi-core/src/argument.rs:602-620 | `elemensize` is the header's component count, so one value occupies `elemensize` scalars of the header's size, and no argument type is `Invalid` |
| Argument.ArrayNew | crates/nsi-core/src/argument.rs:197-203 | an array constructor panics (debug build) exactly when the scalar count is not a whole number of values; otherwise `len` times `elemensize` is the scalar count |
| Argument.LenByVariant | crates/nsi-core/src/argument.rs:175-245 | `len` counts whole values of an array, one for every single or tuple value, and the strings of `Strings` |
| Argument.StringNew | crates/nsi-core/src/argument.rs:408-425 | `String::new` panics exactly on an interior NUL; otherwise one string value |
| Argument.StringsNew | crates/nsi-core/src/argument.rs:539-558 | `Strings::new` panics exactly when some string has an interior NUL; otherwise its length is the number of strings |
| Argument.AddressOf | crates/nsi-core/src/argument.rs:299-308 | an absent reference becomes the null pointer and a present one its own address |
| Argument.ReferenceNew | crates/nsi-core/src/argument.rs:299-323 | `Reference::new` is null exactly for `None`, is typed `Pointer` and has length 1 |
| Argument.ReferencesNew | crates/nsi-core/src/argument.rs:457-489 | `References::new` keeps one address per entry in order, null exactly for `None`, typed `Pointer`, with one value per entry |
| Argument.PointerVariantsTagPointer | crates/nsi-core/src/argument.rs:310-399 | every reference, callback and pointer variant is typed `Pointer`, and each single one has length 1 |
| Argument.ArgNew | crates/nsi-core/src/argument.rs:56-66 | a new argument keeps its name and data, has array length 1 and flags 0, so it converts with no flag set |
| Argument.ParameterDefaultsMatchArgNew | crates/nsi-trait/src/nsi_trait.rs:86-99 | a parameter that keeps the trait defaults reports what a new argument converts to: array length 1, no flag, and empty exactly when the converted record carries no element; overriding the array length gives what `array_len` sets |
| Argument.ArrayLen | crates/nsi-core/src/argument.rs:67-73 | `array_len` sets the array length, turns `IsArray` on and leaves every other flag bit, the name and the data unchanged |
| Argument.PerFace | crates/nsi-core/src/argument.rs:75-80 | `per_face` turns `PerFace` on and changes nothing else |
| Argument.PerVertex | crates/nsi-core/src/argument.rs:82-87 | `per_vertex` turns `PerVertex` on and changes nothing else |
| Argument.LinearInterpolation | crates/nsi-core/src/argument.rs:89-94 | `linear_interpolation` turns `InterpolateLinear` on and changes nothing else |
| Argument.FlagSettersIdempotent | crates/nsi-core/src/argument.rs:75-94 | applying a flag setter twice is applying it once |
| Argument.FlagSettersCommute | crates/nsi-core/src/argument.rs:75-94 | the three flag setters can be applied in any order |
| Argument.DataPointer | crates/nsi-core/src/argument.rs:184-186 | references, callbacks and pointers pass their raw address, a string passes a slot holding its `char*`, and every other datum passes its own values |
| Argument.CParamVec | crates/nsi-core/src/argument.rs:15-34 | `get_c_param_vec` gives no record for no arguments, panics exactly when an array length is 0, and otherwise one record per argument, in order, carrying its name, data pointer, type code, array length as a C `int`, the number of whole arrays as count, and its flags |
| Argument.ArrayLengthFits | crates/nsi-core/src/argument.rs:24 | an array length that fits a C `int` reaches the record unchanged |
| CAdapter.New | crates/nsi-ffi-wrap/src/c_adapter.rs:58-65 | a new adapter has no context and will issue a non-zero id first, so every operation and every `end` on it reaches the renderer with nothing |
| CAdapter.Begin | crates/nsi-ffi-wrap/src/c_adapter.rs:84-98 | `begin` as written: a failed renderer `begin` returns `NSI_BAD_CONTEXT` and changes nothing; a successful one returns the counter's id, maps it to the handle, and advances the counter by one with 32-bit wrap-around |
| CAdapter.End | crates/nsi-ffi-wrap/src/c_adapter.rs:101-107 | `end` removes exactly the given id, keeps every other entry and the counter, and ends the renderer context exactly when the id was known |
| CAdapter.BeginIssuesFreshId | crates/nsi-ffi-wrap/src/c_adapter.rs:84-98 | before the counter wraps, a successful `begin` issues a non-zero id no live context uses, and keeps every live id below the counter |
| CAdapter.EndKeepsFresh | crates/nsi-ffi-wrap/src/c_adapter.rs:101-107 | `end` keeps every live id non-zero and below the counter |
| CAdapter.Step | crates/nsi-ffi-wrap/src/c_adapter.rs:84-224 | with `begin` as written, any request keeps the counter a 32-bit value; a `begin` always asks the renderer once with its arguments, and only a successful `begin` moves the counter |
| CAdapter.Run | crates/nsi-ffi-wrap/src/c_adapter.rs:84-224 | with `begin` as written, any sequence of requests keeps the counter a 32-bit value |
| CAdapter.EndedIdStaysDead | crates/nsi-ffi-wrap/src/c_adapter.rs:84-224 | with `begin` as written, an id already ended stays out of the table, and every later operation on it reaches the renderer with nothing, for as many successful begins as leave the counter below its wrap |
| CAdapter.CounterAfterBegins | crates/nsi-ffi-wrap/src/c_adapter.rs:58-98 | after `k` successful begins on a new adapter, the counter holds `1 + k` wrapped to 32 bits |
| CAdapter.WrappedBeginReturnsBadContext | crates/nsi-ffi-wrap/src/c_adapter.rs:84-98 | the 2^32-th successful `begin` returns `NSI_BAD_CONTEXT` although the renderer's context is now in the table under id 0 |
| CAdapter.BeginChecked | crates/nsi-ffi-wrap/src/c_adapter.rs:84-98 | the corrected `begin` refuses, without calling the renderer, when the `i32` counter stands at `i32::MAX` (it cannot be incremented past it), and is `begin` otherwise; the last id it issues is `i32::MAX - 1` |
| CAdapter.BeginCheckedIssuesFreshId | crates/nsi-ffi-wrap/src/c_adapter.rs:84-98 | with the corrected `begin`, every id returned is non-zero, unused before, and maps to the renderer's handle, for any number of calls |
| CAdapter.StepChecked | crates/nsi-ffi-wrap/src/c_adapter.rs:84-224 | the corrected step is the step as written, except that a `begin` on an exhausted counter calls nothing and changes nothing |
| CAdapter.RunChecked | crates/nsi-ffi-wrap/src/c_adapter.rs:84-224 | with the corrected `begin`, any sequence of requests keeps the counter a 32-bit value |
| CAdapter.EndedIdStaysDeadChecked | crates/nsi-ffi-wrap/src/c_adapter.rs:84-224 | with the corrected `begin`, an ended id stays out of the table and every later operation on it reaches the renderer with nothing, however many requests follow |
| CApi.Records | crates/nsi-ffi-wrap/src/c_api.rs:63-69 | the helpers walk no record when `nparams <= 0` or the pointer is null, and otherwise exactly the first `nparams` records |
| CApi.HandleToStr | crates/nsi-ffi-wrap/src/c_api.rs:208-214 | `handle_to_str` gives a text exactly for a non-null, well-formed UTF-8 C string, and that text encodes back to the string's bytes |
| CApi.HandleToStrRoundTrip | crates/nsi-ffi-wrap/src/c_api.rs:208-214 | the C form of any NUL-free text converts back to that text |
| CApi.ParseNodeType | crates/nsi-ffi-wrap/src/c_api.rs:135-142 | a parsed node type's name is exactly the C string's text |
| CApi.ParseNodeTypeRoundTrip | crates/nsi-ffi-wrap/src/c_api.rs:135-142 | the C form of every node type's name parses to that node type |
| CApi.ParseAction | crates/nsi-ffi-wrap/src/c_api.rs:149-156 | a parsed action's name is exactly the C string's text |
| CApi.ParseActionRoundTrip | crates/nsi-ffi-wrap/src/c_api.rs:149-156 | the C form of every action's name parses to that action |
| CApi.CellData | crates/nsi-ffi-wrap/src/c_api.rs:96-125 | a float, double or integer code reads that value from the cell; a string code reads a non-null, well-formed string; every other code gives nothing; the value has the record's type and length 1 |
| CApi.MarshalSingle | crates/nsi-ffi-wrap/src/c_api.rs:87-128 | `marshal_single_param` converts a record exactly when both pointers are set, the name is well-formed and the cell converts; the argument carries the record's name, the cell's value, array length 1 and no flag |
| CApi.MarshalSingleIgnoresShape | crates/nsi-ffi-wrap/src/c_api.rs:87-128 | the record's array length, count and flags never change the conversion |
| CApi.KeptIndicesExact | crates/nsi-ffi-wrap/src/c_api.rs:72-77 | the positions the loop keeps are increasing and are exactly those of the convertible records |
| CApi.KeptIsFilterMap | crates/nsi-ffi-wrap/src/c_api.rs:72-77 | the loop keeps one argument per convertible record, in the records' order, each the conversion of its record |
| CApi.MarshalParams | crates/nsi-ffi-wrap/src/c_api.rs:59-80 | `marshal_params_to_args` is `None` exactly when no record converts (so also for an empty or null list), and otherwise the non-empty list of converted arguments |
| CApi.ExtractAction | crates/nsi-ffi-wrap/src/c_api.rs:165-200 | `extract_action_from_params` is decided by the first record with a well-formed name "action", the string type and a readable text, even when that text names no action; without such a record it is `None` |
| CApi.FirstAction | crates/nsi-ffi-wrap/src/c_api.rs:176-197 | the scan's result is that of its first decisive record, and nothing is found without one |
| CApi.NodeOp | crates/nsi-ffi-wrap/src/c_api.rs:260-342 | `NSICreate`, `NSIDelete`, `NSISetAttribute(AtTime)` and `NSIDeleteAttribute` reach the adapter exactly when their handles and names convert, the node type parses, and (for the attribute setters) some record converts |
| CApi.LinkOp | crates/nsi-ffi-wrap/src/c_api.rs:345-426 | `NSIConnect`/`NSIDisconnect` reach the adapter exactly when both handles and the target attribute convert; `NSIEvaluate` always does; `NSIRenderControl` exactly when an action is found, with that action and the converted arguments |
| CApi.Invoke | crates/nsi-ffi-wrap/src/c_api.rs:244-426 | a call stopped by its guard changes nothing and calls nothing; only `NSIBegin` returns a value or can change the table apart from `NSIEnd`; `NSIBegin`, as written, always asks the renderer with the converted arguments, returns `NSI_BAD_CONTEXT` and changes nothing when it fails, and otherwise returns the counter's id, maps it to the handle and advances the counter with 32-bit wrap-around |
| CApi.InvokeChecked | crates/nsi-ffi-wrap/src/c_api.rs:244-426 | with the corrected `begin`, a C call behaves as written, except that `NSIBegin` on an exhausted counter returns `NSI_BAD_CONTEXT` without calling the renderer |
| CApi.CreateWithBadHandleDoesNothing | crates/nsi-ffi-wrap/src/c_api.rs:260-276 | a null or ill-formed handle stops `NSICreate`: nothing reaches the renderer and the table is unchanged |
| CApi.TranslateRenderControl | crates/nsi-ffi-wrap/src/c_api.rs:411-426 | a render-control call whose parameters yield an action becomes a request for that action with the converted arguments |
| CApi.InvokeForwardsOp | crates/nsi-ffi-wrap/src/c_api.rs:255-426 | a call that passes its guard as an operation reaches the renderer as that one operation on a known context, and changes nothing |
| CApi.RenderControlForwardsAction | crates/nsi-ffi-wrap/src/c_api.rs:411-426 | `NSIRenderControl` on a live context forwards exactly the action named by the first decisive record |
| Session.UntilNul | crates/nsi-ffi-wrap/src/context.rs:187 | the text C reads is the longest NUL-free prefix of the bytes: all of them when there is no NUL, otherwise up to the first NUL |
| Session.UstrPtr | crates/nsi-ffi-wrap/src/context.rs:187 | C receives a NUL-free prefix of the text's UTF-8 form: all of it, reading back as the same text, when the text has no NUL, and a proper prefix exactly when it has one |
| Session.HandlePtr | crates/nsi-ffi-wrap/src/handle.rs:74-76 | a `CString`-backed handle panics exactly when the text contains U+0000, and otherwise reaches the C API as the same text |
| Session.EncodeHasNulIff | crates/nsi-ffi-wrap/src/handle.rs:74-76 | a text's UTF-8 form has a zero byte exactly when the text contains U+0000 |
| Session.UstrRoundTrip | crates/nsi-ffi-wrap/src/context.rs:334 | a NUL-free name passed through `ustr` is read back by the C API as the same name |
| Session.HasNulByHandles | crates/nsi-ffi-wrap/src/context.rs:180-439 | a method with one handle panics on that handle's NUL, one with two on either's |
| Session.Call | crates/nsi-ffi-wrap/src/context.rs:180-495 | each scene-editing method panics exactly when a handle holds NUL or an argument has array length 0, and otherwise makes the one matching C call on its context, with the records `get_c_param_vec` builds |
| Session.CallCarriesHandles | crates/nsi-ffi-wrap/src/context.rs:180-439 | every handle of a successful call reaches the C API as the caller's text |
| Session.CallCarriesNames | crates/nsi-ffi-wrap/src/context.rs:295-439 | attribute and node-type names go through `ustr`, a missing `from_attr` is sent as "", and `set_attribute_at_time` passes its time unchanged |
| Session.MissingFromAttrIsEmpty | crates/nsi-ffi-wrap/src/context.rs:420-439 | a `disconnect` without `from_attr` names the empty attribute, not an absent one |
| Session.FindNamed | crates/nsi-ffi-wrap/src/context.rs:111-114 | the search finds the first argument with the name, and nothing exactly when no argument has it |
| Session.ErrorHandlerRecords | crates/nsi-ffi-wrap/src/context.rs:106-134 | `new` appends the trampoline record and the payload record of the first "errorhandler" argument exactly when there is one |
| Session.ContextNew | crates/nsi-ffi-wrap/src/context.rs:102-147 | `Context::new` panics exactly on an array length 0, sends the arguments' records followed by the error-handler records, and yields a context exactly when the renderer's answer is not `NSI_BAD_CONTEXT` |
| Session.ActionRecord | crates/nsi-ffi-wrap/src/context.rs:559-566 | the action record is a string record named "action" whose text the C API reads back as the action's name |
| Session.CallbackRecords | crates/nsi-ffi-wrap/src/context.rs:568-592 | `render_control` appends the stopped-callback records of the first "callback" argument exactly when there is one |
| Session.RenderControl | crates/nsi-ffi-wrap/src/context.rs:549-600 | `render_control` panics exactly on an array length 0 and otherwise sends the arguments' records, the action record, then the callback records |
| Session.ControlCallNamesAction | crates/nsi-ffi-wrap/src/context.rs:549-600 | a render control without a zero array length becomes one `NSIRenderControl` on the context, whose record right after the caller's arguments names the action |
| Session.RenderThroughContext | crates/nsi-ffi-wrap/src/nsi_trait.rs:193-201 | `render` on a `Context` turns each call it issues into one `NSIRenderControl` on that context, whose record after the caller's arguments names `start` or `wait` |
| Session.ActionRecordFirstUnlessShadowed | crates/nsi-ffi-wrap/src/context.rs:549-600 | unless a caller's argument is itself named "action", the appended action record is the first record of that name, so it is the one `extract_action_from_params` reads |
| Session.RenderStatusFrom | crates/nsi-ffi-wrap/src/context.rs:605-615 | `RenderStatus::from` gives `Completed` exactly for codes other than 1, 2 and 3 |
| Session.RenderStatusFromHeader | crates/nsi-ffi-wrap/src/context.rs:605-615 | every `NSIStoppingStatus` code converts to the status of the same name |
| Session.LogLevelOf | crates/nsi-ffi-wrap/src/context.rs:819-824 | no error level is logged at `Debug` |
| Session.LogLevelOfMonotone | crates/nsi-ffi-wrap/src/context.rs:819-824 | the level translation is one-to-one and a more severe `NSIErrorLevel` becomes a more severe log level |
| Session.MessageText | crates/nsi-ffi-wrap/src/context.rs:803-817 | a null message reads "<null message>", a well-formed one is passed unchanged, any other one through the lossy conversion |
| Session.StatusTrampoline | crates/nsi-ffi-wrap/src/context.rs:686-713 | `render_status` as written does nothing without a payload; otherwise it calls the closure once on the context, and ends that context exactly when the closure panics, because unwinding drops the temporary `Context` before `mem::forget` is reached |
| Session.StatusTrampolineFixed | crates/nsi-ffi-wrap/src/context.rs:686-713 | the corrected `render_status` agrees with the original when the closure returns and never ends the context |
| Session.ErrorReportDelivered | crates/nsi-ffi-wrap/src/context.rs:787-828 | an error the renderer reports at any level, with a NUL-free message, reaches the closure once with the same level, code and message |
| Session.StatusReportDelivered | crates/nsi-ffi-wrap/src/context.rs:686-713 | a status the renderer reports reaches the closure first, on the same context, with the same status, however the closure ends; nothing else happens when it returns, or, with the correction, when it panics |
| Session.EndedOnceAtLastDrop | crates/nsi-ffi-wrap/src/context.rs:34-63 | over any sequence of clones and drops, `NSIEnd` is called once if the references reach zero and never before |
| Session.PanickingStatusEndsContextTwice | crates/nsi-ffi-wrap/src/context.rs:33-38 | as written, a panicking status closure ends the context once and its owners' last drop ends it again: `NSIEnd` reaches the same context twice |
| Session.FixedStatusEndsContextOnce | crates/nsi-ffi-wrap/src/context.rs:33-38 | with the corrected trampoline, however the closure ends, the context is ended exactly once, by its owners' last drop |
| PixelType.NdspyType | crates/nsi-ffi-wrap/src/output/pixel_type.rs:16-69 | every Rust scalar type that may receive pixels carries an ndspy type code between 1 and 7 |
| PixelType.NdspyTypeMatchesLayout | crates/nsi-ffi-wrap/src/output/pixel_type.rs:9-69 | the trait's safety contract: each type's code converts back to the scalar type of the same name and size, no two Rust types share a code, and no type claims `Float16` |
| PixelFormat.FromNdspyType | crates/nsi-ffi-wrap/src/output/pixel_format.rs:33-45 | a code converts exactly when it is 1-7 or 12, and then to the type whose `repr(u32)` discriminant it is |
| PixelFormat.ScalarCodeRoundTrip | crates/nsi-ffi-wrap/src/output/pixel_format.rs:9-45 | converting a type's discriminant gives the type back, and the discriminants are pairwise distinct |
| PixelFormat.SizeBytes | crates/nsi-ffi-wrap/src/output/pixel_format.rs:48-58 | a scalar's size in bytes is the bit width its name states, divided by eight |
| PixelFormat.WithAlpha | crates/nsi-ffi-wrap/src/output/pixel_format.rs:299-312 | a lone alpha upgrades exactly the depths without alpha, to a depth with alpha and one more channel; on a depth that already has alpha the parser hits `unreachable!` |
| PixelFormat.AlphaDepthsAreUpgrades | crates/nsi-ffi-wrap/src/output/pixel_format.rs:139-163 | the depths `has_alpha` lists are exactly those an alpha upgrade reaches, each from one base depth |
| PixelFormat.LastBelow | crates/nsi-ffi-wrap/src/output/pixel_format.rs:354 | the right-to-left search `rsplitn` does: the position found holds the separator and none lies after it; no position means no separator at all |
| PixelFormat.LastBelowAt | crates/nsi-ffi-wrap/src/output/pixel_format.rs:354 | the last separator below a bound is the one with no separator between it and the bound |
| PixelFormat.Split | crates/nsi-ffi-wrap/src/output/pixel_format.rs:353-371 | a name without a dot is its own channel id with an empty layer name (and the bare `000` panics); a channel id never contains a dot |
| PixelFormat.SplitScalar | crates/nsi-ffi-wrap/src/output/pixel_format.rs:357-362 | a last component `000` yields the scalar id `s` and everything before it as the layer name |
| PixelFormat.SplitComponents | crates/nsi-ffi-wrap/src/output/pixel_format.rs:363-367 | with three components the last is the id, the middle is skipped and the prefix is the layer name |
| PixelFormat.SplitOneDotPanics | crates/nsi-ffi-wrap/src/output/pixel_format.rs:364-367 | a two-component name whose last part is not `000` reaches the second `unwrap` with nothing left and panics |
| PixelFormat.SplitShapes | crates/nsi-ffi-wrap/src/output/pixel_format.rs:353-371 | conversely, a dotted name panics only in that two-component shape, and a successful split reassembles into the name |
| PixelFormat.Step | crates/nsi-ffi-wrap/src/output/pixel_format.rs:271-347 | one channel of the scan: at a layer boundary (previous id `b`/`z`/`s`/`a`, this id `r`/`x`/`s`) the previous layer is emitted under its name, or `Ci` when unnamed, with its depth and offset, and a new layer opens at this channel; otherwise nothing is emitted and it panics exactly on a lone alpha after an alpha depth |
| PixelFormat.Parts | crates/nsi-ffi-wrap/src/output/pixel_format.rs:268-269 | the split of every channel name, panicking exactly when one split panics |
| PixelFormat.ChannelName | crates/nsi-ffi-wrap/src/output/pixel_format.rs:261-266 | a channel name is the decoded UTF-8 text when valid, and `<invalid>` otherwise |
| PixelFormat.New | crates/nsi-ffi-wrap/src/output/pixel_format.rs:235-238 | an empty format has no layers (the rest of `new` as written, including its first-iteration defect, is `Group` with the first step's boundary test in place) |
| PixelFormat.NewFixed | crates/nsi-ffi-wrap/src/output/pixel_format.rs:235-238 | the corrected parser also gives no layers for an empty format |
| PixelFormat.EmitSteps | crates/nsi-ffi-wrap/src/output/pixel_format.rs:250-257 | the steps of the `cycle().take(len + 1)` scan that emit a layer, in strictly increasing order, and never the first step in the corrected parser |
| PixelFormat.FoldInvariant | crates/nsi-ffi-wrap/src/output/pixel_format.rs:240-349 | after every step the previous id is that of the last channel seen, one layer has been emitted per boundary step, and each layer starts where the boundary before it was |
| PixelFormat.FoldStepKeepsInvariant | crates/nsi-ffi-wrap/src/output/pixel_format.rs:271-347 | one step keeps that invariant |
| PixelFormat.LayersAtBoundaries | crates/nsi-ffi-wrap/src/output/pixel_format.rs:250-350 | the layers of a format are one per boundary step, each with the offset of the boundary before it (0 for the first) |
| PixelFormat.FixedOffsetsIncrease | crates/nsi-ffi-wrap/src/output/pixel_format.rs:170-195 | with the corrected first step, layers start at strictly increasing channel offsets inside the format, as the documented layout requires |
| PixelFormat.OpenedAtIncrease | crates/nsi-ffi-wrap/src/output/pixel_format.rs:288-289 | boundaries after the first step, in increasing order, open layers at increasing offsets inside the format |
| PixelFormat.FixedAgreesUnlessFirstIsScalar | crates/nsi-ffi-wrap/src/output/pixel_format.rs:240-296 | the parser as written and the corrected one give the same result unless the first channel's id is `s` |
| PixelFormat.FoldAgrees | crates/nsi-ffi-wrap/src/output/pixel_format.rs:250-257 | two scans that agree after the first step agree to the end |
| PixelFormat.ScalarFirstChannelDuplicated | crates/nsi-ffi-wrap/src/output/pixel_format.rs:240-296 | as written, the single scalar channel `z.000` gives the layer `z` twice at offset 0, while the corrected parser gives it once |
| PixelFormat.TotalChannels | crates/nsi-ffi-wrap/src/output/pixel_format.rs:376-380 | a pixel has between one and five channels per layer |
| PixelFormat.TotalChannelsAppend | crates/nsi-ffi-wrap/src/output/pixel_format.rs:376-380 | the channel count of a pixel is additive over its layers |
| PixelFormat.DocumentedExample | crates/nsi-ffi-wrap/src/output/pixel_format.rs:175-195 | the documented example: `r g b a` and a world-space normal give `Ci` (colour and alpha, offset 0) and `N_world` (vector, offset 4), seven channels in all |
| CorePixelFormat.Names | crates/nsi-core/src/output/pixel_format.rs:172-188 | the channel names of an all-UTF-8 format, as texts whose UTF-8 form is each channel's bytes |
| CorePixelFormat.New | crates/nsi-core/src/output/pixel_format.rs:169-262 | `new` panics on an empty format (it indexes `format[0]`) and on any channel name that is not UTF-8 (`to_str().unwrap()`), and otherwise groups channels as the wrapper's parser does as written |
| CorePixelFormat.AgreesWithWrapper | crates/nsi-core/src/output/pixel_format.rs:169-262 | on a non-empty, all-UTF-8 format the `nsi-core` parser gives the same layers as the `nsi-ffi-wrap` one |
| Ndspy.ErrorConversionBijective | crates/nsi-ffi-wrap/src/output/mod.rs:175-202 | the conversion of a callback `Error` to `PtDspyError` is one-to-one and onto, with the reverse reading as its inverse |
| Ndspy.Caught | crates/nsi-ffi-wrap/src/output/mod.rs:554-636 | a trampoline guarded by `catch_unwind` returns the body's error converted for C, and `Undefined` when the body panicked |
| Ndspy.AsUsize | crates/nsi-ffi-wrap/src/output/mod.rs:652 | `as usize` on a C `int` keeps a non-negative value and wraps a negative one to within 2^31 of 2^64 |
| ScanlineCopy.RowFits | crates/nsi-core/src/output/mod.rs:648-657 | when the last row's slices lie inside the image buffer and the bucket, every earlier row's slices do too, so no slice index goes out of range |
| ScanlineCopy.RowsApart | crates/nsi-core/src/output/mod.rs:648-657 | rows of a bucket no wider than the image occupy disjoint slices of the image buffer, each ending before the next begins |
| ScanlineCopy.Paste | crates/nsi-core/src/output/mod.rs:653-654 | one `copy_from_slice`: the destination slice takes the source slice's values in order, and every other value of the buffer is unchanged |
| ScanlineCopy.TouchedGrows | crates/nsi-core/src/output/mod.rs:648-657 | the values touched by the first rows grow with each row, by that row's slice |
| ScanlineCopy.StepKeepsUntouched | crates/nsi-core/src/output/mod.rs:648-657 | copying one more row changes nothing outside the slices of the rows copied so far |
| ScanlineCopy.StepHoldsRows | crates/nsi-core/src/output/mod.rs:648-657 | copying one more row keeps every earlier row's values in place (rows do not overlap) and puts the new row's values at their image offsets |
| ScanlineCopy.CopyRows | crates/nsi-ffi-wrap/src/output/mod.rs:954-967 | the scanline copy: image values outside the copied rows' slices are unchanged, and, for a bucket no wider than the image, every bucket value lands at its image offset |
| ScanlineCopy.InsideFits | src/output/mod.rs:913-926 | a bucket inside the image bounds, with as many values as its pixels have channels, never makes a slice index go out of range |
| ScanlineCopy.PixelOffsetOrder | crates/nsi-core/src/output/mod.rs:650 | interleaved channel offsets order like the pixels they belong to |
| ScanlineCopy.SegmentIsRectangle | crates/nsi-core/src/output/mod.rs:650-654 | one row's slice holds exactly the values of image row `y0 + r` between columns `x0` and `x0 + bw` |
| ScanlineCopy.RowOrder | crates/nsi-core/src/output/mod.rs:650 | in row-major order a pixel lies among the `bw` pixels from (`x0`, `yr`) exactly when it is in row `yr` between `x0` and `x0 + bw` |
| ScanlineCopy.TouchedIsRectangle | crates/nsi-ffi-wrap/src/output/mod.rs:954-967 | the image values a bucket copy may change are exactly those of the bucket's pixel rectangle |
| ScanlineCopy.PixelIndices | crates/nsi-ffi-wrap/src/output/mod.rs:958-960 | value `c` of image pixel (`x`, `y`) inside the bucket is copied from value `c` of bucket pixel (`x - x0`, `y - y0`) |
| DisplayDriver.SearchFrom | crates/nsi-ffi-wrap/src/output/mod.rs:510-535 | the scan from one index on: the first parameter with the right name, type byte and count decides, with its value even when that is null (the loop breaks), and no match gives `None` |
| DisplayDriver.ExtractCallback | crates/nsi-ffi-wrap/src/output/mod.rs:504-537 | `extract_callback` returns the value of the first matching parameter, and `None` when no parameter matches |
| DisplayDriver.ExtractSkipsUnreadableNames | crates/nsi-ffi-wrap/src/output/mod.rs:512-518 | a parameter with a null or non-UTF-8 name is passed over without ending the search |
| DisplayDriver.SearchShift | crates/nsi-ffi-wrap/src/output/mod.rs:510 | the search is the same behind an extra first parameter, one index further on |
| DisplayDriver.ClearWantsEmptyBuckets | crates/nsi-ffi-wrap/src/output/mod.rs:624-626 | the renderer's flags keep every bit except the empty-bucket request, which is cleared |
| DisplayDriver.Retype | crates/nsi-ffi-wrap/src/output/mod.rs:600-601 | every channel record keeps its name and gets the requested pixel type's code |
| DisplayDriver.FormatNames | crates/nsi-ffi-wrap/src/output/mod.rs:603 | the names the pixel format is parsed from are the channel records' names, in order |
| DisplayDriver.OpenAccepted | crates/nsi-ffi-wrap/src/output/mod.rs:565-629 | past the argument checks: channel records are retyped; a panic of the format parser or of the open closure returns `Undefined` with no handle written and the flags untouched; otherwise the handle holds the name, size, the layers `PixelFormat::new` groups (as written, or corrected when asked) and the write and finish callbacks, the empty-bucket flag is cleared, and the result is the open closure's error, or none when there is no open callback |
| DisplayDriver.ImageOpen | crates/nsi-ffi-wrap/src/output/mod.rs:541-638 | `image_open` refuses with `BadParams` and changes nothing on a null handle pointer, filename or format, a non-positive format count, or a positive parameter count with null parameters; otherwise it behaves as above with the layers of `PixelFormat::new` as written, the filename read lossily and the sizes cast with `as usize` |
| DisplayDriver.ImageOpenFixed | crates/nsi-ffi-wrap/src/output/mod.rs:541-638 | the same `image_open`, with the layers of the corrected grouping |
| DisplayDriver.Open | crates/nsi-ffi-wrap/src/output/mod.rs:541-638 | the argument checks and the accepted path of `image_open`, for either grouping |
| DisplayDriver.ImageQuery | crates/nsi-ffi-wrap/src/output/mod.rs:642-737 | each struct-filling query checks `data_len as usize` against the struct's size and the pointer for null, answering `BadParams` with nothing written, or no error with its field set; `Stop` answers no error and writes nothing; every other query is `Unsupported` |
| DisplayDriver.NegativeLengthAccepted | crates/nsi-ffi-wrap/src/output/mod.rs:652-653 | a negative `data_len` wraps to a huge `usize` and so passes every length check |
| DisplayDriver.ImageWrite | crates/nsi-ffi-wrap/src/output/mod.rs:742-801 | `image_write` returns `BadParams` for a null handle and `Undefined` when the bucket size arithmetic overflows; otherwise it calls the write closure, if any and if the pixel pointer is not null, with exactly the bucket's `width·height·channels` values, the handle's name, size and layers, and the bucket corners cast with `as usize`, and returns its error; it returns no error when it calls nothing |
| DisplayDriver.NegativeWidthPanicsFirstBucket | crates/nsi-ffi-wrap/src/output/mod.rs:742-951 | a driver opened with a negative width hands the write closure its `as usize` cast, at least `2^64 - 2^31`, so the accumulating closure's first allocation panics and `image_write` answers `Undefined` |
| DisplayDriver.ImageClose | crates/nsi-ffi-wrap/src/output/mod.rs:806-852 | `image_close` returns `BadParams` for a null handle, no error without a finish closure, and otherwise hands the closure the image's name, size and pixel format and returns its error, or `Undefined` if it panicked |
| DisplayDriver.DepthWriteReadsTwice | crates/nsi-ffi-wrap/src/output/mod.rs:541-801 | a driver opened on the single depth channel `z.000` with a write closure reads two values per pixel from the renderer's bucket as written, and one with the corrected grouping |
| DisplayDriver.OpenThenClose | crates/nsi-ffi-wrap/src/output/mod.rs:541-852 | after a successful open with a finish closure, `image_close` hands that closure the file name read lossily, the sizes cast with `as usize` and the layers the open grouped, and returns its error |
| DisplayDriver.Initialized | crates/nsi-ffi-wrap/src/output/mod.rs:944-951 | the first bucket panics exactly when `width·height·channels` overflows `usize` or the buffer would pass `isize::MAX` bytes; otherwise it fixes the dimensions and channel count and allocates `width·height·channels` default values; later buckets leave the state as it is |
| DisplayDriver.AccumulateWrite | crates/nsi-ffi-wrap/src/output/mod.rs:931-970 | the accumulating write closure panics on a poisoned lock, and otherwise panics exactly when the first bucket's allocation panics or a row slice would go out of range, poisoning the lock either way; on success it changes no value outside the bucket's rows and puts every bucket value at its image offset |
| DisplayDriver.AccumulateFinish | crates/nsi-ffi-wrap/src/output/mod.rs:973-984 | the finish closure panics exactly on a poisoned lock, and otherwise hands over the whole buffer, leaving the shared buffer empty and everything else as it was |
| DisplayDriver.BucketInsideImageFits | crates/nsi-ffi-wrap/src/output/mod.rs:954-967 | a bucket inside the image, with enough values, never takes a row slice out of range of the buffer the first write allocated |
| DisplayDriver.WriteAfterFinishPanics | crates/nsi-ffi-wrap/src/output/mod.rs:944-984 | after finish the buffer is empty but the state stays initialised, so a further non-empty bucket panics |
| CoreDisplayDriver.SearchFrom | crates/nsi-core/src/output/mod.rs:502-515 | the scan from one index on: with UTF-8 names it finds what the `nsi-ffi-wrap` scan finds; a non-UTF-8 name reached before any match panics (`to_str().unwrap()`) |
| CoreDisplayDriver.GetParameterTripleBox | crates/nsi-core/src/output/mod.rs:496-516 | `get_parameter_triple_box` returns what `extract_callback` returns when every name is UTF-8, and panics at a non-UTF-8 name before the first match |
| CoreDisplayDriver.BufferLen | crates/nsi-core/src/output/mod.rs:555 | the image length `width·height·format_count` in `c_int` arithmetic: it panics exactly when a product overflows or the length is negative, and is otherwise the exact product |
| CoreDisplayDriver.OpenAccepted | crates/nsi-core/src/output/mod.rs:538-596 | past the pointer checks, opening panics exactly when the buffer length, a callback lookup, the channel grouping or the open closure does; otherwise the flags become exactly the empty-bucket request, every channel is retyped to `f32`, the image is zeroed with `width·height·channels` values, and the result is the open closure's error, or none without one |
| CoreDisplayDriver.FindCallbacks | crates/nsi-core/src/output/mod.rs:556-577 | with UTF-8 parameter names, the write, finish and open closures are found by the same first-match rule as `extract_callback` |
| CoreDisplayDriver.ImageOpen | crates/nsi-core/src/output/mod.rs:520-596 | `image_open` refuses with `BadParams`, changing nothing, only on a null handle pointer or filename; a non-UTF-8 filename panics; otherwise it opens as above under the decoded filename |
| CoreDisplayDriver.OpenNeedsReadableFormat | crates/nsi-core/src/output/mod.rs:565-571 | an empty format, or one with a non-UTF-8 channel name, makes `image_open` panic |
| CoreDisplayDriver.OpenFindsCallbacksLikeWrapper | crates/nsi-core/src/output/mod.rs:556-557 | where every parameter name is UTF-8, the write and finish closures an opened image keeps are those `extract_callback` finds |
| CoreDisplayDriver.ImageQuery | crates/nsi-core/src/output/mod.rs:599-620 | only the progress query is answered: no error, with the function pointer written, exactly when `data_len as usize` holds a pointer, and `BadParams` otherwise; every other query is `Unsupported` |
| CoreDisplayDriver.QueryAgreesOnProgress | crates/nsi-core/src/output/mod.rs:599-620 | on the progress query with a non-null pointer the two drivers give the same answer, while the `nsi-core` one refuses the stop query that the `nsi-ffi-wrap` one accepts |
| CoreDisplayDriver.Shr2 | crates/nsi-core/src/output/mod.rs:635-636 | `entry_size >> 2` is the quotient by four rounded down |
| CoreDisplayDriver.ImageWrite | crates/nsi-core/src/output/mod.rs:624-676 | `image_write` panics exactly when the entry size disagrees with the channel count, the bucket size overflows, a row slice goes out of range, or the write closure panics; otherwise only the image changes, nothing outside the bucket's rows changes, every bucket value lands at its image offset, and the write closure, if any, receives the whole image and its error is returned |
| CoreDisplayDriver.CopyBucket | crates/nsi-core/src/output/mod.rs:646-657 | the scanline loop over the bucket slice: nothing outside the bucket's rows changes and every bucket value lands at its image offset |
| CoreDisplayDriver.PrefixHoldsRows | crates/nsi-core/src/output/mod.rs:639-644 | rows read from the bucket slice are rows of the bucket memory behind it |
| CoreDisplayDriver.ImageClose | crates/nsi-core/src/output/mod.rs:680-710 | `image_close` returns no error without a finish closure; otherwise the closure receives the name, size, channel layout and the whole image, and its error is returned |
| CoreDisplayDriver.OpenThenClose | crates/nsi-core/src/output/mod.rs:520-710 | after a successful open with a finish closure and no bucket, `image_close` hands that closure the file name, the sizes cast with `as usize`, the layers `PixelFormat::new` grouped and an image of `width·height·channels` zeros, and returns its error |
| LegacyOutput.Get | src/output/mod.rs:646-648 | `get` returns the channel name at an index exactly when the index is in range |
| LegacyOutput.FirstFrom | src/output/mod.rs:667 | the left-to-right search `splitn` does: the position found holds the separator and none lies before it; no position means no separator |
| LegacyOutput.LayerName | src/output/mod.rs:654-671 | `layer_name` panics on an index out of range, gives nothing for a name without a dot, and otherwise the dot-free text before the first dot |
| LegacyOutput.UniqueLayerNameAndChannelId | src/output/mod.rs:687-708 | `unique_layer_name_and_channel_id` panics on an index out of range; a name without a dot is all channel id with an empty layer name; otherwise the two parts joined by a dot give back the name, and the id has no dot |
| LegacyOutput.ChannelId | src/output/mod.rs:678-681 | `channel_id` is the dot-free suffix of the name after its last dot, and is the whole name exactly when the name has no dot |
| LegacyOutput.LayerNameIsPrefixOfUnique | src/output/mod.rs:654-708 | the layer name, which ends at the first dot, is a prefix of the unique layer name, which ends at the last |
| LegacyOutput.DocumentedNames | src/output/mod.rs:650-686 | the documented example: `albedo.000.r` has layer name `albedo`, unique layer name `albedo.000` and channel id `r` |
| LegacyOutput.MoveBack | src/output/mod.rs:715-721 | `move_back` panics exactly on an empty format (`len() - 1` underflows); before the last channel it moves the channel to the end and shifts the later ones forward; at or past the last it changes nothing; the channels are kept |
| LegacyOutput.MoveFront | src/output/mod.rs:724-730 | `move_front` leaves index 0 alone, panics on any other index past the end, and otherwise moves the channel to the start and shifts the earlier ones back; the channels are kept |
| LegacyOutput.Swap | src/output/mod.rs:733-735 | `swap` panics when either index is out of range, and otherwise exchanges the two channels and leaves the rest alone |
| LegacyOutput.SwapIsInvolution | src/output/mod.rs:733-735 | a swap keeps the channels and undoes itself |
| LegacyOutput.BackThenFrontRestores | src/output/mod.rs:715-730 | moving the first channel to the back and then the last to the front restores the format |
| LegacyOutput.FrontThenBackRestores | src/output/mod.rs:715-730 | moving the last channel to the front and then the first to the back restores the format |
| LegacyOutput.MovesKeepRelativeOrder | src/output/mod.rs:715-730 | both moves keep the other channels in their old relative order |
| LegacyOutput.Apply | src/output/mod.rs:715-735 | any one reordering the open closure may apply keeps the channels |
| LegacyOutput.ApplyAll | src/output/mod.rs:829-834 | whatever sequence of reorderings the open closure applies, the names it leaves are the same channels |
| LegacyOutput.EmptyFormatReorders | src/output/mod.rs:715-730 | on an empty format `move_front(0)` is the reordering that never panics |
| LegacyOutput.UpdateDspyDevFormat | src/output/mod.rs:621-633 | `update_dspy_dev_format` gives each record, as far as both sequences reach, the channel name in its new order and the type `f32`, and leaves records past the names alone |
| LegacyOutput.UpdateAfterReorder | src/output/mod.rs:829-838 | after the closure's reordering, the records sent back name every channel the renderer asked for, once each, in the closure's order, all as `f32` |
| LegacyOutput.PermutedValid | src/output/mod.rs:609-619 | a reordering of UTF-8 channel names consists of UTF-8 names |
| LegacyOutput.OpenAccepted | src/output/mod.rs:793-858 | past the pointer checks, opening panics exactly when the buffer length, a callback lookup, a channel name or the open closure does; otherwise the flags become the empty-bucket request, the image is zeroed, the handle keeps the closures found and the channel names in the closure's order, and the records sent back name the same channels |
| LegacyOutput.Open | src/output/mod.rs:774-858 | `image_open` refuses with `BadParams` only on a null handle pointer or filename, panics on a non-UTF-8 filename, and otherwise opens as above under the decoded filename |
| LegacyOutput.ImageOpen | src/output/mod.rs:826-840 | as written, without an open closure the records go back exactly as the renderer sent them, types included |
| LegacyOutput.ImageOpenFixed | src/output/mod.rs:609-633 | corrected: every record goes back as `f32`, with or without an open closure, as the comments on `new` and `update_dspy_dev_format` intend |
| LegacyOutput.ByteChannelStaysByte | src/output/mod.rs:826-840 | as written, an 8-bit channel with no open closure keeps type 6, while `image_write` reads the bucket as `f32` |
| LegacyOutput.FixedOpenSendsFloats | src/output/mod.rs:890-947 | with the fix, every record the renderer gets back asks for `f32`, which is what `image_write` reads |
| LegacyOutput.ImageQuery | src/output/mod.rs:862-887 | `image_query` answers only the progress query, exactly when `data_len as usize` holds a pointer, like the `nsi-core` driver |
| LegacyOutput.ImageWrite | src/output/mod.rs:890-947 | `image_write` takes the pixel length from the channel count and ignores the entry size; it panics exactly when the bucket size overflows, a row slice goes out of range, or the write closure panics; otherwise nothing outside the bucket's rows changes, every bucket value lands at its image offset, and the write closure, if any, receives the whole image |
| LegacyOutput.ImageClose | src/output/mod.rs:950-968 | `image_close` returns no error without a finish closure; otherwise the closure receives the name, size, channel names in their final order and the whole image, and its error is returned |
| LegacyOutput.OpenThenClose | src/output/mod.rs:774-968 | after a successful open with a finish closure and no bucket, `image_close` hands that closure the file name, the sizes cast with `as usize`, one name per channel in the order the open closure left them (each the name of the matching record sent back to the renderer, and together the renderer's channels), and an image of `width·height·channels` zeros |
| Utf8.Matched | crates/nsi-ffi-wrap/src/c_api.rs:213 | the well-formed prefix `to_str` checks at each position is at most four bytes, never longer than its lead byte demands, and empty exactly when the position holds no lead byte |
| Utf8.Subpart | crates/nsi-ffi-wrap/src/output/mod.rs:573 | each replacement `to_string_lossy` makes covers between one byte and the rest of the input |
| Utf8.EncodeChar | crates/nsi-ffi-wrap/src/c_api.rs:213 | a scalar value's UTF-8 form is one to four bytes |
| Utf8.EncodeCharRoundTrip | crates/nsi-ffi-wrap/src/c_api.rs:213 | the UTF-8 form of any scalar value is one well-formed sequence that decodes back to it, whatever follows |
| Utf8.EncodeTwoRoundTrip | crates/nsi-ffi-wrap/src/c_api.rs:213 | the same for the two-byte forms |
| Utf8.EncodeThreeRoundTrip | crates/nsi-ffi-wrap/src/c_api.rs:213 | the same for the three-byte forms |
| Utf8.EncodeFourRoundTrip | crates/nsi-ffi-wrap/src/c_api.rs:213 | the same for the four-byte forms |
| Utf8.DecodeCharRoundTrip | crates/nsi-ffi-wrap/src/c_api.rs:213 | a well-formed sequence is exactly the UTF-8 form of the value it decodes to |
| Utf8.DecodeSomeIffValid | crates/nsi-ffi-wrap/src/c_api.rs:208-214 | `to_str` succeeds exactly on well-formed input |
| Utf8.DecodeEncode | crates/nsi-ffi-wrap/src/context.rs:815 | decoding a text's UTF-8 form gives the text back |
| Utf8.EncodeDecode | crates/nsi-ffi-wrap/src/c_api.rs:208-214 | encoding what `to_str` decoded gives the bytes back |
| Utf8.EncodeValid | crates/nsi-ffi-wrap/src/c_api.rs:213 | every text's UTF-8 form is well-formed |
| Utf8.LossyAgreesWithDecode | crates/nsi-ffi-wrap/src/output/mod.rs:573 | `to_string_lossy` agrees with `to_str` on well-formed input, and otherwise contains U+FFFD |
| Utf8.LossyShorter | crates/nsi-ffi-wrap/src/output/mod.rs:573 | `to_string_lossy` yields no more characters than there are bytes |
| Utf8.EncodeAscii | crates/nsi-ffi-wrap/src/c_api.rs:213 | ASCII text is its own UTF-8 form, one byte per character |

## Left out

- Library loading and linking, driver registration, and the build scripts: these are foreign symbol lookup and build-time I/O.
- The one-call forwarding bodies into the renderer. The model keeps only the request each one makes. `Session` gives the records a `Context` method hands to the C API. `CAdapter` gives the operation the adapter forwards.
- Heap ownership: `Box::into_raw`, `from_raw`, `leak` and `mem::forget`, and the triple boxing of closures. The one place where `mem::forget` changes what the renderer sees, the temporary `Context` of `render_status`, is modelled by `Session.StatusTrampoline`. Closures are opaque tokens, and whatever they return is a parameter.
- `Mutex`, `Arc` and `AtomicI32` are modelled sequentially. Two consequences:
  - the poisoned-lock branch of the adapter's `begin` (it returns 0) is not modelled, because no operation of the model can poison that lock;
  - `Arc` sharing is modelled as a count of live clones.
- Floating-point values are carried as their bit patterns (`bv32`, `bv64`). Nothing in the core computes with them.
- Sizes assume an LP64 target: 4-byte `float` and `int`, and 8-byte `double`, pointers and `usize`.
- `ndspy.h` is not part of this model. The model uses its value 2 for `PkDspyFlagsWantsEmptyBuckets`. It leaves the sizes of the query structs as parameters (`DisplayDriver.StructSizes`).
- `image_progress`, the stub progress callback, does nothing to model.
- The `fn_query` slot that every display driver leaves unused.
- `Index` and `len` of the legacy `PixelFormat` are plain sequence indexing and length.
- The legacy `into_vec`: it turns the names back into owned strings, which is the identity on texts.
- `From<NSIContext> for Context` (crates/nsi-ffi-wrap/src/context.rs:75-83): it wraps an id without any check.
- How `Callback` and `Pointer` arguments are built: by boxing a closure, or from a raw pointer. The model starts from the address they hold (`Argument.ArgData`).
- The `ustr_handles` feature of `handle.rs`. Handles are modelled as `CString`-backed.
- `Display` of `Action` and `NodeType` writes `as_str()`. The model uses the name function itself, so nothing separate is proved.
- The open closure of the legacy driver is modelled by the reorderings it applies (`LegacyOutput.Reorder`). Other effects it has on the channel list are not modelled.
- `debug_assert!` is modelled as in a debug build, that is, as a panic: `Argument.ArrayNew`, and `CoreDisplayDriver.ImageWrite`'s entry-size check. Overflowing `c_int`/`usize` arithmetic also panics, as in a debug build. A release build would skip the assertion and wrap the arithmetic.
- Overflow of `usize` in the image offsets of a scanline copy is not modelled. Offsets are unbounded, and a copy panics only through the slice bounds.
- `NsiTrait.IsEmpty`, `NsiTrait.ArrayLength` and `NsiTrait.Flags` are the trait's default methods. What they promise is stated against a new argument in `Argument.ParameterDefaultsMatchArgNew`.
- `CoreDisplayDriver.ImageWrite` and `LegacyOutput.ImageWrite` require non-negative bucket corners. The source casts `x_min`/`y_min` with `as usize`, so a negative corner would wrap to a huge offset and panic at a slice bound. Renderers never send one.
- `DisplayDriver.ImageWrite`, `CoreDisplayDriver.ImageWrite` and `LegacyOutput.ImageWrite` require `x_min <= x_max_plus_one` and `y_min <= y_max_plus_one`, which ndspy guarantees. They also require the bucket memory to be at least as long as the values read from it, because reading past it is undefined behaviour in the source.
- `DisplayDriver.ImageOpen` requires a non-negative parameter count and a parameter sequence of that length. The source builds a slice of `parameters_count as usize` elements, and a negative count is undefined behaviour there.
- `CoreDisplayDriver.ImageOpen`, `CoreDisplayDriver.GetParameterTripleBox` and `LegacyOutput.ImageOpen` require non-null parameter names, because the source reads them with `CStr::from_ptr` without a check.
- CAdapter.EndedIdStaysDead: it stops at the begins that take the counter to `i32::MAX`. With `begin` as written, the negative ids issued after the counter wraps past `i32::MAX` are fresh too, until the 2^32-th begin returns to 0. The proof's invariant (every live id below the counter) does not hold across that step, so the model makes no promise for those ids.
- A status closure that keeps a clone of the `Context` it is handed: the clone outlives `mem::forget` of the original and ends the context when it is dropped. The model gives the closure no way to clone the context.
- An allocation the system cannot satisfy: Rust aborts the process then, rather than panicking, and the model has no abort. `DisplayDriver.Initialized` models only the overflow and `isize::MAX` panics of `vec!`.
- Session.Call: it converts arguments with nsi-core's `Argument` conversion (`CParamVec`). The ffi-wrap copy of that conversion, `get_c_param_vec` in crates/nsi-ffi-wrap/src/argument.rs, is not part of this model.
- CApi.ExtractAction and `CApi.Invoke` require `ActionDataReadable`. An `"action"` record of string type whose data pointer is null is therefore outside the model. The source dereferences that pointer without a check (crates/nsi-ffi-wrap/src/c_api.rs:187-188), which is undefined behaviour.
- `PixelFormat.New` and `PixelFormat.NewFixed` state only the empty-format case in their own contracts. The non-empty case is `PixelFormat.Group`, whose results are described by `PixelFormat.LayersAtBoundaries`, `PixelFormat.FixedOffsetsIncrease`, `PixelFormat.FixedAgreesUnlessFirstIsScalar` and the documented example.

## Findings

| source | as written | input that shows it | evidently intended | confidence | as-written member | corrected member |
|---|---|---|---|---|---|---|
| crates/nsi-ffi-wrap/src/output/pixel_format.rs:240-296 | The previous channel id starts as that of channel 0, and the first iteration of the scan visits channel 0 again. A first channel whose id closes and opens a layer (`s`) therefore emits a layer before any channel has been read. | the single channel `z.000` | one layer per boundary between channels, at strictly increasing offsets; here the single layer `z` at offset 0 | not executed | PixelFormat.ScalarFirstChannelDuplicated; at the driver, DisplayDriver.DepthWriteReadsTwice (`DisplayDriver.ImageOpen` stores two layers for the one channel, so `image_write` reads two values per pixel) | PixelFormat.FixedOffsetsIncrease (`PixelFormat.NewFixed`, used by `DisplayDriver.ImageOpenFixed`) |
| crates/nsi-ffi-wrap/src/c_adapter.rs:84-98 | The context id comes from `fetch_add` on an `AtomicI32`, which wraps. After 2^32 - 1 successful `begin`s, the next one returns 0 (`NSI_BAD_CONTEXT`), while the renderer's context sits in the table under id 0. | 2^32 successful `begin`s on one adapter | a `begin` that cannot issue a fresh non-zero id fails: it returns 0 and leaves the table alone | not executed | CAdapter.WrappedBeginReturnsBadContext | CAdapter.BeginCheckedIssuesFreshId (`CAdapter.BeginChecked`, used by `CAdapter.StepChecked`, `CAdapter.RunChecked`, `CAdapter.EndedIdStaysDeadChecked` and `CApi.InvokeChecked`) |
| src/output/mod.rs:774-858 | Only the branch with an open closure calls `update_dspy_dev_format`, which forces every channel to `f32`. Without an open closure, the renderer keeps the types it asked for, yet `image_write` reads every bucket as `f32` values. | no open closure, and one channel of type 6 (8-bit unsigned) | every channel is sent as `f32`, as the comment on `PixelFormat::new` says | not executed | LegacyOutput.ByteChannelStaysByte | LegacyOutput.FixedOpenSendsFloats (`LegacyOutput.ImageOpenFixed`) |
| crates/nsi-ffi-wrap/src/context.rs:686-713 | `render_status` wraps the renderer's context in a temporary `Context` and reaches `mem::forget` only after the closure returns. If the closure panics, unwinding inside `catch_unwind` drops that `Context`, and its `InnerContext` drop (context.rs:33-38) calls `NSIEnd` on the live context. The owner's own `Context` ends it again later. | a status closure that panics, followed by the owner dropping its `Context` | the temporary `Context` is never dropped, on any path, so the callback never ends the context | not executed | Session.PanickingStatusEndsContextTwice (`Session.StatusTrampoline`) | Session.FixedStatusEndsContextOnce (`Session.StatusTrampolineFixed`) |
