# log_args context engine and macro helpers, in Dafny

This project models two parts of the `log_args` crates.

- **The context-propagation engine of `log-args-runtime`, as seen by one thread.** The state record `Runtime.Engine` holds:
  - the sync frame stack (`CONTEXT_STACK`);
  - the async frame stack (`ASYNC_CONTEXT_STACK`, which the code declares `thread_local!`, like the sync one);
  - the process-wide global map;
  - two failure flags: the global mutex is poisoned, and the async thread-local is inaccessible.

  Every runtime call is a pure function from state to state. Dropping a guard is an explicit `Runtime.Drop` step. A Rust panic (a `.with` on inaccessible async storage) is the `Panicked` outcome. `HashMap` iteration order is an explicit parameter, checked by `Frames.IsKeyOrder`. Every property about iteration is proved for every such order.
- **The pure helpers of the `log_args` procedural macro:**
  - the four function-name case converters and the Cargo-feature precedence between them;
  - the fold of `#[params(..)]` attributes into `AttrConfig`;
  - the `tracing::` prefix stripping of `BlockRewriter`;
  - the string loop that turns `self.<field>` into `__<field>_for_macro`;
  - the guard sequence of the `span` + `auto_capture` scope the macro generates.

Modules:

| module | file |
|---|---|
| `Base` | base.dfy |
| `Frames` | frames.dfy |
| `Runtime` | runtime.dfy |
| `InheritedContext` | inherited.dfy |
| `FunctionNames` | function_names.dfy |
| `AttrConfig` | attr_config.dfy |
| `BlockRewriter` | block_rewriter.dfy |
| `SelfRewrite` | self_rewrite.dfy |
| `SpanScope` | span_scope.dfy |

Each module depends only on the ones above it in this table.

Where the crate's own comments and its code disagree, the model follows the code:
- log_args/src/lib.rs:19 says context propagation uses "thread-local and task-local storage". But log-args-runtime/src/lib.rs:59-62 declares both stacks, `CONTEXT_STACK` and `ASYNC_CONTEXT_STACK`, with `thread_local!`. So the async stack is per thread, not per task.
- The comment at log-args-runtime/src/lib.rs:285 says `capture_context` pushes the captured map "for immediate access after capture", and the one at lines 259-260 says `auto_capture_context` keeps the context "for function execution". But lines 265-266 and 286-287 bind both inner guards to named locals (`_async_guard`, `_sync_guard`, not `_`). Both are dropped when the function returns, so neither push outlives the call. What the caller gets back is one more `ContextGuard`.
- The log macros at log-args-runtime/src/lib.rs:225-257 attach `get_context()`, the sync merge only. The three-layer precedence of async over sync over global exists only in `get_context_value` (lines 77-110), and it is modelled there.
- Both guards pop with `Vec::pop` (lines 68-74 and 169-175), so popping an empty stack is a no-op. But `ASYNC_CONTEXT_STACK.with` panics while the async storage is inaccessible, both in that drop and in `push_async_context`. The model keeps that panic.

## Model

| member | source | states |
|---|---|---|
| `Frames.Pop` | log-args-runtime/src/lib.rs:70-72 | `Vec::pop` with its result discarded: a non-empty stack loses exactly its top frame, and an empty stack stays empty |
| `Frames.Lookup` | log-args-runtime/src/lib.rs:88-96 | The innermost-first scan of a stack. It returns nothing exactly when no frame holds the key. Otherwise it returns the value of a frame that holds the key, with no frame above it holding the key |
| `Frames.FoldExtendSnoc` | log-args-runtime/src/lib.rs:119-122 | Folding `extend` over one more frame overlays that frame on the fold so far |
| `Frames.MergeAgreesWithLookup` | log-args-runtime/src/lib.rs:114-124 | For every key, the oldest-first overwrite fold agrees with the innermost-first scan |
| `Frames.Merge` | log-args-runtime/src/lib.rs:114-124 | The merge's keys are the union of all frames' keys. Each key maps to the value of the innermost frame holding it, which is the scan's answer |
| `Runtime.SetGlobalContext` | log-args-runtime/src/lib.rs:42-46 | With a usable lock, the key maps to the value and every other key is unchanged. With a poisoned lock, nothing changes. The stacks are never touched |
| `Runtime.GetGlobalContext` | log-args-runtime/src/lib.rs:49-56 | Returns nothing exactly when the lock is poisoned or the store is empty. Otherwise it returns an exact copy of the store |
| `Runtime.GetContext` | log-args-runtime/src/lib.rs:112-124 | The sync merge: for every key it agrees with the innermost-first scan of the sync stack, so it holds a key exactly when some frame does, with the innermost such value |
| `Runtime.GetAsyncContext` | log-args-runtime/src/lib.rs:127-139 | Returns the empty map when the async storage is inaccessible. Otherwise it returns the merge of the async stack, which agrees with the innermost-first scan of that stack for every key |
| `Runtime.GetCurrentAsyncStack` | log-args-runtime/src/lib.rs:142-146 | Returns the async stack itself, or one empty frame when the storage is inaccessible. Its merge is always what `get_async_context` returns |
| `Runtime.GetContextValue` | log-args-runtime/src/lib.rs:77-110 | The answer is the key's value in the async merge if present, else in the sync merge, else in the global map. The global layer is consulted only when the lock is usable |
| `Runtime.Drop` | log-args-runtime/src/lib.rs:68-74 | Dropping a guard removes exactly the top frame of that guard's stack (the async guard at lines 169-175 likewise). On an empty stack it changes nothing. It never touches the other stack or the global map. An async drop panics exactly when the async storage is inaccessible |
| `Runtime.PushContext` | log-args-runtime/src/lib.rs:150-155 | The sync stack is the old one with the frame appended on top. After the push, the sync scan answers the pushed frame's value for that frame's keys and the old answer for every other key. The async stack and the global map are unchanged. Dropping the returned guard restores the state exactly |
| `Runtime.PushAsyncContext` | log-args-runtime/src/lib.rs:159-164 | Panics exactly when the async storage is inaccessible. Otherwise the async stack is the old one with the frame appended on top, the pushed frame takes precedence in `get_context_value` for its keys, every other key resolves as before, and the sync stack is untouched. Dropping the guard restores the state exactly |
| `Runtime.NestedPushScenario` | log-args-runtime/src/lib.rs:150-175 | On a fresh thread, push a sync frame and then an async frame. Each key resolves to its own frame. Dropping the guards innermost first gives back a fresh thread, and a further sync drop is a no-op |
| `Runtime.AutoCaptureContext` | log-args-runtime/src/lib.rs:261-270 | Panics exactly when the async storage is inaccessible. The state comes back exactly as it was: both pushes are undone on return, and the global store is never written. The caller gets a `ContextGuard` |
| `Runtime.CaptureUnion` | log-args-runtime/src/lib.rs:276-278 | The published map is the async merge overlaid by the sync merge. Its keys are the union of both, and the sync value wins on a conflict |
| `Runtime.PublishAll` | log-args-runtime/src/lib.rs:281-283 | With a usable lock, every key visited maps to its value afterwards, whatever the order. Keys not visited are unchanged, and so are the stacks |
| `Runtime.CaptureContext` | log-args-runtime/src/lib.rs:274-291 | For every key of the union, the global store then holds the union's value (sync wins), unless the lock is poisoned. Every other global key is unchanged. Both stacks come back as they were. A panic happens exactly when the async storage is inaccessible, and the global writes survive it |
| `InheritedContext.EmitFrame` | log-args-runtime/src/lib.rs:311-320 | The inner loop only appends. Each new part has a key other than `function`, carries that frame's value, and was not blocked by an earlier part. Afterwards every visited key is blocked, and keys stay distinct |
| `InheritedContext.EmitStack` | log-args-runtime/src/lib.rs:308-321 | Over a whole stack, innermost first, every new part carries the value the innermost-first scan finds for its key. Afterwards every non-reserved key of every frame is blocked |
| `InheritedContext.EmitGlobal` | log-args-runtime/src/lib.rs:342-350 | The global fallback emits exactly the non-`function` entries, with their values, and no key twice |
| `InheritedContext.StackPhase` | log-args-runtime/src/lib.rs:307-339 | After both stack loops, the keys are distinct and each part carries the answer of `get_context_value`. Every stack key is blocked, and the parts are empty exactly when the stacks hold no non-reserved key |
| `InheritedContext.GetInheritedParts` | log-args-runtime/src/lib.rs:296-350 | For every iteration order: no part has key `function`, no key appears twice, and each value is what `get_context_value` resolves. Global entries appear only when the stacks gave no part; then, with a usable lock, they are exactly the non-`function` global keys |
| `InheritedContext.PrefixMeansSameKey` | log-args-runtime/src/lib.rs:314-316 | For keys without `=`, the duplicate check `starts_with("key=")` matches only the same key |
| `InheritedContext.InheritedPartsComplete` | log-args-runtime/src/lib.rs:307-339 | When no stack key contains `=`, every non-reserved key of either merge is emitted |
| `InheritedContext.GetInheritedContextString` | log-args-runtime/src/lib.rs:352-356 | The rendered string is empty exactly when the stacks hold no non-reserved key and the global store offers none, either because it is unreachable or because it holds only `function` |
| `InheritedContext.InnermostFields` | log-args-runtime/src/lib.rs:381-393 | For one stack, the result is the non-`function` entries of the innermost frame that has any, and empty exactly when no frame has any |
| `InheritedContext.GetInheritedFieldsMap` | log-args-runtime/src/lib.rs:361-398 | The result is the non-`function` entries of the innermost async frame that has any; failing that, of the innermost sync frame that has any; otherwise empty. It never contains `function` and never consults the global store |
| `FunctionNames.CapitalizeSpec` | log_args/src/lib.rs:270-279 | The shared loop drops every `_`, so the length is the input length minus the count of `_`. Every other character lands at its index minus the `_` before it, ASCII-uppercased exactly when it follows a `_` (or is first with the flag set) |
| `FunctionNames.ToCamelCase` | log_args/src/lib.rs:267-281 | `to_camel_case` drops every `_` and uppercases exactly the characters right after a `_`. Everything else is kept in order, and a name without `_` is returned unchanged |
| `FunctionNames.CamelIsIdempotent` | log_args/src/lib.rs:267-281 | A camel-case name has no `_` left, so converting it again gives it back unchanged |
| `FunctionNames.PascalIsCapitalizedCamel` | log_args/src/lib.rs:299-313 | Starting the loop with the flag set gives the camel-case result with its first character ASCII-uppercased |
| `FunctionNames.ToPascalCase` | log_args/src/lib.rs:299-313 | `to_pascal_case(s)` is `to_camel_case(s)` with its first character ASCII-uppercased |
| `FunctionNames.ToScreamingSnakeCase` | log_args/src/lib.rs:286-288 | Keeps the length and leaves no ASCII lowercase letter. Each lowercase letter moves to its uppercase code point, and every other character is kept |
| `FunctionNames.ScreamingIsIdempotent` | log_args/src/lib.rs:286-288 | Applying the screaming conversion twice gives the same as once |
| `FunctionNames.ToKebabCase` | log_args/src/lib.rs:293-295 | Keeps the length and maps each `_` to `-`. Every other character is kept, so no `_` is left |
| `FunctionNames.KebabRoundTrip` | log_args/src/lib.rs:293-295 | For a name without `-`, mapping every `-` of the kebab-case form back to `_` recovers the name, so the conversion loses nothing |
| `FunctionNames.GetFormattedFunctionName` | log_args/src/lib.rs:316-345 | Precedence of the `function-names-*` features: camel, then pascal (`function-names-pascal` or `function-names`), then screaming, then kebab. Snake or no feature gives the name unchanged |
| `AttrConfig.EmptyIsDefault` | log_args/src/lib.rs:875-888 | No attributes give the default: nothing collected, clone-upfront on, span, all and auto-capture off |
| `AttrConfig.FoldLists` | log_args/src/lib.rs:893-903 | The loop's `fields`, `custom`, `current` and `span_fields` are the in-order concatenations of what each attribute of that kind carried |
| `AttrConfig.FoldFlags` | log_args/src/lib.rs:893-911 | Clone-upfront is always on. `span`, `all_params` and `auto_capture` are on exactly when an attribute of that kind occurs |
| `AttrConfig.FromAttributes` | log_args/src/lib.rs:891-913 | `from_attributes`: each list is the order-preserving concatenation for its kind, clone-upfront is always on, and each switch is on exactly when its attribute occurs |
| `BlockRewriter.VisitMacroPath` | log_args/src/lib.rs:216-235 | Exactly the paths whose last segment is a level macro and whose first segment is `tracing` change. They lose only their first segment, keep their leading `::` and keep their last segment |
| `BlockRewriter.StripsOnlyOnce` | log_args/src/lib.rs:225-231 | `tracing::tracing::info` loses one segment only. `::tracing::warn` keeps its `::` and becomes `::warn`, where the intended rewrite gives the bare `warn`. `log::info` and `tracing::span` are left alone |
| `BlockRewriter.VisitMacroPathIntended` | log_args/src/lib.rs:224-231 | The rewrite the comment at lines 227-228 describes (`tracing::info!` becomes `info!`): exactly the `tracing::<level>` paths change, they lose `tracing` and any leading `::`, so a two-segment path becomes the bare level macro. It differs from the code only in the leading `::` |
| `SelfRewrite.FindSelf` | log_args/src/lib.rs:976 | `find("self.")` returns the first position where `self.` starts, and nothing exactly when there is none |
| `SelfRewrite.FieldEnd` | log_args/src/lib.rs:981-983 | The field name is the longest prefix of alphanumerics and `_`, and the character after it, if any, is neither |
| `SelfRewrite.CountReplace` | log_args/src/lib.rs:986-990 | Replacing `self.<name>` by `__<name>_for_macro` everywhere never adds a `self.`, and removes at least one when the pattern occurs |
| `SelfRewrite.RewriteFieldAt` | log_args/src/lib.rs:985-990 | One iteration's `replace` strictly decreases the number of `self.` occurrences, which is why the loop terminates |
| `SelfRewrite.RewriteAllFields` | log_args/src/lib.rs:974-993 | Renaming the field at the first `self.` until none is left gives a text with no `self.`. A text without `self.` is returned unchanged |
| `SelfRewrite.RewriteStep` | log_args/src/lib.rs:976-992 | One loop pass, which renames the field at the `self.` found from the cursor, keeps the whole-text rewrite unchanged and removes at least one `self.` |
| `SelfRewrite.RewriteStepCursor` | log_args/src/lib.rs:976-992 | After the same pass the new cursor, just past the inserted name, lies within the text, and no `self.` starts before it |
| `SelfRewrite.RewriteSelfFields` | log_args/src/lib.rs:974-993 | The cursor loop as written (duplicated at lines 1052-1071) terminates, equals the whole-text rewrite, and leaves no `self.` |
| `SelfRewrite.ExtendedFieldIsMisnamed` | log_args/src/lib.rs:986-990 | As written, `self.a + self.ab` becomes `__a_for_macro + __a_for_macrob`, for any field names `a` and `b` (see Findings) |
| `SelfRewrite.RewriteEachFieldClean` | log_args/src/lib.rs:974-993 | The corrected rewrite, which renames each reference on its own, leaves no `self.` |
| `SelfRewrite.SeparatorSplits` | log_args/src/lib.rs:974-993 | For the corrected rewrite, any character that is neither a field character nor `.` splits the text: each side is rewritten on its own |
| `SelfRewrite.ExtendedFieldRenamedWhole` | log_args/src/lib.rs:974-993 | Corrected, `self.a + self.ab` becomes `__a_for_macro + __ab_for_macro` |
| `SpanScope.PushOwn` | log_args/src/lib.rs:636-644 | The generated scope pushes the function's frame: onto the async stack for an `async fn`, otherwise onto the sync stack. It panics only for the async push on inaccessible storage |
| `SpanScope.SpanScopeAsWritten` | log_args/src/lib.rs:630-648 | With `span` and `auto_capture`, the scope as generated ends with the sync stack popped once below where it started. The async stack is restored, and a panic happens exactly when the async storage is inaccessible |
| `SpanScope.CallerFrameLost` | log_args/src/lib.rs:630-648 | A caller holding a sync frame loses its innermost one across such a call (see Findings) |
| `SpanScope.SpanScopeIntended` | log_args/src/lib.rs:630-648 | With the capture's guard inert, both stacks and the failure flags come back exactly as they were. Only the global store keeps what was published |
| `SpanScope.AsWrittenPopsOnceMore` | log_args/src/lib.rs:630-648 | The generated scope is the intended one plus exactly one extra sync pop. Both panic in the same cases |

## Left out

- Real thread-local and task-local storage, `Mutex`, `LazyLock` and cross-thread behaviour: the model is one thread's state. Lock poisoning and an inaccessible async thread-local are boolean flags, and the model does not say how they arise.
- The sync thread-local is always taken as accessible. Its `.with` panics during thread teardown, and that is not modelled.
- `HashMap` iteration order is a parameter. Only properties that hold for every order are stated.
- The `tracing::Span::current()` probe at log-args-runtime/src/lib.rs:300-305 has no effect and is not modelled.
- The log macros (`log_with_context!`, `info!` … `trace!`) and `add_context_fields!` are left out. They build tokens or call the tracing backend, and attach only `get_context()`, which is modelled.
- All `syn`/`quote` token generation is left out: `Attribute::parse`, `params`, `generate_new_block` apart from its guard sequence, `get_log_redefines_with_fields`, `get_context_map_for_span` and `SpawnInstrumentRewriter`. These are foreign-library AST plumbing. Attribute arguments are opaque token text.
- `BlockRewriter.VisitMacroPath`: only the path rewrite is modelled. The recursive visit into the macro's own tokens (`visit_mut::visit_macro_mut`) is not.
- `SelfRewrite.IsAsciiAlphanumeric`: `char::is_alphanumeric` is Unicode-aware, and the model restricts it to ASCII letters and digits. Text positions are character indices, where the code uses byte offsets; the two agree on ASCII text.
- `SelfRewrite.RewriteSelfFields`: the string it receives is `quote!`'s rendering of the expression, and the re-parse of the result (`.parse()` with its fallback to the original tokens) is not modelled. `quote!` renders `self.x` with spaces around the `.`, so in practice the loop may find nothing. The macro also declares no `__<field>_for_macro` bindings. Both are outside the string loop that is modelled.
- `SpanScope.SpanScopeAsWritten`: the function body between the capture and the drops is taken to leave both stacks as it found them. No unwinding is modelled. A `Panicked` outcome here, and in every `Runtime` member, is the state at the point of the panic, before Rust drops the guards already bound. For example, if `capture_context` panics, Rust still drops `_context_guard` (log_args/src/lib.rs:644) on the way out, and the model does not show that pop.
- Cargo features (`with_context`, `function-names-*`) are parameters (`FunctionNames.Features`). `cfg!` evaluation is not modelled.
- `FunctionNames.ToScreamingSnakeCase`: `to_ascii_uppercase` is modelled as the shift of `a`..`z` by 32 code points, and every other character is kept, as in Rust.

## Findings

| source | as written | input that shows it | evidently intended | confidence | as-written member | corrected member |
|---|---|---|---|---|---|---|
| log_args/src/lib.rs:986-990 | Each pass replaces `self.<name>` everywhere in the string, so it also rewrites the start of every longer field that begins with `<name>` | `self.a + self.ab` becomes `__a_for_macro + __a_for_macrob` | `__a_for_macro + __ab_for_macro`: each reference renamed by its whole field name | medium; not executed | `SelfRewrite.ExtendedFieldIsMisnamed` | `SelfRewrite.ExtendedFieldRenamedWhole` |
| log_args/src/lib.rs:630-648 | With `span` and `auto_capture`, `capture_context()` returns a `ContextGuard` although its own pushes are already undone. Dropping that guard pops one more sync frame, the caller's (log-args-runtime/src/lib.rs:68-74, 286-290) | A caller with sync frame F calls a function annotated `span, auto_capture`; afterwards F is gone from the sync stack | The caller's sync stack comes back unchanged | medium; not executed | `SpanScope.CallerFrameLost` | `SpanScope.SpanScopeIntended` |
| log_args/src/lib.rs:224-231 | The rewrite drops the `tracing` segment but keeps the path's leading `::` | `::tracing::warn!("x")` in an annotated body becomes `::warn!("x")`, which Rust 2018 resolves as a crate named `warn` | `warn!("x")`, the bare macro, as the comment at lines 227-228 says | medium; not executed | `BlockRewriter.StripsOnlyOnce` | `BlockRewriter.VisitMacroPathIntended` |
