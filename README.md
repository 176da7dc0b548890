# minko LOD scheduling and HTTP request core, in Dafny

This project models two pieces of the minko engine in Dafny and proves what they promise.

**The LOD scheduler component** (`AbstractLodScheduler`) has the following state:
- a registry of streamed resources keyed by their provider's uuid, each with a dirty flag and the last computed `LodInfo`;
- the two pending surface queues `_addedSurfaces` and `_removedSurfaces`;
- the binding to a master LOD scheduler;
- the `_enabled` flag and `_frameTime`;
- the set of surfaces whose layout mask it watches.

It is modelled as the class `LodScheduler.Scheduler`, whose methods update those fields in place. The constructor establishes the queue invariant `Valid()`, and every method that changes the queues requires and preserves it, so it holds for any interleaving of calls. Each method is proved against pure specification functions:
- the queue operations of `PendingQueues`;
- the visibility test of `SurfaceVisibility`;
- `Drained`/`DrainEvents`, `RefreshAll`/`UpdateEvents` and `Registered`/`Unregistered` in `LodScheduler`.

The lemmas about those functions state the component's guarantees:
- the queue invariant (no duplicates, no surface in both queues);
- removals are drained before additions, and additions only when a master is bound;
- `lodInfoChanged` fires for a resource exactly when the resource was dirty and its requirement changed;
- the write-back touches only changed fields;
- a second `updated` is quiet;
- `forceUpdate` recomputes everything.

The observable effects are recorded in an `events` log:
- the virtual hooks `surfaceAdded`, `surfaceRemoved` and `lodInfoChanged`;
- the writes of `requiredLod` and `priority` into a resource's data provider.

**The HTTP request** (`HTTPRequest.cpp` of the http-worker plugin) contributes:
- `encodeUrl`, modelled as written both as a function and as the stream-writing loop, next to percent-decoding as section 2.1 of RFC 3986 defines it;
- the two `requestSucceeded` tests;
- the `status: …` error message;
- the signals `run` emits (`progress`, then exactly one `error` or `complete`);
- what `fileExists` answers and logs.

`HttpRequest.Request` is a class with `_output`, the signal log and the `LOG_ERROR` lines as fields.

Modelling choices (`S` is `plugin/serializer/src/minko/component/AbstractLodScheduler.cpp` and `H` is `plugin/http-worker/src/minko/net/HTTPRequest.cpp`):
- **Layout bitmasks.** A bitmask is the set of the positions of its one bits (`SurfaceVisibility.Layout = set<nat>`), so `&` is intersection, `!= 0u` is non-emptiness and no layout width is assumed. `BuiltinLayout::HIDDEN` is the constant `hidden` given to the constructor.
- **Hash-map iteration order.** The order in which `_resources` and `_surfaceLayoutmaskChangedSlots` are iterated is not known here: the types of both containers are declared in a header that is not part of this model. It is the parameter `order`, required to list every key exactly once.
- **Resolvers and scene queries.** The results of the resolver functions (`masterLodSchedulerFunction()(node)`) and of `NodeSet` queries are parameters: `resolvedMaster` and the surface sequences. The dynamic casts that tell component kinds apart become the `Component` datatype.
- **The LOD policy.** `lodInfo(resource, time)` is pure virtual and becomes a function parameter `policy`.
- **Byte values.** Bytes are `nat`s below 256. Whether plain `char` is signed is a parameter `charIsSigned`, because `static_cast<int>(c)` depends on it.
- **libcurl.** A failed `curl_easy_init` is the parameter `initialized`. What the transfer reported is a `Transfer` value: the `CURLcode`, the response code, the error buffer, the progress ratios and the received bytes.
- **`run` as a sequence of signals.** `run` (H:152-204) signals `progress(0)` first. When `curl_easy_init` fails it signals `error(1, …)` and returns. Otherwise it performs the transfer; on failure it logs the message with `LOG_ERROR` and signals `error(responseCode, message)`, and on success it signals `progress(1)` and then `complete(_output)`. `HttpRequest.RunEvents` and `HttpRequest.RunLog` are those signals and log lines.
- **An exception in `encodeUrl`.** `encodeUrl` throws `std::out_of_range` from `url.at(i + 1)` (nothing after the `%`) or `url.at(i + 2)` (one character after it, as in `%a`) when the scan reaches a `%` (one not inside a `%xx` triplet it is already copying) with fewer than two characters after it. This is the `Err(OutOfRange)` result. `run` and `fileExists` do not catch it, so it is their `Threw` outcome. `run` has then sent only `progress(0)`.

## Model

| member | source | states |
|---|---|---|
| PendingQueues.EraseFirstMultiset | plugin/serializer/src/minko/component/AbstractLodScheduler.cpp:574-575 | erasing the first `s` found removes exactly one `s` and nothing else, and leaves a list without `s` unchanged |
| PendingQueues.AddPendingSpec | plugin/serializer/src/minko/component/AbstractLodScheduler.cpp:568-579 | after `addPendingSurface(s)`: `s` is in the added queue once and not in the removed queue, other surfaces keep their membership, the queues stay valid, and a new `s` is appended at the back |
| PendingQueues.RemovePendingSpec | plugin/serializer/src/minko/component/AbstractLodScheduler.cpp:581-592 | the mirror image for `removePendingSurface(s)` |
| PendingQueues.RouteSpec | plugin/serializer/src/minko/component/AbstractLodScheduler.cpp:542-549 | `surfaceLayoutMaskInvalidated` puts `s` in exactly the queue its visibility selects, leaves every other surface where it was, and keeps the invariant |
| PendingQueues.RouteAllSpec | plugin/serializer/src/minko/component/AbstractLodScheduler.cpp:183-194 | re-routing every watched surface leaves each in the queue its visibility selects and other surfaces untouched, and the queues stay valid |
| PendingQueues.AddAllSpec | plugin/serializer/src/minko/component/AbstractLodScheduler.cpp:347-357 | enqueuing a subtree's surfaces leaves each of them in the added queue only, others untouched, queues valid |
| PendingQueues.RemoveAllSpec | plugin/serializer/src/minko/component/AbstractLodScheduler.cpp:376-381 | enqueuing a node's surfaces for removal leaves each in the removed queue only, others untouched, queues valid |
| SurfaceVisibility.VisibleIffBits | plugin/serializer/src/minko/component/AbstractLodScheduler.cpp:531-540 | a surface passes `checkSurfaceLayout` iff no bit of its masked layout is hidden and some bit is in the scheduler's mask |
| SurfaceVisibility.HiddenIsNeverVisible | plugin/serializer/src/minko/component/AbstractLodScheduler.cpp:536-537 | a surface with a hidden bit is rejected, whatever the scheduler's mask |
| SurfaceVisibility.VisibilityMonotoneInMask | plugin/serializer/src/minko/component/AbstractLodScheduler.cpp:539 | widening the scheduler's mask never hides a visible surface |
| SurfaceVisibility.EmptyMasksShowNothing | plugin/serializer/src/minko/component/AbstractLodScheduler.cpp:531-540 | an empty scheduler mask or an empty masked layout shows nothing |
| LodScheduler.HookPerSurface | plugin/serializer/src/minko/component/AbstractLodScheduler.cpp:225-241 | draining a queue makes one hook call per queued surface, in queue order |
| LodScheduler.DrainOrder | plugin/serializer/src/minko/component/AbstractLodScheduler.cpp:222-243 | `collectSurfaces` reports every removal in order before any addition, and additions only with a master bound; the removed queue ends empty; without a master the added queue is kept and a second drain is a no-op |
| LodScheduler.DrainedValid | plugin/serializer/src/minko/component/AbstractLodScheduler.cpp:222-243 | draining keeps the queue invariant |
| LodScheduler.WritesOnlyChangedFields | plugin/serializer/src/minko/component/AbstractLodScheduler.cpp:515-529 | the default `lodInfoChanged` writes `requiredLod` iff it changed and `priority` iff it changed, each with its new value, and nothing else |
| LodScheduler.RefreshAllSpec | plugin/serializer/src/minko/component/AbstractLodScheduler.cpp:452-477 | after `updated` the registry has the same keys, no entry is dirty, clean entries are untouched and dirty ones hold the policy's value |
| LodScheduler.InvalidatedAll | plugin/serializer/src/minko/component/AbstractLodScheduler.cpp:168-173 | `invalidateLodRequirement()` keeps the keys and the `LodInfo` values and marks every entry dirty |
| LodScheduler.PartialRefreshAt | plugin/serializer/src/minko/component/AbstractLodScheduler.cpp:457-476 | part-way through the loop of `updated`, an entry is refreshed iff its key was visited, from its original value |
| LodScheduler.PartialRefreshStep | plugin/serializer/src/minko/component/AbstractLodScheduler.cpp:457-476 | visiting one more key refreshes only that entry and appends only that entry's events |
| LodScheduler.HookFiresIffChanged | plugin/serializer/src/minko/component/AbstractLodScheduler.cpp:461-475 | `updated` calls `lodInfoChanged` for a resource exactly once if it was dirty and the policy's value differs from the stored one, and never otherwise |
| LodScheduler.HookCarriesOldAndNew | plugin/serializer/src/minko/component/AbstractLodScheduler.cpp:468-475 | every `lodInfoChanged` call carries the stored value and the policy's value, which differ |
| LodScheduler.CleanRegistryIsQuiet | plugin/serializer/src/minko/component/AbstractLodScheduler.cpp:461-462 | with no dirty entry, `updated` calls no hook and writes nothing |
| LodScheduler.UpdatedIsIdempotent | plugin/serializer/src/minko/component/AbstractLodScheduler.cpp:452-477 | a second `updated` with the same master binding, any policy and any time, changes neither the queues nor the registry, and calls no hook: no `surfaceAdded`, no `surfaceRemoved`, no `lodInfoChanged` |
| LodScheduler.ForceUpdateRecomputesAll | plugin/serializer/src/minko/component/AbstractLodScheduler.cpp:175-181 | after `forceUpdate` every entry holds the policy's value, and the hook fires for a resource iff that value differs from the stored one |
| LodScheduler.RegistryLaws | plugin/serializer/src/minko/component/AbstractLodScheduler.cpp:131-160 | registering adds one key and never overwrites an entry; unregistering removes only its key and is a no-op for an absent key; re-registering gives a fresh entry |
| LodScheduler.Find | plugin/serializer/src/minko/component/AbstractLodScheduler.cpp:571-572 | `std::find`: the index of the first occurrence, or the length when absent |
| LodScheduler.Scheduler.constructor | plugin/serializer/src/minko/component/AbstractLodScheduler.cpp:37-51 | empty registry and queues, no master, enabled, frame time 0 |
| LodScheduler.Scheduler.RegisterResource | plugin/serializer/src/minko/component/AbstractLodScheduler.cpp:131-154 | the registry becomes `Registered(old, uuid)`; the method returns the entry stored under `uuid` |
| LodScheduler.Scheduler.UnregisterResource | plugin/serializer/src/minko/component/AbstractLodScheduler.cpp:156-160 | the registry becomes `Unregistered(old, uuid)` |
| LodScheduler.Scheduler.InvalidateLodRequirement | plugin/serializer/src/minko/component/AbstractLodScheduler.cpp:162-166 | only that entry's dirty flag is set |
| LodScheduler.Scheduler.InvalidateAllLodRequirements | plugin/serializer/src/minko/component/AbstractLodScheduler.cpp:168-173 | the registry becomes `InvalidatedAll(old)` |
| LodScheduler.Scheduler.AddPendingSurface | plugin/serializer/src/minko/component/AbstractLodScheduler.cpp:568-579 | the queues become `AddPending(old, s)`; the queue invariant `Valid()` is kept |
| LodScheduler.Scheduler.RemovePendingSurface | plugin/serializer/src/minko/component/AbstractLodScheduler.cpp:581-592 | the queues become `RemovePending(old, s)`; the queue invariant `Valid()` is kept |
| LodScheduler.Scheduler.SurfaceLayoutMaskInvalidated | plugin/serializer/src/minko/component/AbstractLodScheduler.cpp:542-549 | the queues become `Route(old, s, checkSurfaceLayout(s))`; the queue invariant `Valid()` is kept |
| LodScheduler.Scheduler.SetLayoutMask | plugin/serializer/src/minko/component/AbstractLodScheduler.cpp:183-194 | it stores the mask, then re-routes every watched surface under the new mask; the queue invariant `Valid()` is kept |
| LodScheduler.Scheduler.WatchSurface | plugin/serializer/src/minko/component/AbstractLodScheduler.cpp:551-560 | `s` becomes watched |
| LodScheduler.Scheduler.UnwatchSurface | plugin/serializer/src/minko/component/AbstractLodScheduler.cpp:562-566 | `s` is no longer watched |
| LodScheduler.Scheduler.MasterLodSchedulerSet | plugin/serializer/src/minko/component/AbstractLodScheduler.cpp:316-323 | the binding becomes the given master |
| LodScheduler.Scheduler.CollectSurfaces | plugin/serializer/src/minko/component/AbstractLodScheduler.cpp:222-243 | the queues become `Drained(old)` and the hook calls `DrainEvents(old)` are appended; the queue invariant `Valid()` is kept |
| LodScheduler.Scheduler.LodInfoChanged | plugin/serializer/src/minko/component/AbstractLodScheduler.cpp:515-529 | it logs the hook call, followed by `WriteBack` of the changed fields |
| LodScheduler.Scheduler.RefreshResource | plugin/serializer/src/minko/component/AbstractLodScheduler.cpp:459-475 | one iteration: the entry becomes `Refreshed` and its events are appended |
| LodScheduler.Scheduler.RefreshResources | plugin/serializer/src/minko/component/AbstractLodScheduler.cpp:457-476 | the loop over the registry: it becomes `RefreshAll(old)` and `UpdateEvents` is appended |
| LodScheduler.Scheduler.Updated | plugin/serializer/src/minko/component/AbstractLodScheduler.cpp:452-477 | it drains the queues, then refreshes the registry; the events are the drain's followed by the refresh's; the queue invariant `Valid()` is kept |
| LodScheduler.Scheduler.ForceUpdate | plugin/serializer/src/minko/component/AbstractLodScheduler.cpp:175-181 | it marks every entry dirty, then runs `updated` at the stored frame time, whether or not the component is enabled; the queue invariant `Valid()` is kept |
| LodScheduler.Scheduler.FrameBeginHandler | plugin/serializer/src/minko/component/AbstractLodScheduler.cpp:441-450 | it always records the time; it runs `updated` iff enabled and otherwise changes nothing else; the queue invariant `Valid()` is kept |
| LodScheduler.Scheduler.NodeAddedHandler | plugin/serializer/src/minko/component/AbstractLodScheduler.cpp:325-358 | it binds the resolved master, then watches every subtree surface and enqueues it for addition without a visibility test; the queue invariant `Valid()` is kept |
| LodScheduler.Scheduler.NodeRemovedHandler | plugin/serializer/src/minko/component/AbstractLodScheduler.cpp:360-382 | it binds the resolved master, then unwatches the node's own surfaces and enqueues them for removal; the queue invariant `Valid()` is kept |
| LodScheduler.Scheduler.ComponentAddedHandler | plugin/serializer/src/minko/component/AbstractLodScheduler.cpp:384-411 | a master component re-binds the master; a surface is watched, and enqueued for addition only if visible; nothing else changes; the queue invariant `Valid()` is kept |
| LodScheduler.Scheduler.ComponentRemovedHandler | plugin/serializer/src/minko/component/AbstractLodScheduler.cpp:413-439 | a master component re-binds the master; a surface is unwatched and enqueued for removal; nothing else changes; the queue invariant `Valid()` is kept |
| Numerals.DigitsRoundTrip | plugin/http-worker/src/minko/net/HTTPRequest.cpp:76 | the digit string printed for `n` is canonical, has every digit below the base, and reads back as `n` |
| Numerals.CanonicalIsDigits | plugin/http-worker/src/minko/net/HTTPRequest.cpp:76 | every canonical digit string is the printed form of its value, so printing and reading are inverse |
| Numerals.DigitsLength | plugin/http-worker/src/minko/net/HTTPRequest.cpp:76 | a number prints as one digit iff it is below the base |
| UrlEncoding.HexDigit | plugin/http-worker/src/minko/net/HTTPRequest.cpp:76 | a hex digit `std::hex` prints is alphanumeric and never `%` |
| UrlEncoding.EncodeUrlStream | plugin/http-worker/src/minko/net/HTTPRequest.cpp:46-81 | the loop with its `i += 2` skip and `at()` bounds checks computes `EncodeUrl`, including the throw |
| UrlEncoding.UnreservedUnchanged | plugin/http-worker/src/minko/net/HTTPRequest.cpp:50-53 | a URL of alphanumerics and `/ : ~ - . _` comes out unchanged |
| UrlEncoding.PercentFreeSucceeds | plugin/http-worker/src/minko/net/HTTPRequest.cpp:57-78 | a URL without `%` never makes `encodeUrl` throw |
| UrlEncoding.DanglingPercentFails | plugin/http-worker/src/minko/net/HTTPRequest.cpp:61-67 | every `%` the scan reaches (the bytes before it encode without error) with fewer than two characters after it makes `encodeUrl` throw, as in `%41%` |
| UrlEncoding.FailureHasDanglingPercent | plugin/http-worker/src/minko/net/HTTPRequest.cpp:61-67 | conversely, whenever `encodeUrl` throws, the URL splits into an encodable prefix, a `%`, and fewer than two characters |
| UrlEncoding.FailureIgnoresEscape | plugin/http-worker/src/minko/net/HTTPRequest.cpp:61-67 | whether the scan throws does not depend on how bytes are escaped |
| UrlEncoding.EncodedNotShorter | plugin/http-worker/src/minko/net/HTTPRequest.cpp:57-78 | the output is never shorter than the input |
| UrlEncoding.TwoHexDigits | plugin/http-worker/src/minko/net/HTTPRequest.cpp:76 | bytes 0x10-0xff print as exactly two lower-case hex digits |
| UrlEncoding.OneHexDigit | plugin/http-worker/src/minko/net/HTTPRequest.cpp:76 | bytes below 0x10 print as one hex digit |
| UrlEncoding.EscapeIsPaddedIff | plugin/http-worker/src/minko/net/HTTPRequest.cpp:76 | the escape as written is `%` plus two hex digits iff the byte is at least 0x10 and, where `char` is signed, below 0x80 |
| UrlEncoding.HexValueOfDigit | plugin/http-worker/src/minko/net/HTTPRequest.cpp:76 | each printed hex digit reads back as its value |
| UrlEncoding.DecodePadded | plugin/http-worker/src/minko/net/HTTPRequest.cpp:76 | a two-digit escape decodes to its byte |
| UrlEncoding.UnpaddedEscapeIsAmbiguous | plugin/http-worker/src/minko/net/HTTPRequest.cpp:74-77 | as written, tab + `a` and `%9a` encode alike and decode to 0x9a; a lone tab gives `%9`, which makes a second `encodeUrl` throw |
| UrlEncoding.SignExtendedEscape | plugin/http-worker/src/minko/net/HTTPRequest.cpp:76 | with signed `char`, byte 0xc3 is escaped as `%ffffffc3`; with unsigned `char`, as `%c3` |
| UrlEncoding.AsWrittenRoundTrip | plugin/http-worker/src/minko/net/HTTPRequest.cpp:46-81 | as written, a URL without `%` whose escaped bytes all have two-digit escapes encodes as the padded encoder does and decodes back to itself |
| UrlEncoding.SameAsPadded | plugin/http-worker/src/minko/net/HTTPRequest.cpp:46-81 | where every escape has two digits, the encoder as written agrees with the padded one |
| UrlEncoding.PaddedRoundTrip | plugin/http-worker/src/minko/net/HTTPRequest.cpp:46-81 | with two-digit escapes, every URL without `%` encodes and decodes back to itself |
| UrlEncoding.PaddedIdempotent | plugin/http-worker/src/minko/net/HTTPRequest.cpp:46-81 | with two-digit escapes, encoding an encoded URL changes nothing |
| HttpRequest.SuccessTestsCompared | plugin/http-worker/src/minko/net/HTTPRequest.cpp:185-187 | a file `fileExists` accepts is one `run` accepts; they differ exactly on OK with 206; a transport failure fails both (the `fileExists` test is at lines 281-283) |
| HttpRequest.DecimalDigits | plugin/http-worker/src/minko/net/HTTPRequest.cpp:192 | `std::to_string` of a non-negative number is a non-empty string of decimal digits |
| HttpRequest.DecimalRoundTrip | plugin/http-worker/src/minko/net/HTTPRequest.cpp:192 | `std::to_string` of the response code reads back as that code, sign included |
| HttpRequest.CString | plugin/http-worker/src/minko/net/HTTPRequest.cpp:193 | `std::string(curlErrorBuffer)` is the buffer's prefix up to, not including, the first NUL |
| HttpRequest.ErrorMessageFormat | plugin/http-worker/src/minko/net/HTTPRequest.cpp:191-193 | the message starts with `status: ` and the code; `, error: ` and the error text are appended iff the transfer result is not OK; with OK the rest reads back as the code |
| HttpRequest.NotFoundMessage | plugin/http-worker/src/minko/net/HTTPRequest.cpp:191-193 | a 404 with the transfer itself fine (a case of `run`, which does not set `CURLOPT_FAILONERROR`) gives exactly `status: 404` |
| HttpRequest.ProgressEvents | plugin/http-worker/src/minko/net/HTTPRequest.cpp:228-238 | one `progress` signal per report, none of them terminal |
| HttpRequest.OneOutcome | plugin/http-worker/src/minko/net/HTTPRequest.cpp:152-204 | `run` starts with `progress(0)`; when it returns it has sent exactly one `error` or `complete`, as its last signal; when `encodeUrl` throws, only `progress(0)` has been sent |
| HttpRequest.RunOutcomes | plugin/http-worker/src/minko/net/HTTPRequest.cpp:165-170 | `complete(_output)` is sent, right after `progress(1)`, iff the transfer ran and succeeded; a failed init sends error 1 with its message; any other failure sends the response code and the message of lines 191-193 |
| HttpRequest.ProgressEventsAreProgress | plugin/http-worker/src/minko/net/HTTPRequest.cpp:228-238 | the progress signals carry the reported ratios, in order |
| HttpRequest.FileExistsAnswers | plugin/http-worker/src/minko/net/HTTPRequest.cpp:240-295 | `fileExists` answers yes iff the handle was created, the URL encoded and the server answered 200 with the transfer fine, and then logs nothing; every no is logged once, with the init-failure text or the status message; it throws iff `encodeUrl` throws |
| HttpRequest.Request.constructor | plugin/http-worker/src/minko/net/HTTPRequest.cpp:28-44 | the request keeps its URL, with no output and no signals yet |
| HttpRequest.Request.WriteHandler | plugin/http-worker/src/minko/net/HTTPRequest.cpp:206-226 | the received bytes are appended to `_output`, and all of them are reported taken |
| HttpRequest.RunLogMatchesError | plugin/http-worker/src/minko/net/HTTPRequest.cpp:189-197 | `run` logs at most one line; every `error` signalled after the handle was created is logged, with the signal's message and the response code as its code; a failed `curl_easy_init` is signalled but not logged |
| HttpRequest.Request.SignalOutcome | plugin/http-worker/src/minko/net/HTTPRequest.cpp:189-203 | a failed transfer logs the message and signals `error(responseCode, message)`; a successful one signals `progress(1)` then `complete(_output)` |
| HttpRequest.Request.Run | plugin/http-worker/src/minko/net/HTTPRequest.cpp:152-204 | `run` throws iff the handle was created and `encodeUrl` throws; `_output` grows by the received bytes iff the transfer ran; the signals appended are `RunEvents` and the lines logged are `RunLog` |

## Left out

- The signal/slot plumbing is not modelled: the four `connect` calls of `targetAdded` (S:78-104) and the node-layout-changed lambda (S:339-345), each of which only connects a callback to an operation that is modelled. `targetAdded` then resets the scene-manager, renderer and master resolvers to their defaults (S:106-119) and calls `nodeAddedHandler(target, target)` (S:121); that is `Scheduler.NodeAddedHandler` run on the target, with `resolvedMaster` the default resolver's result. `targetRemoved` (S:127-128) drops only the node-added and node-removed slots and leaves the two component slots connected; since the dispatch of signals is not modelled, nothing of this is captured. The `propertyChanged` subscription in `registerResource` (S:140-151) calls `maxAvailableLodChanged`, whose body is empty (next line), so it changes no modelled state. The watched-slot map `_surfaceLayoutmaskChangedSlots` is reduced to its key set.
- `maxAvailableLodChanged` (S:509-513) is left out because its body is empty.
- `sceneManagerSet` (S:245-280) subscribes `frameBeginHandler` to `sceneManager->frameBegin()` (S:255-261); that subscription is left out as signal plumbing, so `FrameBeginHandler` may be called whether or not a scene manager is bound. The rest of `sceneManagerSet`, `rendererSet`, the root and renderer property handlers, `viewPropertyChanged` and `viewportChanged` are left out because they concern view state, which is outside this core. The scene-manager and renderer branches of the component handlers are left out for the same reason.
- The default resolvers (S:53-73) are left out: they query the scene graph. Their results are parameters. `componentRemovedHandler` calls them on `nullptr`; that call is modelled only through its result.
- `ResourceInfo(data)` and the value of `BuiltinLayout::HIDDEN` come from headers that are not part of this model. A new entry is assumed dirty with `LodInfo(DEFAULT_LOD, 0)`. `LodInfo::equals` (used at S:468) is in a header that is not part of this model; it is assumed to compare `requiredLod` and `priority` by value, so it is `==` on the `LodInfo` datatype. `HIDDEN` is a constructor parameter.
- The default `layoutMask()` of `AbstractComponent` is in a header that is not part of this model, so it is a constructor parameter. `enabled` has no setter in this file. It is a plain field.
- Every libcurl call (`createCurl`'s options, `curl_easy_perform`, `curl_easy_getinfo`, `disposeCurl`) is network I/O. Their results are the `Transfer` parameters.
- `curlProgressHandler`'s float division (H:228-238) is not modelled. The reported ratios are given. Floats are `real`s.
- UrlEncoding.HexOfInt: `int` is taken to be 32 bits wide with two's complement, so `std::hex` prints a negative `int` as its 32-bit pattern (the `ffffffc3` of `SignExtendedEscape`); other widths are not modelled.
- HttpRequest.ErrorMessage: `responseCode` is an unbounded `int`. The `long` type and its range are not modelled.
- HttpRequest.Request.SignalOutcome: the `error` signal is a `Signal<int, const std::string&>` (H:34), so `execute(responseCode, …)` (H:197) narrows the `long` response code to `int`; the model passes the code unchanged.
- LodScheduler.Scheduler.RegisterResource: `registerResource` returns a `ResourceInfo&` into `_resources`, which callers pass back to `invalidateLodRequirement(ResourceInfo&)`. The model returns a copy and identifies the entry by its uuid key; the two agree while the entry is registered, and a C++ reference to an erased entry would dangle, which is not modelled.
- HttpRequest.CString: an error buffer without a NUL is read as a whole, although C would read past its end.
- UrlEncoding.IsAlnum: `::isalnum` is taken in the "C" locale. Passing a negative `char` to it is undefined behaviour, and that is not modelled.
- `LOG_ERROR` is modelled as a list of logged lines, in both `run` (`Request.logged`) and `fileExists` (`Answered.logged`); the logger itself is not modelled.
- `AndroidAttitude.java` is not part of this model.

## Findings

`EncodeUrlPadded` is the corrected encoder, and its properties are proved in `PaddedRoundTrip` and `PaddedIdempotent`. `HttpRequest.Request.Run` runs the as-written encoder and keeps only whether it throws; the encoded URL itself reaches no field, signal or `Transfer`, so the model says nothing about what is sent. `FailureIgnoresEscape` shows that whether the scan throws is the same for both encoders. `AsWrittenRoundTrip` and `SameAsPadded` bound where the two encoders agree.

| source | as written | input that shows it | evidently intended | confidence | as-written member | corrected member |
|---|---|---|---|---|---|---|
| plugin/http-worker/src/minko/net/HTTPRequest.cpp:74-77 | `"%" << std::hex << static_cast<int>(c)` prints one hex digit for a byte below 0x10 | tab followed by `a`, and the already-encoded `%9a`, both encode to `%9a`, which decodes to byte 0x9a; a lone tab gives `%9`, which makes a second `encodeUrl` throw | two hex digits per escape, as in section 2.1 of RFC 3986 | not executed | UrlEncoding.UnpaddedEscapeIsAmbiguous | UrlEncoding.PaddedRoundTrip |
| plugin/http-worker/src/minko/net/HTTPRequest.cpp:76 | `static_cast<int>(c)` sign-extends a byte from 0x80 up where `char` is signed | byte 0xc3 (the lead byte of UTF-8 `é`) is escaped as `%ffffffc3` | `%c3`, the byte's own two hex digits | not executed | UrlEncoding.SignExtendedEscape | UrlEncoding.PaddedRoundTrip |
