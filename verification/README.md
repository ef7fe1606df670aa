# drm_image in Dafny

A model of the decision logic of `main` in `drm_image/drm_image.c`. The
program opens the exynos DRM device and picks a display target:

- the first connected connector;
- that connector's largest mode;
- the CRTC of the encoder the connector is bound to.

It then asks the kernel for a GEM buffer sized to that mode and exports the
buffer as a dma-buf descriptor. Finally it brings up EGL and imports the
descriptor as an EGL image, using the attribute list of the Khronos
`EGL_EXT_image_dma_buf_import` extension.

Every libdrm and EGL call is an input. The records the driver returns
(connectors, modes, encoders) and the outcome of each call are gathered in
`Pipeline.Platform`. A run (`Pipeline.Run`) records the calls each stage
issues, in order. It ends with the value `main` returns:

- 0 on success;
- the ioctl's own return value when the allocation fails;
- -1 for every other failure.

Modules, one per component of `main`:

- `Common`: `Option` and the fixed-width integer ranges.
- `DrmMode`: connector, mode, encoder and resource records.
- `Search`: the first-match scan used for connectors and encoders. It fetches
  entries in order, stops at the first match, and releases each entry it
  passes over. Written both as a function and as the program's loop.
- `DisplayTarget`:
  - connector and encoder search;
  - mode search, an arg-max with a strict `>` against an accumulator that
    starts at 0, written as a function and as a loop.
- `GemBuffer`:
  - size and stride of the buffer;
  - the allocation and export flags;
  - the row-major byte layout that size and stride describe.
- `EglAttribs`:
  - the flat, `EGL_NONE`-terminated attribute list and how a consumer reads it back;
  - the DRM fourcc packing of `XRGB8888`;
  - the 13-entry import list.
- `Pipeline`:
  - the ten stages from the connector search on, one function each, each
    with a lemma stating what it leaves behind; opening the device and
    querying its resources are the first two branches of `Run`;
  - the run, its log of calls and its exit status.

Three behaviours of the code are easy to miss; the model follows the code:

- The result of `eglGetDisplay` is never checked (line 153). Neither is the
  entry point returned by `eglGetProcAddress` (line 194). So there is no
  "display connect" error and no "import entry point missing" error.
- The mode search fails when the list is empty, and also when every mode has
  area 0. In that case `drm.mode` stays NULL at line 76.
- A failed image import returns -1. It does not return the EGL error code;
  that code is only printed.

## Model

| member | source | states |
|---|---|---|
| Search.FirstFrom | drm_image/drm_image.c:52-60 | the first index at or after `i` whose entry passes the test, or none when no entry from `i` on passes |
| Search.FirstMatch | drm_image/drm_image.c:52-64 | the scan stops at the first matching entry, fails exactly when nothing matches, and has released precisely the entries before the stopping point, each of them non-matching, in order |
| Search.FirstMatchLoop | drm_image/drm_image.c:52-60 | the probe/break/release loop computes the same stopping point and release list as the scan function |
| DisplayTarget.FindConnector | drm_image/drm_image.c:52-64 | the chosen connector is connected and every earlier one is not; the search fails exactly when no connector is connected (so also on an empty list); the released connectors are exactly those before the chosen one |
| DisplayTarget.FindEncoder | drm_image/drm_image.c:82-93 | the chosen encoder carries the connector's encoder id and no earlier one does; the search fails exactly when no encoder carries that id; the released encoders are those before the chosen one |
| DisplayTarget.SelectMode | drm_image/drm_image.c:66-79 | the chosen mode has positive area, at least the area of every mode, and strictly more than every earlier mode; the search fails exactly when every area is 0, the empty list included |
| DisplayTarget.SelectModeIsPreferred | drm_image/drm_image.c:67-79 | the mode search picks `k` if and only if `k` has the largest, nonzero area and no earlier mode has the same area |
| DisplayTarget.SelectModeLoop | drm_image/drm_image.c:67-74 | the loop with its running `area` accumulator picks the same mode as the search function |
| DisplayTarget.ThirdConnectorChosen | drm_image/drm_image.c:52-60 | with two connectors that are not connected (disconnected or of unknown state) followed by a connected one, the third is chosen after releasing the first two |
| DisplayTarget.TieKeepsEarlierMode | drm_image/drm_image.c:67-74 | among 1280x720, 1920x1080 and 1080x1920 the 1920x1080 mode wins the tie, since a later equal area does not replace it |
| GemBuffer.BufferGeometry | drm_image/drm_image.c:102-117 | size is four bytes per pixel of the mode, stride is four bytes per column, size equals stride times the number of rows, and the stride fits a signed 32-bit attribute value |
| GemBuffer.FullHdGeometry | drm_image/drm_image.c:102-117 | a 1920x1080 mode gives an 8,294,400-byte buffer with a 7,680-byte stride |
| GemBuffer.PixelRoundTrip | drm_image/drm_image.c:102-117 | every byte of every pixel of the mode lies inside the buffer, at an offset that maps back to that same byte |
| GemBuffer.OffsetRoundTrip | drm_image/drm_image.c:102-117 | every offset inside the buffer belongs to a byte of a pixel of the mode, and that byte's offset is the offset itself |
| EglAttribs.FourCCRoundTrip | drm_image/drm_image.c:183 | the four characters packed into a DRM format code are read back unchanged |
| EglAttribs.Encode | drm_image/drm_image.c:177-191 | the flat list has two entries per pair (key then value, in order) and ends with `EGL_NONE` |
| EglAttribs.Decode | drm_image/drm_image.c:177-191 | a list read back as pairs never yields the terminator as a key |
| EglAttribs.DecodeEncode | drm_image/drm_image.c:177-191 | reading back an encoded list gives the original pairs, whatever follows the terminator, as long as no key is `EGL_NONE` |
| EglAttribs.EncodeDecode | drm_image/drm_image.c:177-191 | a list that reads back as some pairs starts with exactly the encoding of those pairs |
| EglAttribs.Lookup | drm_image/drm_image.c:177-191 | a key has a value exactly when some pair carries it, and the value comes from such a pair |
| EglAttribs.LookupFirst | drm_image/drm_image.c:177-191 | the first pair carrying a key decides its value |
| EglAttribs.ImportAttribs | drm_image/drm_image.c:177-191 | the import list has 13 entries: WIDTH = hdisplay, HEIGHT = vdisplay, FOURCC = XRGB8888, PLANE0_FD = the descriptor, PLANE0_OFFSET = 0, PLANE0_PITCH = stride, then `EGL_NONE` |
| EglAttribs.ImportPairsDistinct | drm_image/drm_image.c:177-191 | no key of the import list repeats, so a reader that takes the first or the last pair of a key gets the same value |
| EglAttribs.DistinctKeysLookup | drm_image/drm_image.c:177-191 | with distinct keys, the pair at a position is the only pair carrying its key, and the lookup returns its value |
| EglAttribs.ImportAttribsDecode | drm_image/drm_image.c:177-191 | the import list reads back as exactly its six pairs |
| EglAttribs.ImportPairsLookupImage | drm_image/drm_image.c:177-183 | looking up width, height and format in the import pairs gives the mode's dimensions and XRGB8888 |
| EglAttribs.ImportPairsLookupPlane | drm_image/drm_image.c:184-189 | looking up the plane keys gives the exported descriptor, offset 0 and the stride |
| EglAttribs.ImportAttribsMatchBuffer | drm_image/drm_image.c:177-191 | the image a consumer reads from the import list has the mode's size, the XRGB8888 format, the exported descriptor at offset 0, and a pitch equal to the stride, so pitch times height equals the allocated size |
| Pipeline.SkipsRelease | drm_image/drm_image.c:52-60 | the fetch/release calls for the rejected entries release exactly those entries |
| Pipeline.ProbesRelease | drm_image/drm_image.c:82-88 | the calls of a scan release exactly the entries listed as rejected, and a scan that found an entry ends by fetching it |
| Pipeline.ScanKeepsChosen | drm_image/drm_image.c:52-60 | the entry the first-match scan stops at is the last one fetched and is never released, since the loop breaks before the release |
| Pipeline.ImportStage | drm_image/drm_image.c:193-207 | the import stage keeps the run well formed (a failure returns -1) and extends the log it was given |
| Pipeline.ImportStageSpec | drm_image/drm_image.c:193-207 | the run keeps its target, buffer and descriptor, fails at the import exactly when the image is not created, and otherwise succeeds; it then looks up `eglCreateImageKHR` and imports the descriptor with `EGL_NO_CONTEXT`, target `EGL_LINUX_DMA_BUF_EXT`, a null client buffer and the mode's attributes |
| Pipeline.ContextStage | drm_image/drm_image.c:171-175 | context creation keeps the run well formed (a failure returns -1) and extends the log |
| Pipeline.ContextStageSpec | drm_image/drm_image.c:171-175 | from here the run keeps its target, buffer and descriptor, fails at the first of context and image creation that fails, and succeeds exactly when both succeed |
| Pipeline.ConfigStage | drm_image/drm_image.c:165-169 | choosing a config keeps the run well formed (a failure returns -1) and extends the log |
| Pipeline.ConfigStageSpec | drm_image/drm_image.c:165-169 | from here the run keeps its target, buffer and descriptor, fails at the first of config choice, context and image creation that fails, and succeeds exactly when all three succeed |
| Pipeline.BindStage | drm_image/drm_image.c:160-163 | binding the OpenGL ES API keeps the run well formed (a failure returns -1) and extends the log |
| Pipeline.BindStageSpec | drm_image/drm_image.c:160-163 | from here the run keeps its target, buffer and descriptor, fails at the first of the bind and the later EGL calls that fails, and succeeds exactly when all succeed |
| Pipeline.DisplayStage | drm_image/drm_image.c:153-158 | display initialisation keeps the run well formed (a failure returns -1) and extends the log |
| Pipeline.DisplayStageSpec | drm_image/drm_image.c:153-158 | the EGL block fails at its first failing check, succeeds exactly when every checked EGL call does, keeps the target, buffer and the descriptor it was given, and imports that descriptor |
| Pipeline.ExportStage | drm_image/drm_image.c:119-124 | the export keeps the run well formed (a failure returns -1) and extends the log |
| Pipeline.ExportStageSpec | drm_image/drm_image.c:119-124 | the export asks for the buffer's handle with `DRM_CLOEXEC`; the run then fails at the first failing check from the export on, holds a descriptor exactly when the export succeeded, succeeds exactly when the export and the EGL block do, and imports the descriptor the export returned |
| Pipeline.AllocationStage | drm_image/drm_image.c:101-117 | the allocation keeps the run well formed (a failed ioctl returns its own value) and extends the log |
| Pipeline.AllocationStageSpec | drm_image/drm_image.c:101-117 | the request is a non-contiguous buffer of the mode's byte size; the run fails at allocation exactly when the ioctl fails, and otherwise at the first later check that fails; it returns 0 exactly when allocation, export and every EGL call succeed, and then it holds the allocated handle and geometry |
| Pipeline.EncoderStage | drm_image/drm_image.c:81-96 | the encoder search keeps the run well formed (no match returns -1) and extends the log |
| Pipeline.EncoderStageSpec | drm_image/drm_image.c:81-96 | the encoder scan's calls are logged; the target is set exactly when an encoder carries the connector's encoder id, with that encoder's CRTC and the connector's id; otherwise the run fails at the encoder search and returns -1 |
| Pipeline.ModeStage | drm_image/drm_image.c:66-79 | the mode search keeps the run well formed (no mode returns -1) and extends the log |
| Pipeline.ModeStageSpec | drm_image/drm_image.c:66-79 | the target is set exactly when the mode and encoder searches succeed, and it carries the selected mode; otherwise the run fails at the mode search when no mode has nonzero area, else at the encoder search |
| Pipeline.ConnectorStage | drm_image/drm_image.c:51-64 | the connector search keeps the run well formed (no connected connector returns -1) and extends the log |
| Pipeline.ConnectorStageSpec | drm_image/drm_image.c:51-64 | the connector scan's calls are logged; with no connected connector the run stops right there with -1; the target is set exactly when all three searches succeed, and is the target they yield; otherwise the run fails at the first search that found nothing |
| Pipeline.Run | drm_image/drm_image.c:39-207 | every run executes a prefix of the stages in order; a failure ends it at the failing stage; a failed allocation returns the ioctl's value and any other failure returns -1; 0 is returned exactly when no stage failed, and then all twelve stages ran |
| Pipeline.CallsInStageOrder | drm_image/drm_image.c:39-207 | the calls of a run never go back to an earlier stage, and none belongs to a stage after the one that failed |
| Pipeline.SearchesSucceedIff | drm_image/drm_image.c:51-93 | the three searches succeed exactly when the first connected connector has a mode of nonzero area and some encoder carries its encoder id |
| Pipeline.ResolvedTargetValid | drm_image/drm_image.c:95-96 | the resolved target has the first connected connector's id, that connector's preferred mode, and the CRTC of the first encoder with its encoder id |
| Pipeline.SearchFailureAgrees | drm_image/drm_image.c:51-93 | the stopping stage the searches produce (connector, then mode, then encoder) is the one the declarative listing of checks gives |
| Pipeline.RunFailsAtFirstFailure | drm_image/drm_image.c:39-207 | a run fails exactly at the first stage, in program order, whose check fails (device open, resource query, connected connector, mode of nonzero area, matching encoder, allocation, export, then each checked EGL call), and at none when all pass |
| Pipeline.RunSucceedsIff | drm_image/drm_image.c:39-207 | `main` returns 0 exactly when the device opens, the resources are read, a target is resolvable, allocation and export succeed, and every checked EGL call succeeds |
| Pipeline.ConnectorsReleased | drm_image/drm_image.c:52-60 | the run frees connector `j` exactly when it exists and neither it nor any earlier connector is connected |
| Pipeline.EncodersReleased | drm_image/drm_image.c:82-88 | once the encoder search runs, it frees encoder `j` exactly when it exists and neither it nor any earlier encoder carries the chosen connector's encoder id |
| Pipeline.NoConnectedOutput | drm_image/drm_image.c:61-64 | with no connected connector the run returns -1 at the connector search and issues no call of a later stage |
| Pipeline.AllocationFailure | drm_image/drm_image.c:110-114 | a failed allocation ioctl stops the run before export and EGL; once the target was resolved, the run fails at the allocation and returns the ioctl's own value |
| Pipeline.RunTargetValid | drm_image/drm_image.c:95-96 | any target a run sets satisfies the target invariant for the queried resources |
| Pipeline.SuccessfulRunAgrees | drm_image/drm_image.c:102-200 | a successful run allocated four bytes per pixel of the target's mode without requiring contiguous memory, exported the returned handle with close-on-exec, and imported that descriptor, with no context and no client buffer, using attributes that read back as an image matching the buffer |

## Left out

- The libdrm and EGL calls themselves (`drmOpen`, `drmModeGet*`, `drmIoctl`, `drmPrimeHandleToFD`, `egl*`). Their results are fields of `Platform`; what they do is not part of this model.
- The diagnostics written with `printf`/`fprintf`. They do not affect control flow.
- The unchecked results: `eglGetDisplay` (line 153) and `num_config` after `eglChooseConfig` (line 165). The run records these calls but has no failure path for them, because the code has none; their effect shows up in the later checked calls.
- NULL records from `drmModeGetConnector`/`drmModeGetEncoder` (lines 53, 83), which the C code would dereference, and a NULL entry point from `eglGetProcAddress` (line 194), which it would call at line 196. The model assumes these calls return records and that the entry point is callable.
- Teardown. The program never frees the resource set, the chosen connector or encoder, or the EGL objects. Only the frees inside the two search loops are modelled.
- The EGL config and context attribute arrays (lines 136-151). They are constant data passed to the library.
- Object ids. A fetched connector or encoder is named by its position in the resource set, not by the kernel id stored there.
- DisplayTarget.SelectMode: computes `hdisplay * vdisplay` exactly. The C expression is evaluated in `int` and overflows once the product exceeds 2^31 - 1; this is not modelled.
- GemBuffer.BufferGeometry: computes `hdisplay * vdisplay * 4` exactly. The C expression is evaluated in `int` before it is stored in the `size_t` and overflows once `hdisplay * vdisplay` reaches 2^29; this is not modelled.
- Pipeline.Run: returns the value `main` returns. The process exit status the shell sees is that value truncated to its low 8 bits (-1 becomes 255), which is not modelled.
