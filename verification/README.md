# OxideTerm plugin protocols, modelled and proved

This project models the parts of the OxideTerm remote-desktop and messaging plugins whose
correctness spans many calls, and proves what they are for:

* the **RDP graphics path** (`DirtyRects`, `Pixels`, `Viewer`, `GraphicsChannel`,
  `EgfxPublication`, `Egfx`, `FramePublication`, `ClientFrameState`, `Epochs`, `RdpSession`,
  `ReadyEvents`, `TwoProducers`, `RdpWorker`): two producers keep a full image each and send base frames or dirty deltas
  through a bounded queue; the viewer's frame, after draining the queue, must equal the image
  outside a tracked dirty set, and every picture must belong to the last epoch announced;
* the **RDP clipboard** (`ClipboardPaths`, `ClipboardOffer`, `ClipboardTransfer`,
  `RemoteDownload`, `WindowsText`, `ClipboardPaste`, `ClipboardBackend`): the directory walk of
  one client, the checks and the size/range transfer of another, joined end to end; and pasting
  only after the server accepted the right format list;
* the **microphone queue** (`MicrophoneProtocol`, `MicrophoneQueue`) as atomic steps of
  concurrent threads;
* **DisplayControl layouts** (`MonitorLayout`, `DisplayState`);
* the **VNC Extended Clipboard** codec and session (`VncClipboardText`, `VncClipboardCodec`,
  `VncClipboardSession`) and the **H.264 context cache** (`H264Pixels`, `H264Contexts`, `VncH264`);
* the **Mosh prediction map** (`MoshPredictions`, `MoshPredictionMap`) and the **MQTT window
  and publish tracking** (`MqttWindow`, `MqttTracking`, `MqttModel`).

Each stateful source object is a class whose methods update its fields; their contracts equate
the new state with a step function of the old one. What the source promises is then proved about
those step functions, mostly over whole runs: any finite sequence of steps, in any order.

Assumed about code outside the repository:

* `RemoteDesktopRect::union` returns the bounding box, and None only when its right or bottom
  edge leaves 32 bits; `MAX_DIMENSION` is any 32-bit number (`maxDimension`).
* A viewer ignores an update made for another frame size or epoch (`Viewer.Accepts`); the
  protocol it speaks is the one of section 2.2.2 of MS-RDPEGFX and section 1.3.1.3 of MS-RDPBCGR.
* Outside a reactivation, a bitmap decoder changes pixels only inside in-bounds regions it reports.
* Dropping the receiver closes the graphics queue and the control channel together.
* Staging files can be created, appended to and renamed, and a part's name, which contains a
  random identifier, collides with no offered path.
* Lower-casing, UTF-16 length and reserved device names (`ClipboardPaths.Unicode`), zlib and
  UTF-8 (`VncClipboardCodec.Codec`), the H.264 decoder and the number of decoders available are
  arbitrary functions and inputs; only the round trips ask zlib and UTF-8 to be lossless.
* The clipboard library carries a descriptor's name, relative path and size unchanged from one
  client to the other, and delivers replies to format lists in the order of the lists.
* Timers appear as the flag `ready`; a sum or counter in `usize`/`u64` that a limit keeps small
  is a natural number.

Where the code and its comments could be read apart, the code decides. Four promises hold only
under a condition, which is stated exactly and shown to be needed by an input that fails without it:

* a peek message is read back if and only if it names no formats
  (`VncClipboardCodec.ActionRoundTrip`);
* the last format list matches the cached clipboard, so that skipping a synchronization loses
  nothing, if and only if no content of a disabled kind was advertised, no unlisted files were
  synchronized away and no listed transfer was cancelled (`ClipboardPaste.WhenUpToDate`); and a paste
  is never released after a list with other content superseded its own if and only if pictures are
  enabled or text is not (`ClipboardPaste.PasteIsNeverSuperseded`);
* Connected is reported at most once in every session of a configuration if and only if the
  configuration leaves EGFX out (`TwoProducers.WhenConnectedOnce`);
* a producer that owes no base frame has its own picture shown. In every session of a configuration
  this holds of the bitmap path if and only if EGFX is left out (`TwoProducers.WhenBitmapCoherent`);
  with EGFX it holds of each producer, from the start or any moment at which it owes a base frame,
  until the other enqueues a picture while this one is synced (`RdpSession.RunsStayCoherent`,
  `RdpSession.RendererStaysCoherent`), so in particular in every session in which the server never
  resets the graphics (`RdpSession.BitmapSessionsStayCoherent`).

## Model
| member | source | states |
|---|---|---|
| DirtyRects.MergeTouching | plugins/rdp/src/frame.rs:130-152 | the touching pass ends; it merges only mergeable pairs, always the first there is, until none is left; it loses no covered rectangle and stays tight (inside every box around its inputs) |
| DirtyRects.CheapestPair | plugins/rdp/src/frame.rs:156-171 | the pair found is one of least inflation among all pairs, and the first such pair |
| DirtyRects.MergeToLimit | plugins/rdp/src/frame.rs:154-176 | merges only cheapest pairs, and no more than the limit demands; ends with at most `limit` rectangles for every limit of at least one, covering and tight as before |
| DirtyRects.QueueBoundedDirtyRect | plugins/rdp/src/frame.rs:120-128 | queueing is the touching pass followed by the limit pass, and keeps everything covered, tight and within the limit |
| DirtyRects.TightWithin | plugins/rdp/src/frame.rs:120-176 | merged rectangles stay inside any box that contained all inputs |
| DirtyRects.AbsorbedCovers | plugins/rdp/src/frame.rs:120-176 | a pixel covered before merging is covered after |
| DirtyRects.TouchMeansSharedPoint | plugins/rdp/src/frame.rs:178-183 | rectangles touch exactly when they share a point, edges included |
| DirtyRects.WhenMergeable | plugins/rdp/src/frame.rs:130-183 | for rectangles with representable edges saturation decides nothing: two are merged exactly when they share a point and their bounding box is at most twice as large as both together; a merge costs exactly the pixels it adds |
| Pixels.CopyRows | plugins/rdp/src/egfx.rs:688-697 | the row loop replaces exactly the region by the source rectangle |
| Pixels.BlitRgbaRegion | plugins/rdp/src/egfx.rs:980-1000 | a blit paints its region and no other byte |
| Pixels.ExtractRgbaRegion | plugins/rdp/src/egfx.rs:958-978 | an extract is the cropped region, row by row |
| Pixels.PaintThenCrop | plugins/rdp/src/egfx.rs:958-1000 | a blit followed by an extract of the same region returns the source |
| Pixels.PaintCrop | plugins/rdp/src/egfx.rs:958-1000 | painting a crop of an equally wide buffer copies exactly the region and nothing else |
| Pixels.PaintedAt | plugins/rdp/src/egfx.rs:980-1000 | every byte of a painted buffer comes from the source inside the region and from the destination outside |
| Pixels.PaintedIsDrawn | plugins/rdp/src/egfx.rs:980-1000 | pixel by pixel a blit shows the source shifted by the region's place, and nothing else changes |
| Pixels.CropPixel | plugins/rdp/src/egfx.rs:958-978 | pixel (x, y) of an extract is pixel (x, y) of the region |
| Pixels.SetFrameAlphaOpaque | plugins/rdp/src/frame.rs:349-359 | only the alpha bytes change, and all of them become opaque |
| Pixels.OpaqueBlackPixels | plugins/rdp/src/egfx.rs:937-943 | a fresh desktop is black and opaque |
| Pixels.OpaqueCrop | plugins/rdp/src/frame.rs:312-332 | making a crop opaque is cropping the opaque image |
| Pixels.OpaquePixel | plugins/rdp/src/frame.rs:349-359 | of a pixel the colours stay and the last byte becomes 0xff |
| Viewer.DeltaRepairs | plugins/rdp/src/egfx.rs:735-770 | a delta cut from the image makes its own rectangle right and leaves the rest as it was |
| Viewer.DeltasRepair | plugins/rdp/src/egfx.rs:735-770 | deltas for every dirty rectangle make the replayed frame equal the image |
| Viewer.AgreeAfterChange | plugins/rdp/src/egfx.rs:649-700 | a change inside some regions keeps agreement outside the old dirty set and those regions |
| Viewer.ReplayAppend | plugins/rdp/src/main.rs:336-356 | enqueueing acts on what the viewer will show, not on what it shows |
| GraphicsChannel.RecvKeepsShown | plugins/rdp/src/main.rs:359-372 | receiving never changes what will be shown once the queue is empty |
| GraphicsChannel.SentIsShown | plugins/rdp/src/main.rs:336-356 | an accepted output is applied last, a base frame superseding everything queued |
| GraphicsChannel.WhenSendFails | plugins/rdp/src/main.rs:336-356 | a base frame is never refused; a delta is refused exactly when the queue is full, and then nothing changes |
| GraphicsChannel.WhenControlFails | plugins/rdp/src/client_session.rs:626-642 | a control event is accepted exactly while the control channel is open, and otherwise leaves no trace |
| GraphicsChannel.NothingAfterDrop | plugins/rdp/src/main.rs:336-372 | once the receiver is gone neither channel accepts anything |
| GraphicsChannel.ClientRdpOutputChannel.TrySendGraphics | plugins/rdp/src/main.rs:336-356 | the queue object refines the channel step |
| GraphicsChannel.ClientRdpOutputChannel.TryReceive | plugins/rdp/src/main.rs:359-372 | the oldest output is taken and shown |
| Accounting.TotalInsert | plugins/rdp/src/egfx.rs:366-404 | replacing one buffer changes the sum by exactly the difference |
| Accounting.TotalBounds | plugins/rdp/src/egfx.rs:366-414 | no buffer is larger than the sum, so no saturating subtraction ever saturates |
| EgfxPublication.BaseFrameKeepsInv | plugins/rdp/src/egfx.rs:780-825 | a base frame that gets out makes the viewer show the desktop exactly and clears the debt |
| EgfxPublication.DeltasKeepInv | plugins/rdp/src/egfx.rs:735-778 | sent deltas repair every dirty pixel; refused ones leave the channel as it was |
| EgfxPublication.WhenPromoted | plugins/rdp/src/egfx.rs:722-737 | a whole frame is sent exactly when the rectangles' pixels add up to the desktop or one rectangle is the desktop |
| EgfxPublication.CompletedFrameShowsDesktop | plugins/rdp/src/egfx.rs:710-778 | a successful completed frame that leaves no base frame owed leaves the viewer showing the desktop everywhere |
| EgfxPublication.CompletedFrameIsSent | plugins/rdp/src/egfx.rs:710-778 | what is dirty goes out: with a live receiver the viewer is left showing the desktop, by a base frame exactly when one is owed or worth it; only rectangles that a full queue refuses wait, for a base frame |
| EgfxPublication.DeltaIsTraced | plugins/rdp/src/egfx.rs:738-752 | pictures carry the next trace id, never zero and one more than the last |
| EgfxPublication.FirstFrameAnnounces | plugins/rdp/src/egfx.rs:800-815 | the first base frame, and no later one, is followed by Connected with the desktop's size and by the status |
| EgfxPublication.OnFrameCompleteKeepsInv | plugins/rdp/src/egfx.rs:207-210 | completing a frame, or failing to, keeps coherence |
| EgfxPublication.CompositeKeepsInv | plugins/rdp/src/egfx.rs:649-708 | compositing keeps coherence once the merged dirty set covers what changed |
| EgfxPublication.RequestKeepsInv | plugins/rdp/src/egfx.rs:55-72 | a base frame asked for by the session keeps coherence |
| EgfxPublication.RequestIsAnswered | plugins/rdp/src/egfx.rs:55-72 | a request shows the desktop at once, is swallowed while a reactivation is awaited, is left to the bitmap path without a desktop, and fails only without a receiver |
| EgfxPublication.RunsStayCoherent | plugins/rdp/src/egfx.rs:592-825 | delta-chain soundness over every run of writes, publications, refusals, receptions, failures, resets and reactivations, with the bitmap path's cursors, control events and, while a base frame is owed, pictures in between |
| Egfx.StampedByte | plugins/rdp/src/egfx.rs:515-532 | with many destinations a pixel shows what the last point over it put there, from the snapshot, and is untouched otherwise |
| Egfx.StampThenCrop | plugins/rdp/src/egfx.rs:534-582 | a region copied to the cache and back reproduces its pixels |
| Egfx.FromExclusive | plugins/rdp/src/egfx.rs:515-517 | an exclusive rectangle is accepted if and only if it is not empty, and stands for exactly its own pixels |
| Egfx.WhenInside | plugins/rdp/src/egfx.rs:945-956 | a region is drawable if and only if it has pixels and all of them are the surface's |
| Egfx.VisibleAt | plugins/rdp/src/egfx.rs:660-690 | the visible part of a mapped region lies on the desktop and is no larger than the region |
| Egfx.VisiblePixels | plugins/rdp/src/egfx.rs:660-676 | a desktop pixel is in the visible part if and only if the surface pixel at its distance from the origin is in the region |
| Egfx.WhenNothingVisible | plugins/rdp/src/egfx.rs:665-669 | nothing is visible if and only if no desktop pixel lies over the region |
| Egfx.RefreshedNext | plugins/rdp/src/egfx.rs:515-532 | drawing at one more point refreshes the desktop there and keeps what it shows of the other points |
| Egfx.EgfxRenderer.CompositeSurfaceRegion | plugins/rdp/src/egfx.rs:649-708 | success exactly when the region is drawable; a desktop pixel shows the surface pixel at its distance from the origin wherever that one is in the region, and every other pixel is as before; the invariant stays |
| Egfx.EgfxRenderer.WriteSurfaceRegion | plugins/rdp/src/egfx.rs:592-618 | pixel by pixel the source appears at the region on the surface and, at the surface's origin, on the desktop; nothing else changes, and a refused write changes nothing |
| Egfx.EgfxRenderer.CopySurfaceRegion | plugins/rdp/src/egfx.rs:620-638 | the copy is the cropped region, for exactly the regions inside a surface |
| Egfx.EgfxRenderer.SurfaceToSurface | plugins/rdp/src/egfx.rs:515-532 | snapshot semantics even when source and destination overlap, stopping at the first point that does not fit; the desktop shows the destination as it then is at every point drawn, and is as before elsewhere |
| Egfx.EgfxRenderer.SurfaceToCache | plugins/rdp/src/egfx.rs:534-561 | the slot holds a copy of the region, or the cache is as it was when the cap would be passed |
| Egfx.EgfxRenderer.CacheToSurface | plugins/rdp/src/egfx.rs:563-582 | the cached pixels are stamped at each point in turn, stopping at the first that does not fit; the desktop shows the surface at every point drawn, and is as before elsewhere |
| Egfx.EgfxRenderer.EvictCacheEntry | plugins/rdp/src/egfx.rs:584-590 | the slot is gone and the byte count is again the exact sum |
| Egfx.EgfxRenderer.CreateSurface | plugins/rdp/src/egfx.rs:366-404 | success exactly within the dimension, size and total limits, with exact accounting; nothing changes on refusal |
| Egfx.EgfxRenderer.DeleteSurface | plugins/rdp/src/egfx.rs:406-414 | the surface is gone and the byte count is again the exact sum |
| Egfx.EgfxRenderer.MapSurface | plugins/rdp/src/egfx.rs:416-425 | the surface gets its origin, the desktop shows it from there pixel by pixel and is as before elsewhere, coherently |
| Egfx.EgfxRenderer.ResetGraphics | plugins/rdp/src/egfx.rs:325-346 | exactly a size within the limits installs a new desktop, blank, fresh and owing a base frame; any other changes nothing |
| Egfx.EgfxRenderer.DiscardGraphicsState | plugins/rdp/src/egfx.rs:348-364 | nothing drawn before can be published after |
| Egfx.EgfxRenderer.PublishBase | plugins/rdp/src/egfx.rs:780-825 | the renderer's fields refine the base-frame step |
| Egfx.EgfxRenderer.PublishCompleted | plugins/rdp/src/egfx.rs:710-778 | the renderer's fields refine the completed-frame step |
| Egfx.EgfxRenderer.BuildUpdates | plugins/rdp/src/egfx.rs:738-752 | one delta for every dirty rectangle, cut from the current desktop |
| Egfx.EgfxRenderer.OnFrameComplete | plugins/rdp/src/egfx.rs:145-160 | an error turns into a failed renderer that reports once; accounting and coherence stay |
| Egfx.EgfxSessionBridge.RequestBase | plugins/rdp/src/egfx.rs:55-72 | the bridge answers for a renderer and defers without one |
| Egfx.EgfxSessionBridge.BeginTransition | plugins/rdp/src/egfx.rs:74-86 | the renderer is suspended in the new epoch, its invariant intact |
| Egfx.EgfxSessionBridge.PrepareReactivation | plugins/rdp/src/egfx.rs:88-100 | the old generation is discarded before the new one may publish |
| FramePublication.NormalizedRect | plugins/rdp/src/frame.rs:290-310 | a region is kept if and only if its corners are in order and inside the image, and then has exactly the reported pixels, corners included |
| FramePublication.WhenPromoted | plugins/rdp/src/frame.rs:98-113 | accumulated rectangles are replaced by a whole frame exactly when their pixels are a third of the image or one rectangle is the image |
| FramePublication.SendBaseKeeps | plugins/rdp/src/client_session.rs:1053-1102 | a base frame that gets through leaves nothing dirty and nothing pending |
| FramePublication.FirstBaseAnnounces | plugins/rdp/src/client_session.rs:1079-1087 | the first base frame that may report it, and no later one, is followed by Connected with the image's size and by the status |
| FramePublication.SendAccumulatedKeeps | plugins/rdp/src/client_session.rs:1146-1192 | sent rectangles leave only unhandled regions dirty; a refusal asks for a base frame |
| FramePublication.FrameEventKeeps | plugins/rdp/src/client_session.rs:1155-1173 | a frame event with the current image brings the viewer up to date whatever was owed |
| FramePublication.FlushKeeps | plugins/rdp/src/client_session.rs:1000-1051 | flushing keeps the viewer right outside the accumulator and the unhandled regions |
| FramePublication.AccumulatedIsSent | plugins/rdp/src/client_session.rs:1000-1051 | a flush does nothing before its time and then sends: rectangles, or a whole frame exactly when one rectangle is the image, unless a full queue refuses the rectangles, which a base frame then replaces |
| FramePublication.FlushPendingBaseKeeps | plugins/rdp/src/client_session.rs:963-974 | retrying a pending base frame keeps the same |
| FramePublication.PendingBaseIsSent | plugins/rdp/src/client_session.rs:963-974 | a pending base frame is sent and shown by the first retry with a live receiver; without one nothing happens |
| FramePublication.SendUpdateKeeps | plugins/rdp/src/client_session.rs:1104-1144 | handling one region moves it from unhandled to accumulated, delta or base frame |
| FramePublication.OwedBaseIsSent | plugins/rdp/src/client_session.rs:1104-1144 | the first region handled while a base frame is owed sends it |
| FramePublication.SmallRegionIsQueued | plugins/rdp/src/client_session.rs:1104-1144 | an out-of-bounds region is dropped without an effect; a part of a synced image is queued as the rectangle it is, and nothing is sent before its time unless a third of the image is dirty |
| ClientFrameState.OpaqueFrameBytes | plugins/rdp/src/frame.rs:349-353 | the sent pixels are the image's, opaque |
| ClientFrameState.CopyImageRect | plugins/rdp/src/frame.rs:312-332 | the copied rectangle is the crop of the image |
| ClientFrameState.AccumulatedGraphicsEvent | plugins/rdp/src/frame.rs:219-248 | a whole opaque frame when some rectangle covers the image, otherwise one delta of the opaque image per rectangle |
| ClientFrameState.ClientRdpFrameState.BeginReactivationState | plugins/rdp/src/client_session.rs:36-47 | the fields refine the transition to the next epoch; while one is under way another changes nothing |
| ClientFrameState.ClientRdpFrameState.SendBaseFrame | plugins/rdp/src/client_session.rs:1053-1102 | the fields refine the base-frame step |
| ClientFrameState.ClientRdpFrameState.FlushGraphicsUpdates | plugins/rdp/src/client_session.rs:1000-1051 | the fields refine the flush step |
| ClientFrameState.ClientRdpFrameState.SendGraphicsEvent | plugins/rdp/src/client_session.rs:1146-1192 | a frame event restores the chain; a sent delta keeps the state synced, a refused one marks it as needing a base frame |
| ClientFrameState.ClientRdpFrameState.SendGraphicsUpdate | plugins/rdp/src/client_session.rs:1104-1144 | the fields refine the update step, with the accumulator's rectangles really merged |
| Epochs.ResetsIncrease | plugins/rdp/src/client_session.rs:36-47 | in an ordered log announced epochs strictly increase below saturation |
| Epochs.PicturesMatchReset | plugins/rdp/src/client_session.rs:626-642 | a picture between two resets carries exactly the first one's epoch |
| RdpSession.StepKeepsEpochs | plugins/rdp/src/client_session.rs:664-949 | every session step keeps the log in order and both producers in the announced epoch |
| RdpSession.OpenSessionsGoOn | plugins/rdp/src/client_session.rs:664-949 | while both channels are open no modelled step ends a session |
| RdpSession.ClosedSessionsEnd | plugins/rdp/src/client_session.rs:841-855 | without a receiver a cursor ends the session, and so does a requested frame exactly when the producer in charge is not waiting |
| RdpSession.DeactivationAnnounced | plugins/rdp/src/client_session.rs:626-642 | a deactivation announces a later epoch in which both producers wait and owe base frames; another one before the new capabilities changes nothing |
| RdpSession.UnannouncedDeactivationEnds | plugins/rdp/src/client_session.rs:626-642 | a deactivation that cannot be announced ends the session with both producers stopped |
| RdpSession.ReactivationResumes | plugins/rdp/src/client_session.rs:861-866 | negotiating discards the renderer's desktop and resumes it in the announced epoch, finishing resumes the bitmap path, and both owe base frames |
| RdpSession.AwaitingBitmapEnqueuesNoPicture | plugins/rdp/src/client_session.rs:1053-1061 | from a deactivation until the reactivation has finished, nothing makes the bitmap path enqueue a picture |
| RdpSession.AwaitingRendererEnqueuesNoPicture | plugins/rdp/src/egfx.rs:55-86 | from a deactivation until its new state is prepared, nothing makes the renderer enqueue a picture |
| RdpSession.RunsKeepEpochOrder | plugins/rdp/src/client_session.rs:626-642 | epoch discipline over every run of one connection, both producers together |
| RdpSession.OnlyPicturesShow | plugins/rdp/src/client_session.rs:664-949 | whatever a session step does, only a picture it enqueues changes what will be shown |
| RdpSession.RequestIsShown | plugins/rdp/src/client_session.rs:841-866 | a requested frame is shown: the renderer's desktop if it has one, otherwise the decoded image |
| RdpSession.RegionsAreReported | plugins/rdp/src/frame.rs:290-310 | the rectangles kept of the reported regions have exactly the reported pixels |
| RdpSession.PictureIsTaken | plugins/rdp/src/client_session.rs:722-872 | the session's image is always the latest decoded one, and its outputs are handled in their order |
| RdpSession.PointerIsForwarded | plugins/rdp/src/client_session.rs:1247-1272 | a cursor is enqueued if there is room and dropped without harm if not |
| RdpSession.StepKeepsBitmap | plugins/rdp/src/client_session.rs:702-949 | every session step keeps the bitmap path coherent, beside any renderer, unless that renderer enqueues a picture while the bitmap path is synced |
| RdpSession.StepKeepsRenderer | plugins/rdp/src/client_session.rs:664-949 | every session step keeps the renderer coherent, unless the bitmap path enqueues a picture while the renderer is synced |
| RdpSession.RunsStayCoherent | plugins/rdp/src/client_session.rs:963-1192 | delta-chain soundness of the bitmap path, with or without a renderer, over every run and from every point at which it owes a base frame (the start is one), until the renderer enqueues a picture while the bitmap path is synced; a pending base frame implies one is needed |
| RdpSession.RendererStaysCoherent | plugins/rdp/src/egfx.rs:710-825 | delta-chain soundness of the renderer inside whole sessions, over every run and from every point at which it owes a base frame (the start and every graphics reset are such points), until the bitmap path enqueues a picture while the renderer is synced |
| RdpSession.BitmapSessionsStayCoherent | plugins/rdp/src/client_session.rs:412-419 | with EGFX offered or disabled, every session in which the server never resets the graphics keeps the bitmap path coherent |
| ReadyEvents.RunsCountReady | plugins/rdp/src/client_session.rs:1079-1087 | over every run, mixed ones included, Connected is reported exactly once for each producer that published a first frame, and never before a base frame |
| TwoProducers.BothPublish | plugins/rdp/src/egfx.rs:800-815 | there is a session in which both producers publish, report Connected and take themselves for synced, while the renderer's desktop is shown |
| TwoProducers.WhenConnectedOnce | plugins/rdp/src/client_session.rs:412-419 | no session of a configuration reports Connected twice if and only if it leaves EGFX out |
| TwoProducers.WhenBitmapCoherent | plugins/rdp/src/client_session.rs:412-419 | in every session of a configuration a synced bitmap path has its image shown if and only if it leaves EGFX out |
| TwoProducers.RendererDisturbed | plugins/rdp/src/client_session.rs:1104-1144 | an update of the whole image published under a synced renderer leaves the renderer's own picture hidden |
| RdpWorker.Worker.FinishConnection | plugins/rdp/src/runtime.rs:60-87 | the barrier before a replacement connection announces a later epoch than anything before |
| RdpWorker.NextEpochIsNext | plugins/rdp/src/runtime.rs:60-87 | the epoch announced before a reconnect is the first one later than both the configured and the reported one |
| RdpWorker.LifetimesKeepEpochOrder | plugins/rdp/src/runtime.rs:27-107 | over any number of reconnects the joint log of pictures and resets is in order |
| ClipboardPaths.SplitJoin | plugins/rdp/src/clipboard.rs:645-650 | splitting a joined path gives back its safe components |
| ClipboardPaths.JoinInjective | plugins/rdp/src/clipboard.rs:645-650 | safe components and their wire path determine each other |
| ClipboardPaths.WhenUnsafe | plugins/rdp/src/clipboard.rs:1035-1044 | the names turned down, reason by reason |
| ClipboardPaths.SafeStaysBelow | plugins/rdp/src/clipboard.rs:1035-1044 | safe components, resolved like a path, lead exactly below the directory they start in |
| ClipboardOffer.CollectLocalClipboardFiles | plugins/rdp/src/clipboard.rs:547-635 | the stack walk succeeds if and only if the tree is offerable, and returns its preorder listing |
| ClipboardOffer.WalkItems | plugins/rdp/src/clipboard.rs:583-634 | the loop over the pending stack lists exactly what is below the items |
| ClipboardOffer.ListingGrows | plugins/rdp/src/clipboard.rs:590-620 | the checks made for one entry are exactly those that keep the listing within its limits |
| ClipboardOffer.CheckDescriptors | plugins/rdp/src/clipboard.rs:715-749 | the receiver's first loop accepts exactly safe, distinct paths and bounded sizes |
| ClipboardOffer.CheckAncestors | plugins/rdp/src/clipboard.rs:750-760 | the second loop accepts exactly when nothing lies below a regular file |
| ClipboardOffer.PrepareChecks | plugins/rdp/src/clipboard.rs:696-765 | all checks pass if and only if the descriptors are acceptable, giving the files' positions |
| ClipboardOffer.PathsDecide | plugins/rdp/src/clipboard.rs:720-765 | acceptability is decided by the recovered components alone |
| ClipboardOffer.OfferIsAcceptable | plugins/rdp/src/clipboard.rs:547-765 | every listing the walk returns passes all checks of the receiver |
| ClipboardTransfer.LittleEndianRoundTrip | plugins/rdp/src/clipboard.rs:453-455 | a size survives its eight bytes |
| ClipboardTransfer.LittleEndianByte | plugins/rdp/src/clipboard.rs:453-455 | a size is sent with its least significant byte first |
| ClipboardTransfer.ServesEveryRequest | plugins/rdp/src/clipboard.rs:425-480 | for every request of any peer: a size request gets the size, a range request exactly the bytes up to its size or the end of the file, and every other request, and no other, an error |
| ClipboardTransfer.AdvanceKeeps | plugins/rdp/src/clipboard.rs:837-976 | against any peer: finished files whole, of their announced size, 4 GiB in all, nothing else stored, strictly nearer the end |
| ClipboardTransfer.WhenRejected | plugins/rdp/src/clipboard.rs:837-946 | a response is rejected if and only if it is an error, answers another request, names a size that is too large or not the announced one, or brings no bytes or too many |
| ClipboardTransfer.Converse | plugins/rdp/src/clipboard.rs:523-544 | a transfer ends against every peer, complete exactly when all files are finished |
| ClipboardTransfer.HonestSize | plugins/rdp/src/clipboard.rs:849-903 | an honest size reply is always accepted |
| ClipboardTransfer.HonestData | plugins/rdp/src/clipboard.rs:904-945 | an honest range reply is always accepted and extends the part by the file's own bytes |
| ClipboardTransfer.LockHolds | plugins/rdp/src/clipboard.rs:415-423 | a locked file list is served unchanged, whatever is copied, locked or unlocked besides |
| ClipboardTransfer.HonestTransferCompletes | plugins/rdp/src/clipboard.rs:431-480 | requests and replies fit: the transfer completes with every file byte for byte |
| ClipboardTransfer.AcceptedPlanOk | plugins/rdp/src/clipboard.rs:767-811 | an accepted offer gives no two files the same target |
| ClipboardTransfer.OfferedFilesArrive | plugins/rdp/src/clipboard.rs:547-976 | end to end: what one client's walk offers and goes on serving, for the request's lock, is exactly what another's download stores |
| ClipboardTransfer.LockedFilesArrive | plugins/rdp/src/clipboard.rs:415-423 | the same once the offering side has locked its list, whatever it copies, locks and unlocks afterwards besides that lock |
| RemoteDownload.RemoteClipboardDownload.Advance | plugins/rdp/src/clipboard.rs:837-946 | the download record refines the transfer step and keeps its invariant |
| RemoteDownload.RemoteClipboardDownload.FinishFile | plugins/rdp/src/clipboard.rs:948-976 | finishing renames the part and asks for the next size, or completes |
| WindowsText.NormalizedIsNormal | plugins/rdp/src/clipboard.rs:1285-1301 | normalized text has CR and LF only together |
| WindowsText.NormalizeKeepsNormal | plugins/rdp/src/clipboard.rs:1285-1301 | text is unchanged if and only if it was normal already |
| WindowsText.NormalizeKeepsLines | plugins/rdp/src/clipboard.rs:1285-1301 | normalizing changes how lines end, and no line |
| WindowsText.WindowsClipboardText | plugins/rdp/src/clipboard.rs:1285-1301 | the peeking loop computes the normalization |
| ClipboardPaste.StepKeeps | plugins/rdp/src/clipboard.rs:141-304 | every event, with the option-guarded cache update and the unconditional list of each advertising function, keeps what a waiting paste rests on |
| ClipboardPaste.PasteIsSafe | plugins/rdp/src/clipboard.rs:141-320 | over all runs: one shortcut per request at most, only after its own list, which advertised text, was accepted, and with its own text cached; replies never outnumber lists |
| ClipboardPaste.DisabledPictureSupersedes | plugins/rdp/src/clipboard.rs:1303-1322 | a picture sent while pictures are disabled cancels no paste: the shortcut is released although a picture list has superseded the accepted text list |
| ClipboardPaste.PasteIsNeverSuperseded | plugins/rdp/src/clipboard.rs:186-197 | every list from the accepted one to the shortcut advertised this request's text, in every run, if and only if pictures are enabled or text is not |
| ClipboardPaste.WhenUpToDate | plugins/rdp/src/clipboard.rs:1243-1358 | after any event the last list matches the cache if and only if that event informs the server (its option is enabled, no unlisted files are synchronized away, no listed transfer is cancelled) or changes neither |
| ClipboardPaste.AlwaysUpToDate | plugins/rdp/src/clipboard.rs:1190-1194 | over a run no synchronization is ever skipped wrongly if and only if every event that touches list or cache informs |
| ClipboardPaste.ConfigurationsUpToDate | plugins/rdp/src/clipboard.rs:277-285 | no run at all leaves a stale list if and only if text and pictures are enabled and files are not |
| ClipboardPaste.DisabledTextMisleads | plugins/rdp/src/clipboard.rs:1262-1269 | text sent while text is disabled is offered with nothing cached to serve |
| ClipboardPaste.DisabledPictureMisleads | plugins/rdp/src/clipboard.rs:1303-1322 | a picture sent while pictures are disabled hides the cached text, and the next synchronization is skipped |
| ClipboardPaste.CancelledFilesMislead | plugins/rdp/src/clipboard.rs:507-512 | cancelling a transfer after its list went out leaves the files offered and the synchronization skipped |
| ClipboardPaste.UnsentFilesMislead | plugins/rdp/src/clipboard.rs:247-255 | files whose list could not be built are cached, yet the synchronization offers nothing |
| ClipboardPaste.AcceptedPasteIsDelivered | plugins/rdp/src/clipboard.rs:154-304 | undisturbed, the reply to its own list releases the paste, whatever the earlier replies were |
| ClipboardBackend.ClientClipboardBackend.SetLocalText | plugins/rdp/src/clipboard.rs:141-152 | enabled text is normalized, cached alone, marked as not yet advertised, and cancels a waiting paste; disabled text changes nothing |
| ClipboardBackend.ClientClipboardBackend.RequestTextPaste | plugins/rdp/src/clipboard.rs:154-161 | accepted exactly for enabled, non-empty text |
| ClipboardBackend.ClientClipboardBackend.RecordFormatListSent | plugins/rdp/src/clipboard.rs:169-176 | the counter advances, the cache counts as advertised, and a requested paste is bound to this list |
| ClipboardBackend.ClientClipboardBackend.AdvertiseLocalText | plugins/rdp/src/clipboard.rs:1243-1273 | a text list goes out whether or not the text was cached, except for a refused paste |
| ClipboardBackend.ClientClipboardBackend.AdvertiseLocalData | plugins/rdp/src/clipboard.rs:1303-1325 | a picture list goes out whether or not the picture was cached |
| ClipboardBackend.ClientClipboardBackend.AdvertiseLocalFiles | plugins/rdp/src/clipboard.rs:1327-1362 | a file list goes out exactly for accepted files whose list could be built |
| ClipboardBackend.ClientClipboardBackend.CancelTransfer | plugins/rdp/src/clipboard.rs:507-512 | only the named transfer drops its files, and no list is sent |
| ClipboardBackend.ClientClipboardBackend.ProcessInitiateCopy | plugins/rdp/src/clipboard.rs:1190-1234 | a synchronization is skipped exactly when nothing was cached since some list was sent, and otherwise advertises the cached text or picture |
| ClipboardBackend.ClientClipboardBackend.OnFormatListResponse | plugins/rdp/src/clipboard.rs:286-304 | a paste is released exactly by the accepting reply to its own list |
| ClipboardBackend.ClientClipboardBackend.TakeReadyPaste | plugins/rdp/src/clipboard.rs:178-184 | a ready paste is taken once |
| MicrophoneProtocol.ActKeepsWakeUps | plugins/rdp/src/audio_input.rs:341-383 | every atomic step keeps a non-empty queue attended and a raised flag owned |
| MicrophoneProtocol.ActKeepsPackets | plugins/rdp/src/audio_input.rs:341-383 | every atomic step keeps the queue equal to the last eight packets accepted since it was last emptied, or all of them if they are fewer, and keeps order and multiset |
| MicrophoneProtocol.NoWakeUpIsLost | plugins/rdp/src/audio_input.rs:341-383 | no lost wake-up for every interleaving, from the empty queue, of any number of pushes with drains and clears; the queue holds exactly the newest packets, at most eight; in-order delivery, no duplicates, bounded tokens |
| MicrophoneProtocol.WakeDeliversAll | plugins/rdp/src/audio_input.rs:86-97 | acting on a wake-up hands over the whole queue in order |
| MicrophoneProtocol.ClearDiscardsAll | plugins/rdp/src/audio_input.rs:377-383 | a clear discards the whole queue, lowers the flag and delivers nothing |
| MicrophoneProtocol.PushNotifiesOnce | plugins/rdp/src/audio_input.rs:341-355 | an undisturbed push is last in the queue and sends a wake-up exactly when the flag was down |
| MicrophoneQueue.MicrophonePacketQueue.Push | plugins/rdp/src/audio_input.rs:341-355 | a push is its atomic steps in order; a full queue gives up exactly its first packet; a contended push is dropped |
| MicrophoneQueue.MicrophonePacketQueue.Drain | plugins/rdp/src/audio_input.rs:357-375 | a drain returns all packets and is its atomic steps in order |
| MicrophoneQueue.MicrophonePacketQueue.Clear | plugins/rdp/src/audio_input.rs:377-383 | a clear discards all packets and lowers the flag |
| MonitorLayout.BoundingBoxHolds | plugins/rdp/src/display.rs:135-158 | every monitor lies inside the bounding box |
| MonitorLayout.BoundingBoxIsTight | plugins/rdp/src/display.rs:135-158 | no smaller box holds all monitors |
| MonitorLayout.OverlapMeansSharedCell | plugins/rdp/src/display.rs:212-222 | two monitors of positive size overlap if and only if they share a cell |
| MonitorLayout.BuildDisplayControlLayout | plugins/rdp/src/display.rs:201-268 | accepted if and only if the size, primary, overlap and scale checks hold and the library encodes it; each entry then has its monitor's own place, sides, flag, appearance and, when both sides are known, physical size |
| MonitorLayout.SentLayoutKeepsShape | plugins/rdp/src/display.rs:224-263 | the boxes sent have the monitors' bounding box and share no cell |
| MonitorLayout.WhenAcceptable | plugins/rdp/src/display.rs:201-256 | monitors of positive size pass if and only if some box with supported sides is around them, primaries are at the origin, device scales are 100, 140 or 180, and no two share a cell |
| MonitorLayout.DisjointAreasAdd | plugins/rdp/src/display.rs:212-222 | pairwise disjoint monitors cover as many cells as their areas add up to |
| MonitorLayout.AcceptedAreaBounded | plugins/rdp/src/display.rs:126-222 | the areas of any number of accepted monitors add up to at most the bounding box, the squared dimension limit, and 64 bits |
| MonitorLayout.EntriesKeepArea | plugins/rdp/src/display.rs:224-263 | what is sent has the area of what was laid out |
| DisplayState.RdpDisplayState.New | plugins/rdp/src/display.rs:18-42 | a state exists exactly when its viewport can be encoded and wanted monitors are accepted |
| DisplayState.RdpDisplayState.Resize | plugins/rdp/src/display.rs:44-59 | an encodable viewport is remembered but never replaces an active multi-monitor layout; any other changes nothing |
| DisplayState.RdpDisplayState.UpdateMonitors | plugins/rdp/src/display.rs:61-78 | a rejected layout changes nothing; an accepted one becomes current |
| DisplayState.RdpDisplayState.TakeUpdate | plugins/rdp/src/display.rs:101-124 | the current layout, scale, orientation and physical size included, goes out exactly when it fits the limits and was not the last one sent |
| DisplayState.RdpDisplayState.Capabilities | plugins/rdp/src/display.rs:80-99 | new limits re-send the current layout if it fits them |
| DisplayState.CurrentAreaFits | plugins/rdp/src/display.rs:106-113 | the 64-bit area sum cannot overflow for any layout the state holds |
| VncClipboardText.FoldExpand | plugins/vnc/src/clipboard_ext.rs:134-168 | folding undoes expanding for every text, lone carriage returns included |
| VncClipboardText.ExpandedLineEnds | plugins/vnc/src/clipboard_ext.rs:134-168 | on the wire every LF follows a CR |
| VncClipboardCodec.FramedIsRead | plugins/vnc/src/clipboard_ext.rs:496-522 | framing is transparent, whatever follows on the stream |
| VncClipboardCodec.FramedOnTheWire | plugins/vnc/src/clipboard_ext.rs:754-766 | a message is its type 6, padding, the negated length and the payload, for exactly the payloads within 20 MiB |
| VncClipboardCodec.ReadEndsInTime | plugins/vnc/src/clipboard_ext.rs:496-522 | what is cut short or too long is not read, and reading ends exactly where the length says |
| VncClipboardCodec.LegacyIsRead | plugins/vnc/src/clipboard_ext.rs:496-511 | older cut text is read as it is, up to the limit and whatever follows |
| VncClipboardCodec.FlagWordSplits | plugins/vnc/src/clipboard_ext.rs:602-613 | the parts of a flag word come back apart |
| VncClipboardCodec.CapsRoundTrip | plugins/vnc/src/clipboard_ext.rs:524-538 | the capabilities sent are read back as they were |
| VncClipboardCodec.AnnouncedCapsAreRead | plugins/vnc/src/clipboard_ext.rs:660-698 | whatever formats, actions and sizes any server announces are read as announced |
| VncClipboardCodec.CapsOnTheWire | plugins/vnc/src/clipboard_ext.rs:524-538 | the bytes of the capabilities |
| VncClipboardCodec.ActionRoundTrip | plugins/vnc/src/clipboard_ext.rs:540-551 | requests and notifications come back with their formats; a peek comes back if and only if it names none |
| VncClipboardCodec.OnlyOwnEncodingIsRead | plugins/vnc/src/clipboard_ext.rs:602-658 | reading is the exact inverse of writing: a request, notification or peek is read from its own payload and no other, provided content only behind its own formats |
| VncClipboardCodec.ActionOnTheWire | plugins/vnc/src/clipboard_ext.rs:540-551 | the bytes of a request, peek or notification |
| VncClipboardCodec.ItemsRoundTrip | plugins/vnc/src/clipboard_ext.rs:700-744 | the length-prefixed items are parsed back one by one |
| VncClipboardCodec.ItemsOnTheWire | plugins/vnc/src/clipboard_ext.rs:565-583 | the items go out in the order text, rich text, HTML, picture, each behind its length |
| VncClipboardCodec.ProvideRoundTrip | plugins/vnc/src/clipboard_ext.rs:553-600 | a provided content is read back restricted to the chosen formats, text equal up to line-end folding |
| VncClipboardCodec.WhenProvided | plugins/vnc/src/clipboard_ext.rs:553-600 | content is provided if and only if some of it is asked for and it takes at most 20 MiB, compressed and not |
| VncClipboardSession.ExtendedClipboardProvideMessage | plugins/vnc/src/clipboard_ext.rs:553-600 | the encoder loop with its running size limit builds the specified message or fails exactly when it must |
| VncClipboardSession.ParseExtendedClipboardProvide | plugins/vnc/src/clipboard_ext.rs:700-744 | the offset-advancing parser computes the recursive one |
| VncClipboardSession.ParseCapsSizes | plugins/vnc/src/clipboard_ext.rs:660-698 | the loop over sixteen format bits computes the recursive one |
| VncClipboardSession.AnswersAreNegotiated | plugins/vnc/src/clipboard_ext.rs:338-493 | every answer uses an action the server announced; notified and offered formats are announced ones, a request names exactly the formats just notified; only an offer or a picture can fail |
| VncClipboardSession.WhatIsAnnounced | plugins/vnc/src/clipboard_ext.rs:457-494 | what is copied is announced as plain text before capabilities, and after them by notifying exactly the shared formats, or by offering them to a server that only takes that |
| VncClipboardSession.CapsAreAnswered | plugins/vnc/src/clipboard_ext.rs:349-367 | capabilities are answered with this client's own, a peek if they allow it, and the announcement |
| VncClipboardSession.NotificationIsFollowed | plugins/vnc/src/clipboard_ext.rs:400-415 | a notification is followed by a request for all of it if the server takes requests |
| VncClipboardSession.WhenCapabilitiesChange | plugins/vnc/src/clipboard_ext.rs:340-359 | a change of capabilities is reported exactly when other ones were learnt |
| VncClipboardSession.PeekIsAnswered | plugins/vnc/src/clipboard_ext.rs:384-399 | a permitted peek is answered by notifying exactly the formats both sides share |
| VncClipboardSession.RequestedContentArrives | plugins/vnc/src/clipboard_ext.rs:360-383 | a request is answered by one message that reads back as the requested, supported and present formats, or fails only when that message is too large |
| VncClipboardSession.ProvidedTextIsShown | plugins/vnc/src/clipboard_ext.rs:420-438 | text one client provides is shown by another as it was, up to folding line ends, followed by the picture provided with it; only a picture that cannot be converted or is too large fails |
| VncClipboardSession.CopiedTextArrives | plugins/vnc/src/clipboard_ext.rs:338-493 | end to end: text copied on one side is notified, requested, offered and shown on the other, every message read back from its bytes |
| VncClipboardSession.VncClipboard.ObserveServerMessage | plugins/vnc/src/clipboard_ext.rs:338-455 | the session object refines the answer function, helper events and conversion failures included |
| VncClipboardSession.VncClipboard.LocalContentAnnouncement | plugins/vnc/src/clipboard_ext.rs:457-481 | an announcement is the specified one and always negotiated |
| H264Pixels.FrameToBgra | plugins/vnc/src/h264.rs:218-231 | the nested loops write the frame's corner as opaque BGRA |
| H264Pixels.CornerPixel | plugins/vnc/src/h264.rs:218-231 | each output byte is the swapped channel of its own pixel |
| H264Contexts.StepKeeps | plugins/vnc/src/h264.rs:153-197 | every call keeps each cached decoder equal to the fold of its own rectangle's payloads, and at most 64 of them |
| H264Contexts.CacheIsTheHistory | plugins/vnc/src/h264.rs:153-197 | the same over any sequence of payloads, resets, refusals and failures |
| H264Contexts.OutcomeIsTheHistory | plugins/vnc/src/h264.rs:153-197 | every outcome is decided by the rectangle's own history: refused exactly without payload, area, room or a decoder, otherwise what the decoder that saw that history returns |
| H264Contexts.OtherRectanglesUntouched | plugins/vnc/src/h264.rs:159-166 | without a global reset no other rectangle's decoder changes |
| VncH264.VncH264State.DecodePayload | plugins/vnc/src/h264.rs:153-197 | the state object refines the decode step and keeps the cache invariant |
| VncH264.VncH264State.Convert | plugins/vnc/src/h264.rs:203-232 | a frame is refused exactly when it is too small, of wrong length or over the limit; otherwise each pixel is the frame's with red and blue exchanged and opaque |
| MoshPredictions.RecordRefines | plugins/mosh/src/engine.rs:428-433 | recording appends one prediction to the queue the map stands for |
| MoshPredictions.AcknowledgeRefines | plugins/mosh/src/engine.rs:435-445 | acknowledging retires the front of that queue and returns its last, largest id |
| MoshPredictions.EarlierAcknowledgementsAbsorbed | plugins/mosh/src/engine.rs:442-444 | acknowledging an earlier frame first leaves the same map as the later one alone |
| MoshPredictions.ConfirmationsIncrease | plugins/mosh/src/engine.rs:422-446 | over a session confirmations strictly increase and each prediction is retired once |
| MoshPredictionMap.PredictionIdMap.Record | plugins/mosh/src/engine.rs:428-433 | the map object refines recording |
| MoshPredictionMap.PredictionIdMap.Acknowledge | plugins/mosh/src/engine.rs:435-445 | the result is the id at the last frame not after the acknowledged one |
| MqttWindow.EvictKeepsLongest | plugins/mqtt/src/model.rs:136-140 | eviction keeps the longest suffix within both limits |
| MqttWindow.RecordKeepsLongest | plugins/mqtt/src/model.rs:109-142 | evicting message by message keeps the longest fitting suffix of everything recorded |
| MqttWindow.NewestStays | plugins/mqtt/src/model.rs:136-140 | a message that fits by itself is never evicted by its own arrival |
| MqttTracking.WriteKeepsTracking | plugins/mqtt/src/session.rs:130-137 | a written packet moves one id from waiting to pending and its message with it |
| MqttTracking.WrittenIsShown | plugins/mqtt/src/session.rs:130-137 | a written packet shows on the oldest waiting publish and on no other message, as sent without a packet id and as awaiting its reply with one |
| MqttTracking.AcknowledgeKeepsTracking | plugins/mqtt/src/session.rs:138-143 | an acknowledgement ends the tracking of exactly that message |
| MqttTracking.AcknowledgedIsShown | plugins/mqtt/src/session.rs:138-143 | an acknowledgement shows on its own message and on no other |
| MqttTracking.RunsStayTrue | plugins/mqtt/src/session.rs:130-143 | in every reachable state: queued iff waiting, awaiting iff pending, ids distinct and disjoint, window and byte count exact |
| MqttTracking.StatusesNeverGoBack | plugins/mqtt/src/model.rs:171-175 | over whole runs a message's status never moves backwards, repeated packet ids included |
| MqttTracking.GoneStaysGone | plugins/mqtt/src/model.rs:117-118 | ids are never reused, so an evicted or cleared message never reappears |
| MqttModel.Model.EvictOldest | plugins/mqtt/src/model.rs:136-140 | the loop keeps the specified suffix and counts every message it drops |
| MqttModel.Model.Record | plugins/mqtt/src/model.rs:109-142 | the model object refines recording, with the exact byte count |
| MqttModel.Model.UpdateStatus | plugins/mqtt/src/model.rs:171-175 | the first message with the id gets the status |
| MqttModel.Model.Publish | plugins/mqtt/src/session.rs:285-309 | a publish is recorded and queued under the same id |
| MqttModel.Model.OnOutgoingPublish | plugins/mqtt/src/session.rs:130-137 | the session's maps refine the tracking step |
| MqttModel.Model.OnAcknowledged | plugins/mqtt/src/session.rs:138-143 | the session's maps refine the tracking step |
| MqttModel.Model.Clear | plugins/mqtt/src/model.rs:177-185 | clearing empties the window, the selection and a frozen view, and keeps the tracking |

## Left out
- RdpSession.RunsStayCoherent: claims nothing of the bitmap path from a picture the renderer enqueues under it to the next time it owes a base frame; the viewer can then show the renderer's picture (TwoProducers.WhenBitmapCoherent)
- RdpSession.RendererStaysCoherent: claims nothing of the renderer from a picture the bitmap path enqueues under it to the next time it owes a base frame (TwoProducers.RendererDisturbed)
- RdpSession.RunsKeepEpochOrder: orders what is enqueued; control and graphics outputs are polled separately (plugins/rdp/src/session_loop.rs:80-88) and written under another lock (plugins/rdp/src/event_writer.rs:74-78), so delivery order is not claimed
- RdpSession.StepKeepsEpochs: the session loop is a state machine on values, its awaits being the order of events; only the frame state and the renderer it drives are classes
- RdpSession.OpenSessionsGoOn: decoding, network and protocol errors and the server's own termination, which end a session as well, are not steps of the model
- ClipboardTransfer.AdvanceKeeps: staging-file errors and the deletion of partial files are not modelled
- MicrophoneQueue.MicrophonePacketQueue.Drain: as a method it runs alone; its interleavings are the atomic steps of MicrophoneProtocol, and a poisoned lock is not modelled
- MoshPredictions.ConfirmationsIncrease: needs predictions made in order, as the terminal makes them; the map itself is modelled for any order
- solid fills, ClearCodec and Progressive bitmaps, tile cropping and codec contexts: they reach the desktop through the same surface write
- the request coalescer, graphics diagnostics, trace timing, resize capability, keyboard and pointer input, audio encoding and capture threads
- encoding clipboard pictures, text retrieval from the server, and cancelling a download in progress; a text list the channel cannot build ends the session
- the conversions between DIB, PNG and other picture formats, and of legacy cut text; reading the H.264 payload length and flags
- MQTT subscriptions, connection status and backoff, the paused view's filtering and payload decoding; the Mosh runtime around the map, so `queue_prediction_input` is the recording it ends in
- other plugins, launchers, dashboards, sockets and TLS
