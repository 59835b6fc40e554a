# Retained viewport panel: buffer hand-off model

This project models the sequential core of BizHawk's `RetainedViewportPanel`. The panel is a WinForms control that keeps one current bitmap and repaints from it. It retires each replaced bitmap through a FIFO dispose queue. A paint pass draws the current bitmap, either stretched or at native size with black margins, and then always drains that queue. For each queued bitmap the drain asks the optional release callback whether to dispose it or hand it back to the caller.

The model has four modules:

- `Imaging` (`imaging.dfy`): `Option` and the opaque `Bitmap`. A bitmap has an id that stands for object identity, plus a positive width and height.
- `Retirement` (`retirement.dfy`):
  - the release policy (`ShouldDispose`);
  - the decisions a drain makes (`DecideAll`, one `Disposition` per dequeued bitmap);
  - lemmas about those decisions.
- `Render` (`render.dfy`): the drawing calls of one paint pass, recorded as `DrawCommand` values. It also holds the rectangle arithmetic of the two display modes and lemmas about pixel coverage.
- `ViewportPanel` (`viewport_panel.dfy`): the class `RetainedViewportPanel`, with its fields and methods:
  - Each method frames exactly the fields it changes (`modifies this`f`), so "nothing else changes" is part of its contract.
  - The ghost field `history` logs every drain decision.
  - The ghost field `installs` logs every non-null bitmap handed to `SetBitmap`, in order. A bitmap the caller recycles appears once per install.
  - `Valid()` is the ownership invariant. It has three parts:
    - The processed log, then the queue, then the current bitmap, is exactly `installs`. So every install is accounted for exactly once, in FIFO order.
    - The panel owns no bitmap twice.
    - The panel owns no bitmap it has disposed.
  - A bitmap the release callback handed back may be installed again without breaking the invariant.

Two behaviours of the code are easy to miss, and the model follows the code in both:

- At native size the right black strip spans the full control height (`Height`), not just the bitmap's height.
- `Dispose` drains only the queue. It never queues or disposes the current bitmap.

## Model

| member | source | states |
|---|---|---|
| `ViewportPanel.RetainedViewportPanel.constructor` | src/BizHawk.Client.EmuHawk/CustomControls/ViewportPanel.cs:32-43 | The new panel is unthreaded and scales. Its queue is empty and it has no callback. It installs a 2x2 placeholder, so the current bitmap is non-null from the start, and that install paints once. The invariant holds. |
| `ViewportPanel.RetainedViewportPanel.ActivateThreaded` | src/BizHawk.Client.EmuHawk/CustomControls/ViewportPanel.cs:25-30 | The panel has a worker and the auto-reset wake event starts clear. No other field changes. |
| `ViewportPanel.RetainedViewportPanel.SetBitmap` | src/BizHawk.Client.EmuHawk/CustomControls/ViewportPanel.cs:132-140 | The current slot becomes `newbmp`, which may be null. A non-null previous bitmap goes to the end of the queue; a null one leaves the queue unchanged. A paint is then signalled. Without a worker this paints `newbmp` (nothing for null) and drains the queue including the old bitmap. With a worker it only sets the wake event. The invariant is kept when `newbmp` is null or a bitmap the panel neither owns nor has disposed. A bitmap released earlier qualifies. |
| `ViewportPanel.RetainedViewportPanel.CleanupDisposeQueue` | src/BizHawk.Client.EmuHawk/CustomControls/ViewportPanel.cs:104-117 | The queue ends empty and the current bitmap is untouched. The log grows by exactly the decisions `DecideAll` makes on the old queue, in order. The invariant is kept (loop invariant over the remaining queue). |
| `ViewportPanel.RetainedViewportPanel.DoPaint` | src/BizHawk.Client.EmuHawk/CustomControls/ViewportPanel.cs:60-87 | Draw commands are appended only when a current bitmap exists. The queue is drained in every case. |
| `ViewportPanel.RetainedViewportPanel.WakeAndPaint` | src/BizHawk.Client.EmuHawk/CustomControls/ViewportPanel.cs:93-100 | One round of the paint worker when no kill is pending. Waking consumes the auto-reset event, so afterwards no paint is pending. Then a full paint pass runs: the current bitmap is drawn and the queue drained. |
| `ViewportPanel.RetainedViewportPanel.SignalPaint` | src/BizHawk.Client.EmuHawk/CustomControls/ViewportPanel.cs:121-127 | Without a worker it does a full paint pass. With a worker it only sets the wake flag: commands, queue and log are unchanged. Signalling again yields the same state, so repeated signals coalesce. |
| `ViewportPanel.RetainedViewportPanel.Dispose` | src/BizHawk.Client.EmuHawk/CustomControls/ViewportPanel.cs:46-56 | The queue ends empty through the release policy. The current bitmap is neither queued nor disposed. The invariant is kept. |
| `ViewportPanel.RetainedViewportPanel.OwnershipAccounted` | src/BizHawk.Client.EmuHawk/CustomControls/ViewportPanel.cs:104-140 | Under the invariant, the installs, counted with multiplicity, are exactly the processed, queued and current bitmaps (no leak). Every installed bitmap is current, queued, disposed or released. The current bitmap is not queued. Neither the current bitmap nor a queued one has been disposed (no use after dispose). |
| `ViewportPanel.Burst` | src/BizHawk.Client.EmuHawk/CustomControls/ViewportPanel.cs:121-140 | On a threaded panel, two installs only queue the bitmap each replaces and raise the wake event. Nothing is drawn or drained. |
| `ViewportPanel.BurstThenWake` | src/BizHawk.Client.EmuHawk/CustomControls/ViewportPanel.cs:93-140 | On a threaded panel, two installs set the wake event twice. One worker wake consumes the event, so no paint stays pending. That one paint draws only the latest bitmap. Its drain retires the placeholder and then the superseded bitmap. |
| `ViewportPanel.ReleaseOne` | src/BizHawk.Client.EmuHawk/CustomControls/ViewportPanel.cs:108-140 | With a callback that keeps only `b`, installing `b` and then `c` disposes the placeholder and hands `b` back. |
| `ViewportPanel.RecycleReleased` | src/BizHawk.Client.EmuHawk/CustomControls/ViewportPanel.cs:108-140 | A bitmap handed back by the callback is installed again. The invariant still holds, `b` is logged as released once and is current, and only the placeholder and `c` are disposed. |
| `Retirement.DrainIsFifo` | src/BizHawk.Client.EmuHawk/CustomControls/ViewportPanel.cs:108-110 | The bitmaps a drain handles are exactly the queue, in queue order: each queued entry is handled once, FIFO. |
| `Retirement.DrainDecidesEach` | src/BizHawk.Client.EmuHawk/CustomControls/ViewportPanel.cs:108-114 | The i-th decision is about the i-th queued bitmap. It is a disposal exactly when there is no callback or the callback returns true. |
| `Retirement.DrainPartition` | src/BizHawk.Client.EmuHawk/CustomControls/ViewportPanel.cs:111-114 | A bitmap is disposed by a drain iff it was queued and the policy condemns it. It is released iff it was queued and the policy keeps it. |
| `Retirement.DrainExclusive` | src/BizHawk.Client.EmuHawk/CustomControls/ViewportPanel.cs:111-114 | No drain both disposes and hands back the same bitmap. |
| `Retirement.NoCallbackDisposesAll` | src/BizHawk.Client.EmuHawk/CustomControls/ViewportPanel.cs:111-114 | With a null callback a drain disposes every queued bitmap and releases none. |
| `Retirement.DistinctLogExclusive` | src/BizHawk.Client.EmuHawk/CustomControls/ViewportPanel.cs:111-114 | When no bitmap is processed twice in a log, no bitmap is both disposed and released in it. A recycled bitmap may be released by one drain and disposed by a later one. |
| `Render.PaintPassDrawsOnlyCurrent` | src/BizHawk.Client.EmuHawk/CustomControls/ViewportPanel.cs:62-84 | A paint pass issues commands iff the slot is non-null. Every image it draws is the current bitmap. |
| `Render.ScaledDrawFillsWindow` | src/BizHawk.Client.EmuHawk/CustomControls/ViewportPanel.cs:69-74 | Scale-to-fit issues a single stretched draw of the bitmap. Its target holds exactly the pixels of (0, 0, Width, Height). |
| `Render.NativeSizeDisjoint` | src/BizHawk.Client.EmuHawk/CustomControls/ViewportPanel.cs:79-82 | For all sizes, the right strip, the bottom strip and the unscaled image are pairwise disjoint. |
| `Render.PaintCoversWindow` | src/BizHawk.Client.EmuHawk/CustomControls/ViewportPanel.cs:69-83 | In either mode every pixel of the client area is written by some command, so no stale pixel survives. |
| `Render.NativeSizeWithinWindowIff` | src/BizHawk.Client.EmuHawk/CustomControls/ViewportPanel.cs:79-82 | At native size, nothing is written outside the client area iff the bitmap fits in it. |
| `Render.NativeSizeTilesWindow` | src/BizHawk.Client.EmuHawk/CustomControls/ViewportPanel.cs:79-82 | When the bitmap fits, the commands are the fills (bmp.Width, 0, Width-bmp.Width, Height) and (0, bmp.Height, bmp.Width, Height-bmp.Height), then the image at (0, 0). Their areas are pairwise disjoint and their union is exactly [0, Width) x [0, Height). |
| `Render.NativeSizeExample` | src/BizHawk.Client.EmuHawk/CustomControls/ViewportPanel.cs:79-82 | A 10x10 bitmap in a 20x15 control gets black fills (10, 0, 10, 15) and (0, 10, 10, 5) and the image at the origin. |

## Left out

- The paint thread is left out: the thread itself, the endless loop of `PaintProc`, and the kill handshake (`killSignal` and the `Set`/`WaitOne` pair in `Dispose`). They are real concurrency and cannot be stated sequentially. The wake event is kept as the boolean `wake`. One round of the loop without a kill is the method `WakeAndPaint`, which `BurstThenWake` calls to stand for the worker's single wake.
- ViewportPanel.RetainedViewportPanel.Dispose: the threaded branch is not modelled, so `Dispose` does not clear `wake` and does not say that the worker has stopped.
- `lock (this)`: each locked block is an atomic method body. Interleaving of installs with an in-flight paint is not modelled.
- WinForms and GDI+ calls (`CreateHandle`, `SetStyle`, `CreateGraphics`, the graphics quality settings, `SolidBrush`, `base.Dispose`) are foreign library calls. Drawing is recorded as commands, without pixels and without clipping. The `doubleBuffer` constructor argument only feeds `SetStyle`, so it is dropped.
- The control size comes from the host framework. It is held in the fields `width`/`height`, which start empty (the default control size) and are set by the host.
- `Bitmap.Dispose` is opaque. It is recorded as a `Disposed` entry in the ghost log.
- `GetBitmap` is an unsynchronised read of the current bitmap with no contract to state.
- `OnPaint` and `OnPaintBackground` are left out. The first only calls `SignalPaint` (modelled) before the base handler; the second does nothing.
- ViewportPanel.RetainedViewportPanel.SetBitmap: the invariant is promised only when `newbmp` is null or neither owned nor disposed by the panel. Installing the current bitmap or a queued one again, or a disposed one, is left to caller discipline: the source does not check it, and the aliasing it causes is outside every ownership guarantee.
- The release callback is a pure, total function. The model cannot throw from the callback: in the source that would stop the drain and leave the dequeued bitmap neither disposed nor released (`ViewportPanel.cs` lines 112-114). The callback also cannot call `SetBitmap` again under the re-entrant `lock (this)` (`ViewportPanel.cs` line 106), which in the source adds to the queue while the drain runs.
- Bitmap identity is the whole `Bitmap` value. This matches object identity only if an id is never given two sizes.
- `ActivateThreaded` called twice would start a second thread in the source. The model just sets the mode again.
