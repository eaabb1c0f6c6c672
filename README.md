# OpenRotoBrush session logic in Dafny

OpenRotoBrush (`roto.py`) is a desktop rotoscoping tool. A user loads a
video, drags a box around an object on one frame, and the tool asks a
detector/tracker which track that box is. It then paints the selected
track's outline into a per-frame mask and exports the video as an RGBA PNG
sequence whose alpha channel is the mask.

This project models the session logic inside that GUI script and proves
what it does:

- **Best-match selection** (`find_best_match`): intersection over union
  (IoU) against the user's box, kept as a running maximum that starts at 0
  and moves only on a strictly larger score.
- **The mask store** (`self.masks`, frame index to mask), written in two
  ways. Single-frame selection (`init_tracking`, `update_mask`) writes only
  on a match and keeps the last matching outline. Whole-sequence processing
  (`process_all_frames`) writes every readable frame, all zero when the
  track is lost, and keeps the first matching outline. `clear_selection`
  empties the store.
- **The export** (`save_png_sequence`): a loop from frame 0 that checks the
  stop flag before each frame and writes `frame_{i:05d}.png` with the
  stored mask, or an all-zero mask, as alpha. It always ends with the flag
  cleared.
- **Bookkeeping**: `load_video` counts frames up to the first failed read.
  `show_frame` clamps the current frame. `play` steps forward but not past
  the last frame. `start_export` and `stop_export` guard the export flag.
- **The frame slider**: a Tk themed scale from 0 to `to` whose command is
  `on_slider`. `slider.set(v)` clamps v into the scale's range and then runs
  that command with the clamped value. So `show_frame`, `process_all_frames`
  and `save_png_sequence`, which all set the slider, run `on_slider` in
  turn. `on_slider` can then make a different frame current and show it.
  The model has this call chain as the mutually recursive methods
  `ShowFrame`, `SliderSet` and `OnSlider`. `Slider.ShowTarget` is where the
  chain ends. The clamping and the command call are Tk's documented
  behaviour for `ttk::scale set`; Tk itself is not part of this model.

Outside pieces are inputs:

- The video is a read oracle (`VideoSource.Video`, a `seq<bool>`): frame i
  reads or it does not.
- The tracker's answer for a frame is a `Detections.Results` value: boxes,
  optional track ids and optional outlines. These are paired like Python's
  `zip`.
- The user's stop button is an oracle `stopRequested(i)`: the user stopped
  before the flag's i-th check.
- A written file is an element of the returned sequence of `PngFile`
  (directory, name, alpha mask).
- A mask is `Zero` or `Filled(outline)`. Rasterisation is abstract.
- Coordinates and IoU are exact `real`s.

Modules:

- `Geometry`: boxes and IoU.
- `VideoSource`: the read oracle and the frame count.
- `Slider`: the slider's clamp and where `show_frame` leaves the current
  frame.
- `Detections`: tracker results, masks, the per-frame mask builder.
- `Selection`: best-match selection.
- `FrameNames`: export file names and their parser.
- `Roto`: the `Session` class and the export plan.
- `Scenario`: one client walk-through. An object is selected on frame 0 and
  lost on frame 1. All frames are processed and exported. Frame 1's file
  has an all-zero alpha.

Behaviour of `roto.py` that the model follows as written:

- Loading a new video keeps the mask store and the selected track.
  `Roto.Session.LoadVideo` changes neither.
- The user's box is in canvas coordinates, used as is. A box dragged up or
  to the left has its corners swapped. It overlaps nothing, so it never
  selects anything (`Selection.FlatUserBoxSelectsNothing`).
- When the tracker returns ids, `init_tracking` overwrites the selection
  with the match result, even when that result is `None`.
- `update_mask` calls `show_frame` inside its loop. That call can move the
  current frame, by clamping it to the last counted frame. A second
  matching outline is then stored at the moved frame.
  `Roto.StoreAfterUpdate` states this exactly. In the usual case the frame
  does not move, and the last matching outline replaces the mask at the
  current frame.
- `show_frame` clamps to `total_frames - 1`, and then the slider clamps
  into its range. With zero counted frames the first clamp gives -1, and
  the slider turns that into 0. Frame 0 does not read then, so 0 stays
  current. `on_slider` itself does not clamp: when the slider is dragged to
  its end, `total_frames`, that frame does not read and stays current. Mask
  store keys are `int`, because `update_mask` writes at whatever index is
  current.
- `process_all_frames` sets the slider to every frame it reads, which makes
  that frame current through `on_slider`. When it then shows the frame
  that was current before and that frame does not read (the slider was at
  its end), the last frame stays current.
- `process_all_frames` stops silently at the first failed read and keeps
  what it has stored.

## Model

| member | source | states |
|---|---|---|
| `Geometry.Overlap` | roto.py:285-286 | the clamped overlap of two intervals is never negative, is positive exactly when both intervals are proper and overlap, and is no longer than either interval |
| `Geometry.IoU` | roto.py:284-288 | the score is never negative (intersection clamped at 0, 0 when the union is not positive) |
| `Geometry.IoUSelf` | roto.py:284-288 | a box with positive width and height scores exactly 1 against itself |
| `Geometry.IoUApart` | roto.py:285-286 | boxes apart on either axis score 0 |
| `Geometry.IoUFlatUserBox` | roto.py:285-287 | a user box with no width or height, or with swapped corners on an axis, scores 0 against every box |
| `Geometry.IoUAtMostOne` | roto.py:284-288 | the score is at most 1 for every pair of boxes, corners ordered or swapped |
| `Geometry.OrderedIoUAtMostOne` | roto.py:284-288 | for boxes with ordered corners the score is at most 1 |
| `Geometry.IntersectionInsideBoth` | roto.py:285-287 | the intersection of boxes with ordered corners is within both areas, so the union is never smaller than it |
| `Selection.FindBestMatch` | roto.py:279-294 | returns no id exactly when every score is 0 (so also for no detections); otherwise the id of a detection with a positive score that no detection beats and that every earlier detection scores strictly below |
| `Selection.MatchIsDeterministic` | roto.py:279-294 | for a fixed detection order the selection has one possible result |
| `Selection.StrictBestIsSelected` | roto.py:290-292 | a detection with a positive score strictly above every other's is the one selected |
| `Selection.FlatUserBoxSelectsNothing` | roto.py:280-294 | a flat or swapped user box selects nothing |
| `Selection.NoMatchIgnoresOrder` | roto.py:283-294 | reordering the detections never changes whether something is selected |
| `Selection.ReorderingMattersOnlyOnTies` | roto.py:283-294 | two orders of the same detections select different ids only if two detections with different ids tie at the best score |
| `Detections.Zip` | roto.py:283 | pairs two lists element by element up to the shorter length, as Python's `zip` does |
| `Detections.OutlinesOf` | roto.py:241-242 | the id filter of `update_mask` and `process_all_frames`: keeps no more outlines than there are pairs, none without a selection, and only outlines of pairs whose id is the selected one |
| `Detections.OutlinesOfSound` | roto.py:241-242 | every kept outline is that of a pair carrying the selected id |
| `Detections.OutlinesOfPrefix` | roto.py:241-242 | scanning one more pair keeps its outline exactly when its id is the selected one |
| `Detections.OutlinesOfEmpty` | roto.py:241-242 | no outline is kept exactly when no detection carries the selected id (never when there is no selection) |
| `Detections.OutlinesOfFirst` | roto.py:266-269 | the first kept outline is that of the first detection with the id |
| `Detections.OutlinesOfLast` | roto.py:241-245 | the last kept outline, the one the store ends up with, is that of the last detection with the id |
| `Detections.FrameMask` | roto.py:264-270 | the mask one frame gets: all zero when the result has no outlines, and any painted outline is that of a pair carrying the selected id |
| `Detections.FrameMaskFirstMatch` | roto.py:264-270 | the per-frame mask is filled exactly when the result has outlines and some detection carries the id, and then with the first such outline; otherwise all zero |
| `Detections.BuildMask` | roto.py:264-269 | the scanning loop with its early exit computes that per-frame mask |
| `VideoSource.CountFrames` | roto.py:84-90 | the count is the number of frames that read before the first failed read |
| `VideoSource.FrameCountUnique` | roto.py:84-90 | that count is determined by the video |
| `VideoSource.ReadablePrefixWithinCount` | roto.py:84-90 | a run of frames that all read from frame 0 is no longer than the count |
| `Slider.SliderClip` | roto.py:54 | the value the slider takes: within 0 .. to, equal to the requested value exactly when that is in range, else the nearer end |
| `Slider.ShowTarget` | roto.py:103-110 | where show_frame(n) leaves the current frame, slider callback included: unchanged when frame n does not read, otherwise in the slider's range and at most n |
| `Slider.ShowTargetRange` | roto.py:103-110 | showing a readable frame lands in the slider's range, on a counted frame when there are any, on 0 when there are none, and exactly on n when n is counted and in range |
| `Slider.ShowSettles` | roto.py:103-110 | showing the current frame a second time does not move it again, so `update_mask` writes at most two frames |
| `FrameNames.FrameFileName` | roto.py:180 | a name starts with `frame_`, ends with `.png` and is at least 15 characters long |
| `FrameNames.FrameFileNameRoundTrip` | roto.py:180 | parsing the name of frame i gives back i |
| `FrameNames.FrameFileNameInjective` | roto.py:180 | different frames get different names |
| `FrameNames.FiveDigitFrameFileName` | roto.py:180 | below 100000 the digits are padded to exactly five |
| `FrameNames.ZeroPadKeepsValue` | roto.py:180 | zero padding does not change the number the digits denote |
| `FrameNames.ValueOfDecimal` | roto.py:180 | the decimal digits of n denote n |
| `Roto.AlphaFor` | roto.py:176 | the alpha of a frame: painted only when that mask is stored, all zero exactly when nothing or an all-zero mask is stored |
| `Roto.ExportPlan` | roto.py:166-192 | the files of an export that got through n frames: n of them, file i in the chosen directory with frame i's alpha (`AlphaFor`); file i is named `FrameFileName(i)`, which parses back to i (`FrameNames.FrameFileNameRoundTrip`) |
| `Roto.ExportPlanGrows` | roto.py:166-192 | each further frame appends exactly its own file |
| `Roto.ExportNamesDistinct` | roto.py:176-186 | no file of one export overwrites another |
| `Roto.ThreeFrameExport` | roto.py:176-186 | a three-frame export with masks for frames 0 and 2 writes frame_00000.png to frame_00002.png, with frame 1's alpha all zero |
| `Roto.StoreAfterUpdate` | roto.py:240-246 | the store after `update_mask`: unchanged without a match; the first current frame holds the first match (the last one when showing did not move the frame); with two or more matches the frame current after showing holds the last one |
| `Roto.StoreAfterUpdateStep` | roto.py:242-246 | one more match is written at the frame current when it is found: c0 for the first, c1 for every later one |
| `Roto.StoreAfterUpdateTouchesOnlyShown` | roto.py:240-246 | with no match the store is unchanged; only the shown frames are ever written; when the current frame does not move, the last match is stored there |
| `Roto.Session.constructor` | roto.py:17-54 | a fresh session has no video, no frames, frame 0 current, no selection, an empty store, no playback, export or overlay, and a slider from 0 to 100 |
| `Roto.Session.LoadVideo` | roto.py:78-101 | a cancelled dialog changes nothing; otherwise the video is opened, the count is the frames read before the first failure, frame 0 is shown with the old slider range, the slider's range becomes 0 .. count, and store and selection are kept |
| `Roto.Session.ShowFrame` | roto.py:103-111 | when frame n reads the current frame becomes min(n, total - 1), clamped into the slider's range by the slider callback; otherwise it is unchanged |
| `Roto.Session.SliderSet` | roto.py:110 | setting the slider runs `on_slider` with the clamped value |
| `Roto.Session.OnSlider` | roto.py:138-143 | with a video loaded, a value other than the current frame becomes current and is shown (which moves it again only if it reads); otherwise nothing changes |
| `Roto.Session.Play` | roto.py:132-136 | while playing and before the last frame the current frame advances by one, never past total - 1; otherwise nothing changes |
| `Roto.Session.TogglePlay` | roto.py:125-130 | with a video loaded the playing flag flips, and when it is now set one tick of play runs; without a video nothing changes |
| `Roto.Session.ToggleMask` | roto.py:196-199 | the overlay flag flips and the current frame is shown again |
| `Roto.Session.StartExport` | roto.py:145-150 | an export starts only with a video loaded and none running, and then sets the flag |
| `Roto.Session.StopExport` | roto.py:152-154 | the flag is cleared |
| `Roto.Session.SavePngSequence` | roto.py:156-194 | a cancelled dialog writes nothing. Otherwise the files are frame_{i:05d}.png for a contiguous run from 0, each with the stored mask or all-zero as alpha. The run goes exactly up to the first frame where the flag was cleared or the read failed. It is no longer than the count. The last written frame is current (setting the slider to it moves nothing). The flag ends cleared |
| `Roto.Session.ClearSelection` | roto.py:201-207 | no selection, no current mask, an empty store, the overlay off, and the current frame shown again |
| `Roto.Session.UpdateMask` | roto.py:240-246 | `MaskUpdated`: the store, current mask and current frame are as `StoreAfterUpdate` describes for the outlines carrying the selected id: unchanged without a match, otherwise the frame reached by showing the current one is current and the last match is the current mask |
| `Roto.Session.PaintMatch` | roto.py:243-246 | painting one more matching outline extends the state `PaintedSoFar` describes by that outline |
| `Roto.Session.InitTracking` | roto.py:228-238 | nothing changes unless the current frame reads and the tracker gave ids. Then the selection becomes the best match, or none, and the store is updated from the same result as `UpdateMask` does |
| `Roto.Session.StoreProcessed` | roto.py:271-272 | a processed frame's mask is stored at its index and setting the slider to the frame makes it current |
| `Roto.Session.ProcessAllFrames` | roto.py:248-277 | nothing changes without a video or a selection. Otherwise every frame below the count gets the mask of the first outline with the selected id, or all zero. Every other index is untouched. Each processed frame becomes current through the slider; then the frame that was current is shown again, so when it does not read the last counted frame stays current |

## Left out

- GUI: widgets, the canvas, the mouse-drag rectangle (roto.py:209-226), the
  overlay blending of `display_image`, and the button labels.
  `on_release` turns the overlay on after `init_tracking`. The slider's
  value is a float that `on_slider` truncates with `int(float(value))`.
  The model's slider values are integers.
- Video decoding, colour conversion, the native frame size and PNG
  encoding (OpenCV) are not modelled. A read is an oracle. The capture's
  read cursor is dropped: every read names its frame. Seeking to a
  negative index counts as a failed read. `os.makedirs` is not modelled.
- `cv2.fillPoly` and the rounding of outline vertices to integers: a
  painted mask is the abstract `Filled(outline)`.
- The detector/tracker (inference and its persistent track state) is not
  modelled. Its results are inputs, with track ids already integers.
- The export thread and `root.update()` re-entrancy: the export is a
  sequential loop with the stop flag sampled per frame. Restarting an
  export while an older export thread still runs is not modelled.
- `Roto.Session.Play`: models one tick; the `root.after` re-scheduling and
  its timing are left out.
- Crash paths are preconditions:
  - `InitTracking` needs a loaded video (`get_current_frame` reads the
    capture).
  - `UpdateMask` needs ids and outlines.
  - `ProcessAllFrames` needs ids wherever there are outlines.
  - `SavePngSequence` needs a loaded video once a directory is chosen.
- The unused `mask_history` field, `fps`, `delay`, and the `FastSAM`
  import next to the `YOLO` call.
