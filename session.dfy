/**
 The editing session of the rotoscoping tool: the open video, the playback
 position, the selected track, the per-frame mask store and the export flag,
 with one method per operation that changes them.
 */
module Roto {

  import opened Wrappers
  import opened Geometry
  import opened VideoSource
  import opened Detections
  import opened Selection
  import opened FrameNames
  import opened Slider

  /** One exported file: its directory, its name and the mask that becomes
      its alpha channel (the colour channels are not modelled). */
  datatype PngFile = PngFile(dir: string, name: string, alpha: Mask)

  /** The stored mask of frame i, or the all-zero mask when none is stored. */
  function AlphaFor(store: map<int, Mask>, i: int): (alpha: Mask)
    ensures alpha.Filled? ==> i in store && store[i] == alpha
    ensures alpha == Zero <==> i !in store || store[i] == Zero
  {
    if i in store then store[i] else Zero
  }

  /** The files an export that got through frames 0 .. n-1 has written, in order. */
  function ExportPlan(dir: string, store: map<int, Mask>, n: nat): (files: seq<PngFile>)
    ensures |files| == n
    ensures forall i :: 0 <= i < n ==> files[i].dir == dir && files[i].alpha == AlphaFor(store, i)
  {
    seq(n, i requires 0 <= i < n => PngFile(dir, FrameFileName(i), AlphaFor(store, i)))
  }

  /** One more exported frame appends its file to the plan. */
  lemma ExportPlanGrows(dir: string, store: map<int, Mask>, n: nat)
    ensures ExportPlan(dir, store, n + 1) == ExportPlan(dir, store, n) + [PngFile(dir, FrameFileName(n), AlphaFor(store, n))]
  {
  }

  /** No file of an export overwrites another one of the same export. */
  lemma ExportNamesDistinct(dir: string, store: map<int, Mask>, n: nat)
    ensures forall i, j :: 0 <= i < j < n ==> ExportPlan(dir, store, n)[i].name != ExportPlan(dir, store, n)[j].name
  {
    forall i, j | 0 <= i < j < n
      ensures ExportPlan(dir, store, n)[i].name != ExportPlan(dir, store, n)[j].name
    {
      FrameFileNameRoundTrip(i);
      FrameFileNameRoundTrip(j);
    }
  }

  /** The files of a three-frame export with masks stored for frames 0 and 2 only. */
  lemma ThreeFrameExport(dir: string, p: Polygon, q: Polygon)
    ensures ExportPlan(dir, map[0 := Filled(p), 2 := Filled(q)], 3) ==
              [PngFile(dir, "frame_00000.png", Filled(p)),
               PngFile(dir, "frame_00001.png", Zero),
               PngFile(dir, "frame_00002.png", Filled(q))]
  {
    assert Zeros(4) == "0000";
    assert FrameFileName(0) == "frame_00000.png";
    assert FrameFileName(1) == "frame_00001.png";
    assert FrameFileName(2) == "frame_00002.png";
  }

  /** The mask store after update_mask found the outlines kept (in order) for
      the selected id: the first one is written at the frame that was current
      (c0), every later one at the frame current after showing c0 (c1). */
  function StoreAfterUpdate(store: map<int, Mask>, c0: int, c1: int, kept: seq<Polygon>): (r: map<int, Mask>)
    ensures kept == [] ==> r == store
    ensures kept != [] ==> c0 in r && r[c0] == Filled(kept[if |kept| > 1 && c0 == c1 then |kept| - 1 else 0])
    ensures |kept| > 1 ==> c1 in r && r[c1] == Filled(kept[|kept| - 1])
  {
    if kept == [] then store
    else if |kept| == 1 then store[c0 := Filled(kept[0])]
    else store[c0 := Filled(kept[0])][c1 := Filled(kept[|kept| - 1])]
  }

  /** One more matching outline is written at the frame that is current
      when it is found: c0 for the first match, c1 for every later one. */
  lemma StoreAfterUpdateStep(store: map<int, Mask>, c0: int, c1: int, kept: seq<Polygon>, p: Polygon)
    ensures StoreAfterUpdate(store, c0, c1, kept + [p]) ==
              StoreAfterUpdate(store, c0, c1, kept)[(if kept == [] then c0 else c1) := Filled(p)]
  {
    var r := StoreAfterUpdate(store, c0, c1, kept + [p]);
    if |kept| > 1 {
      assert r == store[c0 := Filled(kept[0])][c1 := Filled(p)];
    }
  }

  /** update_mask touches nothing when no outline carries the id, only the
      shown frames otherwise, and when showing the current frame leaves it in
      place the last matching outline wins. */
  lemma StoreAfterUpdateTouchesOnlyShown(store: map<int, Mask>, c0: int, c1: int, kept: seq<Polygon>)
    ensures kept == [] ==> StoreAfterUpdate(store, c0, c1, kept) == store
    ensures forall k :: k != c0 && k != c1 ==>
              (k in StoreAfterUpdate(store, c0, c1, kept) <==> k in store)
              && (k in store ==> StoreAfterUpdate(store, c0, c1, kept)[k] == store[k])
    ensures kept != [] && c0 == c1 ==> StoreAfterUpdate(store, c0, c1, kept) == store[c0 := Filled(kept[|kept| - 1])]
  {
  }

  class Session {
    /** The capture, as its read oracle; empty before any video is loaded. */
    var video: Video
    var videoLoaded: bool
    var totalFrames: nat
    var currentFrame: int
    var playing: bool
    /** The export flag: set while an export runs, cleared to stop it. */
    var processing: bool
    /** Whether the mask overlay is shown. */
    var showMask: bool
    var selectedId: Option<int>
    var currentMask: Option<Mask>
    /** The mask store: frame index to mask. */
    var masks: map<int, Mask>
    /** The upper end of the frame slider, whose lower end is 0. */
    var sliderTo: int

    /** The frame count is the one the loaded video gives, and the slider
        never reaches below 0. Holds in every step of load_video. */
    ghost predicate Counted()
      reads this
    {
      IsFrameCount(video, totalFrames) && (!videoLoaded ==> video == []) && sliderTo >= 0
    }

    /** Between operations, a loaded video's slider ends at its frame count. */
    ghost predicate Valid()
      reads this
    {
      Counted() && (videoLoaded ==> sliderTo == totalFrames)
    }

    /** 1 when showing frame n makes the slider move the current frame a
        second time (n reads but lies outside the counted frames or the
        slider's range), else 0. Bounds the show_frame / on_slider recursion. */
    ghost function ShowRank(n: int): nat
      reads this
    {
      if Readable(video, n) && !(0 <= n <= sliderTo && n <= totalFrames - 1) then 1 else 0
    }

    constructor ()
      ensures Valid()
      ensures video == [] && !videoLoaded && totalFrames == 0 && currentFrame == 0
      ensures !playing && !processing && !showMask
      ensures selectedId.None? && currentMask.None? && masks == map[]
      ensures sliderTo == 100
    {
      video := [];
      videoLoaded := false;
      totalFrames := 0;
      currentFrame := 0;
      playing := false;
      processing := false;
      showMask := false;
      selectedId := None;
      currentMask := None;
      masks := map[];
      sliderTo := 100;
    }

    /** load_video: an empty path (the dialog was cancelled) changes nothing;
        otherwise the video is opened, its frames are counted up to the first
        failed read, frame 0 is shown (the slider still has its old range)
        and then the slider's range becomes 0 .. count. The mask store and
        the selection are kept. */
    method LoadVideo(path: string, capture: Video)
      requires Valid()
      modifies this`video, this`totalFrames, this`videoLoaded, this`currentFrame, this`sliderTo
      ensures Valid()
      ensures path == "" ==> video == old(video) && totalFrames == old(totalFrames) && sliderTo == old(sliderTo)
                             && videoLoaded == old(videoLoaded) && currentFrame == old(currentFrame)
      ensures path != "" ==> video == capture && videoLoaded && IsFrameCount(capture, totalFrames)
                             && sliderTo == totalFrames
                             && currentFrame == ShowTarget(capture, totalFrames, old(sliderTo), old(currentFrame), 0)
    {
      if path != "" {
        video := capture;
        var n := CountFrames(capture);
        totalFrames := n;
        videoLoaded := true;
        ShowFrame(0);
        sliderTo := totalFrames;
      }
    }

    /** show_frame: when frame n reads, it becomes current, clamped to the
        last counted frame, and the slider is set to it, which may move the
        current frame once more (ShowTarget); otherwise nothing changes. */
    method ShowFrame(n: int)
      requires Counted()
      modifies this`currentFrame
      decreases ShowRank(n), 2
      ensures Counted()
      ensures currentFrame == ShowTarget(video, totalFrames, sliderTo, old(currentFrame), n)
    {
      if videoLoaded && Readable(video, n) {
        currentFrame := if n <= totalFrames - 1 then n else totalFrames - 1;
        if currentFrame < 0 {
          assert !Readable(video, 0);
        }
        SliderSet(currentFrame);
      }
    }

    /** slider.set(v): the slider takes v clamped into its range and runs
        its command, on_slider, with that value. */
    method SliderSet(v: int)
      requires Counted()
      modifies this`currentFrame
      decreases (var w := SliderClip(v, sliderTo); if videoLoaded && w != currentFrame then ShowRank(w) + 1 else 0), 1
      ensures Counted()
      ensures var w := SliderClip(v, sliderTo);
              currentFrame == if videoLoaded && w != old(currentFrame) then ShowTarget(video, totalFrames, sliderTo, w, w)
                              else old(currentFrame)
    {
      OnSlider(SliderClip(v, sliderTo));
    }

    /** on_slider: with a video loaded, a slider value other than the current
        frame becomes the current frame, which is then shown. */
    method OnSlider(value: int)
      requires Counted()
      modifies this`currentFrame
      decreases (if videoLoaded && value != currentFrame then ShowRank(value) + 1 else 0), 0
      ensures Counted()
      ensures currentFrame == if videoLoaded && value != old(currentFrame) then ShowTarget(video, totalFrames, sliderTo, value, value)
                              else old(currentFrame)
    {
      if videoLoaded {
        var frameNum := value;
        if frameNum != currentFrame {
          currentFrame := frameNum;
          ShowFrame(frameNum);
        }
      }
    }

    /** One tick of play: while playing and before the last frame, show the
        current frame and step to the next one. */
    method Play()
      requires Valid()
      modifies this`currentFrame
      ensures Valid()
      ensures currentFrame == if old(playing && currentFrame < totalFrames - 1) then old(currentFrame) + 1 else old(currentFrame)
      ensures currentFrame != old(currentFrame) ==> currentFrame <= totalFrames - 1
    {
      if playing && currentFrame < totalFrames - 1 {
        ShowFrame(currentFrame);
        currentFrame := currentFrame + 1;
      }
    }

    /** toggle_play: with a video loaded, flip the playing flag and, when it
        is now set, run the first tick of play. */
    method TogglePlay()
      requires Valid()
      modifies this`playing, this`currentFrame
      ensures Valid()
      ensures playing == (old(playing) != videoLoaded)
      ensures currentFrame == if videoLoaded && playing && old(currentFrame) < totalFrames - 1 then old(currentFrame) + 1
                              else old(currentFrame)
    {
      if videoLoaded {
        playing := !playing;
        if playing {
          Play();
        }
      }
    }

    /** toggle_mask: flip the overlay and show the current frame again. */
    method ToggleMask()
      requires Valid()
      modifies this`showMask, this`currentFrame
      ensures Valid()
      ensures showMask == !old(showMask)
      ensures currentFrame == ShowTarget(video, totalFrames, sliderTo, old(currentFrame), old(currentFrame))
    {
      showMask := !showMask;
      ShowFrame(currentFrame);
    }

    /** start_export: only with a video loaded and no export running. The
        caller then runs SavePngSequence (in the source, on a new thread). */
    method StartExport() returns (started: bool)
      requires Valid()
      modifies this`processing
      ensures Valid()
      ensures started == (videoLoaded && !old(processing))
      ensures processing == (old(processing) || started)
    {
      started := videoLoaded && !processing;
      if started {
        processing := true;
      }
    }

    /** stop_export: clear the export flag. */
    method StopExport()
      requires Valid()
      modifies this`processing
      ensures Valid()
      ensures !processing
    {
      processing := false;
    }

    /** save_png_sequence. An empty directory (the dialog was cancelled) stops
        the export at once. Otherwise, from frame 0: check the flag, read the
        frame, write frame_{i:05d}.png with the stored mask (or an all-zero one)
        as alpha, make the frame current and set the slider to it. stopRequested(i)
        says that the user stopped the export before the i-th check of the
        flag. The export ends with the flag cleared. */
    method SavePngSequence(outputDir: string, stopRequested: nat -> bool) returns (files: seq<PngFile>)
      requires Valid()
      requires outputDir != "" ==> videoLoaded
      modifies this`processing, this`currentFrame
      ensures Valid()
      ensures !processing
      ensures files == ExportPlan(outputDir, masks, |files|)
      ensures outputDir == "" ==> files == []
      ensures forall i: nat :: i < |files| ==> !stopRequested(i) && Readable(video, i)
      ensures |files| > 0 ==> old(processing)
      ensures outputDir != "" ==> !(old(processing) && !stopRequested(|files|) && Readable(video, |files|))
      ensures |files| <= totalFrames
      ensures currentFrame == if |files| == 0 then old(currentFrame) else |files| - 1
    {
      if outputDir == "" {
        StopExport();
        return [];
      }
      files := [];
      var frameNum: nat := 0;
      while true
        invariant Valid()
        invariant frameNum <= totalFrames
        invariant processing == old(processing)
        invariant frameNum > 0 ==> old(processing)
        invariant files == ExportPlan(outputDir, masks, frameNum)
        invariant forall i: nat :: i < frameNum ==> !stopRequested(i) && Readable(video, i)
        invariant currentFrame == if frameNum == 0 then old(currentFrame) else frameNum - 1
        decreases totalFrames - frameNum
      {
        if stopRequested(frameNum) {
          StopExport();
        }
        if !processing {
          break;
        }
        if !Readable(video, frameNum) {
          break;
        }
        assert frameNum < totalFrames == sliderTo;
        files := files + [PngFile(outputDir, FrameFileName(frameNum), AlphaFor(masks, frameNum))];
        ExportPlanGrows(outputDir, masks, frameNum);
        currentFrame := frameNum;
        SliderSet(frameNum);
        frameNum := frameNum + 1;
      }
      StopExport();
    }

    /** clear_selection: forget the selected track and every mask, hide the
        overlay, and show the current frame again. */
    method ClearSelection()
      requires Valid()
      modifies this`selectedId, this`currentMask, this`masks, this`showMask, this`currentFrame
      ensures Valid()
      ensures selectedId.None? && currentMask.None? && masks == map[] && !showMask
      ensures currentFrame == ShowTarget(video, totalFrames, sliderTo, old(currentFrame), old(currentFrame))
    {
      selectedId := None;
      currentMask := None;
      masks := map[];
      showMask := false;
      ShowFrame(currentFrame);
    }

    /** The state update_mask has reached once the outlines in kept (in
        order) have been painted, starting from the store, current mask and
        current frame c0, where c1 is the frame showing c0 leads to. With
        nothing painted nothing has changed; otherwise the store is
        StoreAfterUpdate, c1 is current and the last outline painted is the
        current mask. */
    ghost predicate PaintedSoFar(store0: map<int, Mask>, mask0: Option<Mask>, c0: int, c1: int, kept: seq<Polygon>)
      reads this
    {
      && masks == StoreAfterUpdate(store0, c0, c1, kept)
      && currentFrame == (if kept == [] then c0 else c1)
      && currentMask == (if kept == [] then mask0 else Some(Filled(kept[|kept| - 1])))
    }

    /** The state update_mask leaves: every outline carrying the selected id
        painted, from the store, current mask and current frame c0 it
        started with. */
    ghost predicate MaskUpdated(detected: Results, store0: map<int, Mask>, mask0: Option<Mask>, c0: int)
      requires detected.ids.Some? && detected.outlines.Some?
      reads this
    {
      PaintedSoFar(store0, mask0, c0, ShowTarget(video, totalFrames, sliderTo, c0, c0),
                   OutlinesOf(TrackedOutlines(detected), selectedId))
    }

    /** update_mask: for every outline whose track id is the selected one,
        fill it into a fresh mask, store it at the current frame and show the
        current frame again. With no such outline nothing changes; with
        several, the last one is stored. */
    method UpdateMask(detected: Results)
      requires Valid()
      requires detected.ids.Some? && detected.outlines.Some?
      modifies this`masks, this`currentMask, this`currentFrame
      ensures Valid()
      ensures MaskUpdated(detected, old(masks), old(currentMask), old(currentFrame))
    {
      var pairs := TrackedOutlines(detected);
      ghost var c0 := currentFrame;
      ghost var c1 := ShowTarget(video, totalFrames, sliderTo, c0, c0);
      ghost var kept: seq<Polygon> := [];
      ghost var store0 := masks;
      ghost var mask0 := currentMask;
      ShowSettles(video, totalFrames, sliderTo, c0);
      var i := 0;
      while i < |pairs|
        invariant 0 <= i <= |pairs|
        invariant kept == OutlinesOf(pairs[..i], selectedId)
        invariant PaintedSoFar(store0, mask0, c0, c1, kept)
      {
        OutlinesOfPrefix(pairs, selectedId, i);
        if Some(pairs[i].1) == selectedId {
          PaintMatch(pairs[i].0, store0, mask0, c0, c1, kept);
          kept := kept + [pairs[i].0];
        }
        i := i + 1;
      }
      assert pairs[..|pairs|] == pairs;
    }

    /** The body of update_mask's loop for a matching outline: fill it into
        a fresh mask, make that the current mask, store it at the current
        frame and show the current frame again. */
    method PaintMatch(outline: Polygon, ghost store0: map<int, Mask>, ghost mask0: Option<Mask>,
                      ghost c0: int, ghost c1: int, ghost kept: seq<Polygon>)
      requires Valid()
      requires c1 == ShowTarget(video, totalFrames, sliderTo, c0, c0)
      requires ShowTarget(video, totalFrames, sliderTo, c1, c1) == c1
      requires PaintedSoFar(store0, mask0, c0, c1, kept)
      modifies this`masks, this`currentMask, this`currentFrame
      ensures Valid()
      ensures PaintedSoFar(store0, mask0, c0, c1, kept + [outline])
    {
      StoreAfterUpdateStep(store0, c0, c1, kept, outline);
      var m := Filled(outline);
      currentMask := Some(m);
      masks := masks[currentFrame := m];
      ShowFrame(currentFrame);
    }

    /** init_tracking: when the current frame reads and the tracker assigned
        ids, select the track whose box best matches the user's box (possibly
        none) and update the mask store from the same result. */
    method InitTracking(userBox: Box, detected: Results)
      requires Valid() && videoLoaded
      requires detected.ids.Some? ==> detected.outlines.Some?
      modifies this`selectedId, this`masks, this`currentMask, this`currentFrame
      ensures Valid()
      ensures !(Readable(video, old(currentFrame)) && detected.ids.Some?) ==>
                selectedId == old(selectedId) && masks == old(masks)
                && currentMask == old(currentMask) && currentFrame == old(currentFrame)
      ensures Readable(video, old(currentFrame)) && detected.ids.Some? ==>
                IsBestMatch(TrackedBoxes(detected), userBox, selectedId)
                && MaskUpdated(detected, old(masks), old(currentMask), old(currentFrame))
    {
      if !Readable(video, currentFrame) {
        return;
      }
      if detected.ids.Some? {
        selectedId := FindBestMatch(TrackedBoxes(detected), userBox);
        UpdateMask(detected);
      }
    }

    /** The end of one step of process_all_frames: store the frame's mask
        and set the slider to the frame, which makes it current. */
    method StoreProcessed(frameNum: nat, m: Mask)
      requires Valid() && videoLoaded && frameNum < totalFrames
      modifies this`masks, this`currentFrame
      ensures Valid()
      ensures masks == old(masks)[frameNum := m]
      ensures currentFrame == frameNum
    {
      masks := masks[frameNum := m];
      assert Readable(video, frameNum) && SliderClip(frameNum, sliderTo) == frameNum;
      SliderSet(frameNum);
    }

    /** process_all_frames: with a video loaded and a track selected, read
        the frames from 0 until a read fails, storing for each the mask of
        the first outline with the selected id (all zero when there is none)
        and setting the slider to it, which makes it current; then show the
        frame that was current before. Otherwise nothing happens.
        track(k) is what the tracker returns for frame k. */
    method ProcessAllFrames(track: nat -> Results)
      requires Valid()
      requires forall k: nat :: k < totalFrames ==> (track(k).outlines.Some? ==> track(k).ids.Some?)
      modifies this`masks, this`currentFrame
      ensures Valid()
      ensures !videoLoaded || selectedId.None? ==> masks == old(masks) && currentFrame == old(currentFrame)
      ensures videoLoaded && selectedId.Some? ==>
                && (forall k :: 0 <= k < totalFrames ==> k in masks && masks[k] == FrameMask(track(k), selectedId.value))
                && (forall k :: (k < 0 || totalFrames <= k) ==>
                      (k in masks <==> k in old(masks)) && (k in masks ==> masks[k] == old(masks)[k]))
                && currentFrame == ShowTarget(video, totalFrames, sliderTo,
                                              if totalFrames == 0 then old(currentFrame) else totalFrames - 1,
                                              old(currentFrame))
    {
      if !videoLoaded || selectedId.None? {
        return;
      }
      var sel := selectedId.value;
      var currentPosition := currentFrame;
      var frameNum: nat := 0;
      while Readable(video, frameNum)
        invariant Valid()
        invariant frameNum <= totalFrames
        invariant currentFrame == if frameNum == 0 then old(currentFrame) else frameNum - 1
        invariant forall k :: 0 <= k < frameNum ==> k in masks && masks[k] == FrameMask(track(k), sel)
        invariant forall k :: (k < 0 || frameNum <= k) ==>
                    (k in masks <==> k in old(masks)) && (k in masks ==> masks[k] == old(masks)[k])
        decreases totalFrames - frameNum
      {
        assert frameNum < totalFrames by {
          assert !Readable(video, totalFrames);
        }
        var r := track(frameNum);
        assert r.outlines.Some? ==> r.ids.Some?;
        var m := BuildMask(r, sel);
        StoreProcessed(frameNum, m);
        frameNum := frameNum + 1;
      }
      FrameCountUnique(video, frameNum, totalFrames);
      ShowFrame(currentPosition);
    }
  }
}
