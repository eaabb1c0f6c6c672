/**
 A walk through one session, using only the contracts of the operations:
 select an object on frame 0, lose it on frame 1, process every frame and
 export.
 */
module Scenario {

  import opened Wrappers
  import opened Geometry
  import opened VideoSource
  import opened Detections
  import opened Selection
  import opened Roto

  /** Dragging exactly around the only detection selects its track. */
  lemma ExactBoxSelectsItsTrack(box: Box, outline: Polygon, r: Option<int>)
    requires box == Box(10.0, 10.0, 50.0, 40.0)
    requires IsBestMatch(TrackedBoxes(Results([box], Some([7]), Some([outline]))), box, r)
    ensures r == Some(7)
  {
    IoUSelf(box);
    assert TrackedBoxes(Results([box], Some([7]), Some([outline]))) == [(box, 7)];
    StrictBestIsSelected([(box, 7)], box, 0, r);
  }

  /** A frame where the tracker sees track 7 gets its outline painted. */
  lemma SeenFramePainted(box: Box, outline: Polygon)
    ensures FrameMask(Results([box], Some([7]), Some([outline])), 7) == Filled(outline)
  {
    assert TrackedOutlines(Results([box], Some([7]), Some([outline]))) == [(outline, 7)];
    assert OutlinesOf([(outline, 7)], Some(7)) == [outline];
  }

  /** The walk-through: select track 7 on frame 0, drag the slider to its
      end, process every frame with the track lost on frame 1, export. */
  method LostTrackScenario()
  {
    var box := Box(10.0, 10.0, 50.0, 40.0);
    var outline := [Point(10.0, 10.0), Point(50.0, 10.0), Point(50.0, 40.0)];
    var s := SelectOnFirstFrame(box, outline);
    ProcessWithLostFrame(s, box, outline);
    ExportAll(s, outline);
  }

  /** Load a three-frame clip and drag exactly around the one detection,
      track 7, on frame 0. */
  method SelectOnFirstFrame(box: Box, outline: Polygon) returns (s: Session)
    requires box == Box(10.0, 10.0, 50.0, 40.0)
    ensures fresh(s) && s.Valid() && s.videoLoaded && !s.processing
    ensures s.video == [true, true, true] && s.totalFrames == 3
    ensures s.selectedId == Some(7)
  {
    s := new Session();
    var clip: Video := [true, true, true];
    s.LoadVideo("clip.mp4", clip);
    assert IsFrameCount(clip, 3);
    FrameCountUnique(clip, 3, s.totalFrames);
    var seen := Results([box], Some([7]), Some([outline]));
    s.InitTracking(box, seen);
    ExactBoxSelectsItsTrack(box, outline, s.selectedId);
  }

  /** The user drags the slider to its end, one past the last frame, which
      does not read, so that value stays current. Then every frame is
      processed with the tracker losing the object on frame 1. Processing
      sets the slider to every frame in turn, and showing frame 3 again
      fails, so the last frame stays current. */
  method ProcessWithLostFrame(s: Session, box: Box, outline: Polygon)
    requires s.Valid() && s.videoLoaded && !s.processing
    requires s.video == [true, true, true] && s.totalFrames == 3 && s.selectedId == Some(7)
    modifies s
    ensures s.Valid() && s.videoLoaded && !s.processing
    ensures s.video == [true, true, true] && s.totalFrames == 3
    ensures 0 in s.masks && 1 in s.masks && 2 in s.masks
    ensures s.masks[0] == Filled(outline) && s.masks[1] == Zero && s.masks[2] == Filled(outline)
    ensures s.currentFrame == 2
  {
    s.OnSlider(3);
    assert !Readable(s.video, 3);
    assert s.currentFrame == 3;
    var seen := Results([box], Some([7]), Some([outline]));
    var lost := Results([], None, None);
    s.ProcessAllFrames(k => if k == 1 then lost else seen);
    SeenFramePainted(box, outline);
  }

  /** Export the three processed frames: three files, frame 1's alpha all
      zero, frame 2's painted. */
  method ExportAll(s: Session, outline: Polygon)
    requires s.Valid() && s.videoLoaded && !s.processing
    requires s.video == [true, true, true] && s.totalFrames == 3
    requires 0 in s.masks && 1 in s.masks && 2 in s.masks
    requires s.masks[0] == Filled(outline) && s.masks[1] == Zero && s.masks[2] == Filled(outline)
    modifies s
  {
    ghost var store := s.masks;
    var started := s.StartExport();
    assert started;
    var neverStopped: nat -> bool := k => false;
    var files := s.SavePngSequence("out", neverStopped);
    assert |files| == 3 by {
      assert !neverStopped(|files|);
      assert !Readable(s.video, |files|);
    }
    assert files[1].alpha == AlphaFor(store, 1) == Zero;
    assert files[2].alpha == AlphaFor(store, 2) == Filled(outline);
    assert !s.processing && s.currentFrame == 2;
  }
}
