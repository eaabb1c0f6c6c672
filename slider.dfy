/**
 The frame slider: a Tk themed scale from 0 to `to`. Setting its value clamps
 the value into the scale's range and then runs the scale's command, which in
 the session is on_slider. So every show_frame, through the slider, can move
 the current frame a second time; ShowTarget is where the two moves end.
 */
module Slider {

  import opened VideoSource

  /** The value a themed scale from 0 to `to` takes when set to v: clamped
      into [0, to] when 0 < to, into [to, 0] otherwise. */
  function SliderClip(v: int, to: int): (r: int)
    ensures to >= 0 ==> 0 <= r <= to
    ensures to >= 0 ==> (r == v <==> 0 <= v <= to)
    ensures to >= 0 && v < 0 ==> r == 0
    ensures to >= 0 && v > to ==> r == to
  {
    if 0 < to then (if v < 0 then 0 else if v > to then to else v)
    else (if v < to then to else if v > 0 then 0 else v)
  }

  /** The frame that is current after show_frame(n), slider callback
      included: when frame n reads, min(n, total - 1) clamped into the
      slider's range; otherwise the frame that was current. */
  function ShowTarget(v: Video, total: int, to: int, current: int, n: int): (r: int)
    ensures !Readable(v, n) ==> r == current
    ensures Readable(v, n) && to >= 0 ==> 0 <= r <= to && r <= n
  {
    if Readable(v, n) then SliderClip(if n <= total - 1 then n else total - 1, to) else current
  }

  /** Showing a readable frame lands in the slider's range and, when frames
      were counted, on a counted frame; a frame in both ranges is shown in
      place. */
  lemma ShowTargetRange(v: Video, total: nat, to: int, c: int, n: int)
    requires IsFrameCount(v, total) && to >= 0
    ensures Readable(v, n) ==> 0 <= ShowTarget(v, total, to, c, n) <= to
    ensures Readable(v, n) && total > 0 ==> ShowTarget(v, total, to, c, n) <= total - 1
    ensures Readable(v, n) && total == 0 ==> ShowTarget(v, total, to, c, n) == 0
    ensures Readable(v, n) && n <= total - 1 && n <= to ==> ShowTarget(v, total, to, c, n) == n
  {
    if Readable(v, n) && total == 0 {
      assert !Readable(v, 0);
    }
  }

  /** Showing the current frame twice moves it at most once: after the first
      show, the current frame is either counted and in the slider's range,
      or unreadable. */
  lemma ShowSettles(v: Video, total: nat, to: int, c: int)
    requires IsFrameCount(v, total) && to >= 0
    ensures var c1 := ShowTarget(v, total, to, c, c);
            ShowTarget(v, total, to, c1, c1) == c1
  {
    var c1 := ShowTarget(v, total, to, c, c);
    if Readable(v, c) && total == 0 {
      assert !Readable(v, 0);
    }
  }
}
