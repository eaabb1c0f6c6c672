/**
 What the tracker returns for one frame, and the mask the session paints from
 it. The tracker itself (inference and its persistent track state) is not
 modelled: its results are inputs.
 */
module Detections {

  import opened Wrappers
  import opened Geometry

  /** One tracker result: the boxes in xyxy form, their track ids (absent when
      the tracker assigned none) and the instance outlines (absent when it
      produced no segmentation). The three lists are read pairwise. */
  datatype Results = Results(boxes: seq<Box>, ids: Option<seq<int>>, outlines: Option<seq<Polygon>>)

  /** A single-channel mask over the whole frame: all zero, or 255 inside a
      filled outline. Rasterisation is not modelled. */
  datatype Mask = Zero | Filled(outline: Polygon)

  /** Pairs the lists element by element and stops at the shorter one. */
  function Zip<A, B>(xs: seq<A>, ys: seq<B>): (r: seq<(A, B)>)
    ensures |r| == if |xs| <= |ys| then |xs| else |ys|
    ensures forall i :: 0 <= i < |r| ==> r[i] == (xs[i], ys[i])
  {
    if xs == [] || ys == [] then [] else [(xs[0], ys[0])] + Zip(xs[1..], ys[1..])
  }

  /** The boxes paired with their track ids, as the selector walks them. */
  function TrackedBoxes(r: Results): seq<(Box, int)>
    requires r.ids.Some?
  {
    Zip(r.boxes, r.ids.value)
  }

  /** The outlines paired with their track ids, as the mask painters walk them. */
  function TrackedOutlines(r: Results): seq<(Polygon, int)>
    requires r.ids.Some? && r.outlines.Some?
  {
    Zip(r.outlines.value, r.ids.value)
  }

  /** The outlines whose track id is the selected one, in detection order.
      No id matches an absent selection. */
  function OutlinesOf(pairs: seq<(Polygon, int)>, sel: Option<int>): (kept: seq<Polygon>)
    ensures |kept| <= |pairs|
    ensures sel.None? ==> kept == []
  {
    if pairs == [] then []
    else
      var last := pairs[|pairs| - 1];
      OutlinesOf(pairs[..|pairs| - 1], sel) + (if Some(last.1) == sel then [last.0] else [])
  }

  /** Scanning one more pair keeps its outline exactly when it carries the id. */
  lemma OutlinesOfPrefix(pairs: seq<(Polygon, int)>, sel: Option<int>, i: nat)
    requires i < |pairs|
    ensures OutlinesOf(pairs[..i + 1], sel) ==
              OutlinesOf(pairs[..i], sel) + (if Some(pairs[i].1) == sel then [pairs[i].0] else [])
  {
    assert pairs[..i + 1][..i] == pairs[..i];
  }

  /** Every kept outline is that of a pair carrying the selected id. */
  lemma {:induction false} OutlinesOfSound(pairs: seq<(Polygon, int)>, sel: Option<int>)
    ensures forall k :: 0 <= k < |OutlinesOf(pairs, sel)| ==>
              exists i :: 0 <= i < |pairs| && Some(pairs[i].1) == sel && pairs[i].0 == OutlinesOf(pairs, sel)[k]
  {
    if pairs != [] {
      var init := pairs[..|pairs| - 1];
      var kept := OutlinesOf(pairs, sel);
      var front := OutlinesOf(init, sel);
      OutlinesOfSound(init, sel);
      var last := pairs[|pairs| - 1];
      assert kept == front + (if Some(last.1) == sel then [last.0] else []);
      forall k | 0 <= k < |kept|
        ensures exists i :: 0 <= i < |pairs| && Some(pairs[i].1) == sel && pairs[i].0 == kept[k]
      {
        if k < |front| {
          assert kept[k] == front[k];
          assert exists i :: 0 <= i < |init| && Some(init[i].1) == sel && init[i].0 == front[k];
          var i :| 0 <= i < |init| && Some(init[i].1) == sel && init[i].0 == front[k];
          assert pairs[i] == init[i];
        } else {
          assert pairs[|pairs| - 1].0 == kept[k];
        }
      }
    } else {
      assert |OutlinesOf(pairs, sel)| == 0;
    }
  }

  lemma {:induction false} OutlinesOfEmpty(pairs: seq<(Polygon, int)>, sel: Option<int>)
    ensures OutlinesOf(pairs, sel) == [] <==> forall i :: 0 <= i < |pairs| ==> Some(pairs[i].1) != sel
  {
    if pairs != [] {
      var init := pairs[..|pairs| - 1];
      OutlinesOfEmpty(init, sel);
      assert forall i :: 0 <= i < |init| ==> init[i] == pairs[i];
    }
  }

  /** The first outline kept is that of the first detection with the id. */
  lemma {:induction false} OutlinesOfFirst(pairs: seq<(Polygon, int)>, sel: Option<int>, i: int)
    requires 0 <= i < |pairs| && Some(pairs[i].1) == sel
    requires forall j :: 0 <= j < i ==> Some(pairs[j].1) != sel
    ensures OutlinesOf(pairs, sel) != [] && OutlinesOf(pairs, sel)[0] == pairs[i].0
  {
    var init := pairs[..|pairs| - 1];
    assert forall j :: 0 <= j < |init| ==> init[j] == pairs[j];
    if i == |pairs| - 1 {
      OutlinesOfEmpty(init, sel);
    } else {
      OutlinesOfFirst(init, sel, i);
    }
  }

  /** The last outline kept is that of the last detection with the id. */
  lemma {:induction false} OutlinesOfLast(pairs: seq<(Polygon, int)>, sel: Option<int>, i: int)
    requires 0 <= i < |pairs| && Some(pairs[i].1) == sel
    requires forall j :: i < j < |pairs| ==> Some(pairs[j].1) != sel
    ensures OutlinesOf(pairs, sel) != [] && OutlinesOf(pairs, sel)[|OutlinesOf(pairs, sel)| - 1] == pairs[i].0
  {
    var init := pairs[..|pairs| - 1];
    if i < |pairs| - 1 {
      assert forall j :: i < j < |init| ==> init[j] == pairs[j];
      OutlinesOfLast(init, sel, i);
    }
  }

  /** A non-empty result has a first matching detection that supplies its head. */
  lemma {:induction false} OutlinesOfHead(pairs: seq<(Polygon, int)>, sel: Option<int>)
    requires OutlinesOf(pairs, sel) != []
    ensures exists i :: 0 <= i < |pairs| && Some(pairs[i].1) == sel && OutlinesOf(pairs, sel)[0] == pairs[i].0
                        && forall j :: 0 <= j < i ==> Some(pairs[j].1) != sel
  {
    var init := pairs[..|pairs| - 1];
    assert forall j :: 0 <= j < |init| ==> init[j] == pairs[j];
    if OutlinesOf(init, sel) != [] {
      OutlinesOfHead(init, sel);
    } else {
      OutlinesOfEmpty(init, sel);
    }
  }

  /** The mask process_all_frames stores for one frame: all zero unless the
      result has outlines and one of them carries the selected id, in which
      case the first such outline is filled. */
  function FrameMask(r: Results, sel: int): (m: Mask)
    requires r.outlines.Some? ==> r.ids.Some?
    ensures r.outlines.None? ==> m == Zero
    ensures m.Filled? ==> exists i :: 0 <= i < |TrackedOutlines(r)| && TrackedOutlines(r)[i] == (m.outline, sel)
  {
    if r.outlines.None? then Zero
    else
      var kept := OutlinesOf(TrackedOutlines(r), Some(sel));
      OutlinesOfSound(TrackedOutlines(r), Some(sel));
      if kept == [] then Zero else Filled(kept[0])
  }

  /** FrameMask paints exactly when some detection carries the id, and then
      paints the outline of the first one. */
  lemma FrameMaskFirstMatch(r: Results, sel: int)
    requires r.outlines.Some? ==> r.ids.Some?
    ensures FrameMask(r, sel).Filled? <==>
              r.outlines.Some? && exists i :: 0 <= i < |TrackedOutlines(r)| && TrackedOutlines(r)[i].1 == sel
    ensures FrameMask(r, sel).Filled? ==>
              exists i :: 0 <= i < |TrackedOutlines(r)| && TrackedOutlines(r)[i].1 == sel
                          && FrameMask(r, sel).outline == TrackedOutlines(r)[i].0
                          && forall j :: 0 <= j < i ==> TrackedOutlines(r)[j].1 != sel
  {
    if r.outlines.Some? {
      var pairs := TrackedOutlines(r);
      OutlinesOfEmpty(pairs, Some(sel));
      if OutlinesOf(pairs, Some(sel)) != [] {
        OutlinesOfHead(pairs, Some(sel));
      }
    }
  }

  /** The per-frame loop of process_all_frames: start from an all-zero mask,
      and if the result has outlines fill the first one whose id is the
      selected one and stop looking. */
  method BuildMask(r: Results, sel: int) returns (m: Mask)
    requires r.outlines.Some? ==> r.ids.Some?
    ensures m == FrameMask(r, sel)
  {
    m := Zero;
    if r.outlines.Some? {
      var pairs := TrackedOutlines(r);
      var i := 0;
      while i < |pairs|
        invariant 0 <= i <= |pairs|
        invariant m == Zero
        invariant forall j :: 0 <= j < i ==> Some(pairs[j].1) != Some(sel)
      {
        if pairs[i].1 == sel {
          m := Filled(pairs[i].0);
          OutlinesOfFirst(pairs, Some(sel), i);
          break;
        }
        i := i + 1;
      }
      if m == Zero {
        OutlinesOfEmpty(pairs, Some(sel));
      }
    }
  }
}
