/**
 The object selector: among the tracker's boxes, the one that overlaps the
 user's box best by intersection over union, earliest first on ties.
 */
module Selection {

  import opened Wrappers
  import opened Geometry

  /** Detection k has a positive score that no detection beats, and every
      detection before it scores strictly less. */
  ghost predicate EarliestBest(ds: seq<(Box, int)>, user: Box, k: int)
  {
    0 <= k < |ds| && IoU(ds[k].0, user) > 0.0
    && (forall j :: 0 <= j < |ds| ==> IoU(ds[j].0, user) <= IoU(ds[k].0, user))
    && (forall j :: 0 <= j < k ==> IoU(ds[j].0, user) < IoU(ds[k].0, user))
  }

  /** r is what matching the user's box against ds must give: no id exactly
      when every score is zero, otherwise the id of the earliest best detection. */
  ghost predicate IsBestMatch(ds: seq<(Box, int)>, user: Box, r: Option<int>)
  {
    (r.None? <==> forall j :: 0 <= j < |ds| ==> IoU(ds[j].0, user) == 0.0)
    && (r.Some? ==> exists k :: EarliestBest(ds, user, k) && ds[k].1 == r.value)
  }

  /** find_best_match: a running maximum that starts at zero and is replaced
      only by a strictly larger score. */
  method FindBestMatch(ds: seq<(Box, int)>, user: Box) returns (best: Option<int>)
    ensures IsBestMatch(ds, user, best)
  {
    var maxIou := 0.0;
    best := None;
    ghost var at := -1;
    var i := 0;
    while i < |ds|
      invariant 0 <= i <= |ds|
      invariant best.None? <==> at == -1
      invariant best.None? ==> maxIou == 0.0 && forall j :: 0 <= j < i ==> IoU(ds[j].0, user) == 0.0
      invariant best.Some? ==> 0 <= at < i && ds[at].1 == best.value && maxIou == IoU(ds[at].0, user) > 0.0
      invariant best.Some? ==> forall j :: 0 <= j < i ==> IoU(ds[j].0, user) <= maxIou
      invariant best.Some? ==> forall j :: 0 <= j < at ==> IoU(ds[j].0, user) < maxIou
    {
      var iou := IoU(ds[i].0, user);
      if iou > maxIou {
        maxIou := iou;
        best := Some(ds[i].1);
        at := i;
      }
      i := i + 1;
    }
    if best.Some? {
      assert EarliestBest(ds, user, at);
    }
  }

  /** The result is a function of the detections in their order. */
  lemma MatchIsDeterministic(ds: seq<(Box, int)>, user: Box, r1: Option<int>, r2: Option<int>)
    requires IsBestMatch(ds, user, r1) && IsBestMatch(ds, user, r2)
    ensures r1 == r2
  {
    if r1.Some? && r2.Some? {
      var k1 :| EarliestBest(ds, user, k1) && ds[k1].1 == r1.value;
      var k2 :| EarliestBest(ds, user, k2) && ds[k2].1 == r2.value;
      assert k1 == k2;
    }
  }

  /** A user box without width or height, or dragged up or to the left, never
      selects anything. */
  lemma FlatUserBoxSelectsNothing(ds: seq<(Box, int)>, user: Box, r: Option<int>)
    requires user.x2 <= user.x1 || user.y2 <= user.y1
    requires IsBestMatch(ds, user, r)
    ensures r.None?
  {
    forall j | 0 <= j < |ds|
      ensures IoU(ds[j].0, user) == 0.0
    {
      IoUFlatUserBox(ds[j].0, user);
    }
  }

  /** A detection whose score beats every other one's is selected. */
  lemma StrictBestIsSelected(ds: seq<(Box, int)>, user: Box, k: int, r: Option<int>)
    requires 0 <= k < |ds| && IoU(ds[k].0, user) > 0.0
    requires forall j :: 0 <= j < |ds| && j != k ==> IoU(ds[j].0, user) < IoU(ds[k].0, user)
    requires IsBestMatch(ds, user, r)
    ensures r == Some(ds[k].1)
  {
    assert !(forall j :: 0 <= j < |ds| ==> IoU(ds[j].0, user) == 0.0) by {
      assert IoU(ds[k].0, user) != 0.0;
    }
    var k' :| EarliestBest(ds, user, k') && ds[k'].1 == r.value;
    assert k' == k;
  }

  /** Scores depend on the detection, not on its position: if every
      detection of ds scores zero, so does every detection of a reordering. */
  lemma AllZeroSurvivesReordering(ds: seq<(Box, int)>, es: seq<(Box, int)>, user: Box)
    requires multiset(ds) == multiset(es)
    requires forall j :: 0 <= j < |ds| ==> IoU(ds[j].0, user) == 0.0
    ensures forall j :: 0 <= j < |es| ==> IoU(es[j].0, user) == 0.0
  {
    forall j | 0 <= j < |es|
      ensures IoU(es[j].0, user) == 0.0
    {
      assert es[j] in multiset(ds);
      var i :| 0 <= i < |ds| && ds[i] == es[j];
    }
  }

  /** Whether anything is selected does not depend on the detection order. */
  lemma NoMatchIgnoresOrder(ds: seq<(Box, int)>, es: seq<(Box, int)>, user: Box, r1: Option<int>, r2: Option<int>)
    requires multiset(ds) == multiset(es)
    requires IsBestMatch(ds, user, r1) && IsBestMatch(es, user, r2)
    ensures r1.None? <==> r2.None?
  {
    if r1.None? {
      AllZeroSurvivesReordering(ds, es, user);
    }
    if r2.None? {
      AllZeroSurvivesReordering(es, ds, user);
    }
  }

  /** Reordering the detections can change the selected id only when two
      detections with different ids share the best score. */
  lemma ReorderingMattersOnlyOnTies(ds: seq<(Box, int)>, es: seq<(Box, int)>, user: Box, r1: Option<int>, r2: Option<int>)
    requires multiset(ds) == multiset(es)
    requires IsBestMatch(ds, user, r1) && IsBestMatch(es, user, r2)
    requires r1 != r2
    ensures exists i, j :: 0 <= i < |ds| && 0 <= j < |ds| && ds[i].1 != ds[j].1
                           && IoU(ds[i].0, user) == IoU(ds[j].0, user) > 0.0
                           && forall m :: 0 <= m < |ds| ==> IoU(ds[m].0, user) <= IoU(ds[i].0, user)
  {
    NoMatchIgnoresOrder(ds, es, user, r1, r2);
    assert r1.Some? && r2.Some?;
    var k1 :| EarliestBest(ds, user, k1) && ds[k1].1 == r1.value;
    var k2 :| EarliestBest(es, user, k2) && es[k2].1 == r2.value;
    assert es[k2] in multiset(ds);
    var i :| 0 <= i < |ds| && ds[i] == es[k2];
    assert ds[k1] in multiset(es);
    var j :| 0 <= j < |es| && es[j] == ds[k1];
    assert IoU(ds[i].0, user) == IoU(ds[k1].0, user);
    assert ds[i].1 != ds[k1].1;
  }
}
