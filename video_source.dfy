/**
 The video capture as the session sees it: an oracle that says, for each
 frame index, whether seeking there and reading returns a frame. Decoding,
 colour conversion and the capture's read cursor are not modelled: every read
 names the index it reads.
 */
module VideoSource {

  /** reads[i] holds when frame i decodes; every index outside the sequence,
      negative ones included, fails to read. */
  type Video = seq<bool>

  predicate Readable(v: Video, i: int)
  {
    0 <= i < |v| && v[i]
  }

  /** n is the number of frames read from the start before the first read fails. */
  ghost predicate IsFrameCount(v: Video, n: nat)
  {
    (forall i :: 0 <= i < n ==> Readable(v, i)) && !Readable(v, n)
  }

  /** The counting loop of load_video: read from frame 0 until a read fails. */
  method CountFrames(v: Video) returns (n: nat)
    ensures IsFrameCount(v, n)
    ensures n <= |v|
  {
    n := 0;
    while Readable(v, n)
      invariant n <= |v|
      invariant forall i :: 0 <= i < n ==> Readable(v, i)
      decreases |v| - n
    {
      n := n + 1;
    }
  }

  /** The count is determined by the video. */
  lemma FrameCountUnique(v: Video, m: nat, n: nat)
    requires IsFrameCount(v, m) && IsFrameCount(v, n)
    ensures m == n
  {
  }

  /** Every prefix of frames that all read is within the count. */
  lemma ReadablePrefixWithinCount(v: Video, total: nat, k: nat)
    requires IsFrameCount(v, total)
    requires forall i :: 0 <= i < k ==> Readable(v, i)
    ensures k <= total
  {
  }
}
