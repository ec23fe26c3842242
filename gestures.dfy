/**
 * The gesture classifier: from one detected hand (its landmarks and its
 * handedness label) to the finger-state vector (thumb, index, middle, ring),
 * each entry 1 for "up" and 0 for "down".
 *
 * Landmark coordinates are normalized image coordinates; the classifier only
 * compares them strictly, so they are modelled as reals.
 */
module Gestures {

  /** One landmark in normalized image coordinates (smaller y is higher). */
  datatype Point = Point(x: real, y: real)

  /** One hand as the detector reports it: landmarks in the detector's fixed
      order and the first handedness label ("Left", "Right", or anything else). */
  datatype Hand = Hand(landmarks: seq<Point>, handedness: string)

  // Landmark indices read by the classifier.
  const ThumbIp := 3
  const ThumbTip := 4
  const IndexPip := 6
  const IndexTip := 8
  const MiddlePip := 10
  const MiddleTip := 12
  const RingPip := 14
  const RingTip := 16

  /** The detector reports 21 landmarks per hand; the classifier indexes up to RingTip. */
  predicate Readable(lms: seq<Point>) {
    |lms| > RingTip
  }

  /** One finger state: 1 is up, 0 is down. */
  type Bit = b: int | b == 0 || b == 1

  /** The per-frame vector, in the order thumb, index, middle, ring. */
  type FingerStates = s: seq<Bit> | |s| == 4 witness [0, 0, 0, 0]

  /** The vector every iteration starts from. */
  const AllDown: FingerStates := [0, 0, 0, 0]

  function BitOf(up: bool): Bit {
    if up then 1 else 0
  }

  /** A non-thumb finger is up when its tip lies strictly above its PIP joint. */
  function FingerUp(lms: seq<Point>, tip: nat, pip: nat): (up: bool)
    requires tip < |lms| && pip < |lms|
    ensures lms[tip].y == lms[pip].y ==> !up
    ensures up ==> lms[pip].y > lms[tip].y
    ensures lms[pip].y > lms[tip].y ==> up
  {
    lms[tip].y < lms[pip].y
  }

  /** The thumb compares tip and IP horizontally; only the exact handedness "Right"
      selects "tip left of IP", every other handedness selects "tip right of IP". */
  function ThumbUp(lms: seq<Point>, handedness: string): (up: bool)
    requires |lms| > ThumbTip
    ensures handedness == "Right" ==> (up <==> lms[ThumbTip].x < lms[ThumbIp].x)
    ensures handedness != "Right" ==> (up <==> lms[ThumbIp].x < lms[ThumbTip].x)
    ensures lms[ThumbTip].x == lms[ThumbIp].x ==> !up
  {
    if handedness == "Right" then lms[ThumbTip].x < lms[ThumbIp].x
    else lms[ThumbTip].x > lms[ThumbIp].x
  }

  /** The vector for a single hand. */
  function ClassifyHand(h: Hand): (s: FingerStates)
    requires Readable(h.landmarks)
    ensures s[0] == 1 <==> ThumbUp(h.landmarks, h.handedness)
    ensures s[1] == 1 <==> h.landmarks[IndexTip].y < h.landmarks[IndexPip].y
    ensures s[2] == 1 <==> h.landmarks[MiddleTip].y < h.landmarks[MiddlePip].y
    ensures s[3] == 1 <==> h.landmarks[RingTip].y < h.landmarks[RingPip].y
  {
    var lms := h.landmarks;
    [BitOf(ThumbUp(lms, h.handedness)),
     BitOf(FingerUp(lms, IndexTip, IndexPip)),
     BitOf(FingerUp(lms, MiddleTip, MiddlePip)),
     BitOf(FingerUp(lms, RingTip, RingPip))]
  }

  /** What one pass of the per-hand loop does to the vector: it assigns the
      four entries one after the other. Nothing of the previous vector survives. */
  function Overwrite(prev: FingerStates, h: Hand): (s: FingerStates)
    requires Readable(h.landmarks)
    ensures s == ClassifyHand(h)
  {
    var lms := h.landmarks;
    prev[0 := BitOf(ThumbUp(lms, h.handedness))]
        [1 := BitOf(FingerUp(lms, IndexTip, IndexPip))]
        [2 := BitOf(FingerUp(lms, MiddleTip, MiddlePip))]
        [3 := BitOf(FingerUp(lms, RingTip, RingPip))]
  }

  predicate AllReadable(hands: seq<Hand>) {
    forall i :: 0 <= i < |hands| ==> Readable(hands[i].landmarks)
  }

  /** The vector after the per-hand loop has run over `hands`, starting from
      `init`: with no hands it is `init`; with several, the last hand alone
      decides it. */
  function Classified(init: FingerStates, hands: seq<Hand>): (s: FingerStates)
    requires AllReadable(hands)
    ensures hands == [] ==> s == init
    ensures hands != [] ==> s == ClassifyHand(hands[|hands| - 1])
    decreases |hands|
  {
    if hands == [] then init
    else
      var rest := hands[1..];
      assert AllReadable(rest) by {
        forall i | 0 <= i < |rest| ensures Readable(rest[i].landmarks) {
          assert rest[i] == hands[i + 1];
        }
      }
      assert rest != [] ==> rest[|rest| - 1] == hands[|hands| - 1];
      Classified(Overwrite(init, hands[0]), rest)
  }

  /** Horizontal reflection of a normalized point (what mirroring the frame does). */
  function MirrorPoint(p: Point): Point {
    Point(1.0 - p.x, p.y)
  }

  function MirrorLabel(handedness: string): string {
    if handedness == "Right" then "Left" else if handedness == "Left" then "Right" else handedness
  }

  /** The same hand seen in a horizontally mirrored frame, with its handedness swapped. */
  function MirrorHand(h: Hand): (m: Hand)
    ensures |m.landmarks| == |h.landmarks|
    ensures forall i :: 0 <= i < |h.landmarks| ==> m.landmarks[i] == MirrorPoint(h.landmarks[i])
  {
    Hand(seq(|h.landmarks|, i requires 0 <= i < |h.landmarks| => MirrorPoint(h.landmarks[i])),
         MirrorLabel(h.handedness))
  }

  /** The left/right comparison table is consistent with mirroring: a hand and
      its mirror image with the swapped handedness give the same vector, as long as
      the handedness is "Left" or "Right". */
  lemma MirroredHandSameStates(h: Hand)
    requires Readable(h.landmarks)
    requires h.handedness == "Left" || h.handedness == "Right"
    ensures Readable(MirrorHand(h).landmarks)
    ensures ClassifyHand(MirrorHand(h)) == ClassifyHand(h)
  {
    var m := MirrorHand(h);
    assert m.landmarks[ThumbTip] == MirrorPoint(h.landmarks[ThumbTip]);
    assert m.landmarks[ThumbIp] == MirrorPoint(h.landmarks[ThumbIp]);
  }

  /** Any handedness other than "Left" or "Right" is treated like "Left", so for such
      a handedness the mirror symmetry fails: the thumb reading flips. */
  lemma UnknownLabelBreaksMirror(h: Hand)
    requires Readable(h.landmarks)
    requires h.handedness != "Left" && h.handedness != "Right"
    requires h.landmarks[ThumbTip].x != h.landmarks[ThumbIp].x
    ensures Readable(MirrorHand(h).landmarks)
    ensures ClassifyHand(MirrorHand(h))[0] != ClassifyHand(h)[0]
  {
    var m := MirrorHand(h);
    assert m.landmarks[ThumbTip] == MirrorPoint(h.landmarks[ThumbTip]);
    assert m.landmarks[ThumbIp] == MirrorPoint(h.landmarks[ThumbIp]);
  }

  /** The same hand shifted by (dx, dy). */
  function TranslateHand(h: Hand, dx: real, dy: real): (t: Hand)
    ensures |t.landmarks| == |h.landmarks| && t.handedness == h.handedness
    ensures forall i :: 0 <= i < |h.landmarks| ==>
      t.landmarks[i] == Point(h.landmarks[i].x + dx, h.landmarks[i].y + dy)
  {
    Hand(seq(|h.landmarks|, i requires 0 <= i < |h.landmarks| =>
               Point(h.landmarks[i].x + dx, h.landmarks[i].y + dy)),
         h.handedness)
  }

  /** The classifier only looks at relative positions: moving the hand within
      the frame does not change its vector. */
  lemma TranslatedHandSameStates(h: Hand, dx: real, dy: real)
    requires Readable(h.landmarks)
    ensures Readable(TranslateHand(h, dx, dy).landmarks)
    ensures ClassifyHand(TranslateHand(h, dx, dy)) == ClassifyHand(h)
  {
  }

  /** Ties are "down": a hand whose landmarks all coincide reads all zeros,
      whatever its handedness. */
  lemma CollapsedHandAllDown(h: Hand)
    requires Readable(h.landmarks)
    requires forall i :: 0 <= i < |h.landmarks| ==> h.landmarks[i] == h.landmarks[0]
    ensures ClassifyHand(h) == AllDown
  {
    var lms := h.landmarks;
    assert lms[ThumbTip] == lms[ThumbIp];
    assert lms[IndexTip] == lms[IndexPip];
    assert lms[MiddleTip] == lms[MiddlePip];
    assert lms[RingTip] == lms[RingPip];
  }
}
