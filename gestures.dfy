/**
 * The gesture classifier of HandGestureController.detect_gesture: a total,
 * side-effect-free map from one hand's landmark set to a gesture label.
 * Only vertical orderings of landmarks are compared, so coordinates are reals.
 */
module Gestures {

  /** One normalised hand landmark (image coordinates, y grows downward). */
  datatype Landmark = Landmark(x: real, y: real)

  /** The landmark estimator always reports 21 landmarks per hand. */
  const LandmarkCount: nat := 21

  // Positions in the landmark set, as numbered by the hand landmark model.
  const ThumbMcp: nat := 2
  const ThumbTip: nat := 4
  const IndexMcp: nat := 5
  const IndexTip: nat := 8
  const MiddleTip: nat := 12
  const RingTip: nat := 16
  const PinkyTip: nat := 20

  /** A complete landmark set for one detected hand. */
  predicate IsHand(lm: seq<Landmark>) {
    |lm| == LandmarkCount
  }

  /** The labels the classifier can produce; NoGesture is the label 'none'. */
  datatype Gesture = Fist | Peace | ThreeFingers | ThumbUp | ThumbDown | NoGesture

  /** All four fingertips lie below the thumb's MCP joint. */
  predicate FistShape(lm: seq<Landmark>)
    requires IsHand(lm)
  {
    var mcp := lm[ThumbMcp].y;
    lm[IndexTip].y > mcp && lm[MiddleTip].y > mcp && lm[RingTip].y > mcp && lm[PinkyTip].y > mcp
  }

  /** Index tip above the middle tip, ring and pinky tips below it. */
  predicate PeaceShape(lm: seq<Landmark>)
    requires IsHand(lm)
  {
    lm[IndexTip].y < lm[MiddleTip].y && lm[RingTip].y > lm[MiddleTip].y && lm[PinkyTip].y > lm[MiddleTip].y
  }

  /** Index, middle and ring tips strictly descending, pinky tip below the ring tip. */
  predicate ThreeFingersShape(lm: seq<Landmark>)
    requires IsHand(lm)
  {
    lm[IndexTip].y < lm[MiddleTip].y && lm[MiddleTip].y < lm[RingTip].y && lm[PinkyTip].y > lm[RingTip].y
  }

  /** Thumb tip above the index finger's MCP joint. */
  predicate ThumbUpShape(lm: seq<Landmark>)
    requires IsHand(lm)
  {
    lm[ThumbTip].y < lm[IndexMcp].y
  }

  /** Thumb tip below the pinky tip. */
  predicate ThumbDownShape(lm: seq<Landmark>)
    requires IsHand(lm)
  {
    lm[ThumbTip].y > lm[PinkyTip].y
  }

  /** The geometric condition that each label's rule tests; 'none' is the catch-all. */
  predicate Holds(g: Gesture, lm: seq<Landmark>)
    requires IsHand(lm)
  {
    match g
    case Fist => FistShape(lm)
    case Peace => PeaceShape(lm)
    case ThreeFingers => ThreeFingersShape(lm)
    case ThumbUp => ThumbUpShape(lm)
    case ThumbDown => ThumbDownShape(lm)
    case NoGesture => true
  }

  /**
   * detect_gesture: the first rule that holds, in the order fist, peace,
   * three fingers, thumb up, thumb down; 'none' when no rule holds.
   */
  function Classify(lm: seq<Landmark>): (g: Gesture)
    requires IsHand(lm)
    ensures Holds(g, lm)
    ensures FistShape(lm) ==> g == Fist
    ensures g != ThreeFingers
  {
    if FistShape(lm) then Fist
    else if PeaceShape(lm) then Peace
    else if ThreeFingersShape(lm) then ThreeFingers
    else if ThumbUpShape(lm) then ThumbUp
    else if ThumbDownShape(lm) then ThumbDown
    else NoGesture
  }

  /** The classifier's rules as an explicit ordered list, evaluated top to bottom. */
  const RuleOrder: seq<Gesture> := [Fist, Peace, ThreeFingers, ThumbUp, ThumbDown]

  /** Reference classifier: the label of the first rule in `rules` that holds, else 'none'. */
  function FirstRule(rules: seq<Gesture>, lm: seq<Landmark>): (g: Gesture)
    requires IsHand(lm)
    ensures Holds(g, lm)
    ensures g == NoGesture || g in rules
    ensures (forall i :: 0 <= i < |rules| ==> !Holds(rules[i], lm)) ==> g == NoGesture
    ensures |rules| > 0 && Holds(rules[0], lm) ==> g == rules[0]
    ensures forall k :: 0 <= k < |rules| && Holds(rules[k], lm) && (forall j :: 0 <= j < k ==> !Holds(rules[j], lm))
              ==> g == rules[k]
    decreases |rules|
  {
    if |rules| == 0 then NoGesture
    else if Holds(rules[0], lm) then rules[0]
    else FirstRule(rules[1..], lm)
  }

  /** The nested conditionals of the classifier agree with the ordered rule list. */
  lemma ClassifyFollowsRuleOrder(lm: seq<Landmark>)
    requires IsHand(lm)
    ensures Classify(lm) == FirstRule(RuleOrder, lm)
  {
  }

  /** The three-fingers condition implies the peace condition. */
  lemma ThreeFingersImpliesPeace(lm: seq<Landmark>)
    requires IsHand(lm)
    ensures ThreeFingersShape(lm) ==> PeaceShape(lm)
  {
  }

  /** Hence every three-fingers hand that is not a fist is classified as peace. */
  lemma PeaceExactly(lm: seq<Landmark>)
    requires IsHand(lm)
    ensures Classify(lm) == Peace <==> !FistShape(lm) && (PeaceShape(lm) || ThreeFingersShape(lm))
  {
  }

  /** The thumb labels and 'none' are reached exactly when the earlier rules all fail. */
  lemma ThumbAndNoneExactly(lm: seq<Landmark>)
    requires IsHand(lm)
    ensures Classify(lm) == ThumbUp <==>
              !FistShape(lm) && !PeaceShape(lm) && ThumbUpShape(lm)
    ensures Classify(lm) == ThumbDown <==>
              !FistShape(lm) && !PeaceShape(lm) && lm[ThumbTip].y >= lm[IndexMcp].y && lm[ThumbTip].y > lm[PinkyTip].y
    ensures Classify(lm) == NoGesture <==>
              !FistShape(lm) && !PeaceShape(lm) && !ThumbUpShape(lm) && !ThumbDownShape(lm)
  {
  }

  /** Every label but three fingers is produced by some landmark set. */
  lemma ReachableLabels(g: Gesture)
    requires g != ThreeFingers
    ensures exists lm :: IsHand(lm) && Classify(lm) == g
  {
    var ys: seq<real> := match g
      case Fist =>       [0.0, 0.0, 0.0, 0.0, 0.0, 0.0, 0.0, 0.0, 1.0, 0.0, 0.0, 0.0, 1.0, 0.0, 0.0, 0.0, 1.0, 0.0, 0.0, 0.0, 1.0]
      case Peace =>      [0.0, 0.0, 1.0, 0.0, 0.0, 0.0, 0.0, 0.0, 0.1, 0.0, 0.0, 0.0, 0.5, 0.0, 0.0, 0.0, 0.6, 0.0, 0.0, 0.0, 0.7]
      case ThumbUp =>    [0.0, 0.0, 1.0, 0.0, 0.1, 0.5, 0.0, 0.0, 0.5, 0.0, 0.0, 0.0, 0.5, 0.0, 0.0, 0.0, 0.5, 0.0, 0.0, 0.0, 0.5]
      case ThumbDown =>  [0.0, 0.0, 1.0, 0.0, 0.9, 0.5, 0.0, 0.0, 0.5, 0.0, 0.0, 0.0, 0.5, 0.0, 0.0, 0.0, 0.5, 0.0, 0.0, 0.0, 0.5]
      case _ =>          [0.0, 0.0, 1.0, 0.0, 0.5, 0.5, 0.0, 0.0, 0.5, 0.0, 0.0, 0.0, 0.5, 0.0, 0.0, 0.0, 0.5, 0.0, 0.0, 0.0, 0.5];
    var lm := seq(LandmarkCount, i requires 0 <= i < LandmarkCount => Landmark(0.5, ys[i]));
    assert IsHand(lm) && Classify(lm) == g;
  }
}
