/**
 * The per-hand decision logic of the capture loop, as pure functions: where the
 * pointer goes, which gesture-to-action binding fires, what input event it
 * produces and how the last-click timestamp evolves, one hand and then a
 * whole run of captured frames at a time.
 */
module Dispatch {
  import opened Wrappers
  import opened Gestures

  /** The input actions a gesture can be bound to. */
  datatype Action = Click | RightClick | DoubleClick | ScrollUp | ScrollDown

  /** One entry of the gesture-to-action table: `action` fires on `trigger`. */
  datatype Binding = Binding(action: Action, trigger: Gesture)

  /** The table's keys, in insertion order. */
  const ActionOrder: seq<Action> := [Click, RightClick, DoubleClick, ScrollUp, ScrollDown]

  /** The table the controller is created with. */
  const DefaultBindings: seq<Binding> :=
    [Binding(Click, Fist), Binding(RightClick, Peace), Binding(DoubleClick, ThreeFingers),
     Binding(ScrollUp, ThumbUp), Binding(ScrollDown, ThumbDown)]

  /** A double click fires only if the last click is strictly less than this many seconds old. */
  const DoubleClickWindow: real := 0.5

  /** Magnitude of one scroll event. */
  const ScrollStep: int := 100

  /** The input events injected into the operating system (besides pointer moves). */
  datatype Event = MouseClick | MouseRightClick | MouseDoubleClick | MouseScroll(clicks: int)

  /** A pointer target in screen pixels. */
  datatype ScreenPoint = ScreenPoint(x: int, y: int)

  /** What one detected hand produces: a pointer move and at most one input event. */
  datatype HandOutput = HandOutput(moveTo: ScreenPoint, event: Option<Event>)

  /** One detected hand with the clock reading taken while handling it. */
  datatype Hand = Hand(landmarks: seq<Landmark>, time: real)

  /** One iteration of the capture loop: a failed read, or the hands found in the image. */
  datatype Frame = Dropped | Captured(hands: seq<Hand>)

  // ---------------------------------------------------------------------------
  // Pointer scaling

  /** Conversion of a real to an integer by truncation toward zero. */
  function Trunc(v: real): (n: int)
    ensures 0.0 <= v ==> 0 <= n && n as real <= v < n as real + 1.0
    ensures v < 0.0 ==> n <= 0 && n as real - 1.0 < v <= n as real
  {
    if v >= 0.0 then v.Floor else -((-v).Floor)
  }

  /** A normalised coordinate scaled to a screen dimension and truncated. */
  function ScaleToScreen(c: real, dim: nat): (n: int)
    ensures 0.0 <= c <= 1.0 ==> 0 <= n <= dim
    ensures c == 1.0 ==> n == dim
    ensures 0.0 <= c ==> n as real <= c * dim as real < n as real + 1.0
  {
    ScaledWithin(c, dim);
    Trunc(c * dim as real)
  }

  /** A coordinate in [0,1] times a dimension truncates into [0, dimension]. */
  lemma ScaledWithin(c: real, dim: nat)
    ensures 0.0 <= c ==> 0.0 <= c * dim as real
    ensures 0.0 <= c <= 1.0 ==> 0 <= Trunc(c * dim as real) <= dim
    ensures c == 1.0 ==> Trunc(c * dim as real) == dim
  {
    var d := dim as real;
    var v := c * d;
    if 0.0 <= c {
      ProductNonNegative(c, d);
    }
    if 0.0 <= c <= 1.0 {
      ProductNonNegative(1.0 - c, d);
      assert (1.0 - c) * d == d - v;
      var n := Trunc(v);
      assert n as real <= d;
    }
    if c == 1.0 {
      assert v == d;
      assert d.Floor == dim;
    }
  }

  /** Non-negative reals have a non-negative product. */
  lemma ProductNonNegative(a: real, b: real)
    requires 0.0 <= a && 0.0 <= b
    ensures 0.0 <= a * b
  {
  }

  /** The pointer target: the index fingertip scaled to the screen. */
  function PointerTarget(lm: seq<Landmark>, screenW: nat, screenH: nat): (p: ScreenPoint)
    requires IsHand(lm)
    ensures 0.0 <= lm[IndexTip].x <= 1.0 ==> 0 <= p.x <= screenW
    ensures 0.0 <= lm[IndexTip].y <= 1.0 ==> 0 <= p.y <= screenH
    ensures lm[IndexTip].x == 1.0 ==> p.x == screenW
    ensures lm[IndexTip].y == 1.0 ==> p.y == screenH
  {
    ScreenPoint(ScaleToScreen(lm[IndexTip].x, screenW), ScaleToScreen(lm[IndexTip].y, screenH))
  }

  // ---------------------------------------------------------------------------
  // Binding walk

  /** No binding before position `k` is triggered by `g`. */
  predicate NoMatchBefore(bs: seq<Binding>, g: Gesture, k: nat)
    requires k <= |bs|
  {
    forall j :: 0 <= j < k ==> bs[j].trigger != g
  }

  /** The position of the first binding, in table order, whose trigger is `g`. */
  function FirstMatch(bs: seq<Binding>, g: Gesture): (r: Option<nat>)
    ensures r.Some? ==> r.value < |bs| && bs[r.value].trigger == g && NoMatchBefore(bs, g, r.value)
    ensures r.None? ==> NoMatchBefore(bs, g, |bs|)
    decreases |bs|
  {
    if |bs| == 0 then None
    else if bs[0].trigger == g then Some(0)
    else match FirstMatch(bs[1..], g)
      case None => None
      case Some(k) => Some(k + 1)
  }

  /** The action of the first binding triggered by `g`, if any. */
  function Selected(bs: seq<Binding>, g: Gesture): (r: Option<Action>)
    ensures r.None? <==> NoMatchBefore(bs, g, |bs|)
    ensures r.Some? ==> exists k :: 0 <= k < |bs| && bs[k].trigger == g && bs[k].action == r.value && NoMatchBefore(bs, g, k)
  {
    match FirstMatch(bs, g)
    case None => None
    case Some(k) => Some(bs[k].action)
  }

  /** The event an action injects when it fires. */
  function EventOf(a: Action): (e: Event)
    ensures e.MouseScroll? <==> a == ScrollUp || a == ScrollDown
    ensures e.MouseScroll? ==> (e.clicks == ScrollStep <==> a == ScrollUp) && (e.clicks == -ScrollStep <==> a == ScrollDown)
    ensures e == MouseClick <==> a == Click
    ensures e == MouseRightClick <==> a == RightClick
    ensures e == MouseDoubleClick <==> a == DoubleClick
  {
    match a
    case Click => MouseClick
    case RightClick => MouseRightClick
    case DoubleClick => MouseDoubleClick
    case ScrollUp => MouseScroll(ScrollStep)
    case ScrollDown => MouseScroll(-ScrollStep)
  }

  // ---------------------------------------------------------------------------
  // One hand

  /**
   * One detected hand: classify it, move the pointer, fire the first matching
   * binding; returns the output and the new last-click time.
   */
  function HandStep(bs: seq<Binding>, screenW: nat, screenH: nat, lastClick: real, hand: Hand): (r: (HandOutput, real))
    requires IsHand(hand.landmarks)
    ensures r.0.moveTo == PointerTarget(hand.landmarks, screenW, screenH)
    ensures r.1 == if Selected(bs, Classify(hand.landmarks)) == Some(Click) then hand.time else lastClick
    ensures r.0.event.Some? ==>
              Selected(bs, Classify(hand.landmarks)).Some?
              && r.0.event.value == EventOf(Selected(bs, Classify(hand.landmarks)).value)
    ensures r.0.event.None? <==>
              Selected(bs, Classify(hand.landmarks)).None?
              || (Selected(bs, Classify(hand.landmarks)) == Some(DoubleClick) && hand.time - lastClick >= DoubleClickWindow)
  {
    var lm := hand.landmarks;
    var target := PointerTarget(lm, screenW, screenH);
    match Selected(bs, Classify(lm))
    case None => (HandOutput(target, None), lastClick)
    case Some(Click) => (HandOutput(target, Some(MouseClick)), hand.time)
    case Some(DoubleClick) =>
      if hand.time - lastClick < DoubleClickWindow then (HandOutput(target, Some(MouseDoubleClick)), lastClick)
      else (HandOutput(target, None), lastClick)
    case Some(a) => (HandOutput(target, Some(EventOf(a))), lastClick)
  }

  // ---------------------------------------------------------------------------
  // Facts about one hand

  /** Of several bindings sharing a trigger, only the earliest in table order fires. */
  lemma EarliestBindingFires(bs: seq<Binding>, g: Gesture, i: nat)
    requires i < |bs| && bs[i].trigger == g && NoMatchBefore(bs, g, i)
    ensures Selected(bs, g) == Some(bs[i].action)
    ensures forall j :: i < j < |bs| && bs[j].trigger == g ==> FirstMatch(bs, g) != Some(j)
  {
  }

  /** The double-click window is strict: 0.499 s after a click fires, 0.5 s does not. */
  lemma DoubleClickBoundary(bs: seq<Binding>, screenW: nat, screenH: nat, lastClick: real, hand: Hand)
    requires IsHand(hand.landmarks)
    requires Selected(bs, Classify(hand.landmarks)) == Some(DoubleClick)
    ensures hand.time - lastClick == 0.5 ==> HandStep(bs, screenW, screenH, lastClick, hand).0.event == None
    ensures hand.time - lastClick == 0.499 ==> HandStep(bs, screenW, screenH, lastClick, hand).0.event == Some(MouseDoubleClick)
  {
  }

  /** A hand classified 'none' does nothing when no binding is triggered by 'none'. */
  lemma UnrecognisedDoesNothing(bs: seq<Binding>, screenW: nat, screenH: nat, lastClick: real, hand: Hand)
    requires IsHand(hand.landmarks) && Classify(hand.landmarks) == NoGesture
    requires forall i :: 0 <= i < |bs| ==> bs[i].trigger != NoGesture
    ensures HandStep(bs, screenW, screenH, lastClick, hand) == (HandOutput(PointerTarget(hand.landmarks, screenW, screenH), None), lastClick)
  {
  }

  /** Which action each gesture selects in the default table. */
  lemma DefaultSelection(g: Gesture)
    ensures Selected(DefaultBindings, g) ==
      match g
      case Fist => Some(Click)
      case Peace => Some(RightClick)
      case ThreeFingers => Some(DoubleClick)
      case ThumbUp => Some(ScrollUp)
      case ThumbDown => Some(ScrollDown)
      case NoGesture => None
  {
  }

  // ---------------------------------------------------------------------------
  // A run over many frames

  /** Every hand carries a complete landmark set. */
  predicate HandsOk(hands: seq<Hand>) {
    forall i :: 0 <= i < |hands| ==> IsHand(hands[i].landmarks)
  }

  /** Every captured frame's hands carry complete landmark sets. */
  predicate FramesOk(frames: seq<Frame>) {
    forall i :: 0 <= i < |frames| ==> frames[i].Captured? ==> HandsOk(frames[i].hands)
  }

  /** The hands of a frame; a failed read contributes none. */
  function HandsIn(f: Frame): seq<Hand>
  {
    match f
    case Dropped => []
    case Captured(hs) => hs
  }

  /** The hands handled over a run, in order; failed reads are skipped. */
  function HandsOf(frames: seq<Frame>): (hs: seq<Hand>)
    ensures FramesOk(frames) ==> HandsOk(hs)
    decreases |frames|
  {
    if frames == [] then []
    else HandsOf(frames[..|frames| - 1]) + HandsIn(frames[|frames| - 1])
  }

  /** The outputs of handling `hands` in order, threading the last-click time. */
  function RunHands(bs: seq<Binding>, screenW: nat, screenH: nat, lastClick: real, hands: seq<Hand>): (r: (seq<HandOutput>, real))
    requires HandsOk(hands)
    ensures |r.0| == |hands|
    decreases |hands|
  {
    if hands == [] then ([], lastClick)
    else
      var prev := RunHands(bs, screenW, screenH, lastClick, hands[..|hands| - 1]);
      var step := HandStep(bs, screenW, screenH, prev.1, hands[|hands| - 1]);
      (prev.0 + [step.0], step.1)
  }

  /** Handling `xs` and then `ys` is handling `xs + ys`. */
  lemma {:induction false} RunHandsAppend(bs: seq<Binding>, screenW: nat, screenH: nat, lastClick: real, xs: seq<Hand>, ys: seq<Hand>)
    requires HandsOk(xs) && HandsOk(ys)
    ensures HandsOk(xs + ys)
    ensures var first := RunHands(bs, screenW, screenH, lastClick, xs);
            var second := RunHands(bs, screenW, screenH, first.1, ys);
            RunHands(bs, screenW, screenH, lastClick, xs + ys) == (first.0 + second.0, second.1)
    decreases |ys|
  {
    var first := RunHands(bs, screenW, screenH, lastClick, xs);
    if ys == [] {
      assert xs + ys == xs;
      assert first.0 + [] == first.0;
    } else {
      var ys' := ys[..|ys| - 1];
      var y := ys[|ys| - 1];
      assert HandsOk(ys');
      RunHandsAppend(bs, screenW, screenH, lastClick, xs, ys');
      var mid := RunHands(bs, screenW, screenH, first.1, ys');
      var whole := RunHands(bs, screenW, screenH, lastClick, xs + ys');
      assert whole == (first.0 + mid.0, mid.1);
      var step := HandStep(bs, screenW, screenH, mid.1, y);
      assert (xs + ys)[..|xs + ys| - 1] == xs + ys';
      assert (xs + ys)[|xs + ys| - 1] == y;
      assert RunHands(bs, screenW, screenH, lastClick, xs + ys) == (whole.0 + [step.0], step.1);
      assert RunHands(bs, screenW, screenH, first.1, ys) == (mid.0 + [step.0], step.1);
      assert (first.0 + mid.0) + [step.0] == first.0 + (mid.0 + [step.0]);
    }
  }

  /** The outputs of a whole run of the capture loop over `frames`. */
  function Trace(bs: seq<Binding>, screenW: nat, screenH: nat, lastClick: real, frames: seq<Frame>): (r: (seq<HandOutput>, real))
    requires FramesOk(frames)
    ensures |r.0| == |HandsOf(frames)|
  {
    RunHands(bs, screenW, screenH, lastClick, HandsOf(frames))
  }

  /** A failed camera read changes neither the outputs nor the last-click time. */
  lemma DroppedFrameChangesNothing(bs: seq<Binding>, screenW: nat, screenH: nat, lastClick: real, frames: seq<Frame>)
    requires FramesOk(frames)
    ensures FramesOk(frames + [Dropped])
    ensures Trace(bs, screenW, screenH, lastClick, frames + [Dropped]) == Trace(bs, screenW, screenH, lastClick, frames)
  {
    assert (frames + [Dropped])[..|frames|] == frames;
    assert HandsOf(frames + [Dropped]) == HandsOf(frames) + [];
    assert HandsOf(frames) + [] == HandsOf(frames);
  }

  /** Output `i` of a run is one hand step from the last-click time left by the hands before it. */
  lemma {:induction false} RunHandsAt(bs: seq<Binding>, screenW: nat, screenH: nat, lastClick: real, hands: seq<Hand>, i: nat)
    requires HandsOk(hands) && i < |hands|
    ensures HandsOk(hands[..i])
    ensures RunHands(bs, screenW, screenH, lastClick, hands).0[i]
            == HandStep(bs, screenW, screenH, RunHands(bs, screenW, screenH, lastClick, hands[..i]).1, hands[i]).0
    decreases |hands|
  {
    assert HandsOk(hands[..i]) by {
      forall k | 0 <= k < i ensures IsHand(hands[..i][k].landmarks) { assert hands[..i][k] == hands[k]; }
    }
    var init := hands[..|hands| - 1];
    if i < |hands| - 1 {
      RunHandsAt(bs, screenW, screenH, lastClick, init, i);
      assert init[..i] == hands[..i];
    }
  }

  /** The last-click time after a run is the initial one or the time of a hand that selected click. */
  lemma {:induction false} LastClickFromClickHand(bs: seq<Binding>, screenW: nat, screenH: nat, lastClick: real, hands: seq<Hand>)
    requires HandsOk(hands)
    ensures var t := RunHands(bs, screenW, screenH, lastClick, hands).1;
            t == lastClick
            || exists j :: 0 <= j < |hands| && Selected(bs, Classify(hands[j].landmarks)) == Some(Click) && hands[j].time == t
    decreases |hands|
  {
    if hands != [] {
      var init := hands[..|hands| - 1];
      LastClickFromClickHand(bs, screenW, screenH, lastClick, init);
      var t0 := RunHands(bs, screenW, screenH, lastClick, init).1;
      if t0 != lastClick {
        var j :| 0 <= j < |init| && Selected(bs, Classify(init[j].landmarks)) == Some(Click) && init[j].time == t0;
        assert hands[j] == init[j];
      }
    }
  }

  /**
   * A double click is injected only within the window after a click fired for
   * an earlier hand, provided the hand's clock reading is at least one window
   * past the initial last-click time (as the wall clock is, against the initial 0).
   */
  lemma DoubleClickNeedsEarlierClick(bs: seq<Binding>, screenW: nat, screenH: nat, lastClick: real, hands: seq<Hand>, i: nat)
    requires HandsOk(hands) && i < |hands|
    requires hands[i].time >= lastClick + DoubleClickWindow
    requires RunHands(bs, screenW, screenH, lastClick, hands).0[i].event == Some(MouseDoubleClick)
    ensures exists j :: 0 <= j < i && Selected(bs, Classify(hands[j].landmarks)) == Some(Click)
                        && hands[i].time - hands[j].time < DoubleClickWindow
  {
    RunHandsAt(bs, screenW, screenH, lastClick, hands, i);
    var before := hands[..i];
    var t := RunHands(bs, screenW, screenH, lastClick, before).1;
    LastClickFromClickHand(bs, screenW, screenH, lastClick, before);
    assert hands[i].time - t < DoubleClickWindow;
    var j :| 0 <= j < |before| && Selected(bs, Classify(before[j].landmarks)) == Some(Click) && before[j].time == t;
    assert hands[j] == before[j];
  }

  /** Output `i` of a run is a click exactly when hand `i` selects click. */
  lemma ClickExactlyOnSelection(bs: seq<Binding>, screenW: nat, screenH: nat, lastClick: real, hands: seq<Hand>)
    requires HandsOk(hands)
    ensures forall i :: 0 <= i < |hands| ==>
              (RunHands(bs, screenW, screenH, lastClick, hands).0[i].event == Some(MouseClick)
               <==> Selected(bs, Classify(hands[i].landmarks)) == Some(Click))
  {
    forall i | 0 <= i < |hands|
      ensures RunHands(bs, screenW, screenH, lastClick, hands).0[i].event == Some(MouseClick)
              <==> Selected(bs, Classify(hands[i].landmarks)) == Some(Click)
    {
      RunHandsAt(bs, screenW, screenH, lastClick, hands, i);
    }
  }

  /** With the default table, output `i` of a run is a click exactly when hand `i` is a fist. */
  lemma FistHandsClick(screenW: nat, screenH: nat, lastClick: real, hands: seq<Hand>)
    requires HandsOk(hands)
    ensures forall i :: 0 <= i < |hands| ==>
              (RunHands(DefaultBindings, screenW, screenH, lastClick, hands).0[i].event == Some(MouseClick)
               <==> Classify(hands[i].landmarks) == Fist)
  {
    ClickExactlyOnSelection(DefaultBindings, screenW, screenH, lastClick, hands);
    forall i | 0 <= i < |hands|
      ensures Selected(DefaultBindings, Classify(hands[i].landmarks)) == Some(Click) <==> Classify(hands[i].landmarks) == Fist
    {
      DefaultSelection(Classify(hands[i].landmarks));
    }
  }

  /** How many outputs inject the event `e`. */
  function CountEvents(outs: seq<HandOutput>, e: Event): nat
    decreases |outs|
  {
    if outs == [] then 0
    else CountEvents(outs[..|outs| - 1], e) + if outs[|outs| - 1].event == Some(e) then 1 else 0
  }

  /** How many hands select the action `a`. */
  function CountSelecting(bs: seq<Binding>, hands: seq<Hand>, a: Action): nat
    requires HandsOk(hands)
    decreases |hands|
  {
    if hands == [] then 0
    else CountSelecting(bs, hands[..|hands| - 1], a)
         + if Selected(bs, Classify(hands[|hands| - 1].landmarks)) == Some(a) then 1 else 0
  }

  /** How many hands are classified as `g`. */
  function CountClassified(hands: seq<Hand>, g: Gesture): nat
    requires HandsOk(hands)
    decreases |hands|
  {
    if hands == [] then 0
    else CountClassified(hands[..|hands| - 1], g) + if Classify(hands[|hands| - 1].landmarks) == g then 1 else 0
  }

  /** Every hand whose first matching binding is 'click' clicks; no other hand does. */
  lemma {:induction false} ClicksMatchSelections(bs: seq<Binding>, screenW: nat, screenH: nat, lastClick: real, hands: seq<Hand>)
    requires HandsOk(hands)
    ensures CountEvents(RunHands(bs, screenW, screenH, lastClick, hands).0, MouseClick) == CountSelecting(bs, hands, Click)
    decreases |hands|
  {
    if hands != [] {
      var init := hands[..|hands| - 1];
      ClicksMatchSelections(bs, screenW, screenH, lastClick, init);
      var prev := RunHands(bs, screenW, screenH, lastClick, init);
      var outs := RunHands(bs, screenW, screenH, lastClick, hands).0;
      assert outs[..|outs| - 1] == prev.0;
    }
  }

  /** With the default table the hands that select 'click' are exactly the fists. */
  lemma {:induction false} DefaultClickSelectors(hands: seq<Hand>)
    requires HandsOk(hands)
    ensures CountSelecting(DefaultBindings, hands, Click) == CountClassified(hands, Fist)
    decreases |hands|
  {
    if hands != [] {
      DefaultClickSelectors(hands[..|hands| - 1]);
      DefaultSelection(Classify(hands[|hands| - 1].landmarks));
    }
  }

  /**
   * With the default table a run clicks once for every hand classified as a
   * fist: a fist held over several frames clicks on each of them.
   */
  lemma ClicksMatchFistHands(screenW: nat, screenH: nat, lastClick: real, frames: seq<Frame>)
    requires FramesOk(frames)
    ensures CountEvents(Trace(DefaultBindings, screenW, screenH, lastClick, frames).0, MouseClick)
            == CountClassified(HandsOf(frames), Fist)
  {
    ClicksMatchSelections(DefaultBindings, screenW, screenH, lastClick, HandsOf(frames));
    DefaultClickSelectors(HandsOf(frames));
  }

  /**
   * With the default table no double click is ever injected: its trigger,
   * three fingers, is never the classifier's result.
   */
  lemma {:induction false} DefaultNeverDoubleClicks(screenW: nat, screenH: nat, lastClick: real, hands: seq<Hand>)
    requires HandsOk(hands)
    ensures forall i :: 0 <= i < |hands| ==>
              RunHands(DefaultBindings, screenW, screenH, lastClick, hands).0[i].event != Some(MouseDoubleClick)
    decreases |hands|
  {
    if hands != [] {
      var init := hands[..|hands| - 1];
      DefaultNeverDoubleClicks(screenW, screenH, lastClick, init);
      DefaultSelection(Classify(hands[|hands| - 1].landmarks));
    }
  }
}
