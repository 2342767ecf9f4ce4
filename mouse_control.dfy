/**
 * The stateful part of the controller: HandGestureController, whose frame
 * loop moves the pointer, fires bindings and updates the last-click time in
 * place, and App, whose Start snapshots the user's binding choices into the
 * controller when it is not running. Each method is proved against the pure
 * functions of Dispatch.
 */
module MouseControl {
  import opened Wrappers
  import opened Gestures
  import opened Dispatch

  class HandGestureController {
    /** Screen size in pixels, read once at construction. */
    const screenW: nat
    const screenH: nat
    var running: bool
    /** The gesture-to-action table, in insertion order. */
    var bindings: seq<Binding>
    var lastClickTime: real

    constructor (w: nat, h: nat)
      ensures screenW == w && screenH == h
      ensures !running && bindings == DefaultBindings && lastClickTime == 0.0
    {
      screenW, screenH := w, h;
      running := false;
      bindings := DefaultBindings;
      lastClickTime := 0.0;
    }

    /**
     * Handle one detected hand: move the pointer to the index fingertip, then
     * walk the table and fire the first binding whose trigger is the hand's
     * gesture, stopping there whether or not it injects anything.
     */
    method HandleHand(hand: Hand) returns (out: HandOutput)
      requires IsHand(hand.landmarks)
      modifies this`lastClickTime
      ensures (out, lastClickTime) == HandStep(bindings, screenW, screenH, old(lastClickTime), hand)
    {
      var lm := hand.landmarks;
      var gesture := Classify(lm);
      var target := ScreenPoint(ScaleToScreen(lm[IndexTip].x, screenW), ScaleToScreen(lm[IndexTip].y, screenH));
      var event: Option<Event> := None;
      var i := 0;
      while i < |bindings|
        invariant 0 <= i <= |bindings|
        invariant NoMatchBefore(bindings, gesture, i)
        invariant event == None && lastClickTime == old(lastClickTime)
      {
        if bindings[i].trigger == gesture {
          var action := bindings[i].action;
          if action == Click {
            event := Some(MouseClick);
            lastClickTime := hand.time;
          } else if action == RightClick {
            event := Some(MouseRightClick);
          } else if action == DoubleClick && hand.time - lastClickTime < DoubleClickWindow {
            event := Some(MouseDoubleClick);
          } else if action == ScrollUp {
            event := Some(MouseScroll(ScrollStep));
          } else if action == ScrollDown {
            event := Some(MouseScroll(-ScrollStep));
          }
          assert FirstMatch(bindings, gesture) == Some(i);
          break;
        }
        i := i + 1;
      }
      out := HandOutput(target, event);
    }

    /** Handle the hands found in one captured image, in the order reported. */
    method HandleFrame(hands: seq<Hand>) returns (outs: seq<HandOutput>)
      requires HandsOk(hands)
      modifies this`lastClickTime
      ensures (outs, lastClickTime) == RunHands(bindings, screenW, screenH, old(lastClickTime), hands)
    {
      outs := [];
      var j := 0;
      while j < |hands|
        invariant 0 <= j <= |hands|
        invariant (outs, lastClickTime) == RunHands(bindings, screenW, screenH, old(lastClickTime), hands[..j])
      {
        var o := HandleHand(hands[j]);
        assert hands[..j + 1][..j] == hands[..j];
        outs := outs + [o];
        j := j + 1;
      }
      assert hands[..j] == hands;
    }

    /**
     * The capture loop over the frames read before Stop: failed reads are
     * skipped, every captured frame's hands are handled. Here the loop ends
     * when the frames run out, and clearing the flag afterwards stands for the
     * Stop that ends the real loop.
     */
    method Run(frames: seq<Frame>) returns (outs: seq<HandOutput>)
      requires FramesOk(frames)
      modifies this`running, this`lastClickTime
      ensures (outs, lastClickTime) == Trace(bindings, screenW, screenH, old(lastClickTime), frames)
      ensures !running
    {
      running := true;
      outs := [];
      var i := 0;
      while i < |frames|
        invariant 0 <= i <= |frames|
        invariant FramesOk(frames[..i])
        invariant (outs, lastClickTime) == RunHands(bindings, screenW, screenH, old(lastClickTime), HandsOf(frames[..i]))
      {
        assert frames[..i + 1][..i] == frames[..i];
        assert FramesOk(frames[..i + 1]);
        ghost var done := HandsOf(frames[..i]);
        ghost var start := lastClickTime;
        var more: seq<HandOutput> := [];
        if frames[i].Captured? {
          more := HandleFrame(frames[i].hands);
        }
        assert (more, lastClickTime) == RunHands(bindings, screenW, screenH, start, HandsIn(frames[i]));
        RunHandsAppend(bindings, screenW, screenH, old(lastClickTime), done, HandsIn(frames[i]));
        outs := outs + more;
        i := i + 1;
      }
      assert frames[..i] == frames;
      running := false;
    }
  }

  /** The gestures the binding menus offer: every label except 'none'. */
  predicate Offered(g: Gesture) {
    g != NoGesture
  }

  /** A table with the fixed action keys in insertion order, each bound to an offered gesture. */
  predicate ChoicesOk(bs: seq<Binding>) {
    |bs| == |ActionOrder|
    && (forall i :: 0 <= i < |bs| ==> bs[i].action == ActionOrder[i] && Offered(bs[i].trigger))
  }

  /** No table the menus can produce fires anything for a hand classified 'none'. */
  lemma ChoicesIgnoreNoGesture(bs: seq<Binding>)
    requires ChoicesOk(bs)
    ensures Selected(bs, NoGesture) == None
  {
  }

  class App {
    const controller: HandGestureController
    /** The binding menus' current values, one per action, in the table's order. */
    var choices: seq<Binding>

    ghost predicate Valid()
      reads this
    {
      ChoicesOk(choices)
    }

    constructor (w: nat, h: nat)
      ensures Valid() && fresh(controller)
      ensures choices == DefaultBindings && controller.bindings == DefaultBindings
      ensures !controller.running && controller.lastClickTime == 0.0
      ensures controller.screenW == w && controller.screenH == h
    {
      controller := new HandGestureController(w, h);
      choices := DefaultBindings;
    }

    /** The user picks gesture `g` in the menu of the `i`-th action. */
    method Choose(i: nat, g: Gesture)
      requires Valid() && i < |choices| && Offered(g)
      modifies this`choices
      ensures Valid()
      ensures choices == old(choices)[i := Binding(old(choices)[i].action, g)]
    {
      choices := choices[i := Binding(choices[i].action, g)];
    }

    /**
     * Start: when the controller is not running, its table is replaced by a
     * snapshot of the menus; while it runs, the table is left as it is.
     * Sequentially the flag is always clear here; the running branch covers a
     * Start issued while a capture thread is active.
     */
    method Start()
      requires Valid()
      modifies controller`bindings
      ensures old(controller.running) ==> controller.bindings == old(controller.bindings)
      ensures !old(controller.running) ==> controller.bindings == choices && ChoicesOk(controller.bindings)
    {
      if !controller.running {
        controller.bindings := choices;
      }
    }

    /** Stop: clear the running flag; the capture loop observes it on its next iteration. */
    method Stop()
      modifies controller`running
      ensures !controller.running
    {
      controller.running := false;
    }
  }
}
