/** The run/pause/step control of the window.

    `running` persists from frame to frame and is flipped by the space key;
    `nextFrame` is a one-shot request for a single generation, set by the
    right-arrow key and cleared by the frame that observes it.
 */
module Control {

  datatype Control = Control(running: bool, nextFrame: bool)

  /** Key code of the space bar (java.awt.event.KeyEvent.VK_SPACE). */
  const SpaceKey: int := 0x20
  /** Key code of the right arrow (java.awt.event.KeyEvent.VK_RIGHT). */
  const RightKey: int := 0x27

  /** The window starts paused with no step requested. */
  const Initial: Control := Control(false, false)

  /** A frame computes a generation when the simulation runs or a single
      step was requested. */
  predicate Advances(ctl: Control) {
    ctl.running || ctl.nextFrame
  }

  /** The effect of one key press on the control flags. */
  function KeyPressed(ctl: Control, code: int): (c: Control)
    ensures code == SpaceKey ==> c == Control(!ctl.running, ctl.nextFrame)
    ensures code == RightKey ==> c == Control(ctl.running, true)
    ensures code != SpaceKey && code != RightKey ==> c == ctl
  {
    var c1 := if code == SpaceKey then ctl.(running := !ctl.running) else ctl;
    if code == RightKey then c1.(nextFrame := true) else c1
  }

  /** Two presses of the space bar cancel out. */
  lemma SpaceTwiceRestores(ctl: Control)
    ensures KeyPressed(KeyPressed(ctl, SpaceKey), SpaceKey) == ctl
  {
  }

  /** A step request is a flag, not a counter: pressing the right arrow again
      before a frame has consumed the request changes nothing. */
  lemma RightIsIdempotent(ctl: Control)
    ensures KeyPressed(KeyPressed(ctl, RightKey), RightKey) == KeyPressed(ctl, RightKey)
  {
  }

  /** After a key press the next frame advances iff the simulation runs or a
      step was asked for, either before or by this press. */
  lemma KeyPressedAdvances(ctl: Control, code: int)
    ensures Advances(KeyPressed(ctl, code)) <==>
              (ctl.running != (code == SpaceKey)) || ctl.nextFrame || code == RightKey
  {
  }

  /** The flags after a frame: `running` is kept and any step request is
      consumed. */
  function AfterFrame(ctl: Control): (c: Control)
    ensures c.running == ctl.running
    ensures !c.nextFrame
    ensures !Advances(ctl) ==> c == ctl
  {
    if Advances(ctl) then ctl.(nextFrame := false) else ctl
  }
}
