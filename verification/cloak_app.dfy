/**
 * The main loop of the cloak program as a state machine. Its state is
 * whether a background exists (and which), the current cloak colour, the
 * static-background flag and whether the loop is still running. Each
 * iteration reads a frame and one key; key `b` captures a background from
 * twenty further camera reads.
 *
 * Camera reads and key presses are inputs (an Event per iteration), the
 * display is left out. The pure functions Init, Step and Run are the
 * specification; the class CloakLoop is the loop itself, proved against it.
 */
module CloakApp {
  import opened Images
  import opened CloakMask

  /** The `MIRROR` user option. */
  const Mirror := true

  /** Number of camera reads a background capture makes. */
  const CaptureCount := 20

  // Key codes, as `cv2.waitKey(1) & 0xFF` reports them.
  const KeyQuit: Byte := 113     // 'q'
  const KeyCapture: Byte := 98   // 'b'
  const KeyRed: Byte := 49       // '1'
  const KeyBlue: Byte := 50      // '2'
  const KeyGreen: Byte := 51     // '3'

  /** The results of the twenty reads of one capture; None is a failed read. */
  type CaptureReads = s: seq<Option<Frame>> | |s| == CaptureCount
    witness seq(CaptureCount, i => None)

  /**
   * Why the loop is (not) running: Quit after key `q`, ReadFailed after a
   * failed frame read, Crashed when OpenCV or Python raises: a capture that
   * ends on a failed read calls `bg.copy()` on None, and compositing with a
   * background whose size differs from the frame's is refused by
   * `cv2.bitwise_and`.
   */
  datatype Status = Running | Quit | ReadFailed | Crashed

  /** What one iteration of the loop receives from the camera and keyboard. */
  datatype Event = Event(frame: Option<Frame>, key: Byte, grabs: CaptureReads)

  /** The variables the main loop updates. */
  datatype AppState = AppState(
    background: Option<Frame>,
    colour: string,
    useBackgroundImage: bool,
    status: Status)

  predicate IsColourKey(key: Byte)
  {
    key == KeyRed || key == KeyBlue || key == KeyGreen
  }

  /** The `{'1':'red','2':'blue','3':'green'}` lookup. */
  function ColourOf(key: Byte): (colour: string)
    requires IsColourKey(key)
    ensures key == KeyRed ==> colour == "red"
    ensures key == KeyBlue ==> colour == "blue"
    ensures key == KeyGreen ==> colour == "green"
    ensures KnownColour(colour)
  {
    if key == KeyRed then "red" else if key == KeyBlue then "blue" else "green"
  }

  /** `cv2.flip(bg, 1)` when MIRROR is set. */
  function Mirrored(f: Frame): Frame
  {
    if Mirror then Flip(f) else f
  }

  /**
   * One read of the capture loop: `ret, bg = cap.read()` assigns None to
   * `bg` when the read fails (and the loop continues); a good read is
   * mirrored.
   */
  function Grab(read: Option<Frame>): Option<Frame>
  {
    match read
    case None => None
    case Some(f) => Some(Mirrored(f))
  }

  /** The value of `bg` after the capture loop has run over `grabs`, starting from `bg`. */
  function LastGrab(grabs: seq<Option<Frame>>, bg: Option<Frame>): Option<Frame>
    decreases |grabs|
  {
    if grabs == [] then bg else LastGrab(grabs[1..], Grab(grabs[0]))
  }

  /**
   * A capture keeps its last read only: the earlier reads are overwritten
   * and nothing is averaged.
   */
  lemma {:induction false} CaptureKeepsLastRead(grabs: seq<Option<Frame>>, bg: Option<Frame>)
    requires |grabs| > 0
    ensures LastGrab(grabs, bg) == Grab(grabs[|grabs| - 1])
    decreases |grabs|
  {
    if |grabs| > 1 {
      CaptureKeepsLastRead(grabs[1..], Grab(grabs[0]));
    }
  }

  /**
   * The capture after key `b`: the mirrored last read becomes the
   * background; if that read failed, `bg` is None and the program crashes.
   * The colour, the flag and a previous background are otherwise untouched.
   */
  function Capture(s: AppState, grabs: CaptureReads): (r: AppState)
    ensures grabs[CaptureCount - 1].Some? ==>
              r == s.(background := Some(Mirrored(grabs[CaptureCount - 1].value)))
    ensures grabs[CaptureCount - 1].None? ==> r == s.(status := Crashed)
  {
    CaptureKeepsLastRead(grabs, None);
    match LastGrab(grabs, None)
    case None => s.(status := Crashed)
    case Some(f) => s.(background := Some(f))
  }

  /**
   * The state before the loop. With the static-background option the
   * loaded picture (already resized) becomes the background; if loading
   * failed there is no background and the option is switched off.
   */
  function Init(useBackgroundImage: bool, loaded: Option<Frame>): (s: AppState)
    ensures s.status == Running && s.colour == "red"
    ensures s.background.Some? <==> useBackgroundImage && loaded.Some?
    ensures s.background.Some? ==> s.background == loaded
    ensures s.useBackgroundImage <==> useBackgroundImage && loaded.Some?
  {
    if useBackgroundImage && loaded.Some? then AppState(loaded, "red", true, Running)
    else AppState(None, "red", false, Running)
  }

  /**
   * The compositing step raises before any key is read: the background is
   * masked with a mask of the frame's size, which OpenCV refuses when the
   * sizes differ (a static picture of another size than the camera's).
   */
  predicate CompositeFails(s: AppState, frame: Frame)
  {
    s.background.Some? && !SameShape(s.background.value, frame)
  }

  /**
   * One iteration of the main loop. A failed frame read ends the loop.
   * Without a background, `q` quits, `b` captures and `1`/`2`/`3` choose
   * the colour. With a background the frame is first composited, which
   * crashes on a size mismatch; then the same keys apply, except that `b`
   * recaptures only when no static background image is in use. Every other
   * key changes nothing. A stopped loop takes no further steps.
   */
  function Step(s: AppState, ev: Event): (r: AppState)
    ensures s.status != Running ==> r == s
    ensures s.status == Running && ev.frame.None? ==> r == s.(status := ReadFailed)
    ensures s.status == Running && ev.frame.Some? && CompositeFails(s, ev.frame.value) ==>
              r == s.(status := Crashed)
    ensures s.status == Running && ev.frame.Some? && !CompositeFails(s, ev.frame.value) ==>
              && (ev.key == KeyQuit ==> r == s.(status := Quit))
              && (ev.key == KeyRed ==> r == s.(colour := "red"))
              && (ev.key == KeyBlue ==> r == s.(colour := "blue"))
              && (ev.key == KeyGreen ==> r == s.(colour := "green"))
              && (ev.key == KeyCapture ==>
                    r == if s.background.None? || !s.useBackgroundImage then Capture(s, ev.grabs) else s)
              && (ev.key != KeyQuit && ev.key != KeyCapture && !IsColourKey(ev.key) ==> r == s)
    ensures r.useBackgroundImage == s.useBackgroundImage
    ensures r.background == s.background || (ev.key == KeyCapture && r.background.Some?)
    ensures s.background.Some? ==> r.background.Some?
    ensures s.background.Some? && s.useBackgroundImage ==> r.background == s.background
    ensures KnownColour(s.colour) ==> KnownColour(r.colour)
  {
    if s.status != Running then s
    else if ev.frame.None? then s.(status := ReadFailed)
    else if s.background.None? then
      if ev.key == KeyQuit then s.(status := Quit)
      else if ev.key == KeyCapture then Capture(s, ev.grabs)
      else if IsColourKey(ev.key) then s.(colour := ColourOf(ev.key))
      else s
    else if CompositeFails(s, ev.frame.value) then s.(status := Crashed)
    else
      if ev.key == KeyQuit then s.(status := Quit)
      else if IsColourKey(ev.key) then s.(colour := ColourOf(ev.key))
      else if ev.key == KeyCapture && !s.useBackgroundImage then Capture(s, ev.grabs)
      else s
  }

  /** The state after the loop has been given `evs`, one per iteration. */
  function Run(s: AppState, evs: seq<Event>): AppState
    decreases |evs|
  {
    if evs == [] then s else Run(Step(s, evs[0]), evs[1..])
  }

  /** Running two stretches of events is running their concatenation. */
  lemma {:induction false} RunConcat(s: AppState, a: seq<Event>, b: seq<Event>)
    ensures Run(s, a + b) == Run(Run(s, a), b)
    decreases |a|
  {
    if a != [] {
      assert (a + b)[1..] == a[1..] + b;
      RunConcat(Step(s, a[0]), a[1..], b);
    } else {
      assert a + b == b;
    }
  }

  /** Once the loop has stopped (`q`, a failed read or a crash) it stays stopped. */
  lemma {:induction false} StoppedIsFinal(s: AppState, evs: seq<Event>)
    requires s.status != Running
    ensures Run(s, evs) == s
    decreases |evs|
  {
    if evs != [] {
      StoppedIsFinal(Step(s, evs[0]), evs[1..]);
    }
  }

  /** Once a background exists, no sequence of keys returns it to None. */
  lemma {:induction false} BackgroundNeverUnset(s: AppState, evs: seq<Event>)
    requires s.background.Some?
    ensures Run(s, evs).background.Some?
    decreases |evs|
  {
    if evs != [] {
      BackgroundNeverUnset(Step(s, evs[0]), evs[1..]);
    }
  }

  /** A static background image, once loaded, is never replaced by a capture. */
  lemma {:induction false} StaticBackgroundFixed(s: AppState, evs: seq<Event>)
    requires s.background.Some? && s.useBackgroundImage
    ensures Run(s, evs).background == s.background
    ensures Run(s, evs).useBackgroundImage
    decreases |evs|
  {
    if evs != [] {
      StaticBackgroundFixed(Step(s, evs[0]), evs[1..]);
    }
  }

  /**
   * The colour keys only ever select table colours, so from the initial
   * "red" the current colour is always one the table knows: in a run of the
   * loop the mask is thresholded against a table entry that accepts some
   * pixel, never the all-zero mask of an unknown name.
   */
  lemma ColourStaysKnown(useBackgroundImage: bool, loaded: Option<Frame>, evs: seq<Event>)
    ensures Run(Init(useBackgroundImage, loaded), evs).colour in {"red", "blue", "green"}
    ensures exists p :: IsCloakColour(Run(Init(useBackgroundImage, loaded), evs).colour, p)
  {
    ColourKnownAlongRun(Init(useBackgroundImage, loaded), evs);
    KnownColourAcceptsSomePixel(Run(Init(useBackgroundImage, loaded), evs).colour);
  }

  lemma {:induction false} ColourKnownAlongRun(s: AppState, evs: seq<Event>)
    requires KnownColour(s.colour)
    ensures KnownColour(Run(s, evs).colour)
    decreases |evs|
  {
    if evs != [] {
      ColourKnownAlongRun(Step(s, evs[0]), evs[1..]);
    }
  }

  /**
   * The main loop's variables and its body. Each method is proved to do
   * what Step (or Capture, or Run) says.
   */
  class CloakLoop {
    var background: Option<Frame>
    var colour: string
    var useBackgroundImage: bool
    var status: Status

    function State(): AppState
      reads this
    {
      AppState(background, colour, useBackgroundImage, status)
    }

    /** The user options and the static-background setup before the loop. */
    constructor (useImage: bool, loaded: Option<Frame>)
      ensures State() == Init(useImage, loaded)
    {
      background := None;
      colour := "red";
      useBackgroundImage := useImage;
      status := Running;
      if useImage {
        background := loaded;
        if loaded.None? {
          useBackgroundImage := false;
        }
      }
    }

    /** The twenty-read capture loop, then `background = bg.copy()`. */
    method CaptureBackground(grabs: CaptureReads)
      modifies this
      ensures State() == Capture(old(State()), grabs)
    {
      var bg: Option<Frame> := None;
      for i := 0 to CaptureCount
        invariant i == 0 ==> bg.None?
        invariant i > 0 ==> bg == Grab(grabs[i - 1])
      {
        bg := grabs[i];
        if bg.Some? && Mirror {
          bg := Some(Flip(bg.value));
        }
      }
      if bg.None? {
        status := Crashed;
      } else {
        background := bg;
      }
    }

    /** One pass of the loop body. */
    method Iterate(ev: Event)
      requires status == Running
      modifies this
      ensures State() == Step(old(State()), ev)
    {
      if ev.frame.None? {
        status := ReadFailed;
        return;
      }
      if background.None? {
        if ev.key == KeyQuit {
          status := Quit;
        } else if ev.key == KeyCapture {
          CaptureBackground(ev.grabs);
        } else if IsColourKey(ev.key) {
          colour := ColourOf(ev.key);
        }
        return;
      }
      if !SameShape(background.value, ev.frame.value) {
        // cv2.bitwise_and refuses a mask of another size than the background
        status := Crashed;
        return;
      }
      if ev.key == KeyQuit {
        status := Quit;
      } else if IsColourKey(ev.key) {
        colour := ColourOf(ev.key);
      } else if ev.key == KeyCapture && !useBackgroundImage {
        CaptureBackground(ev.grabs);
      }
    }

    /** The `while True` loop, fed one event per iteration until it stops. */
    method RunLoop(evs: seq<Event>)
      modifies this
      ensures State() == Run(old(State()), evs)
    {
      var i := 0;
      while i < |evs| && status == Running
        invariant 0 <= i <= |evs|
        invariant State() == Run(old(State()), evs[..i])
      {
        RunConcat(old(State()), evs[..i], [evs[i]]);
        assert evs[..i] + [evs[i]] == evs[..i + 1];
        Iterate(evs[i]);
        i := i + 1;
      }
      RunConcat(old(State()), evs[..i], evs[i..]);
      assert evs[..i] + evs[i..] == evs;
      if i < |evs| {
        StoppedIsFinal(State(), evs[i..]);
      }
    }
  }
}
