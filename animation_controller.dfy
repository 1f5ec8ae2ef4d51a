/**
 * The playback hook: a cursor into the list of steps (-1 before the first
 * step), a playing flag and a speed, changed by play, pause, step forward,
 * step backward and reset, and advanced by a timer while playing.
 *
 * The timer is modelled by `Tick`, which stands for one run of the playback
 * effect together with the firing of the timeout it schedules. The
 * transitions are first given on values (`Playback`), where the properties
 * are proved; the class `PlaybackController` is proved against them.
 */
module AnimationController {
  import opened Trees
  import opened TreeInversion
  import opened InversionProperties
  import opened TreeCanvas

  /** The text shown: the ready placeholder, or the message of the current step. */
  datatype Narration = Ready | StepMessage(message: Message)

  /**
   * The wait before the next step: the one-second fallback, or the gap
   * between the stamps of the next and the current step (which the hook then
   * divides by the speed).
   */
  datatype Delay = DefaultDelay | TimestampGap(gap: int)

  /** The part of the hook's state that the controls change. */
  datatype Playback = Playback(playing: bool, cursor: int)

  // ---------------------------------------------------------------------
  // Transitions on values

  /** The state the hook starts in. */
  function Initial(): Playback
  {
    Playback(false, -1)
  }

  /** The cursor is -1 or on a step of a list of `len` steps. */
  predicate InRange(p: Playback, len: nat)
  {
    -1 <= p.cursor < len
  }

  /** play: at or past the last step the cursor goes back before the first one; then play. */
  function AfterPlay(p: Playback, len: nat): Playback
  {
    Playback(true, if p.cursor >= len - 1 then -1 else p.cursor)
  }

  function AfterPause(p: Playback): Playback
  {
    p.(playing := false)
  }

  function AfterStepForward(p: Playback, len: nat): Playback
  {
    if p.cursor < len - 1 then p.(cursor := p.cursor + 1) else p
  }

  function AfterStepBackward(p: Playback): Playback
  {
    if p.cursor > -1 then p.(cursor := p.cursor - 1) else p
  }

  function AfterReset(p: Playback): Playback
  {
    Playback(false, -1)
  }

  /**
   * The playback effect and its timer: nothing while paused; at or past the
   * last step playing stops; otherwise the cursor moves on by one.
   */
  function AfterTick(p: Playback, len: nat): Playback
  {
    if !p.playing then p
    else if p.cursor >= len - 1 then p.(playing := false)
    else p.(cursor := p.cursor + 1)
  }

  /** `n` ticks in a row. */
  function Ticks(p: Playback, len: nat, n: nat): Playback
    decreases n
  {
    if n == 0 then p else Ticks(AfterTick(p, len), len, n - 1)
  }

  /** The message shown for a cursor position. */
  function Narrate(steps: seq<Step>, cursor: int): (n: Narration)
    ensures n.StepMessage? <==> 0 <= cursor < |steps|
    ensures n.StepMessage? ==> n.message == steps[cursor].message
  {
    if 0 <= cursor < |steps| then StepMessage(steps[cursor].message) else Ready
  }

  /**
   * The wait the playback effect chooses before moving on from `cursor`:
   * the stamp gap when there is a current and a next step, else the
   * fallback.
   */
  function NextDelay(steps: seq<Step>, cursor: int): (d: Delay)
    ensures d.TimestampGap? <==> 0 <= cursor && cursor + 1 < |steps|
  {
    if 0 <= cursor && cursor + 1 < |steps|
    then TimestampGap(steps[cursor + 1].timestamp - steps[cursor].timestamp)
    else DefaultDelay
  }

  /** The stamp gaps waited while moving the cursor from 0 to `k`. */
  function Elapsed(steps: seq<Step>, k: nat): int
    requires k < |steps|
  {
    if k == 0 then 0 else Elapsed(steps, k - 1) + NextDelay(steps, k - 1).gap
  }

  // ---------------------------------------------------------------------
  // Properties

  /** With the steps fixed, no control and no tick takes the cursor out of range. */
  lemma OperationsKeepRange(p: Playback, len: nat)
    requires InRange(p, len)
    ensures InRange(AfterPlay(p, len), len)
    ensures InRange(AfterPause(p), len)
    ensures InRange(AfterStepForward(p, len), len)
    ensures InRange(AfterStepBackward(p), len)
    ensures InRange(AfterReset(p), len)
    ensures InRange(AfterTick(p, len), len)
  {
  }

  /** Stepping forward and then back, or back and then forward, returns to the same position. */
  lemma StepForwardBackward(p: Playback, len: nat)
    ensures -1 <= p.cursor < len - 1 ==> AfterStepBackward(AfterStepForward(p, len)) == p
    ensures InRange(p, len) && p.cursor > -1 ==> AfterStepForward(AfterStepBackward(p), len) == p
    ensures p.cursor >= len - 1 ==> AfterStepForward(p, len) == p
    ensures p.cursor <= -1 ==> AfterStepBackward(p) == p
  {
  }

  /** Play after the end starts over: the next tick shows the first step. */
  lemma PlayAtEndRestarts(p: Playback, len: nat)
    requires len > 0 && p.cursor >= len - 1
    ensures AfterTick(AfterPlay(p, len), len) == Playback(true, 0)
  {
  }

  /** While playing and short of the last step, every tick moves the cursor on by exactly one. */
  lemma {:induction false} TicksAdvance(p: Playback, len: nat, n: nat)
    requires p.playing && p.cursor + n <= len - 1
    ensures Ticks(p, len, n) == Playback(true, p.cursor + n)
    decreases n
  {
    if n > 0 {
      TicksAdvance(AfterTick(p, len), len, n - 1);
    }
  }

  /**
   * Playing from any position in range reaches the last step, one tick per
   * step, and the tick after that stops playing there.
   */
  lemma PlaybackStopsAtEnd(p: Playback, len: nat)
    requires p.playing && InRange(p, len)
    ensures Ticks(p, len, len - 1 - p.cursor) == Playback(true, len - 1)
    ensures AfterTick(Playback(true, len - 1), len) == Playback(false, len - 1)
  {
    TicksAdvance(p, len, len - 1 - p.cursor);
  }

  /** Ticks never fire while paused. */
  lemma {:induction false} PausedStaysPut(p: Playback, len: nat, n: nat)
    requires !p.playing
    ensures Ticks(p, len, n) == p
  {
    if n > 0 {
      PausedStaysPut(p, len, n - 1);
    }
  }

  /** The waits add up: reaching step `k` from step 0 takes the difference of their stamps. */
  lemma {:induction false} ElapsedIsStampDifference(steps: seq<Step>, k: nat)
    requires k < |steps|
    ensures Elapsed(steps, k) == steps[k].timestamp - steps[0].timestamp
  {
    if k > 0 {
      ElapsedIsStampDifference(steps, k - 1);
    }
  }

  /**
   * For generated steps every wait between two steps is a positive stamp
   * gap, and at speed 1 step `k` is shown exactly `steps[k].timestamp` after
   * the first step.
   */
  lemma GeneratedDelays(algorithm: AlgorithmType, t: Tree, k: nat)
    ensures var steps := Generate(algorithm, t).steps;
      NextDelay(steps, -1) == DefaultDelay &&
      (k + 1 < |steps| ==> NextDelay(steps, k).TimestampGap? && NextDelay(steps, k).gap > 0) &&
      (k < |steps| ==> Elapsed(steps, k) == steps[k].timestamp)
  {
    var steps := Generate(algorithm, t).steps;
    GenerateTimeline(algorithm, t);
    GenerateCount(algorithm, t);
    if k < |steps| {
      ElapsedIsStampDifference(steps, k);
    }
  }

  /**
   * On generated steps of a tree without a node numbered 0, the canvas
   * applies a step exactly when the narration shows one, and it is the step
   * narrated.
   */
  lemma NarrationMatchesCanvas(algorithm: AlgorithmType, t: Tree, cursor: int)
    requires 0 !in Ids(t)
    ensures var steps := Generate(algorithm, t).steps;
      (StepToApply(steps, cursor).Some? <==> Narrate(steps, cursor).StepMessage?) &&
      (StepToApply(steps, cursor).Some? ==>
         Narrate(steps, cursor).message == StepToApply(steps, cursor).value.message)
  {
    GuardAppliesGenerated(algorithm, t, cursor);
  }

  // ---------------------------------------------------------------------
  // The hook

  /** useAnimationController: the steps it is given and its state variables. */
  class PlaybackController {
    var steps: seq<Step>
    var playing: bool
    var cursor: int
    var speed: real

    /** The initial state: paused, before the first step, at the given speed. */
    constructor (steps: seq<Step>, initialSpeed: real)
      ensures this.steps == steps && speed == initialSpeed
      ensures State() == Initial() && InRange(State(), |steps|)
    {
      this.steps := steps;
      playing := false;
      cursor := -1;
      speed := initialSpeed;
    }

    function State(): Playback
      reads this
    {
      Playback(playing, cursor)
    }

    /** currentMessage, as the message effect keeps it. */
    function CurrentMessage(): (n: Narration)
      reads this
      ensures n.StepMessage? <==> 0 <= cursor < |steps|
      ensures n.StepMessage? ==> n.message == steps[cursor].message
    {
      Narrate(steps, cursor)
    }

    method Play()
      modifies this
      ensures State() == AfterPlay(old(State()), |steps|)
      ensures steps == old(steps) && speed == old(speed)
    {
      if cursor >= |steps| - 1 {
        cursor := -1;
      }
      playing := true;
    }

    method Pause()
      modifies this
      ensures State() == AfterPause(old(State()))
      ensures steps == old(steps) && speed == old(speed)
    {
      playing := false;
    }

    method StepForward()
      modifies this
      ensures State() == AfterStepForward(old(State()), |steps|)
      ensures steps == old(steps) && speed == old(speed)
    {
      if cursor < |steps| - 1 {
        cursor := cursor + 1;
      }
    }

    method StepBackward()
      modifies this
      ensures State() == AfterStepBackward(old(State()))
      ensures steps == old(steps) && speed == old(speed)
    {
      if cursor > -1 {
        cursor := cursor - 1;
      }
    }

    method Reset()
      modifies this
      ensures State() == AfterReset(old(State()))
      ensures steps == old(steps) && speed == old(speed)
    {
      playing := false;
      cursor := -1;
    }

    method SetSpeed(newSpeed: real)
      modifies this
      ensures speed == newSpeed
      ensures State() == old(State()) && steps == old(steps)
    {
      speed := newSpeed;
    }

    /** A new list of steps from the caller; the cursor and the flag are kept as they are. */
    method SetSteps(newSteps: seq<Step>)
      modifies this
      ensures steps == newSteps
      ensures State() == old(State()) && speed == old(speed)
    {
      steps := newSteps;
    }

    /**
     * One run of the playback effect, with its timer firing: returns the
     * wait it scheduled, or nothing when it scheduled none.
     */
    method Tick() returns (delay: Option<Delay>)
      modifies this
      ensures State() == AfterTick(old(State()), |steps|)
      ensures steps == old(steps) && speed == old(speed)
      ensures delay == if old(playing) && old(cursor) < |steps| - 1
                       then Some(NextDelay(steps, old(cursor))) else None
    {
      if !playing {
        return None;
      }
      if cursor >= |steps| - 1 {
        playing := false;
        return None;
      }
      delay := Some(NextDelay(steps, cursor));
      cursor := cursor + 1;
    }
  }
}
