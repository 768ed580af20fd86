/** The state machine of a function generator as values: what every event does to it, and which signals it emits. */
module FgMachine {
  datatype Signal = Enabled(on: bool) | Armed(on: bool) | Running(on: bool) | Started(time: nat)
    | Stopped(time: nat, abort: bool, hardwareUnderflow: bool, microUnderflow: bool)

  /** Interrupt payloads from the microcontroller; any other payload counts as a stop. */
  const IRQ_DAT_REFILL: nat := 0
  const IRQ_DAT_START: nat := 1
  const IRQ_DAT_STOP_EMPTY: nat := 2
  const IRQ_DAT_ARMED: nat := 4
  const IRQ_DAT_DISARMED: nat := 5

  /** Whatever the driver does not recognize counts as a stop. */
  predicate IsStop(msi: nat) {
    msi !in {IRQ_DAT_REFILL, IRQ_DAT_START, IRQ_DAT_ARMED, IRQ_DAT_DISARMED}
  }

  datatype Phase = Idle | Waiting | Ready | Active

  /** timerSet: the reset timeout is installed in the loop; timerConnected: its handle has ever been assigned. */
  datatype Control = Control(phase: Phase, abort: bool, timerSet: bool, timerConnected: bool)

  datatype Event =
    | Arm(filled: bool, free: bool)
    | Irq(msi: nat, time: nat, queueOnDevice: bool)
    | Reset
    | Timeout(time: nat)

  function Release(c: Control): Control {
    c.(phase := Idle, timerSet := false)
  }

  function Step(c: Control, e: Event): (Control, seq<Signal>) {
    match e
    case Arm(filled, free) =>
      if c.phase != Idle || !filled then (c, [])
      else if !free then (c.(abort := false), [])
      else (c.(phase := Waiting, abort := false), [Enabled(true)])
    case Irq(msi, time, queueOnDevice) =>
      if c.phase == Idle || msi == IRQ_DAT_REFILL then (c, [])
      else if msi == IRQ_DAT_ARMED then
        if c.phase == Waiting then (c.(phase := Ready), [Armed(true)]) else (c, [])
      else if msi == IRQ_DAT_DISARMED then
        if c.phase == Ready then (Release(c), [Armed(false), Enabled(false)]) else (c, [])
      else if msi == IRQ_DAT_START then
        if c.phase == Ready then (c.(phase := Active), [Armed(false), Running(true), Started(time)]) else (c, [])
      else if c.phase == Active then
        var hardware := msi != IRQ_DAT_STOP_EMPTY && !c.abort;
        var micro := !queueOnDevice && !hardware && !c.abort;
        (Release(c), [Running(false), Stopped(time, c.abort, hardware, micro), Enabled(false)])
      else (c, [])
    case Reset =>
      if c.phase == Idle || c.abort then (c, [])
      else if c.timerConnected then (c.(abort := true), [])
      else (c.(abort := true, timerSet := true, timerConnected := true), [])
    case Timeout(time) =>
      if !c.timerSet then (c, [])
      else
        match c.phase
        case Active => (Release(c), [Running(false), Stopped(time, true, false, false), Enabled(false)])
        case Ready => (Release(c), [Armed(false), Enabled(false)])
        case _ => (Release(c), [Armed(true), Armed(false), Enabled(false)])
  }

  /** The cases of an interrupt. */
  lemma IrqMeans(c: Control, msi: nat, time: nat, queueOnDevice: bool)
    ensures var (c', s) := Step(c, Irq(msi, time, queueOnDevice));
      if c.phase == Waiting && msi == IRQ_DAT_ARMED then c' == c.(phase := Ready) && s == [Armed(true)]
      else if c.phase == Ready && msi == IRQ_DAT_DISARMED then c' == Release(c) && s == [Armed(false), Enabled(false)]
      else if c.phase == Ready && msi == IRQ_DAT_START then
        c' == c.(phase := Active) && s == [Armed(false), Running(true), Started(time)]
      else if c.phase == Active && IsStop(msi) then
        && c' == Release(c)
        && s == [Running(false), Stopped(time, c.abort, msi != IRQ_DAT_STOP_EMPTY && !c.abort,
          msi == IRQ_DAT_STOP_EMPTY && !c.abort && !queueOnDevice), Enabled(false)]
      else c' == c && s == []
  {
  }

  function Run(c: Control, es: seq<Event>): (Control, seq<Signal>) {
    if es == [] then (c, [])
    else
      var (c1, s1) := Run(c, es[..|es| - 1]);
      var (c2, s2) := Step(c1, es[|es| - 1]);
      (c2, s1 + s2)
  }

  lemma RunStep(c: Control, es: seq<Event>, e: Event)
    ensures Run(c, es + [e]) == (Step(Run(c, es).0, e).0, Run(c, es).1 + Step(Run(c, es).0, e).1)
  {
    assert (es + [e])[..|es|] == es;
  }

  const INITIAL := Control(Idle, false, false, false)

  // ----- the language of the signals

  /**
    Enabled+ Armed+ Armed- Enabled-, or Enabled+ Armed+ Armed- Running+ Started Running- Stopped Enabled-. A session
    stops because of an abort, of one of the two underflows, or regularly.
   */
  predicate Complete(s: seq<Signal>) {
    || s == [Enabled(true), Armed(true), Armed(false), Enabled(false)]
    || (&& |s| == 8
        && s[..4] == [Enabled(true), Armed(true), Armed(false), Running(true)]
        && s[4].Started?
        && s[5] == Running(false)
        && s[6].Stopped?
        && !(s[6].abort && s[6].hardwareUnderflow) && !(s[6].abort && s[6].microUnderflow)
        && !(s[6].hardwareUnderflow && s[6].microUnderflow)
        && s[7] == Enabled(false))
  }

  /** What the session that is under way has emitted so far. */
  predicate Under(phase: Phase, s: seq<Signal>) {
    match phase
    case Idle => s == []
    case Waiting => s == [Enabled(true)]
    case Ready => s == [Enabled(true), Armed(true)]
    case Active => |s| == 5 && s[..4] == [Enabled(true), Armed(true), Armed(false), Running(true)] && s[4].Started?
  }

  function Concat(ss: seq<seq<Signal>>): seq<Signal> {
    if ss == [] then [] else Concat(ss[..|ss| - 1]) + ss[|ss| - 1]
  }

  ghost predicate Sane(c: Control) {
    c.timerSet ==> c.phase != Idle && c.abort && c.timerConnected
  }

  lemma StepSane(c: Control, e: Event)
    requires Sane(c)
    ensures Sane(Step(c, e).0)
  {
  }

  /** One event continues the session under way, or completes it. */
  lemma StepLanguage(c: Control, e: Event, s: seq<Signal>)
    requires Sane(c) && Under(c.phase, s)
    ensures var (c', s') := Step(c, e);
      Under(c'.phase, s + s') || (c'.phase == Idle && Complete(s + s'))
  {
    var (c', s') := Step(c, e);
    if c.phase == Active && s' != [] {
      assert (s + s')[..4] == s[..4];
    }
    if c.phase == Ready && c'.phase == Active {
      assert (s + s')[..4] == s + s'[..2];
    }
    if s' == [] { assert s + s' == s; }
  }

  /** The signals are the sessions, which are complete, and then what the session under way has emitted. */
  ghost predicate Splits(signals: seq<Signal>, phase: Phase, sessions: seq<seq<Signal>>, under: seq<Signal>) {
    && signals == Concat(sessions) + under
    && (forall i :: 0 <= i < |sessions| ==> Complete(sessions[i]))
    && Under(phase, under)
  }

  ghost predicate Spoken(signals: seq<Signal>, phase: Phase) {
    exists sessions, under :: Splits(signals, phase, sessions, under)
  }

  lemma ConcatAppend(sessions: seq<seq<Signal>>, s: seq<Signal>)
    ensures Concat(sessions + [s]) == Concat(sessions) + s
  {
    assert (sessions + [s])[..|sessions|] == sessions;
  }

  /** Whatever happens next, the signals remain complete sessions and the one under way. */
  lemma SpokenStep(c: Control, e: Event, signals: seq<Signal>)
    requires Sane(c) && Spoken(signals, c.phase)
    ensures Spoken(signals + Step(c, e).1, Step(c, e).0.phase)
  {
    hide Step, Complete, Concat;
    var sessions, under :| Splits(signals, c.phase, sessions, under);
    StepLanguage(c, e, under);
    var (c', s) := Step(c, e);
    if Under(c'.phase, under + s) {
      assert signals + s == Concat(sessions) + (under + s);
      assert Splits(signals + s, c'.phase, sessions, under + s);
    } else {
      ConcatAppend(sessions, under + s);
      assert signals + s == Concat(sessions + [under + s]) + [];
      assert Splits(signals + s, c'.phase, sessions + [under + s], []);
    }
  }

  /** Over every run, spurious messages included, the signals are complete sessions and the one under way. */
  lemma {:induction false} SignalLanguage(es: seq<Event>)
    ensures Sane(Run(INITIAL, es).0) && Spoken(Run(INITIAL, es).1, Run(INITIAL, es).0.phase)
  {
    hide Step, Spoken;
    if es == [] {
      NothingSpoken();
    } else {
      var c := Run(INITIAL, es[..|es| - 1]).0;
      SignalLanguage(es[..|es| - 1]);
      StepSane(c, es[|es| - 1]);
      SpokenStep(c, es[|es| - 1], Run(INITIAL, es[..|es| - 1]).1);
    }
  }

  // ----- every such sequence of signals is emitted

  lemma {:induction false} RunConcat(c: Control, es: seq<Event>, fs: seq<Event>)
    ensures Run(c, es + fs) == (Run(Run(c, es).0, fs).0, Run(c, es).1 + Run(Run(c, es).0, fs).1)
  {
    hide Step;
    if fs == [] {
      assert es + fs == es && Run(c, es).1 + [] == Run(c, es).1;
    } else {
      var front, last := fs[..|fs| - 1], fs[|fs| - 1];
      assert es + fs == (es + front) + [last] && fs == front + [last];
      RunConcat(c, es, front);
      RunStep(c, es + front, last);
      var middle := Run(c, es).0;
      RunStep(middle, front, last);
      var s := Step(Run(middle, front).0, last).1;
      assert (Run(c, es).1 + Run(middle, front).1) + s == Run(c, es).1 + (Run(middle, front).1 + s);
    }
  }

  /** From an idle generator the events of a session in progress. */
  lemma UnderIsReached(c: Control, phase: Phase, under: seq<Signal>) returns (es: seq<Event>)
    requires c.phase == Idle && Under(phase, under)
    ensures Run(c, es).1 == under && Run(c, es).0.phase == phase
    ensures phase != Idle ==> !Run(c, es).0.abort
  {
    es := [];
    if phase != Idle {
      RunStep(c, es, Arm(true, true));
      es := es + [Arm(true, true)];
    }
    if phase == Ready || phase == Active {
      RunStep(c, es, Irq(IRQ_DAT_ARMED, 0, true));
      es := es + [Irq(IRQ_DAT_ARMED, 0, true)];
    }
    if phase == Active {
      RunStep(c, es, Irq(IRQ_DAT_START, under[4].time, true));
      es := es + [Irq(IRQ_DAT_START, under[4].time, true)];
      assert under == under[..4] + [under[4]];
    }
  }

  /** From an idle generator the events of a complete session, whatever its times and the way it stops. */
  lemma SessionIsReached(c: Control, s: seq<Signal>) returns (es: seq<Event>)
    requires c.phase == Idle && Complete(s)
    ensures Run(c, es).1 == s && Run(c, es).0.phase == Idle
  {
    if |s| == 4 {
      es := UnderIsReached(c, Ready, s[..2]);
      RunStep(c, es, Irq(IRQ_DAT_DISARMED, 0, true));
      es := es + [Irq(IRQ_DAT_DISARMED, 0, true)];
      assert s == s[..2] + [Armed(false), Enabled(false)];
    } else {
      assert s[..5][..4] == s[..4];
      es := UnderIsReached(c, Active, s[..5]);
      if s[6].abort {
        RunStep(c, es, Reset);
        es := es + [Reset];
        assert s[..5] + [] == s[..5];
      }
      assert Run(c, es).1 == s[..5] && Run(c, es).0.phase == Active && Run(c, es).0.abort == s[6].abort;
      var stop := Irq(if s[6].hardwareUnderflow then IRQ_DAT_STOP_EMPTY + 1 else IRQ_DAT_STOP_EMPTY, s[6].time,
        !s[6].microUnderflow);
      RunStep(c, es, stop);
      StopEmits(Run(c, es).0, stop, s[6]);
      es := es + [stop];
      assert s == s[..5] + [s[5], s[6], s[7]];
    }
  }

  lemma StopEmits(c: Control, e: Event, stopped: Signal)
    requires c.phase == Active && e.Irq? && stopped.Stopped? && c.abort == stopped.abort && e.time == stopped.time
    requires e.msi == if stopped.hardwareUnderflow then IRQ_DAT_STOP_EMPTY + 1 else IRQ_DAT_STOP_EMPTY
    requires e.queueOnDevice == !stopped.microUnderflow
    requires !(stopped.abort && stopped.hardwareUnderflow) && !(stopped.abort && stopped.microUnderflow)
    requires !(stopped.hardwareUnderflow && stopped.microUnderflow)
    ensures Step(c, e).1 == [Running(false), stopped, Enabled(false)] && Step(c, e).0.phase == Idle
  {
  }

  lemma {:induction false} SessionsAreReached(sessions: seq<seq<Signal>>) returns (es: seq<Event>)
    requires forall i :: 0 <= i < |sessions| ==> Complete(sessions[i])
    ensures Run(INITIAL, es).1 == Concat(sessions) && Run(INITIAL, es).0.phase == Idle
  {
    hide Complete, Step;
    if sessions == [] {
      return [];
    }
    es := SessionsAreReached(sessions[..|sessions| - 1]);
    var fs := SessionIsReached(Run(INITIAL, es).0, sessions[|sessions| - 1]);
    RunConcat(INITIAL, es, fs);
    es := es + fs;
  }

  /** Some run from the start emits the signals and leads to the phase. */
  ghost predicate Emitted(signals: seq<Signal>, phase: Phase) {
    exists es :: EmittedBy(es, signals, phase)
  }

  ghost predicate EmittedBy(es: seq<Event>, signals: seq<Signal>, phase: Phase) {
    Run(INITIAL, es).1 == signals && Run(INITIAL, es).0.phase == phase
  }

  /** The signals that runs emit are exactly the complete sessions, each possible, and one under way. */
  lemma SignalsAreExactly(signals: seq<Signal>, phase: Phase)
    ensures Emitted(signals, phase) <==> Spoken(signals, phase)
  {
    hide Complete, Step, Run;
    if Emitted(signals, phase) {
      var es :| EmittedBy(es, signals, phase);
      SignalLanguage(es);
    }
    if Spoken(signals, phase) {
      var sessions, under :| Splits(signals, phase, sessions, under);
      var es := SessionsAreReached(sessions);
      var fs := UnderIsReached(Run(INITIAL, es).0, phase, under);
      RunConcat(INITIAL, es, fs);
      assert EmittedBy(es + fs, signals, phase);
    }
  }

  lemma NothingSpoken()
    ensures Spoken([], Idle)
  {
    assert Splits([], Idle, [], []);
  }

  /**
    The timeout that is to guard a reset is installed at most once in the life of a generator: a reset installs it
    exactly if no earlier one did, and afterwards no run ever installs it again.
   */
  lemma ResetIsGuardedOnce(c: Control)
    requires Sane(c) && c.phase != Idle && !c.abort
    ensures Step(c, Reset).0.timerSet <==> !c.timerConnected
  {
  }

  lemma {:induction false} NoSecondTimeout(c: Control, es: seq<Event>)
    requires Sane(c) && c.timerConnected && !c.timerSet
    ensures var c' := Run(c, es).0; Sane(c') && c'.timerConnected && !c'.timerSet
  {
    if es != [] {
      NoSecondTimeout(c, es[..|es| - 1]);
      StepSane(Run(c, es[..|es| - 1]).0, es[|es| - 1]);
    }
  }

  /** A reset can remain without any end: without the timeout, nothing but an interrupt ends the session. */
  lemma {:induction false} UnguardedResetNeedsInterrupt(c: Control, es: seq<Event>)
    requires Sane(c) && c.phase != Idle && c.timerConnected && !c.timerSet
    requires forall i :: 0 <= i < |es| ==> !es[i].Irq?
    ensures Run(c, es).0.phase == c.phase
  {
    if es != [] {
      UnguardedResetNeedsInterrupt(c, es[..|es| - 1]);
      NoSecondTimeout(c, es[..|es| - 1]);
    }
  }

  /** A run of six events leads to a reset that nothing guards: the timeout of an earlier reset was never needed. */
  lemma UnguardedResetIsReached() returns (es: seq<Event>)
    ensures var c := Run(INITIAL, es).0; c.phase == Waiting && c.abort && c.timerConnected && !c.timerSet
  {
    var arm, armed, disarmed := Arm(true, true), Irq(IRQ_DAT_ARMED, 0, true), Irq(IRQ_DAT_DISARMED, 0, true);
    es := [arm];
    RunStep(INITIAL, [], arm);
    RunStep(INITIAL, es, Reset);
    es := es + [Reset];
    RunStep(INITIAL, es, armed);
    es := es + [armed];
    RunStep(INITIAL, es, disarmed);
    es := es + [disarmed];
    RunStep(INITIAL, es, arm);
    es := es + [arm];
    RunStep(INITIAL, es, Reset);
    es := es + [Reset];
  }

  /** A run that no interrupt takes part in ends the session. */
  ghost predicate EndsByItself(c: Control, es: seq<Event>) {
    (forall i :: 0 <= i < |es| ==> !es[i].Irq?) && Run(c, es).0.phase == Idle
  }

  /** A session that is being reset can end without the microcontroller exactly if the timeout is installed. */
  lemma ResetEndsIffGuarded(c: Control)
    requires Sane(c) && c.phase != Idle && c.abort
    ensures c.timerSet <==> exists es :: EndsByItself(c, es)
  {
    if c.timerSet {
      RunStep(c, [], Timeout(0));
      assert EndsByItself(c, [] + [Timeout(0)]);
    } else {
      forall es: seq<Event>
        ensures !EndsByItself(c, es)
      {
        if forall i :: 0 <= i < |es| ==> !es[i].Irq? { NothingHappens(c, es); }
      }
    }
  }

  lemma {:induction false} NothingHappens(c: Control, es: seq<Event>)
    requires c.phase != Idle && c.abort && !c.timerSet && forall i :: 0 <= i < |es| ==> !es[i].Irq?
    ensures Run(c, es).0 == c
  {
    if es != [] {
      NothingHappens(c, es[..|es| - 1]);
    }
  }
}
