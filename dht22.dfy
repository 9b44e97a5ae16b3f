/** The temperature logger of DHT22_with_oled.py, without its sensor thread, display
    and files: two push buttons sampled once per main-loop iteration, turned into
    press and release events, and a list of delayed tasks ticked by the main loop.
    Button 1 toggles the display and, held for five seconds, schedules a shutdown;
    button 2 stops the program when released twice within two seconds. */
module Dht22 {

  const Button1Pin := 14
  const Button2Pin := 15

  /** Seconds the main loop waits between iterations, added to every task timer. */
  const RunningDelay: real := 0.1
  /** The shortest time allowed between two sensor reads. */
  const MinReadInterval := 3
  /** Sensor errors after which the logger shuts down. */
  const StrikeThreshold := 10
  /** Seconds button 1 must be held before a shutdown is scheduled, and the delay of
      that shutdown. */
  const HoldTime: real := 5.0
  const ShutdownDelay: real := 5.0
  /** Seconds the second press of button 2 has before the first is forgotten. */
  const ConfirmWindow: real := 2.0
  /** The timer value marking a task that has run. */
  const Done: real := -1.0

  // ------------------------------------------------------------------ buttons

  datatype ButtonEvent = ButtonUp | ButtonDown

  /** The fields of Button that update and disable change. */
  datatype ButtonState = ButtonState(pressed: bool, prevState: bool, timePressed: real,
                                     events: seq<ButtonEvent>, active: bool)

  /** Button.__init__: released, no events, active. */
  function InitialButton(): ButtonState
  {
    ButtonState(false, false, 0.0, [], true)
  }

  /** One Button.update with the pin read as `sample` and `dt` seconds since the
      previous iteration. */
  function Sample(b: ButtonState, sample: bool, dt: real): (r: ButtonState)
    ensures !b.active ==> r == b
    ensures b.active ==> r.prevState == sample && r.pressed == sample
    ensures b.active ==> r.timePressed == if sample then b.timePressed + dt else 0.0
  {
    if !b.active then b
    else
      var events :=
        if sample && !b.prevState then b.events + [ButtonDown]
        else if !sample && b.prevState then b.events + [ButtonUp]
        else b.events;
      ButtonState(sample, sample, if sample then b.timePressed + dt else 0.0, events, true)
  }

  /** A pin reading and the seconds since the previous one. */
  datatype Tick = Tick(sample: bool, dt: real)

  function Samples(b: ButtonState, ticks: seq<Tick>): ButtonState
  {
    if ticks == [] then b
    else var last := ticks[|ticks| - 1]; Sample(Samples(b, ticks[..|ticks| - 1]), last.sample, last.dt)
  }

  /** The pin level after the readings, starting from `prev`. */
  function LastLevel(prev: bool, ticks: seq<Tick>): bool
  {
    if ticks == [] then prev else ticks[|ticks| - 1].sample
  }

  /** The edges of the readings: a press on each rise, a release on each fall. */
  function Edges(prev: bool, ticks: seq<Tick>): seq<ButtonEvent>
  {
    if ticks == [] then []
    else
      var before := LastLevel(prev, ticks[..|ticks| - 1]);
      var now := ticks[|ticks| - 1].sample;
      Edges(prev, ticks[..|ticks| - 1]) +
        (if now && !before then [ButtonDown] else if !now && before then [ButtonUp] else [])
  }

  /** Seconds the pin has been held down at the end of the readings: the sum of the
      intervals of the trailing run of pressed readings, added to `held` when the
      run reaches back to the start. */
  function HeldFor(held: real, ticks: seq<Tick>): real
  {
    if ticks == [] then held
    else if ticks[|ticks| - 1].sample then HeldFor(held, ticks[..|ticks| - 1]) + ticks[|ticks| - 1].dt
    else 0.0
  }

  /** An active button queues exactly the edges of its readings, remembers the last
      level, and times the current press. */
  lemma {:induction false} SamplesActive(b: ButtonState, ticks: seq<Tick>)
    requires b.active
    ensures var r := Samples(b, ticks);
            r.active && r.events == b.events + Edges(b.prevState, ticks) &&
            r.prevState == LastLevel(b.prevState, ticks) &&
            r.timePressed == HeldFor(b.timePressed, ticks)
  {
    if ticks != [] {
      SamplesActive(b, ticks[..|ticks| - 1]);
    }
  }

  /** Edges alternate: a press comes first unless the pin started pressed, no two
      consecutive events are equal, and the last is a press exactly when the pin
      ends pressed. */
  predicate Alternating(prev: bool, es: seq<ButtonEvent>)
  {
    (es != [] ==> es[0] == (if prev then ButtonUp else ButtonDown)) &&
    (forall k :: 0 <= k < |es| - 1 ==> es[k] != es[k + 1])
  }

  lemma {:induction false} EdgesAlternate(prev: bool, ticks: seq<Tick>)
    ensures Alternating(prev, Edges(prev, ticks))
    ensures var es := Edges(prev, ticks);
            if es == [] then LastLevel(prev, ticks) == prev
            else (es[|es| - 1] == ButtonDown) == LastLevel(prev, ticks)
  {
    if ticks != [] {
      var init := ticks[..|ticks| - 1];
      EdgesAlternate(prev, init);
    }
  }

  /** From a fresh button, the events start with a press and alternate. */
  lemma FreshButtonAlternates(ticks: seq<Tick>)
    ensures Samples(InitialButton(), ticks).events == Edges(false, ticks)
    ensures Alternating(false, Samples(InitialButton(), ticks).events)
  {
    SamplesActive(InitialButton(), ticks);
    EdgesAlternate(false, ticks);
  }

  /** A disabled button ignores every later reading. */
  lemma {:induction false} DisabledStaysStill(b: ButtonState, ticks: seq<Tick>)
    requires !b.active
    ensures Samples(b, ticks) == b
  {
    if ticks != [] {
      DisabledStaysStill(b, ticks[..|ticks| - 1]);
    }
  }

  class Button {
    const pin: int
    var pressed: bool
    var prevState: bool
    var timePressed: real
    var events: seq<ButtonEvent>
    var active: bool

    function State(): ButtonState
      reads this
    {
      ButtonState(pressed, prevState, timePressed, events, active)
    }

    constructor (pin: int)
      ensures this.pin == pin && State() == InitialButton()
    {
      this.pin := pin;
      pressed := false;
      prevState := false;
      timePressed := 0.0;
      events := [];
      active := true;
    }

    /** Button.disable: inactive and released; queued events and the remembered
        level stay. */
    method Disable()
      modifies this
      ensures State() == old(State()).(active := false, pressed := false, timePressed := 0.0)
    {
      active := false;
      pressed := false;
      timePressed := 0.0;
    }

    /** Button.update with the pin read as `sample`. */
    method Update(sample: bool, dt: real)
      modifies this
      ensures State() == Sample(old(State()), sample, dt)
    {
      if !active {
        return;
      }
      pressed := sample;
      if pressed {
        timePressed := timePressed + dt;
        if !prevState {
          events := events + [ButtonDown];
        }
      } else {
        timePressed := 0.0;
        if prevState {
          events := events + [ButtonUp];
        }
      }
      prevState := pressed;
    }

    /** Button.get_events: the queued events, in order, leaving the queue empty. */
    method GetEvents() returns (es: seq<ButtonEvent>)
      modifies this`events
      ensures es == old(events) && events == []
    {
      es := events;
      events := [];
    }
  }

  // -------------------------------------------------------------------- tasks

  /** The two methods the logger schedules. */
  datatype Action = Shutdown | ResetButtonFlag

  /** A scheduled task: the seconds counted so far (Done once it has run), the
      seconds to wait, and what to run. */
  datatype Task = Task(timer: real, delay: real, action: Action)

  /** The fields of Logger that the main loop, its tasks and the sensor thread's error
      count change. */
  datatype LoggerState = LoggerState(tasks: seq<Task>, shouldStop: bool, initialiseShutdown: bool,
                                     endButtonPressed: bool, displayOn: bool, errorStrikes: nat)

  /** Logger.__init__: no tasks, running, unarmed, the display on, no errors. */
  function InitialLogger(): LoggerState
  {
    LoggerState([], false, false, false, true, 0)
  }

  /** Once the stop event is set, or a shutdown requested, it stays so. */
  predicate Settled(l: LoggerState, r: LoggerState)
  {
    (l.shouldStop ==> r.shouldStop) && (l.initialiseShutdown ==> r.initialiseShutdown) &&
    r.errorStrikes == l.errorStrikes
  }

  /** Logger.shutdown and Logger.reset_button_flag, without their display output. */
  function Perform(l: LoggerState, a: Action): (r: LoggerState)
    ensures r.tasks == l.tasks && Settled(l, r)
    ensures a == Shutdown ==> r.shouldStop && r.initialiseShutdown
    ensures a == ResetButtonFlag ==> !r.endButtonPressed
  {
    match a
    case Shutdown => l.(shouldStop := true, initialiseShutdown := true)
    case ResetButtonFlag => l.(endButtonPressed := false)
  }

  /** Logger.schedule_task: a task whose timer starts at zero, added at the end. */
  function Schedule(l: LoggerState, delay: real, a: Action): (r: LoggerState)
    ensures r.tasks == l.tasks + [Task(0.0, delay, a)]
    ensures r == l.(tasks := r.tasks)
  {
    l.(tasks := l.tasks + [Task(0.0, delay, a)])
  }

  /** The task's timer after this tick: advanced unless the task has run. */
  function Advanced(t: Task): Task
  {
    if t.timer != Done then t.(timer := t.timer + RunningDelay) else t
  }

  predicate Fires(t: Task)
  {
    Advanced(t).timer >= t.delay
  }

  /** The task loop of the main loop for task i: advance its timer, and once the
      timer reaches the delay run it and mark it Done. */
  function TickTask(l: LoggerState, i: nat): (r: LoggerState)
    requires i < |l.tasks|
    ensures |r.tasks| == |l.tasks| && Settled(l, r)
  {
    var t := Advanced(l.tasks[i]);
    if t.timer >= t.delay then Perform(l.(tasks := l.tasks[i := t.(timer := Done)]), t.action)
    else l.(tasks := l.tasks[i := t])
  }

  /** The task loop over the first n tasks. */
  function TickTasks(l: LoggerState, n: nat): (r: LoggerState)
    requires n <= |l.tasks|
    ensures |r.tasks| == |l.tasks| && Settled(l, r)
  {
    if n == 0 then l else TickTask(TickTasks(l, n - 1), n - 1)
  }

  /** One pass of the task loop leaves every task in place with its delay and action,
      its timer Done if it fired now or had run before, and advanced by the running
      delay otherwise. */
  lemma {:induction false} TickTasksEffect(l: LoggerState, n: nat)
    requires n <= |l.tasks|
    ensures var r := TickTasks(l, n);
            forall k :: 0 <= k < |l.tasks| ==>
              r.tasks[k].delay == l.tasks[k].delay && r.tasks[k].action == l.tasks[k].action &&
              r.tasks[k].timer == if k >= n then l.tasks[k].timer
                                  else if Fires(l.tasks[k]) then Done
                                  else Advanced(l.tasks[k]).timer
  {
    if n > 0 {
      TickTasksEffect(l, n - 1);
    }
  }

  /** A task that has run never runs again: its timer stays Done and it performs
      nothing, as long as its delay is not negative. */
  lemma RunTaskStaysDone(l: LoggerState, i: nat)
    requires i < |l.tasks| && l.tasks[i].timer == Done && l.tasks[i].delay >= 0.0
    ensures !Fires(l.tasks[i]) && TickTask(l, i) == l
  {
    assert l.tasks[i := l.tasks[i]] == l.tasks;
  }

  /** A task whose timer has counted k running delays, short of its delay, fires on
      the next tick exactly when k + 1 running delays reach the delay, and otherwise
      has counted k + 1. */
  lemma TaskTimer(t: Task, k: nat)
    requires t.timer == (k as real) * RunningDelay && t.timer < t.delay
    ensures Fires(t) <==> ((k + 1) as real) * RunningDelay >= t.delay
    ensures !Fires(t) ==> Advanced(t).timer == ((k + 1) as real) * RunningDelay
  {
    assert t.timer != Done;
  }

  /** Logger.__init__'s clamp: reads are at least three seconds apart. */
  function ReadInterval(requested: int): (r: int)
    ensures r >= MinReadInterval
    ensures requested >= MinReadInterval ==> r == requested
    ensures requested < MinReadInterval ==> r == MinReadInterval
  {
    if requested < MinReadInterval then MinReadInterval else requested
  }

  // ---------------------------------------------------------- button handling

  /** Button 1's events: each release toggles the display. */
  function Button1Events(l: LoggerState, es: seq<ButtonEvent>): (r: LoggerState)
    ensures r == l.(displayOn := r.displayOn)
  {
    if es == [] then l
    else
      var r := Button1Events(l, es[..|es| - 1]);
      if es[|es| - 1] == ButtonUp then r.(displayOn := !r.displayOn) else r
  }

  /** The number of releases among the events. */
  function Releases(es: seq<ButtonEvent>): nat
  {
    if es == [] then 0 else Releases(es[..|es| - 1]) + (if es[|es| - 1] == ButtonUp then 1 else 0)
  }

  /** The display ends on exactly when it was toggled an even number of times. */
  lemma {:induction false} Button1Toggles(l: LoggerState, es: seq<ButtonEvent>)
    ensures Button1Events(l, es) == l.(displayOn := l.displayOn == (Releases(es) % 2 == 0))
  {
    if es != [] {
      Button1Toggles(l, es[..|es| - 1]);
    }
  }

  /** Button 2's release: when unarmed it arms the flag and schedules its reset two
      seconds later; while armed it stops the program. */
  function Button2Release(l: LoggerState): LoggerState
  {
    if !l.endButtonPressed then Schedule(l.(endButtonPressed := true), ConfirmWindow, ResetButtonFlag)
    else l.(shouldStop := true)
  }

  function Button2Events(l: LoggerState, es: seq<ButtonEvent>): (r: LoggerState)
    ensures l.tasks <= r.tasks && Settled(l, r) && r.displayOn == l.displayOn
  {
    if es == [] then l
    else
      var r := Button2Events(l, es[..|es| - 1]);
      if es[|es| - 1] == ButtonUp then Button2Release(r) else r
  }

  /** One release only arms: nothing stops, and a reset is scheduled. A second
      release before the reset stops the program. The reset disarms. */
  lemma TwoPressConfirmation(l: LoggerState)
    requires !l.endButtonPressed && !l.shouldStop
    ensures var armed := Button2Release(l);
            armed.endButtonPressed && !armed.shouldStop &&
            armed.tasks == l.tasks + [Task(0.0, ConfirmWindow, ResetButtonFlag)] &&
            Button2Release(armed).shouldStop &&
            !Perform(armed, ResetButtonFlag).endButtonPressed
  {
  }

  /** In the events of one iteration: a single press and release arms, two stop. */
  lemma Button2Confirms(l: LoggerState)
    requires !l.endButtonPressed && !l.shouldStop
    ensures !Button2Events(l, [ButtonDown, ButtonUp]).shouldStop
    ensures Button2Events(l, [ButtonDown, ButtonUp, ButtonDown, ButtonUp]).shouldStop
  {
    var once := [ButtonDown, ButtonUp];
    var twice := once + once;
    assert [ButtonDown][..0] == [];
    assert Button2Events(l, [ButtonDown]) == l;
    assert once[..1] == [ButtonDown];
    var armed := Button2Events(l, once);
    assert armed == Button2Release(l);
    assert twice[..3] == once + [ButtonDown] && (once + [ButtonDown])[..2] == once;
    assert Button2Events(l, twice[..3]) == armed;
    assert armed.endButtonPressed;
    assert twice[..|twice| - 1] == twice[..3];
    assert Button2Events(l, twice) == Button2Release(armed);
    assert twice == [ButtonDown, ButtonUp, ButtonDown, ButtonUp];
  }

  // ------------------------------------------------------------ the main loop

  /** What one iteration of the main loop reads: the two pins and the seconds since
      the previous iteration. */
  datatype Reading = Reading(pin1: bool, pin2: bool, dt: real)

  /** The logger's state together with its two buttons. */
  datatype Machine = Machine(logger: LoggerState, b1: ButtonState, b2: ButtonState)

  datatype Handled = Handled(logger: LoggerState, button: ButtonState)

  /** Button 1's turn in the main loop: update, drain its events, toggle the display
      per release, and once held longer than five seconds schedule a shutdown and
      disable the button. */
  function HandleButton1(l: LoggerState, b: ButtonState, sample: bool, dt: real): Handled
  {
    var u := Sample(b, sample, dt);
    var l1 := Button1Events(l, u.events);
    var drained := u.(events := []);
    if drained.timePressed > HoldTime then
      Handled(Schedule(l1, ShutdownDelay, Shutdown), drained.(active := false, pressed := false, timePressed := 0.0))
    else Handled(l1, drained)
  }

  /** Button 2's turn in the main loop: update, drain its events, and confirm. */
  function HandleButton2(l: LoggerState, b: ButtonState, sample: bool, dt: real): Handled
  {
    var u := Sample(b, sample, dt);
    Handled(Button2Events(l, u.events), u.(events := []))
  }

  /** One iteration of the main loop: the error check, button 1, button 2, then the
      task loop. */
  function Step(m: Machine, r: Reading): Machine
  {
    var l0 := if m.logger.errorStrikes >= StrikeThreshold then Perform(m.logger, Shutdown) else m.logger;
    var h1 := HandleButton1(l0, m.b1, r.pin1, r.dt);
    var h2 := HandleButton2(h1.logger, m.b2, r.pin2, r.dt);
    Machine(TickTasks(h2.logger, |h2.logger.tasks|), h1.button, h2.button)
  }

  /** The main loop over the readings: it iterates until the stop event is set. */
  function Run(m: Machine, rs: seq<Reading>): Machine
  {
    if rs == [] then m
    else
      var p := Run(m, rs[..|rs| - 1]);
      if p.logger.shouldStop then p else Step(p, rs[|rs| - 1])
  }

  /** The stop event and the shutdown request, once set, survive an iteration. */
  lemma StopIsFinal(m: Machine, r: Reading)
    ensures Settled(m.logger, Step(m, r).logger)
  {
  }

  /** Ten sensor errors shut the logger down on the next iteration. */
  lemma StrikesShutDown(m: Machine, r: Reading)
    requires m.logger.errorStrikes >= StrikeThreshold
    ensures Step(m, r).logger.shouldStop && Step(m, r).logger.initialiseShutdown
  {
    StopIsFinal(m.(logger := Perform(m.logger, Shutdown)), r);
  }

  /** Holding button 1 past five seconds disables it and leaves a shutdown task at
      the end of the existing tasks, its timer advanced once by the same iteration. */
  lemma HoldSchedulesShutdown(m: Machine, r: Reading)
    requires m.b1.active && r.pin1 && m.b1.timePressed + r.dt > HoldTime
    ensures var s := Step(m, r);
            !s.b1.active && |s.logger.tasks| > |m.logger.tasks| &&
            s.logger.tasks[|m.logger.tasks|] == Task(RunningDelay, ShutdownDelay, Shutdown)
  {
    var l0 := if m.logger.errorStrikes >= StrikeThreshold then Perform(m.logger, Shutdown) else m.logger;
    var h1 := HandleButton1(l0, m.b1, r.pin1, r.dt);
    var h2 := HandleButton2(h1.logger, m.b2, r.pin2, r.dt);
    var n := |m.logger.tasks|;
    assert h1.logger.tasks == m.logger.tasks + [Task(0.0, ShutdownDelay, Shutdown)];
    assert h1.logger.tasks <= h2.logger.tasks;
    assert h2.logger.tasks[n] == Task(0.0, ShutdownDelay, Shutdown);
    TickTasksEffect(h2.logger, |h2.logger.tasks|);
  }

  /** No iteration removes a task or changes what it does or when. */
  lemma TasksKept(m: Machine, r: Reading)
    ensures var s := Step(m, r);
            |s.logger.tasks| >= |m.logger.tasks| &&
            forall k :: 0 <= k < |m.logger.tasks| ==>
              s.logger.tasks[k].delay == m.logger.tasks[k].delay &&
              s.logger.tasks[k].action == m.logger.tasks[k].action
  {
    var l0 := if m.logger.errorStrikes >= StrikeThreshold then Perform(m.logger, Shutdown) else m.logger;
    var h1 := HandleButton1(l0, m.b1, r.pin1, r.dt);
    var h2 := HandleButton2(h1.logger, m.b2, r.pin2, r.dt);
    assert m.logger.tasks <= h1.logger.tasks <= h2.logger.tasks;
    TickTasksEffect(h2.logger, |h2.logger.tasks|);
  }

  /** Readings after the stop event change nothing. */
  lemma {:induction false} RunStops(m: Machine, rs: seq<Reading>, i: nat)
    requires i <= |rs| && Run(m, rs[..i]).logger.shouldStop
    ensures Run(m, rs) == Run(m, rs[..i])
  {
    if i < |rs| {
      assert rs[..|rs| - 1][..i] == rs[..i];
      RunStops(m, rs[..|rs| - 1], i);
      assert rs[..|rs|] == rs;
    } else {
      assert rs[..i] == rs;
    }
  }

  class Logger {
    const readInterval: int
    const retryDelay: int
    const button1: Button
    const button2: Button
    var tasks: seq<Task>
    var shouldStop: bool
    var initialiseShutdown: bool
    var endButtonPressed: bool
    var displayOn: bool
    var errorStrikes: nat

    predicate Distinct()
    {
      button1 != button2
    }

    function State(): LoggerState
      reads this
    {
      LoggerState(tasks, shouldStop, initialiseShutdown, endButtonPressed, displayOn, errorStrikes)
    }

    function Snapshot(): Machine
      reads this, button1, button2
    {
      Machine(State(), button1.State(), button2.State())
    }

    /** Logger.__init__, without the sensor, the log file and the display. */
    constructor (readInterval: int, retryDelay: int)
      ensures Distinct() && fresh(button1) && fresh(button2)
      ensures button1.pin == Button1Pin && button2.pin == Button2Pin
      ensures this.readInterval == ReadInterval(readInterval) && this.retryDelay == retryDelay
      ensures Snapshot() == Machine(InitialLogger(), InitialButton(), InitialButton())
    {
      this.readInterval := if readInterval < MinReadInterval then MinReadInterval else readInterval;
      this.retryDelay := retryDelay;
      button1 := new Button(Button1Pin);
      button2 := new Button(Button2Pin);
      tasks := [];
      shouldStop := false;
      initialiseShutdown := false;
      endButtonPressed := false;
      displayOn := true;
      errorStrikes := 0;
    }

    /** The sensor thread's count of timeouts and missing-sensor errors. */
    method SensorError()
      modifies this`errorStrikes
      ensures errorStrikes == old(errorStrikes) + 1
    {
      errorStrikes := errorStrikes + 1;
    }

    method ScheduleTask(delay: real, a: Action)
      modifies this`tasks
      ensures State() == Schedule(old(State()), delay, a)
    {
      tasks := tasks + [Task(0.0, delay, a)];
    }

    method RunTask(a: Action)
      modifies this`shouldStop, this`initialiseShutdown, this`endButtonPressed
      ensures State() == Perform(old(State()), a)
    {
      match a
      case Shutdown =>
        shouldStop := true;
        initialiseShutdown := true;
      case ResetButtonFlag =>
        endButtonPressed := false;
    }

    /** The task loop of the main loop. */
    method AdvanceTasks()
      modifies this
      ensures State() == TickTasks(old(State()), |old(tasks)|)
    {
      for i := 0 to |tasks|
        invariant |tasks| == |old(tasks)|
        invariant State() == TickTasks(old(State()), i)
      {
        ghost var before := State();
        var t := Advanced(tasks[i]);
        tasks := tasks[i := t];
        if t.timer >= t.delay {
          RunTask(t.action);
          tasks := tasks[i := t.(timer := Done)];
          assert tasks == before.tasks[i := t.(timer := Done)];
        }
        assert State() == TickTask(before, i);
      }
    }

    method ToggleDisplay(es: seq<ButtonEvent>)
      modifies this`displayOn
      ensures State() == Button1Events(old(State()), es)
    {
      for i := 0 to |es|
        invariant State() == Button1Events(old(State()), es[..i])
      {
        assert es[..i + 1][..i] == es[..i];
        if es[i] == ButtonUp {
          displayOn := !displayOn;
        }
      }
      assert es[..|es|] == es;
    }

    method ConfirmStop(es: seq<ButtonEvent>)
      modifies this
      ensures State() == Button2Events(old(State()), es)
    {
      for i := 0 to |es|
        invariant State() == Button2Events(old(State()), es[..i])
      {
        assert es[..i + 1][..i] == es[..i];
        if es[i] == ButtonUp {
          if !endButtonPressed {
            endButtonPressed := true;
            ScheduleTask(ConfirmWindow, ResetButtonFlag);
          } else {
            shouldStop := true;
          }
        }
      }
      assert es[..|es|] == es;
    }

    method ServeButton1(sample: bool, dt: real)
      requires Distinct()
      modifies this, button1
      ensures var h := HandleButton1(old(State()), old(button1.State()), sample, dt);
              State() == h.logger && button1.State() == h.button
    {
      button1.Update(sample, dt);
      var es := button1.GetEvents();
      ToggleDisplay(es);
      if button1.timePressed > HoldTime {
        ScheduleTask(ShutdownDelay, Shutdown);
        button1.Disable();
      }
    }

    method ServeButton2(sample: bool, dt: real)
      requires Distinct()
      modifies this, button2
      ensures var h := HandleButton2(old(State()), old(button2.State()), sample, dt);
              State() == h.logger && button2.State() == h.button
    {
      button2.Update(sample, dt);
      var es := button2.GetEvents();
      ConfirmStop(es);
    }

    /** One iteration of Logger.mainloop, without the sensor rows and the display. */
    method Iterate(r: Reading)
      requires Distinct()
      modifies this, button1, button2
      ensures Snapshot() == Step(old(Snapshot()), r)
    {
      if errorStrikes >= StrikeThreshold {
        RunTask(Shutdown);
      }
      ServeButton1(r.pin1, r.dt);
      ServeButton2(r.pin2, r.dt);
      AdvanceTasks();
    }

    /** Logger.mainloop: iterate over the readings until the stop event is set. */
    method Mainloop(rs: seq<Reading>)
      requires Distinct()
      modifies this, button1, button2
      ensures Snapshot() == Run(old(Snapshot()), rs)
    {
      var i := 0;
      while i < |rs| && !shouldStop
        invariant i <= |rs|
        invariant Snapshot() == Run(old(Snapshot()), rs[..i])
      {
        assert rs[..i + 1][..i] == rs[..i];
        Iterate(rs[i]);
        i := i + 1;
      }
      if i < |rs| {
        RunStops(old(Snapshot()), rs, i);
      } else {
        assert rs[..i] == rs;
      }
    }
  }
}
