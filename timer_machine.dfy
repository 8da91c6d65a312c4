/** The countdown timer of the `TimerApp` component as a state machine over
    values: one function per event handler and per effect, the invariant
    they keep, and what runs of events do. The class in TimerComponent
    performs the same transitions in place. */
module TimerMachine {
  import opened Wrappers
  import opened JsString
  import opened LocalStorage

  const CountKey: string := "completedCount"
  const SavedNameKey: string := "savedName"

  /** The durations the selector offers, in seconds. */
  const Durations: seq<int> := [10, 20, 30]
  const DefaultDuration: int := 10

  /** The `value` of each `<option>`: React writes the number as a string. */
  function OptionValue(d: nat): string
  {
    ToDecimal(d)
  }

  /** The component's state together with the contents of `localStorage`. */
  datatype Session = Session(
    name: string,
    timeLeft: int,
    isRunning: bool,
    isCompleted: bool,
    selectedTime: int,
    completedCount: nat,
    savedName: string,
    store: map<string, string>)

  /** The completion count read at start-up,
      `parseInt(getItem('completedCount') || '0')`: absent or empty gives 0, a
      decimal string gives its value; None for every other string. */
  function StoredCount(store: map<string, string>): Option<nat>
  {
    match Lookup(store, CountKey)
    case None => Some(0)
    case Some(v) => if v == "" then Some(0) else ParseDecimal(v)
  }

  /** The saved name read at start-up, `getItem('savedName') || ''`. */
  function StoredName(store: map<string, string>): string
  {
    match Lookup(store, SavedNameKey)
    case None => ""
    case Some(v) => v
  }

  /** The state on first render: no name, idle, ten seconds, and the
      persisted count and name. */
  function Initial(store: map<string, string>): Session
    requires StoredCount(store).Some?
  {
    Session("", DefaultDuration, false, false, DefaultDuration,
            StoredCount(store).value, StoredName(store), store)
  }

  /** What every reachable state satisfies: never running and completed at
      once, a duration from the selector, the remaining time within it, a
      visible name whenever the countdown runs, and the in-memory count and
      name equal to what a reload would read from the store. A running
      countdown always has a name: start demands visible text, and the
      input is disabled while running. */
  ghost predicate Inv(s: Session)
  {
    && !(s.isRunning && s.isCompleted)
    && s.selectedTime in Durations
    && 0 <= s.timeLeft <= s.selectedTime
    && (s.isRunning ==> s.name != "")
    && StoredCount(s.store) == Some(s.completedCount)
    && s.savedName == StoredName(s.store)
  }

  // ---------------------------------------------------------------------
  // transitions

  /** The name input's `onChange`. */
  function EditName(s: Session, value: string): Session
  {
    s.(name := value)
  }

  /** The duration selector's `onChange`: `parseInt` of the option value
      becomes the selected time, and the remaining time too when idle. */
  function SelectTime(s: Session, option: string): Session
    requires ParseDecimal(option).Some?
  {
    var newTime := ParseDecimal(option).value;
    s.(selectedTime := newTime, timeLeft := if !s.isRunning then newTime else s.timeLeft)
  }

  /** `startTimer`: nothing happens unless the trimmed name is non-empty. */
  function StartTimer(s: Session): Session
  {
    if HasVisibleText(s.name) then
      s.(isRunning := true, isCompleted := false, timeLeft := s.selectedTime)
    else s
  }

  /** One firing of the interval, which the effect schedules only while the
      countdown runs and time is left. */
  function Tick(s: Session): Session
  {
    if s.isRunning && s.timeLeft > 0 then s.(timeLeft := s.timeLeft - 1) else s
  }

  /** The effect's completion branch, taken when the countdown runs and the
      time is zero: stop, show completion, count and persist the run, and
      save the name when there is one. The first conjunct of the guard
      mirrors the `else` of the effect's `if`: the branch is only reached
      when the tick branch is not taken. */
  function Complete(s: Session): Session
  {
    if !(s.isRunning && s.timeLeft > 0) && s.timeLeft == 0 && s.isRunning then
      var newCount := s.completedCount + 1;
      var counted := s.(isRunning := false, isCompleted := true, completedCount := newCount,
                        store := s.store[CountKey := ToDecimal(newCount)]);
      if s.name != "" then counted.(store := counted.store[SavedNameKey := s.name], savedName := s.name)
      else counted
    else s
  }

  /** `resetTimer`. */
  function ResetTimer(s: Session): Session
  {
    s.(isRunning := false, isCompleted := false, timeLeft := s.selectedTime, name := "",
       completedCount := 0, savedName := "", store := s.store - {CountKey} - {SavedNameKey})
  }

  /** `tryAgain`: back to the start screen with the time refilled; it does
      not start the countdown. */
  function TryAgain(s: Session): Session
  {
    s.(isCompleted := false, timeLeft := s.selectedTime)
  }

  /** The effect that puts the saved name into an empty name field. */
  function RestoreSavedName(s: Session): Session
  {
    if s.savedName != "" && s.name == "" then s.(name := s.savedName) else s
  }

  // ---------------------------------------------------------------------
  // properties of single transitions

  /** Every option of the selector reads back as its duration. */
  lemma OptionValuesParse(d: nat)
    ensures ParseDecimal(OptionValue(d)) == Some(d)
  {
    ParseToDecimal(d);
  }

  lemma InitialInv(store: map<string, string>)
    requires StoredCount(store).Some?
    ensures Inv(Initial(store))
    ensures !Initial(store).isRunning && !Initial(store).isCompleted
    ensures Initial(store).completedCount == StoredCount(store).value
  {
  }

  /** Starting does nothing when the name is blank (every character is
      whitespace); otherwise the countdown runs from the selected time. */
  lemma StartTimerSpec(s: Session)
    requires Inv(s)
    ensures Inv(StartTimer(s))
    ensures (forall i :: 0 <= i < |s.name| ==> IsTrimmable(s.name[i])) ==> StartTimer(s) == s
    ensures (exists i :: 0 <= i < |s.name| && !IsTrimmable(s.name[i])) ==>
      StartTimer(s) == s.(isRunning := true, isCompleted := false, timeLeft := s.selectedTime)
  {
    TrimEmptyIffBlank(s.name);
  }

  /** A tick fires exactly while the countdown runs with time left, takes
      one second off and changes nothing else. */
  lemma TickSpec(s: Session)
    requires Inv(s)
    ensures Inv(Tick(s))
    ensures Tick(s) != s <==> s.isRunning && s.timeLeft > 0
    ensures Tick(s) != s ==> Tick(s) == s.(timeLeft := s.timeLeft - 1)
  {
  }

  /** The completed state, spelled out field by field. */
  lemma CompleteFired(s: Session)
    requires s.isRunning && s.timeLeft == 0
    ensures var n := s.completedCount + 1;
      var counted := s.store[CountKey := ToDecimal(n)];
      Complete(s) == Session(s.name, 0, false, true, s.selectedTime, n,
                             if s.name != "" then s.name else s.savedName,
                             if s.name != "" then counted[SavedNameKey := s.name] else counted)
  {
  }

  /** The keys of the store that completion writes. */
  lemma CompleteStore(s: Session)
    requires s.isRunning && s.timeLeft == 0
    ensures var r := Complete(s);
      && Lookup(r.store, CountKey) == Some(ToDecimal(s.completedCount + 1))
      && (s.name != "" ==> Lookup(r.store, SavedNameKey) == Some(s.name))
      && (forall k :: k != CountKey && k != SavedNameKey ==> Lookup(r.store, k) == Lookup(s.store, k))
  {
    assert CountKey != SavedNameKey;
  }

  /** Completion keeps the invariant: the persisted count reads back as the
      new count, and the saved name is the name. */
  lemma CompleteInv(s: Session)
    requires Inv(s)
    ensures Inv(Complete(s))
  {
    if s.isRunning && s.timeLeft == 0 {
      CompleteStore(s);
      ParseToDecimal(s.completedCount + 1);
    }
  }

  /** Completion fires exactly when the countdown runs and has reached zero.
      It stops the countdown, shows completion, adds one to the count and
      persists it, and saves the name, which the invariant guarantees is
      non-empty; every other key of the store is untouched. */
  lemma CompleteSpec(s: Session)
    requires Inv(s)
    ensures Inv(Complete(s))
    ensures Complete(s) != s <==> s.isRunning && s.timeLeft == 0
    ensures var r := Complete(s);
      s.isRunning && s.timeLeft == 0 ==>
        && !r.isRunning && r.isCompleted
        && r.completedCount == s.completedCount + 1
        && Lookup(r.store, CountKey) == Some(ToDecimal(s.completedCount + 1))
        && r.savedName == s.name && Lookup(r.store, SavedNameKey) == Some(s.name)
        && r.name == s.name && r.timeLeft == 0 && r.selectedTime == s.selectedTime
        && (forall k :: k != CountKey && k != SavedNameKey ==> Lookup(r.store, k) == Lookup(s.store, k))
  {
    CompleteInv(s);
    if s.isRunning && s.timeLeft == 0 {
      CompleteStore(s);
    }
  }

  /** After a completion the countdown is stopped, so completion cannot fire
      again: one run is counted once. */
  lemma CompleteOnce(s: Session)
    ensures Complete(Complete(s)) == Complete(s)
    ensures Complete(s) != s ==> Tick(Complete(s)) == Complete(s)
  {
  }

  /** Reset stops and clears the session, zeroes the count, and removes the
      two persisted keys, leaving the duration and every other key (such as
      the theme) as they were. */
  lemma ResetTimerSpec(s: Session)
    requires Inv(s)
    ensures var r := ResetTimer(s);
      && Inv(r)
      && !r.isRunning && !r.isCompleted && r.timeLeft == s.selectedTime
      && r.name == "" && r.completedCount == 0 && r.savedName == ""
      && Lookup(r.store, CountKey) == None && Lookup(r.store, SavedNameKey) == None
      && r.selectedTime == s.selectedTime
      && (forall k :: k != CountKey && k != SavedNameKey ==> Lookup(r.store, k) == Lookup(s.store, k))
  {
  }

  /** Try-again clears the completion view and refills the time; it neither
      starts nor stops the countdown and keeps the count. */
  lemma TryAgainSpec(s: Session)
    requires Inv(s)
    ensures var r := TryAgain(s);
      && Inv(r)
      && !r.isCompleted && r.timeLeft == s.selectedTime
      && r.isRunning == s.isRunning && r.completedCount == s.completedCount
      && r.store == s.store
  {
  }

  /** Choosing an option while idle selects its duration and shows it as the
      remaining time, so no progress is shown. */
  lemma SelectTimeSpec(s: Session, d: nat)
    requires Inv(s) && !s.isRunning && d in Durations
    ensures ParseDecimal(OptionValue(d)).Some?
    ensures var r := SelectTime(s, OptionValue(d));
      Inv(r) && r.selectedTime == d && r.timeLeft == d && Progress(r) == 0
  {
    OptionValuesParse(d);
  }

  /** The restore effect fills only an empty name, and only with the saved one. */
  lemma RestoreSavedNameSpec(s: Session)
    requires Inv(s)
    ensures Inv(RestoreSavedName(s))
    ensures RestoreSavedName(s).name == (if s.name == "" then s.savedName else s.name)
    ensures RestoreSavedName(s) == s.(name := RestoreSavedName(s).name)
  {
    assert s.isRunning ==> s.name != "";
  }

  /** Reloading the page reads back the count and name held in memory. */
  lemma ReloadRestores(s: Session)
    requires Inv(s)
    ensures StoredCount(s.store).Some?
    ensures Initial(s.store).completedCount == s.completedCount
    ensures Initial(s.store).savedName == s.savedName
    ensures s.savedName != "" ==> RestoreSavedName(Initial(s.store)).name == s.savedName
  {
  }

  // ---------------------------------------------------------------------
  // progress bar

  /** The elapsed seconds, the numerator of `progressPercentage`. */
  function Progress(s: Session): (p: int)
    requires Inv(s)
    ensures 0 <= p <= s.selectedTime
    ensures p == 0 <==> s.timeLeft == s.selectedTime
  {
    s.selectedTime - s.timeLeft
  }

  /** `progressPercentage`, computed exactly: a value from 0 to 100. */
  function ProgressPercentage(s: Session): (r: real)
    requires Inv(s)
    ensures 0.0 <= r <= 100.0
  {
    var elapsed := Progress(s) as real;
    var total := s.selectedTime as real;
    assert elapsed / total <= 1.0;
    (elapsed / total) * 100.0
  }

  // ---------------------------------------------------------------------
  // runs of events

  /** What the user and the timer can do. `Tick` is the interval firing,
      `Complete` and `RestoreName` the two effects running. */
  datatype Event =
    | EditNameEvent(value: string)
    | SelectTimeEvent(option: string)
    | StartEvent
    | TickEvent
    | CompleteEvent
    | TryAgainEvent
    | ResetEvent
    | RestoreNameEvent

  /** The name input and the selector are `disabled` while the countdown
      runs, and the selector only offers its three options. */
  predicate Enabled(s: Session, e: Event)
  {
    match e
    case EditNameEvent(_) => !s.isRunning
    case SelectTimeEvent(o) => !s.isRunning && o in [OptionValue(10), OptionValue(20), OptionValue(30)]
    case _ => true
  }

  /** One event; an event on a disabled control does not happen. */
  function Step(s: Session, e: Event): Session
  {
    if !Enabled(s, e) then s
    else match e
      case EditNameEvent(v) => EditName(s, v)
      case SelectTimeEvent(o) =>
        OptionValuesParse(10); OptionValuesParse(20); OptionValuesParse(30);
        SelectTime(s, o)
      case StartEvent => StartTimer(s)
      case TickEvent => Tick(s)
      case CompleteEvent => Complete(s)
      case TryAgainEvent => TryAgain(s)
      case ResetEvent => ResetTimer(s)
      case RestoreNameEvent => RestoreSavedName(s)
  }

  function Run(s: Session, es: seq<Event>): Session
    decreases |es|
  {
    if es == [] then s else Run(Step(s, es[0]), es[1..])
  }

  lemma StepInv(s: Session, e: Event)
    requires Inv(s)
    ensures Inv(Step(s, e))
  {
    if Enabled(s, e) {
      match e
      case EditNameEvent(v) =>
      case SelectTimeEvent(o) =>
        OptionValuesParse(10); OptionValuesParse(20); OptionValuesParse(30);
      case StartEvent =>
      case TickEvent =>
      case CompleteEvent => CompleteSpec(s);
      case TryAgainEvent =>
      case ResetEvent =>
      case RestoreNameEvent =>
    }
  }

  /** Every state reached from a good state is good: in particular the
      countdown is never running and completed at once, and the remaining
      time stays within the selected duration. */
  lemma {:induction false} RunInv(s: Session, es: seq<Event>)
    requires Inv(s)
    ensures Inv(Run(s, es))
    ensures !(Run(s, es).isRunning && Run(s, es).isCompleted)
    ensures 0 <= Run(s, es).timeLeft <= Run(s, es).selectedTime
    decreases |es|
  {
    if es != [] {
      StepInv(s, es[0]);
      RunInv(Step(s, es[0]), es[1..]);
    }
  }

  lemma {:induction false} RunAppend(s: Session, a: seq<Event>, b: seq<Event>)
    ensures Run(s, a + b) == Run(Run(s, a), b)
    decreases |a|
  {
    if a != [] {
      assert (a + b)[0] == a[0] && (a + b)[1..] == a[1..] + b;
      RunAppend(Step(s, a[0]), a[1..], b);
    } else {
      assert a + b == b;
    }
  }

  function Pending(s: Session): nat
  {
    if s.isRunning then 1 else 0
  }

  function Starts(es: seq<Event>): nat
    decreases |es|
  {
    if es == [] then 0 else (if es[0] == StartEvent then 1 else 0) + Starts(es[1..])
  }

  /** Each start adds at most one to the completion count: over any run, the
      count plus the run in progress grows by no more than the number of
      starts (a reset only lowers it). */
  lemma {:induction false} CountBoundedByStarts(s: Session, es: seq<Event>)
    ensures Run(s, es).completedCount + Pending(Run(s, es)) <= s.completedCount + Pending(s) + Starts(es)
    decreases |es|
  {
    if es != [] {
      CountBoundedByStarts(Step(s, es[0]), es[1..]);
    }
  }

  /** Without a reset the completion count never goes down. */
  lemma {:induction false} CountGrowsWithoutReset(s: Session, es: seq<Event>)
    requires ResetEvent !in es
    ensures Run(s, es).completedCount >= s.completedCount
    decreases |es|
  {
    if es != [] {
      assert es[0] != ResetEvent;
      assert ResetEvent !in es[1..];
      CountGrowsWithoutReset(Step(s, es[0]), es[1..]);
    }
  }

  function Ticks(k: nat): (es: seq<Event>)
  {
    seq(k, _ => TickEvent)
  }

  /** While the countdown runs, k ticks take k seconds off and change nothing else. */
  lemma {:induction false} RunTicks(s: Session, k: nat)
    requires s.isRunning && k <= s.timeLeft
    ensures Run(s, Ticks(k)) == s.(timeLeft := s.timeLeft - k)
    decreases k
  {
    if k > 0 {
      assert Ticks(k)[0] == TickEvent && Ticks(k)[1..] == Ticks(k - 1);
      RunTicks(Tick(s), k - 1);
    }
  }

  /** A full run: from an idle state with a visible name, start, one tick per
      second of the selected duration, and the completion step leave the
      session completed with the count one higher and the name saved. */
  lemma FullRun(s: Session)
    requires Inv(s) && !s.isRunning && HasVisibleText(s.name)
    ensures var r := Run(s, [StartEvent] + Ticks(s.selectedTime) + [CompleteEvent]);
      && Inv(r) && r.isCompleted && !r.isRunning && r.timeLeft == 0
      && r.completedCount == s.completedCount + 1
      && Lookup(r.store, CountKey) == Some(ToDecimal(s.completedCount + 1))
      && r.savedName == s.name && Lookup(r.store, SavedNameKey) == Some(s.name)
  {
    var atZero := StartThenTicks(s);
    RunAppend(s, [StartEvent] + Ticks(s.selectedTime), [CompleteEvent]);
    RunSingle(atZero, CompleteEvent);
    var r := Complete(atZero);
    assert Run(s, [StartEvent] + Ticks(s.selectedTime) + [CompleteEvent]) == r;
    CompleteInv(atZero);
    CompleteFired(atZero);
    CompleteStore(atZero);
  }

  /** Starting and ticking through the whole duration reaches zero while
      still running. */
  lemma StartThenTicks(s: Session) returns (atZero: Session)
    requires Inv(s) && HasVisibleText(s.name)
    ensures atZero == Run(s, [StartEvent] + Ticks(s.selectedTime))
    ensures Inv(atZero) && atZero == s.(isRunning := true, isCompleted := false, timeLeft := 0)
  {
    var started := StartTimer(s);
    RunSingle(s, StartEvent);
    RunAppend(s, [StartEvent], Ticks(s.selectedTime));
    RunTicks(started, s.selectedTime);
    atZero := started.(timeLeft := 0);
  }

  lemma RunSingle(s: Session, e: Event)
    ensures Run(s, [e]) == Step(s, e)
    ensures e == CompleteEvent ==> Run(s, [e]) == Complete(s)
    ensures e == StartEvent ==> Run(s, [e]) == StartTimer(s)
  {
    assert [e][1..] == [];
  }

  /** Typing a name and choosing an option on a fresh page. */
  lemma TypeAndSelect(store: map<string, string>, name: string, d: nat) returns (ready: Session)
    requires StoredCount(store).Some? && d in Durations
    ensures ready == Run(Initial(store), [EditNameEvent(name), SelectTimeEvent(OptionValue(d))])
    ensures Inv(ready) && !ready.isRunning
    ensures ready.name == name && ready.selectedTime == d && ready.store == store
    ensures ready.completedCount == StoredCount(store).value
  {
    var s0 := Initial(store);
    InitialInv(store);
    var named := EditName(s0, name);
    OptionValuesParse(d);
    ready := SelectTime(named, OptionValue(d));
    var prefix := [EditNameEvent(name), SelectTimeEvent(OptionValue(d))];
    assert prefix[1..] == [SelectTimeEvent(OptionValue(d))];
    assert Step(s0, prefix[0]) == named;
    assert Enabled(named, prefix[1]);
    assert Step(named, prefix[1]) == ready;
    assert [SelectTimeEvent(OptionValue(d))][1..] == [];
    assert Run(named, [SelectTimeEvent(OptionValue(d))]) == Run(ready, []);
  }

  /** A fresh page: typing a visible name, picking a duration, starting and
      waiting it out leaves the run completed, the count one higher than the
      persisted one and the name saved (with the name "Ana", ten seconds and
      an empty store: completed, count 1, "Ana" saved). */
  lemma FreshPageRun(store: map<string, string>, name: string, d: nat)
    requires StoredCount(store).Some? && HasVisibleText(name) && d in Durations
    ensures var r := Run(Initial(store), [EditNameEvent(name), SelectTimeEvent(OptionValue(d)), StartEvent]
                                         + Ticks(d) + [CompleteEvent]);
      && r.isCompleted && !r.isRunning
      && r.completedCount == StoredCount(store).value + 1
      && Lookup(r.store, CountKey) == Some(ToDecimal(StoredCount(store).value + 1))
      && r.savedName == name && Lookup(r.store, SavedNameKey) == Some(name)
  {
    var prefix := [EditNameEvent(name), SelectTimeEvent(OptionValue(d))];
    var ready := TypeAndSelect(store, name, d);
    var events := [StartEvent] + Ticks(d) + [CompleteEvent];
    assert [EditNameEvent(name), SelectTimeEvent(OptionValue(d)), StartEvent] + Ticks(d) + [CompleteEvent]
        == prefix + events;
    RunAppend(Initial(store), prefix, events);
    FullRun(ready);
  }

  /** A page that persisted a count of 3 loses it on reset. */
  lemma ResetScenario(s: Session)
    requires Inv(s) && Lookup(s.store, CountKey) == Some("3")
    ensures s.completedCount == 3
    ensures ResetTimer(s).completedCount == 0 && Lookup(ResetTimer(s).store, CountKey) == None
  {
    assert ParseDecimal("3") == Some(3);
  }
}
