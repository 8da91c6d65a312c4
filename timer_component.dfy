/** The `TimerApp` component as an object whose handlers and effects update
    its state fields, and `localStorage`, in place. Each method performs the
    transition of the same name in TimerMachine. */
module TimerComponent {
  import opened Wrappers
  import opened JsString
  import opened LocalStorage
  import opened TimerMachine
  import opened Phrases

  class TimerApp {
    var name: string
    var timeLeft: int
    var isRunning: bool
    var isCompleted: bool
    var selectedTime: int
    var completedCount: nat
    var savedName: string
    const storage: Storage

    /** The component's state and the store, as a value. */
    function Snapshot(): Session
      reads this, storage
    {
      Session(name, timeLeft, isRunning, isCompleted, selectedTime, completedCount, savedName, storage.items)
    }

    ghost predicate Valid()
      reads this, storage
    {
      Inv(Snapshot())
    }

    /** First render: the `useState` initialisers, reading the persisted
        count and name. */
    constructor (storage: Storage)
      requires StoredCount(storage.items).Some?
      ensures this.storage == storage
      ensures Snapshot() == Initial(storage.items)
      ensures Valid()
    {
      this.storage := storage;
      name := "";
      timeLeft := DefaultDuration;
      isRunning := false;
      isCompleted := false;
      selectedTime := DefaultDuration;
      var stored := storage.GetItem(CountKey);
      completedCount := if stored.None? || stored.value == "" then 0 else ParseDecimal(stored.value).value;
      var storedName := storage.GetItem(SavedNameKey);
      savedName := if storedName.Some? then storedName.value else "";
      new;
      InitialInv(storage.items);
    }

    /** The name input's `onChange`; the input is disabled while running. */
    method EditName(value: string)
      requires Valid() && !isRunning
      modifies this
      ensures Valid()
      ensures Snapshot() == TimerMachine.EditName(old(Snapshot()), value)
    {
      name := value;
    }

    /** The selector's `onChange` with the chosen option's value; the
        selector is disabled while running. */
    method SelectTime(option: string)
      requires Valid() && !isRunning
      requires option in [OptionValue(10), OptionValue(20), OptionValue(30)]
      modifies this
      ensures Valid()
      ensures ParseDecimal(option).Some?
      ensures Snapshot() == TimerMachine.SelectTime(old(Snapshot()), option)
      ensures selectedTime == timeLeft == ParseDecimal(option).value
    {
      OptionValuesParse(10); OptionValuesParse(20); OptionValuesParse(30);
      var newTime := ParseDecimal(option).value;
      selectedTime := newTime;
      if !isRunning {
        timeLeft := newTime;
      }
    }

    /** `startTimer`. */
    method StartTimer()
      requires Valid()
      modifies this
      ensures Valid()
      ensures Snapshot() == TimerMachine.StartTimer(old(Snapshot()))
      ensures isRunning == (old(isRunning) || HasVisibleText(name))
    {
      if Trim(name) != "" {
        isRunning := true;
        isCompleted := false;
        timeLeft := selectedTime;
      }
    }

    /** One firing of the interval; the effect keeps an interval only while
        the countdown runs with time left. */
    method Tick()
      requires Valid()
      modifies this
      ensures Valid()
      ensures Snapshot() == TimerMachine.Tick(old(Snapshot()))
    {
      if isRunning && timeLeft > 0 {
        timeLeft := timeLeft - 1;
      }
    }

    /** The effect's completion branch. */
    method CheckCompletion()
      requires Valid()
      modifies this, storage
      ensures Valid()
      ensures Snapshot() == TimerMachine.Complete(old(Snapshot()))
      ensures completedCount == old(completedCount) + (if old(isRunning) && old(timeLeft) == 0 then 1 else 0)
    {
      ghost var before := Snapshot();
      CompleteInv(before);
      if isRunning && timeLeft > 0 {
        assert Complete(before) == before;
      } else if timeLeft == 0 && isRunning {
        CompleteFired(before);
        isRunning := false;
        isCompleted := true;
        var newCount := completedCount + 1;
        completedCount := newCount;
        storage.SetItem(CountKey, ToDecimal(newCount));
        if name != "" {
          storage.SetItem(SavedNameKey, name);
          savedName := name;
        }
        assert Snapshot() == Complete(before);
      } else {
        assert Complete(before) == before;
      }
    }

    /** `resetTimer`. */
    method ResetTimer()
      requires Valid()
      modifies this, storage
      ensures Valid()
      ensures Snapshot() == TimerMachine.ResetTimer(old(Snapshot()))
      ensures storage.GetItem(CountKey) == None && storage.GetItem(SavedNameKey) == None
    {
      isRunning := false;
      isCompleted := false;
      timeLeft := selectedTime;
      name := "";
      completedCount := 0;
      savedName := "";
      storage.RemoveItem(CountKey);
      storage.RemoveItem(SavedNameKey);
      assert storage.items == old(storage.items) - {CountKey} - {SavedNameKey};
    }

    /** `tryAgain`. */
    method TryAgain()
      requires Valid()
      modifies this
      ensures Valid()
      ensures Snapshot() == TimerMachine.TryAgain(old(Snapshot()))
    {
      isCompleted := false;
      timeLeft := selectedTime;
    }

    /** The effect that restores the saved name into an empty name field. */
    method RestoreSavedName()
      requires Valid()
      modifies this
      ensures Valid()
      ensures Snapshot() == TimerMachine.RestoreSavedName(old(Snapshot()))
    {
      if savedName != "" && name == "" {
        name := savedName;
      }
    }

    /** `getRandomPhrase` with the random index `i` as a parameter, as the
        page computes it: `replace` expands `$` patterns in the name, so the
        name appears literally (as in Phrases.Phrase) only when it holds no
        `$`. The head of the phrase is always shown unchanged. */
    method CelebrationPhrase(i: nat) returns (phrase: string)
      requires i < |MotivationalPhrases|
      ensures phrase == PhraseAsWritten(i, name)
      ensures '$' !in name ==> phrase == Phrase(i, name)
      ensures phrase[..|Head(i)|] == Head(i) && phrase != []
    {
      PhraseAsWrittenKeepsHead(i, name);
      PhraseAgreesWithReplace(i, name);
      phrase := PhraseAsWritten(i, name);
    }
  }

  /** One whole countdown on the object: start, a tick per second, and the
      completion step. */
  method CountDown(app: TimerApp)
    requires app.Valid() && !app.isRunning && HasVisibleText(app.name)
    modifies app, app.storage
    ensures app.Valid()
    ensures app.isCompleted && !app.isRunning && app.timeLeft == 0
    ensures app.completedCount == old(app.completedCount) + 1
    ensures app.savedName == app.name == old(app.name)
    ensures app.storage.GetItem(CountKey) == Some(ToDecimal(app.completedCount))
    ensures app.storage.GetItem(SavedNameKey) == Some(app.name)
  {
    app.StartTimer();
    while app.timeLeft > 0
      invariant app.Valid() && app.isRunning && !app.isCompleted
      invariant app.name == old(app.name) && app.completedCount == old(app.completedCount)
      decreases app.timeLeft
    {
      app.Tick();
    }
    ghost var before := app.Snapshot();
    app.CheckCompletion();
    CompleteSpec(before);
  }
}
