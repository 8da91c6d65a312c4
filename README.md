# Countdown timer widget, modelled in Dafny

The page lets a user type a name, pick a countdown of 10, 20 or 30 seconds,
start it, and see one of five congratulations with the name when it reaches
zero. The number of finished countdowns and the last name are kept in
`localStorage` across reloads, and so is a light/dark theme.

The model has two layers for the `TimerApp` component:

- `TimerMachine`: the state (`name`, `timeLeft`, `isRunning`,
  `isCompleted`, `selectedTime`, `completedCount`, `savedName`) and the
  store, as a `Session` value. There is one function per handler and effect,
  an invariant `Inv`, and lemmas about single transitions and about runs of
  events.
- `TimerComponent.TimerApp`: a class whose fields are the same state. Its
  storage is a shared `LocalStorage.Storage` object holding a
  `map<string, string>`. Each handler and effect is a method that updates the
  fields and the store step by step. Each method proves
  `Snapshot() == <transition>(old(Snapshot()))` and keeps `Valid()`.

Other modules:

- `Theme.App` models the theme state of `App`.
- `Phrases` models the congratulation text.
- `JsString` models the JavaScript built-ins that the component relies on:
  `trim`, `indexOf`, `replace` with `$` patterns, and number/string
  conversion.

Behaviour of the code worth noting, which the model follows:

- `startTimer` does not check that the countdown is idle. Only the hidden
  button prevents a second start.
- The duration handler accepts any number. Only the three `<option>`s limit
  the choice, so the option values are a precondition.
- A stored count that is not a number gives `NaN` in the code, not 0. See
  "Left out".
- The completion effect checks `if (name)`. The invariant proves that the name
  is never empty while the countdown runs, so the name is always saved.
- The congratulation does not always contain the name: `replace` expands `$`
  patterns in it. `TimerApp.CelebrationPhrase` shows the phrase as the page
  computes it; `Phrases.Phrase` is the literal insertion evidently intended.
  See "Findings".

## Model

| member | source | states |
|---|---|---|
| LocalStorage.Lookup | src/App.jsx:8 | `getItem` misses (null) exactly when the key is absent, and otherwise returns the stored value |
| LocalStorage.Storage.constructor | src/App.jsx:43-48 | the store the page finds on load |
| LocalStorage.Storage.GetItem | src/App.jsx:44-47 | reading a key returns what the store holds for it |
| LocalStorage.Storage.SetItem | src/App.jsx:71-74 | after `setItem` the key holds the value and every other key is unchanged |
| LocalStorage.Storage.RemoveItem | src/App.jsx:97-98 | after `removeItem` the key is absent and every other key is unchanged |
| JsString.Trim | src/App.jsx:83 | `String.prototype.trim`; no contract of its own, see TrimIsSlice and TrimEmptyIffBlank |
| JsString.HasVisibleText | src/App.jsx:83 | the truthiness of `name.trim()`; no contract of its own, see TrimEmptyIffBlank |
| JsString.TrimStart | src/App.jsx:83 | `trim` strips exactly the leading WhiteSpace/LineTerminator code points: the result is the longest suffix not starting with one |
| JsString.TrimEnd | src/App.jsx:83 | the same for trailing code points: the longest prefix not ending with one |
| JsString.TrimEmptyIffBlank | src/App.jsx:83 | `name.trim()` is empty if and only if every character of the name is whitespace |
| JsString.TrimIsSlice | src/App.jsx:83 | the trimmed name is the slice of the name left after dropping only whitespace at both ends |
| JsString.IndexOfFrom | src/App.jsx:108 | the search finds an occurrence of the pattern, and no earlier one; a miss means there is no occurrence at all |
| JsString.IndexOfAfterHead | src/App.jsx:108 | if the pattern's first character is not in `head`, the first match in `head + pat + tail` is right after `head` |
| JsString.ExpandReplacement | src/App.jsx:108 | a replacement with no `$` is inserted unchanged; a leading `$$` gives `$`, `$&` the matched text, `` $` `` the text before the match and `$'` the text after it, and the rest of the template is expanded in turn; any other leading code point, a lone `$` included, is copied and the rest expanded, as in ECMAScript's GetSubstitution without capture groups |
| JsString.Replace | src/App.jsx:108 | `replace` leaves the string unchanged when the pattern does not occur; otherwise it keeps the text before the first match, then the expanded replacement, then the text after the match, with the length that implies |
| JsString.ReplaceLiteral | src/App.jsx:108 | literal replacement keeps the text before the first match, puts the replacement there, keeps the text after the match, and has the length that implies |
| JsString.ReplaceWithoutDollar | src/App.jsx:108 | `replace` and literal replacement agree on every replacement that has no `$` |
| JsString.ToDecimal | src/App.jsx:71 | `toString` of a count is a non-empty string of digits with no leading zero |
| JsString.ParseDecimal | src/App.jsx:44 | a parse succeeds exactly on non-empty digit strings |
| JsString.ParseToDecimal | src/App.jsx:44-71 | reading back a written count gives the count |
| JsString.ToDecimalParse | src/App.jsx:44-71 | writing back a count read from a canonical digit string gives that string |
| Phrases.PhraseParts | src/App.jsx:33-39 | each phrase is a head, one `[Имя]` placeholder and a tail, and its first placeholder is the one after the head |
| Phrases.PhraseAsWritten | src/App.jsx:106-109 | as written, the phrase is head + name + tail whenever the name has no `$` |
| Phrases.DollarNamesAreMangled | src/App.jsx:108 | as written, the name `$&` leaves the placeholder in the phrase and the name `$$` shows as `$` |
| Phrases.PhraseAsWrittenKeepsHead | src/App.jsx:108 | whatever the name, the phrase as written starts with the text before the placeholder and is never empty |
| Phrases.Phrase | src/App.jsx:106-109 | the congratulation is the phrase's head, then the name, then its tail, with the name at the placeholder's position |
| Phrases.PhraseAgreesWithReplace | src/App.jsx:106-109 | the congratulation is never empty and equals the `replace` in `getRandomPhrase` for every name without `$` |
| TimerMachine.StoredCount | src/App.jsx:43-45 | the count read at start-up; no contract of its own, see InitialInv and ParseToDecimal |
| TimerMachine.StoredName | src/App.jsx:46-48 | the saved name read at start-up; no contract of its own, see ReloadRestores |
| TimerMachine.Initial | src/App.jsx:27-48 | the first-render state; no contract of its own, see InitialInv |
| TimerMachine.Inv | src/App.jsx:27-156 | the invariant of reachable states; no contract of its own, see StepInv and RunInv |
| TimerMachine.EditName | src/App.jsx:138 | the name input's handler; no contract of its own, see StepInv |
| TimerMachine.SelectTime | src/App.jsx:147-151 | the duration handler; no contract of its own, see SelectTimeSpec |
| TimerMachine.StartTimer | src/App.jsx:82-88 | `startTimer`; no contract of its own, see StartTimerSpec |
| TimerMachine.Tick | src/App.jsx:61-64 | one firing of the interval; no contract of its own, see TickSpec |
| TimerMachine.Complete | src/App.jsx:65-76 | the effect's completion branch; no contract of its own, see CompleteSpec |
| TimerMachine.ResetTimer | src/App.jsx:90-99 | `resetTimer`; no contract of its own, see ResetTimerSpec |
| TimerMachine.TryAgain | src/App.jsx:101-104 | `tryAgain`; no contract of its own, see TryAgainSpec |
| TimerMachine.RestoreSavedName | src/App.jsx:52-56 | the restore effect; no contract of its own, see RestoreSavedNameSpec |
| TimerMachine.Step | src/App.jsx:52-156 | one event applied to the state; no contract of its own, see StepInv |
| TimerMachine.Run | src/App.jsx:52-156 | a sequence of events applied in order; no contract of its own, see RunInv, RunAppend and RunTicks |
| TimerMachine.OptionValuesParse | src/App.jsx:148-156 | `parseInt` of an option's value gives that option's duration |
| TimerMachine.InitialInv | src/App.jsx:27-48 | the first render is idle, not completed, and uses the persisted count; it satisfies the invariant |
| TimerMachine.StartTimerSpec | src/App.jsx:82-88 | start does nothing when the name is blank; otherwise it runs the countdown, not completed, from the selected time; the invariant is kept |
| TimerMachine.TickSpec | src/App.jsx:61-64 | a tick changes the state if and only if the countdown runs with time left; it then takes off one second and changes nothing else |
| TimerMachine.CompleteInv | src/App.jsx:65-76 | completion keeps the invariant: the stored count reads back as the new count and the saved name matches the store |
| TimerMachine.CompleteStore | src/App.jsx:69-76 | completion writes the new count's decimal string and the name, and touches no other key |
| TimerMachine.CompleteSpec | src/App.jsx:65-76 | completion fires if and only if the countdown runs at zero; it stops the countdown, marks it completed, adds one to the count and persists it, and saves the name; the invariant is kept |
| TimerMachine.CompleteOnce | src/App.jsx:65-71 | completion cannot fire twice in a row, and once it has fired no tick follows |
| TimerMachine.ResetTimerSpec | src/App.jsx:90-99 | reset stops and clears everything, zeroes the count, removes both persisted keys, and keeps the duration and every other key, such as the theme |
| TimerMachine.TryAgainSpec | src/App.jsx:101-104 | try-again clears completion and refills the time; running, the count and the store are unchanged |
| TimerMachine.SelectTimeSpec | src/App.jsx:145-156 | choosing an option while idle sets both the duration and the remaining time to it, so the progress is zero |
| TimerMachine.RestoreSavedNameSpec | src/App.jsx:52-56 | the restore effect fills only an empty name, only with the saved name, and changes nothing else |
| TimerMachine.ReloadRestores | src/App.jsx:43-48 | a reload reads back the count and name held in memory, and the saved name reappears in the name field |
| TimerMachine.Progress | src/App.jsx:111 | the elapsed seconds lie between 0 and the selected time, and are 0 exactly when the time is full |
| TimerMachine.ProgressPercentage | src/App.jsx:111 | the progress percentage lies between 0 and 100 |
| TimerMachine.StepInv | src/App.jsx:52-156 | every handler and effect keeps the invariant |
| TimerMachine.RunInv | src/App.jsx:52-156 | along any run, the countdown is never running and completed at once, and `0 <= timeLeft <= selectedTime` |
| TimerMachine.CountBoundedByStarts | src/App.jsx:65-88 | over any run, the count plus the run in progress grows by at most the number of starts: each run is counted at most once |
| TimerMachine.CountGrowsWithoutReset | src/App.jsx:65-99 | without a reset the completion count never decreases |
| TimerMachine.RunTicks | src/App.jsx:61-64 | while running, k ticks take k seconds off and change nothing else |
| TimerMachine.StartThenTicks | src/App.jsx:58-88 | starting and then ticking for the whole selected duration reaches zero while still running |
| TimerMachine.FullRun | src/App.jsx:58-88 | start, one tick per selected second and the completion step complete the run, add one to the count and save the name |
| TimerMachine.TypeAndSelect | src/App.jsx:132-156 | typing a name and choosing an option on a fresh page gives an idle state with that name and duration |
| TimerMachine.FreshPageRun | src/App.jsx:27-88 | on a fresh page, any visible name and any duration lead to a completed run, a count one above the persisted one, and the saved name |
| TimerMachine.ResetScenario | src/App.jsx:90-99 | with a persisted count of 3, reset yields a count of 0 and no stored count |
| TimerComponent.TimerApp.constructor | src/App.jsx:27-48 | the object starts in the first-render state read from the store |
| TimerComponent.TimerApp.EditName | src/App.jsx:134-141 | the name input replaces the name |
| TimerComponent.TimerApp.SelectTime | src/App.jsx:145-153 | the selector sets the duration and, since it is idle, the remaining time to the option's number |
| TimerComponent.TimerApp.StartTimer | src/App.jsx:82-88 | performs the start transition; afterwards it runs exactly if it ran before or the name has visible text |
| TimerComponent.TimerApp.Tick | src/App.jsx:61-64 | performs one tick in place |
| TimerComponent.TimerApp.CheckCompletion | src/App.jsx:65-76 | performs the completion step in place and writes the store; the count rises by one exactly when it fires |
| TimerComponent.TimerApp.ResetTimer | src/App.jsx:90-99 | performs the reset in place; both persisted keys are removed |
| TimerComponent.TimerApp.TryAgain | src/App.jsx:101-104 | performs try-again in place |
| TimerComponent.TimerApp.RestoreSavedName | src/App.jsx:52-56 | performs the restore effect in place |
| TimerComponent.TimerApp.CelebrationPhrase | src/App.jsx:106-109 | the shown phrase is the chosen phrase after `replace` with the current name, `$` patterns included; it always starts with the phrase's head, is never empty, and is the literal head + name + tail whenever the name has no `$` |
| TimerComponent.CountDown | src/App.jsx:58-88 | on the object, a whole countdown completes the run, adds one to the count, saves the name, and persists both |
| Theme.InitialTheme | src/App.jsx:7-9 | the start-up theme is the stored one when that is non-empty, and "light" otherwise; it is never empty |
| Theme.Toggled | src/App.jsx:117 | toggling always gives "light" or "dark", and always a different theme |
| Theme.ToggleTwice | src/App.jsx:117 | toggling twice restores light or dark, and any other stored value becomes "light" |
| Theme.ThemeRoundTrip | src/App.jsx:11-14 | a theme written to the store is the one read on reload |
| Theme.App.constructor | src/App.jsx:6-23 | mounting reads the theme, creates the timer, restores the saved name, and writes the theme back |
| Theme.App.ToggleTheme | src/App.jsx:11-14 | the button flips the theme and persists it; the timer state is untouched |
| Theme.App.PressReset | src/App.jsx:90-99 | resetting the timer keeps the theme and its stored value |

## Left out

- Rendering, CSS, which buttons are visible, and `document.body.className = theme` are presentation. Only the `disabled` attributes of the name input and the selector appear, as preconditions.
- TimerMachine.Complete, TimerMachine.RestoreSavedName: the two effects are separate events that a run may take late or never. The page runs each effect right after every render that changes its dependencies. So the model loses two behaviours. On the page, a countdown that reaches 0 while running is counted at once; in the model a reset or a start may come first. On the page, clearing the name while a saved name exists refills it at once; in the model the name may stay empty. The model allows more runs than the page, so every property proved of all runs holds for the page's runs.
- `setInterval`, `clearInterval` and effect cleanup are host timer plumbing. A tick is an explicit call, and it is a no-op when the effect would hold no interval.
- React's batched, asynchronous `setState` is not modelled. Each handler applies its assignments at once.
- `Math.random` is not modelled. The phrase index is a parameter below 5.
- `progressPercentage` uses floating point. `ProgressPercentage` is exact real arithmetic, without rounding.
- `parseInt` of a stored count that is neither absent, empty nor a string of digits is not modelled. In JavaScript it yields `NaN` or parses a prefix, a sign or a hex form. So `TimerApp.constructor` and `App.constructor` require such a count to be absent, empty or digits only. The page itself only ever writes digit strings.
- Numbers are unbounded. JavaScript's doubles lose precision above 2^53; no count on this page comes near that.
- Strings are sequences of code points. JavaScript uses UTF-16 code units, and the two agree on every literal the component uses.
- The real `localStorage` is not modelled. It is replaced by the shared `Storage` object, which is synchronous and never fails.

## Findings

| source | as written | input that shows it | evidently intended | confidence | as-written member | corrected member |
|---|---|---|---|---|---|---|
| src/App.jsx:108 | `phrase.replace('[Имя]', name)` treats the name as a replacement template, so `$&`, `$$`, `` $` `` and `$'` in the name are expanded | name `$&` (the phrase keeps `[Имя]`); name `$$` (shows `$`) | the name is inserted literally in place of the placeholder | high; not executed | Phrases.PhraseAsWritten (shown by Phrases.DollarNamesAreMangled) | Phrases.Phrase (with Phrases.PhraseAgreesWithReplace) |
