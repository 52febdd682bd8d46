# Xbox Wheel Compatibility Service — a verified model of its core

The service watches for racing wheels attached to a Windows machine. It
keeps one `Wheel` object, with its own polling thread, per attached wheel,
and can print a telemetry view of each wheel. This project models the parts
of the service that decide things, and proves what they promise:

- **One tick of the wheel manager's scanning loop** (`WheelManager::run`).
  The platform's enumeration of racing wheels is a parameter: a sequence of
  handles of an arbitrary type compared with `==`. Each enumerated handle is
  searched for among the pre-tick registry entries. The first matching entry
  has its enumeration index recorded in `wheelMap`. A handle that matches no
  entry gets a new wheel, which is started. Then, from the last pre-tick
  entry down to the first, every entry that was not matched or whose wheel
  no longer runs is stopped and erased. The in-place algorithm is modelled
  imperatively (`WheelManagement.WheelManager.Tick`, with the nested loops
  in `MatchEnumeration`/`FindWheel` and the descending erase loop in
  `RemoveStale`). It is proved against a value-level meaning of a tick
  (`Reconciliation.Reconciled`: the survivors in their order, then the
  arrivals in enumeration order), and the properties of a tick are proved
  about that meaning.
- **The start/stop latches** of `Wheel` and `WheelManager`. The class
  fields are the atomic latches and the registry. Each `std::thread` member
  is represented by ghost bookkeeping: whether it is joinable, and how many
  threads were spawned and joined. The proofs show three things:
  - no thread is ever assigned over a joinable one;
  - every outstanding thread is joined exactly once on stop;
  - stopping twice joins nothing more.
- **The two button-mask renderers**: `Wheel::parseButtons` and the gamepad
  lambda inside `WheelManager::telemetry`. Both are proved equal to one
  generic meaning (`ButtonText.Render`: the names of the set flags, in table
  order, joined by ", "). Its properties are proved once:
  - the text is empty exactly when no handled flag is set;
  - a name is present exactly when its flag is set;
  - names come out in table order;
  - there is no trailing separator;
  - bits outside the table are ignored.
- **The command-line loop of `main`** (`CommandLine.ParseArguments`). It is
  proved equal to a left-to-right meaning (`CommandLine.Parse`), and the
  behaviour of the options is proved about that meaning.

Notes on what the code does:

- The tick searches the registry once per enumerated handle and marks only
  the first entry with that handle. It does not search the enumeration once
  per registry entry.
- An enumeration that lists one handle twice, when no entry already carries
  it, gets two new wheels. The registry stays free of repeated handles only
  when the enumeration has none (`Reconciliation.ReconciledNoDup`).
- Nothing in the code bounds the size of the enumeration; see "Findings".
- `Wheel::run` only sleeps while its latch is set; it never clears the
  latch. So every registered wheel is running, which is part of
  `WheelManagement.WheelManager.Valid`. The `!running()` half of the
  removal test is still modelled.

## Model

| member | source | states |
|---|---|---|
| ButtonText.AppendIfSet | src/wheel.cpp:43-47 | one flag test appends the flag's name and ", " exactly when the flag is set, taking the working string after `k` tests to the one after `k + 1` |
| ButtonText.DropTrailingSeparator | src/wheel.cpp:104-110 | popping two characters off a non-empty working string yields exactly the set names joined by ", " |
| ButtonText.PendingIsJoinedPlusSeparator | src/wheel.cpp:41-102 | the working string is empty exactly when no tested flag was set; otherwise it is the joined names followed by one ", " |
| ButtonText.DropSeparator | src/wheel.cpp:104-109 | the final working string is empty iff no name was selected, and otherwise removing its last two characters leaves the rendered text |
| ButtonText.SelectedMembership | src/wheel.cpp:43-102 | a name is selected iff some tested row carries it and that row's flag is set |
| ButtonText.SelectedEmptyIff | src/wheel.cpp:43-102 | nothing is selected iff none of the tested flags is set |
| ButtonText.SelectedPrefix | src/wheel.cpp:43-102 | later tests only append: the selection after fewer tests is a prefix of the selection after more |
| ButtonText.RenderEmptyIff | src/wheel.cpp:104-110 | for a well-formed table, the rendered text is "" iff no flag of the table is set |
| ButtonText.RenderNoTrailingSeparator | src/wheel.cpp:104-110 | the rendered text never ends with ", " |
| ButtonText.TokenPresentIff | src/wheel.cpp:43-102 | with distinct names, a row's name is rendered iff its flag is set |
| ButtonText.TokenPosition | src/wheel.cpp:43-102 | a set flag's name sits at the position given by the number of set flags before it: names follow table order |
| ButtonText.MaskingKeepsTest | src/wheel.cpp:43-44 | the `(mask & bit) == bit` test of a bit inside `keep` is unaffected by clearing bits outside `keep` |
| ButtonText.SelectedIgnoresMasked | src/wheel.cpp:43-102 | clearing bits that no tested row uses leaves the selection unchanged |
| ButtonText.RenderIgnoresUncovered | src/wheel.cpp:39-111 | bits outside the table do not change the rendered text |
| ButtonText.SingleBitsExclusive | src/wheel.cpp:43-44 | one single-bit flag never passes the test of another |
| ButtonText.SelectedSingleFlag | src/wheel.cpp:43-102 | a mask that is exactly one row's bit selects exactly that row's name, once it has been tested |
| ButtonText.RenderSingleFlag | src/wheel.cpp:39-111 | rendering one flag's bit prints exactly that flag's name |
| WheelDevice.ButtonNamesWellFormed | src/wheel.cpp:43-102 | the twelve racing-wheel rows have distinct single bits and distinct printable names |
| WheelDevice.ParseButtons | src/wheel.cpp:39-111 | `parseButtons` returns the names of the set racing-wheel flags, in its test order, joined by ", " |
| WheelDevice.HandledButtonsCoverTable | src/wheel.cpp:43-102 | every bit `parseButtons` tests is one of the twelve low bits |
| WheelDevice.ParseButtonsEmptyIff | src/wheel.cpp:39-111 | `parseButtons` returns "" iff none of the twelve handled flags is set |
| WheelDevice.LowBitsSetHasFlag | src/wheel.cpp:43-102 | a mask with any of the twelve low bits set has some tested flag set |
| WheelDevice.ParseButtonsNames | src/wheel.cpp:43-102 | each of the twelve names is in the output iff its flag is set |
| WheelDevice.ParseButtonsNoTrailingSeparator | src/wheel.cpp:104-110 | the output of `parseButtons` never ends with ", " |
| WheelDevice.ParseButtonsIgnoresOtherBits | src/wheel.cpp:39-111 | flags outside the twelve handled ones do not affect the output |
| WheelDevice.ParseButtonsExample | src/wheel.cpp:63-67 | previous-gear paddle plus the third button renders as "LB, A" |
| WheelDevice.Wheel.constructor | src/wheel.cpp:29-31 | a new wheel holds the given handle (what `getRacingWheel` returns for its whole life), is inactive and has no thread |
| WheelDevice.Wheel.Start | src/wheel.cpp:131-141 | an active wheel is left unchanged; otherwise the latch is set and exactly one thread is spawned, never over a joinable one |
| WheelDevice.Wheel.Stop | src/wheel.cpp:144-155 | afterwards the latch is clear; an active wheel's thread is joined exactly once, and an inactive wheel is left unchanged |
| WheelDevice.Wheel.Running | src/wheel.cpp:158-161 | `running()` reports true exactly while the wheel's polling thread is outstanding (spawned and not yet joined) |
| WheelDevice.Wheel.Destroy | src/wheel.cpp:33-36 | the destructor's `stop()` joins the thread only if still active, so stop-then-destroy joins exactly once |
| Reconciliation.SelectMembership | src/wheel_manager.cpp:74-82 | an entry survives the erase loop iff its keep flag is set |
| Reconciliation.SelectAll | src/wheel_manager.cpp:74-82 | when every entry is kept, the registry is unchanged |
| Reconciliation.SelectNone | src/wheel_manager.cpp:74-82 | when no entry is kept, every pre-tick entry is erased |
| Reconciliation.SelectNoDup | src/wheel_manager.cpp:74-82 | erasing entries from a registry without repetitions leaves one without repetitions |
| Reconciliation.ArrivalsMembership | src/wheel_manager.cpp:66-72 | a handle gets a new wheel iff it is enumerated and equals no pre-tick entry |
| Reconciliation.ArrivalsNoDup | src/wheel_manager.cpp:66-72 | without repeated enumerated handles, no handle gets two new wheels |
| Reconciliation.ArrivalsNone | src/wheel_manager.cpp:66-72 | when every enumerated handle is already registered, no wheel is created |
| Reconciliation.FirstEntry | src/wheel_manager.cpp:57-65 | a registered handle has a first entry carrying it |
| Reconciliation.FirstOccurrenceUnique | src/wheel_manager.cpp:57-65 | the first entry carrying a handle is unique, so the `break` marks one entry per handle |
| Reconciliation.MatchedExtend | src/wheel_manager.cpp:54-65 | matching one more enumerated handle marks, in addition, exactly the first entry carrying that handle |
| Reconciliation.SurvivorMembership | src/wheel_manager.cpp:54-82 | a handle survives iff its first entry was running and the handle is enumerated |
| Reconciliation.ReconciledMembership | src/wheel_manager.cpp:47-82 | after a tick a handle is registered iff it is enumerated and, if some pre-tick entry carried it, the first such entry was running |
| Reconciliation.ReconciledEmptyEnumeration | src/wheel_manager.cpp:53-82 | an empty enumeration empties the registry |
| Reconciliation.StoppedEntryReplacedNextTick | src/wheel_manager.cpp:54-82 | a handle whose wheel had stopped is dropped by the tick and gets a brand-new wheel on the next tick that enumerates it |
| Reconciliation.ReconciledNoDup | src/wheel_manager.cpp:47-82 | without repeated enumerated handles, the post-tick registry has no two entries with equal handles |
| Reconciliation.NoDupBound | src/wheel_manager.cpp:47-82 | a repetition-free list drawn from the enumeration is no longer than it |
| Reconciliation.ReconciledBound | src/wheel_manager.cpp:47-82 | without repeated enumerated handles, the post-tick registry is no larger than the enumeration |
| Reconciliation.ReconciledStable | src/wheel_manager.cpp:47-82 | a settled registry whose wheels all run is unchanged by another tick over the same enumeration |
| Reconciliation.ReconciledExample | src/wheel_manager.cpp:47-82 | registry A, B with enumeration B, C becomes B, C |
| WheelManagement.GamepadButtonNamesWellFormed | src/wheel_manager.cpp:133-192 | the twelve gamepad rows have distinct single bits and distinct printable names |
| WheelManagement.GamepadButtonsText | src/wheel_manager.cpp:129-201 | the lambda returns the names of the set gamepad flags, in its test order, joined by ", " |
| WheelManagement.HandledGamepadButtonsCoverTable | src/wheel_manager.cpp:133-192 | every bit the lambda tests is one of the twelve low bits |
| WheelManagement.LowGamepadBitsSetHasFlag | src/wheel_manager.cpp:133-192 | a mask with any of the twelve low bits set has some tested flag set |
| WheelManagement.GamepadButtonsTextEmptyIff | src/wheel_manager.cpp:129-201 | the lambda returns "" iff none of the twelve handled flags is set |
| WheelManagement.GamepadButtonsTextNames | src/wheel_manager.cpp:133-192 | each of the twelve names is in the text iff its flag is set |
| WheelManagement.GamepadButtonsTextNoTrailingSeparator | src/wheel_manager.cpp:194-199 | the text never ends with ", " |
| WheelManagement.GamepadButtonsTextIgnoresOtherBits | src/wheel_manager.cpp:129-201 | paddles and thumbstick presses do not affect the text |
| WheelManagement.GamepadButtonsTextExample | src/wheel_manager.cpp:129-201 | left shoulder plus A renders as "LB, A" |
| WheelManagement.AppendedWheel | src/wheel_manager.cpp:69-70 | appending a wheel keeps the pre-tick entries and adds the new wheel's handle after the earlier arrivals |
| WheelManagement.HandlesOfSelect | src/wheel_manager.cpp:74-82 | the handles of the surviving wheels are the surviving handles |
| WheelManagement.SelectThenRestNoDup | src/wheel_manager.cpp:74-82 | erasing pre-tick entries keeps the registry free of repeated wheels |
| WheelManagement.RemovalStep | src/wheel_manager.cpp:75-82 | one pass of the descending loop at position `i` finds the pre-tick entry `i` there, and keeping or erasing it extends the filtered suffix by that entry |
| WheelManagement.KeptWheelsValid | src/wheel_manager.cpp:74-82 | the wheels left after erasing are distinct, valid and running |
| WheelManagement.WheelManager.constructor | src/wheel_manager.cpp:32-34 | a new manager has both latches clear, an empty registry and no threads |
| WheelManagement.WheelManager.Start | src/wheel_manager.cpp:218-229 | an active manager is unchanged; otherwise the latch is set and exactly one scanning thread is spawned, never over a joinable one |
| WheelManagement.WheelManager.StartTelemetry | src/wheel_manager.cpp:260-268 | a no-op if telemetry is on; otherwise the latch is set and exactly one telemetry thread is spawned |
| WheelManagement.WheelManager.StopTelemetry | src/wheel_manager.cpp:271-278 | the latch is cleared and the telemetry thread, if there is one, is joined exactly once; calling it again joins nothing |
| WheelManagement.WheelManager.ToggleTelemetry | src/wheel_manager.cpp:281-284 | flips the telemetry latch, spawning or joining exactly one thread |
| WheelManagement.WheelManager.Stop | src/wheel_manager.cpp:232-251 | stops telemetry; if active, clears the latch, joins every wheel's thread once and the scanning thread once, and empties the registry |
| WheelManagement.WheelManager.Running | src/wheel_manager.cpp:254-257 | `running()` reports true exactly while the scanning thread is outstanding, and a manager that does not run holds no wheels |
| WheelManagement.WheelManager.Destroy | src/wheel_manager.cpp:36-40 | the destructor has the effect of `stop()`: both latches are clear, the registry is empty, the scanning and telemetry threads are joined iff they were running, and every registered wheel's thread is joined exactly once |
| WheelManagement.WheelManager.MatchEnumeration | src/wheel_manager.cpp:54-73 | leaves the pre-tick entries in place, appends one started wheel per arriving handle in enumeration order, and fills exactly the map slots of matched entries with an index of their handle |
| WheelManagement.WheelManager.MatchOne | src/wheel_manager.cpp:56-72 | one enumerated handle either marks the first pre-tick entry carrying it or appends a fresh started wheel for it |
| WheelManagement.WheelManager.AddWheel | src/wheel_manager.cpp:69-71 | appends one fresh wheel for the handle and starts it, spawning its one thread |
| WheelManagement.WheelManager.FindWheel | src/wheel_manager.cpp:56-65 | returns the first pre-tick entry whose handle equals the enumerated one, or reports that none does |
| WheelManagement.WheelManager.RemoveStale | src/wheel_manager.cpp:74-82 | the registry becomes the kept pre-tick entries in order followed by the new wheels; each erased wheel is stopped with its thread joined once, and each kept one is still running with no thread spawned or joined |
| WheelManagement.WheelManager.EraseIfStale | src/wheel_manager.cpp:77-81 | an unmatched or stopped entry is stopped and erased, and any other entry is left alone |
| WheelManagement.WheelManager.Tick | src/wheel_manager.cpp:47-82 | the registry's handles become `Reconciled` of the old ones; survivors keep order and identity, new wheels are fresh and started, and erased wheels are joined exactly once |
| WheelManagement.WheelManager.TickAsWritten | src/wheel_manager.cpp:47-82 | the tick with the source's eight-slot map, defined only while the registry has at most eight entries: the handles become `Reconciled`, survivors keep their order and identity, new wheels are fresh and started, erased wheels are joined exactly once and kept ones keep running |
| WheelManagement.WheelManager.Reconcile | src/wheel_manager.cpp:53-82 | the body both ticks share: the matching loop then the removal loop, with the effect stated for `Tick` |
| WheelManagement.RegistryWithinWheelMap | src/wheel_manager.cpp:29 | while enumerations list at most eight distinct handles, the registry never outgrows the eight-slot map |
| WheelManagement.ArrivalsIntoEmpty | src/wheel_manager.cpp:66-72 | from an empty registry every enumerated handle gets a new wheel, in order |
| WheelManagement.RegistryOutgrowsWheelMap | src/wheel_manager.cpp:50-52 | nine distinct enumerated wheels give a nine-entry registry, one more than the map has slots |
| CommandLine.ParseArguments | src/main.cpp:41-67 | the argument loop's decision equals `Parse` of the arguments after the program name |
| CommandLine.NoArguments | src/main.cpp:41-43 | with no arguments the program goes on with telemetry off |
| CommandLine.OnlyTelemetryOptions | src/main.cpp:43-49 | when every argument is `-t`, the program goes on, with telemetry on iff there was one |
| CommandLine.FirstOtherDecides | src/main.cpp:50-65 | the first argument other than `-t` ends parsing: exit code 0 for `-h`, 1 otherwise, whatever `-t` options came before |
| CommandLine.FirstOther | src/main.cpp:43-50 | when some argument is not `-t`, there is a first such argument |
| CommandLine.ProceedsIff | src/main.cpp:43-67 | the program goes on past the loop iff every argument is `-t` |
| CommandLine.LaterArgumentsIgnored | src/main.cpp:58-65 | arguments after the first non-`-t` one never change the outcome |
| CommandLine.RepeatedTelemetryOption | src/main.cpp:45-49 | repeating `-t` has the same effect as one |
| CommandLine.TelemetryBeforeExit | src/main.cpp:43-65 | a `-t` placed before arguments that end in an exit does not change that exit |

## Left out

- Threads and their bodies. The loop in `WheelManager::run` is modelled as one `Tick` per iteration. `Wheel::run` and the telemetry loop are not modelled, because they only sleep or print. Races between the scanning thread and the telemetry thread are not modelled: the model is sequential.
- The delays (`REFRESH_DELAY_MS`, `TELEMETRY_DELAY_MS`, the wheel's 1 ms sleep) are timing only.
- Console and log output is not modelled: "Wheel connected"/"Wheel disconnected", the usage text, and the `OutputManager` calls. An `Exit` outcome of `CommandLine.Parse` stands for "usage printed, then exit".
- The telemetry printout is not modelled apart from its button lambda: the per-wheel header, the steering, throttle and brake percentages (floating point), `getOutput` and the null check of a registry slot.
- `RacingWheel::RacingWheels()` is the `enum` parameter of a tick. WinRT handle equality is `==` on a type parameter.
- The platform flag values (`RacingWheelButtons`, `GamepadButtons`) are written out as `bv32` constants. The proofs use only that the rendered flags are distinct single bits among the twelve low bits.
- WheelManagement.WheelManager.EraseIfStale: does not call `Wheel.Destroy` for the erased `unique_ptr`. `WheelDevice.Wheel.Destroy` shows that destroying a stopped wheel changes nothing. The same holds for `wheels.clear()` in `WheelManagement.WheelManager.Stop`.
- WheelManagement.WheelManager.MatchEnumeration: states that a matched slot records an index of its handle in the enumeration. It does not state which one. The source keeps the last such index, and nothing reads the value.
- The `int` loop counters and `racingWheels.Size()` are unbounded integers in the model. Counts of attached wheels are far from any overflow.
- Everything in `main` after line 67 is process shell and I/O: the COM apartment, the console control handler, input polling and the shutdown wait.

## Findings

| source | as written | input that shows it | evidently intended | confidence | as-written member | corrected member |
|---|---|---|---|---|---|---|
| src/wheel_manager.cpp:50-53, 62, 77 | `wheelMap` has `MAX_WHEELS` = 8 slots but is indexed by registry position, and nothing caps the registry at eight | nine distinct racing wheels enumerated in one tick: the registry grows to nine entries, so the next tick reads `wheelMap[8]` in the removal loop, and writes it if the ninth wheel is matched | one slot per pre-tick registry entry (or a cap on the registry) | medium (depends on whether the platform ever lists more than eight wheels); not executed | WheelManagement.WheelManager.TickAsWritten, WheelManagement.RegistryOutgrowsWheelMap | WheelManagement.WheelManager.Tick |
