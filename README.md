# Pico-Macropad core, modelled in Dafny

The Pico-Macropad is a 16-key USB macro pad. Twelve buttons are programmable
keys. The four highest-numbered buttons select one of four sets (pages) of
key bindings. On every pass of its main loop the pad:

1. handles each button in index order: it writes the button's LED colour into
   the LED buffer, switches the set on a selector's rising edge, and queues
   the macro of a programmable key that has just been pressed;
2. commits the LED buffer to the strip;
3. runs the queued macros one after another on the USB keyboard.

A macro is a list of `press`, `release`, `type` and `hotkey` actions. There is
also an optional bare `"no_auto_release"` marker. Unless the marker is present,
a macro ends by releasing every key. The USB-activity LED is on while a macro
runs. Separately, `idle_animations.py` holds a colour wheel and a rainbow
animation that fills the LED buffer tick by tick.

The project has these modules:

- `Hid` (`hid.dfy`): the USB keyboard as a class. It holds the set of keycodes
  held down and a log of every call made on it. Its invariant says the held
  set is what replaying the log gives (`Replay`).
- `Macros` (`macros.dfy`): the macro language, and what running a macro does,
  as pure functions. `Interpret` walks the entries. `Execute` adds the final
  release and the USB LED. A failure stops the macro where it happens, as the
  Python exception does. Failures are an unknown keycode name, a character the
  layout lacks, a string where a keycode is needed, or a bare string other
  than the marker.
- `MacroProperties` (`macro_properties.dfy`): what the interpreter promises.
- `Dispatch` (`dispatch.dfy`): the configuration, the per-button decision of
  `handle_button` (`Handle`), the scan of all buttons in one tick
  (`ScanButtons`), and running a queue of macros (`RunQueue`).
- `DispatchProperties` (`dispatch_properties.dfy`): what handling, scanning and
  queueing guarantee. This includes the three-tick press-and-release scenario.
- `Pad` (`macropad.dfy`): the `MacroPad` object. Its methods change the
  keyboard, the LED buffer (an `array`), the USB LED and the selected set in
  place. Each method is proved against the pure functions above.
- `IdleAnimations` (`idle_animations.dfy`): `Wheel`, the rainbow frame, the
  tick counters, and the `RainbowAnimation` class, whose `Tick` writes the LED
  array in a loop.
- `Colors` and `Optional`: colour values and an option type.

The keycode name table and the keyboard layout are parameters: maps from names
to keycodes and from characters to the keycodes typed together. The parsed
configuration is a value. Its sets and keys are maps keyed by integers.

## Model

| member | source | states |
|---|---|---|
| Hid.Keyboard.constructor | code.py:81 | a new keyboard holds no key and has made no call |
| Hid.Keyboard.Press | code.py:138-142 | `press` adds its keycodes to the held set and is logged; the held set stays the replay of the log |
| Hid.Keyboard.Release | code.py:148-152 | `release` removes its keycode from the held set and is logged |
| Hid.Keyboard.ReleaseAll | code.py:181-183 | `release_all` empties the held set and is logged |
| Hid.Keyboard.Send | code.py:155-162 | `send` presses and then releases everything, so nothing is held afterwards |
| Hid.ReplayEndsReleased | code.py:181-183 | a log ending in `release_all` or `send` leaves no key held, whatever was held before |
| Hid.ReplayPresses | code.py:136-140 | a run of single-key presses leaves held what was held plus exactly the keys pressed |
| Macros.TextEmission | code.py:164-170 | typing a string makes an even number of calls, at most two per character, and every character typed before the calls stop is one the layout knows |
| MacroProperties.AutoReleaseIffNoMarker | code.py:126-130 | for a macro that runs to its end, the auto-release flag is still set exactly when no entry is `"no_auto_release"` |
| MacroProperties.CompletedMacroReleasesAll | code.py:182-185 | a macro without the marker that finishes ends with `release_all`, leaves nothing held and turns the USB LED off |
| MacroProperties.MarkerSuppressesFinalRelease | code.py:182-185 | with the marker present no final release is added and the USB LED stays on |
| MacroProperties.UsbLedAfterMacro | code.py:125-185 | the USB LED stays on after a macro exactly when it stopped on an error or contains the marker |
| MacroProperties.MarkersMakeNoCalls | code.py:128-130 | removing every marker changes neither the keyboard calls nor the error |
| MacroProperties.ItemsResolveInOrder | code.py:135-140 | list elements go to the keyboard one call each in order, a keycode unchanged and a name through the table; the first unknown name stops the list and is the error |
| MacroProperties.TextTypesCharacterByCharacter | code.py:164-170 | call 2k presses the layout keycodes of character k, call 2k+1 releases all; a missing character stops typing and is the error |
| MacroProperties.TypedCharactersReleasedBetween | code.py:164-170 | while each character is typed exactly its keycodes are held (on top of the earlier held keys for the first character), and nothing is held after it |
| MacroProperties.HotkeyHoldsAllThenReleases | code.py:172-181 | a hotkey whose keys resolve holds all its keycodes together and then releases everything, so nothing is held afterwards |
| MacroProperties.ScalarKeyActsAsOneElementList | code.py:141-180 | a single keycode acts on press, release, type and hotkey exactly as a one-element list holding that raw keycode, so it is passed on unchanged with no name lookup |
| MacroProperties.StringKeyMakesNoCall | code.py:141-180 | a string key for press, release or hotkey stops the macro with that string as the error and leaves the held keys as they were |
| Dispatch.ScanButtons | code.py:241-249 | one tick's scan gives one LED colour per button |
| Dispatch.Effects | code.py:257-259 | each queued macro has one effect |
| Dispatch.EffectsAt | code.py:257-259 | the effect of queued macro j is what running macro j does |
| Dispatch.RunQueueStopsAtFailure | code.py:257-259 | once a queued macro fails, later macros change nothing |
| DispatchProperties.ProgrammableKeyOutcome | code.py:210-232 | a programmable button keeps the selection, returns its macro exactly when the set exists, the key is configured and the button rose, and shows the key's on/off colour or the default one |
| DispatchProperties.ProgrammableColorIgnoresRose | code.py:231 | a programmable button's colour depends on whether it is held, not on whether it rose |
| DispatchProperties.SelectorOutcome | code.py:190-209 | a selector never returns a macro, selects its set on a rising edge, and shows pressed, then selected, then unselected colour in that precedence, each taken from its own set when that set is configured and from the defaults otherwise |
| DispatchProperties.ScanKeepsSelectionBeforeSelectors | code.py:210-232 | handling the programmable buttons never changes the selected set |
| DispatchProperties.ScanQueuesKeyMacros | code.py:241-249 | the queue is the macros of the rising, configured programmable keys in index order, looked up in the set selected at the start of the tick |
| DispatchProperties.ScanKeyColors | code.py:244-246 | the programmable keys' LEDs are decided by the set selected at the start of the tick |
| DispatchProperties.ScanSelectsLastRisingSelector | code.py:200-201 | after a tick the selected set is that of the last selector that rose, or unchanged when none rose |
| DispatchProperties.ScanSelectionInRange | code.py:200-201 | the selected set stays in 0..3 |
| DispatchProperties.RunQueueWithoutFailure | code.py:257-259 | when no macro fails, all run, their calls follow one another in queue order, and the last one decides the USB LED |
| DispatchProperties.TickReleasesEverything | code.py:254-259 | a tick whose macros all finish without the marker leaves nothing held and the USB LED off |
| DispatchProperties.KeyMacrosOnlyFirst | code.py:226-227 | when only button 0 can have risen, only its macro can be queued |
| DispatchProperties.FirstKeyTick | code.py:241-251 | a tick in which only button 0 may rise keeps the selection, queues button 0's macro exactly when it rose, and shows its on/off colour |
| DispatchProperties.PressRelease5Runs | code.py:134-152 | the macro press 5, release 5 makes exactly press(5), release(5), release_all and turns the USB LED off |
| DispatchProperties.PressReleaseScenario | code.py:239-259 | button 0 going up, down and up over three ticks runs its macro exactly once, in the second tick, and LED 0 shows off, on, off |
| Pad.MacroPad.constructor | code.py:24-86 | the pad starts on set 0 with the USB LED off, an idle keyboard and all LEDs off |
| Pad.MacroPad.EmitCode | code.py:136-140 | one resolved keycode is pressed, released or sent |
| Pad.MacroPad.EmitItems | code.py:135-140 | the loop over a list key makes exactly the calls, and raises exactly the error, of `ItemsEmission` |
| Pad.MacroPad.TypeLetter | code.py:166-170 | a character's keycodes are pressed together, then everything is released |
| Pad.MacroPad.TypeText | code.py:164-170 | the loop over a string makes exactly the calls, and raises exactly the error, of `TextEmission` |
| Pad.MacroPad.RunAction | code.py:132-181 | one action makes exactly the calls, and raises exactly the error, of `ActionEmission` |
| Pad.MacroPad.RunEntries | code.py:126-181 | the loop over the entries makes the calls of `Interpret`, ends with its auto-release flag and stops on its error |
| Pad.MacroPad.RunMacro | code.py:109-185 | running a macro makes the calls of `Execute`, leaves the USB LED as `Execute` says and raises its error |
| Pad.MacroPad.HandleButton | code.py:187-232 | handling a button writes only its own LED, with the colour, selection and returned macro of `Handle` |
| Pad.MacroPad.Show | code.py:251 | the strip shows the LED buffer, committed before any later keyboard call |
| Pad.MacroPad.DispatchButtons | code.py:241-249 | the button loop writes the frame, the selection and the queue of `ScanButtons` |
| Pad.MacroPad.RunQueued | code.py:254-259 | the queued macros run in order, with the calls, USB LED and first error of `RunQueue` |
| Pad.MacroPad.Tick | code.py:239-259 | one pass of the main loop: LEDs and selection as `ScanButtons` says, the frame committed before any macro's keyboard call, then the queue run as `RunQueue` says |
| IdleAnimations.Wheel | idle_animations.py:11-22 | black outside 0..255; inside, every channel is in 0..255, the channels sum to 255, and at least one is 0 |
| IdleAnimations.WheelBandBoundaries | idle_animations.py:16-22 | positions 0, 85 and 170 give pure red, green and blue, and 255 comes back to red |
| IdleAnimations.WheelSmooth | idle_animations.py:16-22 | neighbouring positions differ by at most 3 in every channel |
| IdleAnimations.WheelInjective | idle_animations.py:16-22 | positions 0..254 give pairwise different colours |
| IdleAnimations.RainbowFrame | idle_animations.py:34-38 | a rainbow frame has one pixel per LED |
| IdleAnimations.RainbowPixelsOnWheel | idle_animations.py:36-38 | every pixel is a wheel colour with the fixed brightness |
| IdleAnimations.RainbowTravels | idle_animations.py:36 | two steps of the index shift the rainbow by one pixel |
| IdleAnimations.RainbowPeriodic | idle_animations.py:36 | the rainbow repeats every 128 pixels and every 256 index steps |
| IdleAnimations.StepInRange | idle_animations.py:40-45 | one tick keeps the counters in range; the index moves by one exactly when the tick counter reaches its maximum, otherwise only the tick counter changes |
| IdleAnimations.StepsInRange | idle_animations.py:40-45 | any number of ticks keeps the index in 0..255 and the tick counter in 0..9 |
| IdleAnimations.StepsCount | idle_animations.py:40-45 | after n ticks the index has moved once per ten ticks counted from the tick counter's start, and the tick counter holds the rest |
| IdleAnimations.TenTicksMoveOnce | idle_animations.py:40-45 | ten ticks move the index by exactly one and return the tick counter to its start |
| IdleAnimations.RainbowAnimation.constructor | idle_animations.py:26-31 | the animation starts with index 0, tick counter 0 and maximum 10 on the given LED buffer |
| IdleAnimations.RainbowAnimation.Tick | idle_animations.py:33-45 | every LED i gets `Wheel((index + 2i) % 256)` for the index before the tick, with the fixed brightness, and the counters take one step |

## Left out

- Hardware setup is not modelled: I2C, the port expander, the DotStar driver, the chip-select pin, the builtin LED pin and the display with its label (code.py:38-86). These are foreign library calls. The USB LED is a boolean field and the LED strip is an array plus the last committed frame.
- The label texts, the macro timing printout (code.py:202, code.py:255-270) and the 10 ms sleep are display, clock and console output only.
- The debouncer is not modelled (code.py:90-107). Each button's `value` and `rose` are inputs to the tick.
- JSON loading (code.py:276-281) is file I/O. The configuration is an already-parsed value.
- String-keyed configuration lookups are modelled as integer-keyed maps. The text keys only carry the integer.
- A configuration entry that lacks a required field (a colour, `keys`, `macro`, `key` or `action`) would raise `KeyError`. The datatypes make every field present, so this error is not modelled.
- Where a present set lacks its selector colours, the code raises rather than falling back to the defaults. The model follows the code: the defaults are used only when the whole set is missing.
- Keys and list elements of other JSON types are not modelled: floats, booleans (which Python treats as integers), nested lists, or `null`.
- A key configured with `"macro": null` queues nothing (code.py:247). The model's key configuration always holds a macro, so this case is not modelled.
- `Pad.MacroPad.RunMacro`: its contract states the calls made, the USB LED and the error. It does not restate the held set as a replay from the held set before the call. That follows from the keyboard invariant and `Hid.ReplayAppend`, and the pure lemmas state it for each kind of macro.
- The HID library's six-key rollover limit (an error when a seventh key is pressed) is not modelled. Pressing adds any number of keys.
- What happens after a macro's error is not modelled: the exception leaves `run`, closes the LED strip and ends the program. The model stops the queue and reports the error.
- The infinite main loop is modelled as one `Tick`. Properties over several ticks are stated over `ScanButtons`.
- `BaseAnimation` is folded into `RainbowAnimation`, which holds the LED buffer itself. Its abstract `tick`, which raises `NotImplementedError`, has no model.
- `ALL_ANIMATIONS` (idle_animations.py:48) is not modelled, because code.py never imports the animations. There is no idle scheduler in the code, so the rainbow is a standalone component.
- The rainbow's brightness `0.1` is a constant tag, not a number.
- Integers are unbounded: no keycode or colour value wraps around.
