/** The configuration, the per-button decision of `handle_button` and the
    per-tick scan of all buttons, as pure functions. */
module Dispatch {
  import opened Optional
  import opened Colors
  import opened Hid
  import opened Macros

  /** A debounced button as one tick sees it: held down now, and just pressed. */
  datatype ButtonState = ButtonState(value: bool, rose: bool)

  /** The fallback colours (`default`). */
  datatype Defaults = Defaults(
    offColor: Color, onColor: Color,
    selectedColor: Color, unselectedColor: Color, pressedColor: Color)

  /** One programmable key of a set. */
  datatype KeyConfig = KeyConfig(offColor: Color, onColor: Color, macro: Macro)

  /** One set (page): the colours of its selector button and its keys by index. */
  datatype SetConfig = SetConfig(
    selectedColor: Color, unselectedColor: Color, pressedColor: Color,
    keys: map<int, KeyConfig>)

  /** The loaded configuration; the sets are keyed by set number. */
  datatype Config = Config(defaults: Defaults, sets: map<int, SetConfig>)

  /** Number of buttons and of LEDs. */
  const ButtonCount: nat := 16
  /** The highest programmable button; every button above it selects a set. */
  const LastKey: nat := 11
  /** Number of selector buttons. */
  const SelectorCount: nat := ButtonCount - (LastKey + 1)

  predicate IsSelector(index: int) { index > LastKey }

  /** The set a selector button selects. */
  function PageOf(index: int): int { index - (LastKey + 1) }

  datatype SelectorColors = SelectorColors(selected: Color, unselected: Color, pressed: Color)

  /** A selector's colours: its set's, when that set is configured, else the defaults. */
  function SelectorColorsFor(config: Config, page: int): SelectorColors
  {
    if page in config.sets then
      var s := config.sets[page];
      SelectorColors(s.selectedColor, s.unselectedColor, s.pressedColor)
    else
      var d := config.defaults;
      SelectorColors(d.selectedColor, d.unselectedColor, d.pressedColor)
  }

  /** What handling one button in one tick yields: the colour written to its
      LED, the selected set afterwards, and the macro to queue, if any. */
  datatype Handled = Handled(color: Color, selected: int, macro: Option<Macro>)

  function Handle(config: Config, selected: int, index: nat, b: ButtonState): Handled
  {
    if IsSelector(index) then
      var page := PageOf(index);
      var colors := SelectorColorsFor(config, page);
      var sel := if b.rose then page else selected;
      var color :=
        if b.value then colors.pressed
        else if sel == page then colors.selected
        else colors.unselected;
      Handled(color, sel, None)
    else if selected !in config.sets then
      var d := config.defaults;
      Handled(if b.value then d.onColor else d.offColor, selected, None)
    else
      var keys := config.sets[selected].keys;
      if index in keys then
        var k := keys[index];
        Handled(if b.value then k.onColor else k.offColor, selected,
                if b.rose then Some(k.macro) else None)
      else
        var d := config.defaults;
        Handled(if b.value then d.onColor else d.offColor, selected, None)
  }

  /** One tick's scan of the buttons in index order: the LED colours written,
      the selected set afterwards, and the macros queued, in queue order. */
  datatype Scan = Scan(frame: seq<Color>, selected: int, queue: seq<Macro>)

  function ScanButtons(config: Config, selected: int, buttons: seq<ButtonState>): (s: Scan)
    ensures |s.frame| == |buttons|
    decreases |buttons|
  {
    if buttons == [] then Scan([], selected, [])
    else
      var n := |buttons| - 1;
      var s := ScanButtons(config, selected, buttons[..n]);
      var h := Handle(config, s.selected, n, buttons[n]);
      Scan(s.frame + [h.color], h.selected,
           s.queue + (if h.macro.Some? then [h.macro.value] else []))
  }

  /** What each queued macro does when run on its own. */
  function Effects(queue: seq<Macro>, names: NameTable, layout: Layout): (r: seq<Effect>)
    ensures |r| == |queue|
    decreases |queue|
  {
    if queue == [] then [] else [Execute(queue[0], names, layout)] + Effects(queue[1..], names, layout)
  }

  lemma {:induction false} EffectsAt(queue: seq<Macro>, names: NameTable, layout: Layout, j: nat)
    requires j < |queue|
    ensures Effects(queue, names, layout)[j] == Execute(queue[j], names, layout)
    decreases j
  {
    if j > 0 {
      EffectsAt(queue[1..], names, layout, j - 1);
    }
  }

  /** Macros run one after another, given what each does on its own; the first
      error stops the rest. `led` is the USB-activity LED before the first. */
  function RunQueue(effects: seq<Effect>, led: bool): Effect
    decreases |effects|
  {
    if effects == [] then Effect([], led, None)
    else
      var before := RunQueue(effects[..|effects| - 1], led);
      var last := effects[|effects| - 1];
      if before.failure.Some? then before
      else Effect(before.calls + last.calls, last.usbLed, last.failure)
  }

  /** Running one more macro of the queue, when none so far has failed. */
  lemma RunQueueStep(effects: seq<Effect>, led: bool, j: nat)
    requires j < |effects| && RunQueue(effects[..j], led).failure.None?
    ensures var done := RunQueue(effects[..j], led);
      RunQueue(effects[..j + 1], led)
        == Effect(done.calls + effects[j].calls, effects[j].usbLed, effects[j].failure)
  {
    assert effects[..j + 1][..j] == effects[..j];
  }

  /** One more macro run on a queue that has not failed yet extends the calls made so far by that macro's calls. */
  lemma RunQueueExtend(effects: seq<Effect>, led: bool, j: nat, before: seq<Call>, mid: seq<Call>, after: seq<Call>)
    requires j < |effects| && RunQueue(effects[..j], led).failure.None?
    requires mid == before + RunQueue(effects[..j], led).calls && after == mid + effects[j].calls
    ensures var next := RunQueue(effects[..j + 1], led);
      after == before + next.calls && next.usbLed == effects[j].usbLed && next.failure == effects[j].failure
  {
    RunQueueStep(effects, led, j);
  }

  /** Once a macro of the queue fails, the macros after it change nothing. */
  lemma {:induction false} RunQueueStopsAtFailure(effects: seq<Effect>, led: bool, j: nat)
    requires j <= |effects| && RunQueue(effects[..j], led).failure.Some?
    ensures RunQueue(effects, led) == RunQueue(effects[..j], led)
    decreases |effects| - j
  {
    if j < |effects| {
      var n := |effects| - 1;
      assert effects[..n][..j] == effects[..j];
      RunQueueStopsAtFailure(effects[..n], led, j);
    } else {
      assert effects[..j] == effects;
    }
  }
}
