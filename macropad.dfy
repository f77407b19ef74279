/** The key pad object: it owns the keyboard, the LED buffer, the USB-activity
    LED and the selected set, and drives them tick by tick. */
module Pad {
  import opened Optional
  import opened Colors
  import opened Hid
  import opened Macros
  import opened Dispatch

  class MacroPad {
    const config: Config
    /** The keycode name table. */
    const names: NameTable
    /** The keyboard layout used to type strings. */
    const layout: Layout
    const keyboard: Keyboard
    /** The LED buffer; writes to it show only after `Show`. */
    const leds: array<Color>
    /** The frame the LED strip last committed. */
    var shown: seq<Color>
    /** The builtin LED that is on while the keyboard is in use. */
    var builtinLed: bool
    var selectedSet: int
    /** The length of the keyboard log when the last frame was committed. */
    ghost var committedAt: nat

    ghost predicate Valid()
      reads this, keyboard
    {
      keyboard.Valid() && leds.Length == ButtonCount && 0 <= selectedSet < SelectorCount
    }

    constructor (config: Config, names: NameTable, layout: Layout)
      ensures Valid() && fresh(keyboard) && fresh(leds)
      ensures this.config == config && this.names == names && this.layout == layout
      ensures selectedSet == 0 && !builtinLed && shown == []
      ensures keyboard.log == [] && keyboard.held == {}
      ensures leds[..] == seq(ButtonCount, _ => Off)
    {
      this.config := config;
      this.names := names;
      this.layout := layout;
      selectedSet := 0;
      leds := new Color[ButtonCount](_ => Off);
      shown := [];
      // The USB LED is on while the keyboard is brought up.
      builtinLed := true;
      keyboard := new Keyboard();
      builtinLed := false;
      committedAt := 0;
    }

    /** One resolved keycode pressed, released or sent. */
    method EmitCode(code: Keycode, mode: Mode)
      requires keyboard.Valid()
      modifies keyboard
      ensures keyboard.Valid()
      ensures keyboard.log == old(keyboard.log) + [ModeCall(mode, code)]
    {
      match mode
      case Pressing => keyboard.Press([code]);
      case Releasing => keyboard.Release(code);
      case Sending => keyboard.Send(code);
    }

    /** Each element of a list-valued key, resolved and handed to the keyboard. */
    method EmitItems(items: seq<KeyItem>, mode: Mode) returns (failure: Option<MacroError>)
      requires keyboard.Valid()
      modifies keyboard
      ensures keyboard.Valid()
      ensures keyboard.log == old(keyboard.log) + ItemsEmission(items, mode, names).calls
      ensures failure == ItemsEmission(items, mode, names).failure
    {
      var i := 0;
      failure := None;
      while i < |items| && failure.None?
        invariant 0 <= i <= |items|
        decreases |items| - i, failure.None?
        invariant keyboard.Valid()
        invariant failure.None? ==>
          old(keyboard.log) + ItemsEmission(items, mode, names).calls
            == keyboard.log + ItemsEmission(items[i..], mode, names).calls
          && ItemsEmission(items, mode, names).failure == ItemsEmission(items[i..], mode, names).failure
        invariant failure.Some? ==>
          keyboard.log == old(keyboard.log) + ItemsEmission(items, mode, names).calls
          && failure == ItemsEmission(items, mode, names).failure
      {
        assert items[i..][1..] == items[i + 1..];
        match Resolve(items[i], names)
        case None =>
          failure := Some(UnknownKeyName(items[i].name));
        case Some(k) =>
          EmitCode(k, mode);
          i := i + 1;
      }
      if failure.None? {
        assert items[i..] == [];
      }
    }

    /** The keycodes of one character pressed together, then every key released. */
    method TypeLetter(codes: seq<Keycode>)
      requires keyboard.Valid()
      modifies keyboard
      ensures keyboard.Valid()
      ensures keyboard.log == old(keyboard.log) + [PressCall(codes), ReleaseAllCall]
    {
      keyboard.Press(codes);
      keyboard.ReleaseAll();
    }

    /** A string typed character by character, releasing all keys after each. */
    method TypeText(text: string) returns (failure: Option<MacroError>)
      requires keyboard.Valid()
      modifies keyboard
      ensures keyboard.Valid()
      ensures keyboard.log == old(keyboard.log) + TextEmission(text, layout).calls
      ensures failure == TextEmission(text, layout).failure
    {
      var i := 0;
      failure := None;
      while i < |text| && failure.None?
        invariant 0 <= i <= |text|
        decreases |text| - i, failure.None?
        invariant keyboard.Valid()
        invariant failure.None? ==>
          old(keyboard.log) + TextEmission(text, layout).calls
            == keyboard.log + TextEmission(text[i..], layout).calls
          && TextEmission(text, layout).failure == TextEmission(text[i..], layout).failure
        invariant failure.Some? ==>
          keyboard.log == old(keyboard.log) + TextEmission(text, layout).calls
          && failure == TextEmission(text, layout).failure
      {
        assert text[i..][1..] == text[i + 1..];
        var letter := text[i];
        if letter !in layout {
          failure := Some(UnknownCharacter(letter));
        } else {
          TypeLetter(layout[letter]);
          i := i + 1;
        }
      }
      if failure.None? {
        assert text[i..] == [];
      }
    }

    /** One action object of a macro. */
    method RunAction(verb: Verb, key: Key) returns (failure: Option<MacroError>)
      requires keyboard.Valid()
      modifies keyboard
      ensures keyboard.Valid()
      ensures keyboard.log == old(keyboard.log) + ActionEmission(verb, key, names, layout).calls
      ensures failure == ActionEmission(verb, key, names, layout).failure
    {
      failure := None;
      match verb
      case Press =>
        match key {
          case Single(c) => keyboard.Press([c]);
          case List(items) => failure := EmitItems(items, Pressing);
          case Text(s) => failure := Some(KeyNotACode(s));
        }
      case Release =>
        match key {
          case Single(c) => keyboard.Release(c);
          case List(items) => failure := EmitItems(items, Releasing);
          case Text(s) => failure := Some(KeyNotACode(s));
        }
      case Type =>
        match key {
          case Single(c) => keyboard.Send(c);
          case List(items) => failure := EmitItems(items, Sending);
          case Text(s) => failure := TypeText(s);
        }
      case Hotkey =>
        match key {
          case Single(c) =>
            keyboard.Press([c]);
            keyboard.ReleaseAll();
          case List(items) =>
            failure := EmitItems(items, Pressing);
            if failure.None? {
              keyboard.ReleaseAll();
            }
          case Text(s) => failure := Some(KeyNotACode(s));
        }
      case Unknown(_) =>
    }

    /** The entries of a macro in order, up to the first error; whether no
        marker was seen. */
    method RunEntries(macro: Macro) returns (autoRelease: bool, failure: Option<MacroError>)
      requires keyboard.Valid()
      modifies keyboard
      ensures keyboard.Valid()
      ensures var w := Interpret(macro, names, layout);
        keyboard.log == old(keyboard.log) + w.calls && autoRelease == w.autoRelease && failure == w.failure
    {
      ghost var whole := Interpret(macro, names, layout);
      autoRelease := true;
      var i := 0;
      failure := None;
      while i < |macro| && failure.None?
        invariant 0 <= i <= |macro|
        invariant keyboard.Valid()
        invariant failure.None? ==>
          old(keyboard.log) + whole.calls == keyboard.log + Interpret(macro[i..], names, layout).calls
          && whole.failure == Interpret(macro[i..], names, layout).failure
          && whole.autoRelease == (autoRelease && Interpret(macro[i..], names, layout).autoRelease)
        invariant failure.Some? ==>
          keyboard.log == old(keyboard.log) + whole.calls && failure == whole.failure
          && whole.autoRelease == autoRelease
        decreases |macro| - i, failure.None?
      {
        assert macro[i..][1..] == macro[i + 1..];
        match macro[i]
        case Marker(t) =>
          if t == NoAutoRelease {
            autoRelease := false;
            i := i + 1;
          } else {
            failure := Some(MalformedEntry(t));
          }
        case Action(verb, key) =>
          ghost var before := keyboard.log;
          failure := RunAction(verb, key);
          if failure.None? {
            InterpretActionStep(macro, names, layout, i, before, keyboard.log);
            i := i + 1;
          }
      }
      if failure.None? {
        assert macro[i..] == [];
      }
    }

    /** Run one macro: the USB LED goes on, the entries run in order, and unless
        the marker was seen the keys are all released and the LED goes off. An
        error stops the macro where it happened. */
    method RunMacro(macro: Macro) returns (failure: Option<MacroError>)
      requires keyboard.Valid()
      modifies this`builtinLed, keyboard
      ensures keyboard.Valid()
      ensures keyboard.log == old(keyboard.log) + Execute(macro, names, layout).calls
      ensures builtinLed == Execute(macro, names, layout).usbLed
      ensures failure == Execute(macro, names, layout).failure
    {
      builtinLed := true;
      var autoRelease;
      autoRelease, failure := RunEntries(macro);
      if failure.None? && autoRelease {
        keyboard.ReleaseAll();
        builtinLed := false;
      }
    }

    /** Handle one button: write its LED, switch sets on a selector's rising
        edge, and return the macro to queue, if any. */
    method HandleButton(button: ButtonState, index: nat) returns (macro: Option<Macro>)
      requires Valid() && index < ButtonCount
      modifies this`selectedSet, leds
      ensures Valid()
      ensures var h := Handle(config, old(selectedSet), index, button);
        leds[index] == h.color && selectedSet == h.selected && macro == h.macro
      ensures forall j :: 0 <= j < leds.Length && j != index ==> leds[j] == old(leds[j])
    {
      macro := None;
      if IsSelector(index) {
        var page := PageOf(index);
        var selectedColor, unselectedColor, pressedColor;
        if page in config.sets {
          var setConfig := config.sets[page];
          selectedColor, unselectedColor, pressedColor :=
            setConfig.selectedColor, setConfig.unselectedColor, setConfig.pressedColor;
        } else {
          selectedColor, unselectedColor, pressedColor :=
            config.defaults.selectedColor, config.defaults.unselectedColor, config.defaults.pressedColor;
        }
        if button.rose {
          selectedSet := page;
        }
        if button.value {
          leds[index] := pressedColor;
        } else if selectedSet == page {
          leds[index] := selectedColor;
        } else {
          leds[index] := unselectedColor;
        }
      } else {
        if selectedSet !in config.sets {
          leds[index] := if button.value then config.defaults.onColor else config.defaults.offColor;
          return None;
        }
        var keysConfig := config.sets[selectedSet].keys;
        var offColor, onColor;
        if index in keysConfig {
          var keyConfig := keysConfig[index];
          offColor, onColor := keyConfig.offColor, keyConfig.onColor;
          if button.rose {
            macro := Some(keyConfig.macro);
          }
        } else {
          offColor, onColor := config.defaults.offColor, config.defaults.onColor;
        }
        leds[index] := if button.value then onColor else offColor;
      }
    }

    /** Commit the LED buffer to the strip. */
    method Show()
      modifies this`shown, this`committedAt
      ensures shown == leds[..] && committedAt == |keyboard.log|
    {
      shown := leds[..];
      committedAt := |keyboard.log|;
    }

    /** Handle every button in index order; the macros to run, in queue order. */
    method DispatchButtons(buttons: seq<ButtonState>) returns (macrosToRun: seq<Macro>)
      requires Valid() && |buttons| == ButtonCount
      modifies this`selectedSet, leds
      ensures Valid()
      ensures var s := ScanButtons(config, old(selectedSet), buttons);
        leds[..] == s.frame && selectedSet == s.selected && macrosToRun == s.queue
    {
      macrosToRun := [];
      var i := 0;
      while i < |buttons|
        invariant 0 <= i <= |buttons|
        invariant Valid()
        invariant var s := ScanButtons(config, old(selectedSet), buttons[..i]);
          leds[..i] == s.frame && selectedSet == s.selected && macrosToRun == s.queue
      {
        var macro := HandleButton(buttons[i], i);
        if macro.Some? {
          macrosToRun := macrosToRun + [macro.value];
        }
        assert buttons[..i + 1][..i] == buttons[..i];
        i := i + 1;
      }
      assert buttons[..i] == buttons;
      assert leds[..] == leds[..i];
    }

    /** Run the queued macros in order; the first error stops the rest. */
    method RunQueued(macrosToRun: seq<Macro>) returns (failure: Option<MacroError>)
      requires Valid()
      modifies this`builtinLed, keyboard
      ensures Valid()
      ensures var q := RunQueue(Effects(macrosToRun, names, layout), old(builtinLed));
        keyboard.log == old(keyboard.log) + q.calls && builtinLed == q.usbLed && failure == q.failure
    {
      ghost var effects := Effects(macrosToRun, names, layout);
      ghost var led0 := builtinLed;
      var j := 0;
      failure := None;
      while j < |macrosToRun| && failure.None?
        invariant 0 <= j <= |macrosToRun|
        invariant keyboard.Valid()
        invariant var done := RunQueue(effects[..j], led0);
          keyboard.log == old(keyboard.log) + done.calls
          && builtinLed == done.usbLed && failure == done.failure
        decreases |macrosToRun| - j
      {
        ghost var mid := keyboard.log;
        EffectsAt(macrosToRun, names, layout, j);
        failure := RunMacro(macrosToRun[j]);
        RunQueueExtend(effects, led0, j, old(keyboard.log), mid, keyboard.log);
        j := j + 1;
      }
      if failure.None? {
        assert effects[..j] == effects;
      } else {
        RunQueueStopsAtFailure(effects, led0, j);
      }
    }

    /** One pass of the main loop over the buttons' debounced states: handle
        every button, commit the LEDs, then run the queued macros. */
    method Tick(buttons: seq<ButtonState>) returns (failure: Option<MacroError>)
      requires Valid() && |buttons| == ButtonCount
      modifies this, keyboard, leds
      ensures Valid()
      ensures var s := ScanButtons(config, old(selectedSet), buttons);
        leds[..] == s.frame && shown == s.frame && selectedSet == s.selected
        && var q := RunQueue(Effects(s.queue, names, layout), old(builtinLed));
           keyboard.log == old(keyboard.log) + q.calls
           && builtinLed == q.usbLed && failure == q.failure
      ensures committedAt == |old(keyboard.log)|
    {
      var macrosToRun := DispatchButtons(buttons);
      Show();
      failure := RunQueued(macrosToRun);
    }
  }
}
