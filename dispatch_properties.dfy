/** What handling a button, scanning all buttons and running the queue
    guarantee. */
module DispatchProperties {
  import opened Optional
  import opened Colors
  import opened Hid
  import opened Macros
  import opened MacroProperties
  import opened Dispatch

  /** A programmable button keeps the selection; it queues its macro exactly
      when the active set exists, configures this key and the button has just
      been pressed; its LED shows the key's colours, or the defaults when the
      set or the key is missing. */
  lemma ProgrammableKeyOutcome(config: Config, selected: int, index: nat, b: ButtonState)
    requires !IsSelector(index)
    ensures var h := Handle(config, selected, index, b);
      h.selected == selected
      && (h.macro.Some? <==>
            selected in config.sets && index in config.sets[selected].keys && b.rose)
      && (h.macro.Some? ==> h.macro.value == config.sets[selected].keys[index].macro)
    ensures var h := Handle(config, selected, index, b);
      if selected in config.sets && index in config.sets[selected].keys then
        var k := config.sets[selected].keys[index];
        h.color == (if b.value then k.onColor else k.offColor)
      else
        h.color == (if b.value then config.defaults.onColor else config.defaults.offColor)
  {
  }

  /** A programmable button's colour depends on whether it is held, not on
      whether it has just been pressed. */
  lemma ProgrammableColorIgnoresRose(config: Config, selected: int, index: nat, value: bool)
    requires !IsSelector(index)
    ensures Handle(config, selected, index, ButtonState(value, true)).color
         == Handle(config, selected, index, ButtonState(value, false)).color
  {
  }

  /** A selector button never queues a macro; its rising edge selects its set;
      its LED shows the pressed colour while held, otherwise the selected
      colour exactly when its set is the selected one. Each colour is the
      selector's own set's when that set is configured, and the default one
      otherwise. */
  lemma SelectorOutcome(config: Config, selected: int, index: nat, b: ButtonState)
    requires IsSelector(index)
    ensures var h := Handle(config, selected, index, b);
      var page := PageOf(index);
      var own := page in config.sets;
      var pressed := if own then config.sets[page].pressedColor else config.defaults.pressedColor;
      var chosen := if own then config.sets[page].selectedColor else config.defaults.selectedColor;
      var other := if own then config.sets[page].unselectedColor else config.defaults.unselectedColor;
      h.macro == None
      && (b.rose ==> h.selected == page)
      && (!b.rose ==> h.selected == selected)
      && (b.value ==> h.color == pressed)
      && (!b.value && b.rose ==> h.color == chosen)
      && (!b.value && !b.rose ==> h.color == if selected == page then chosen else other)
  {
  }

  /** The buttons whose macros a tick queues, defined without `Handle`: the
      programmable buttons, in index order, that have just been pressed and
      are configured in the set that is active at the start of the tick. */
  function KeyMacros(config: Config, selected: int, buttons: seq<ButtonState>): seq<Macro>
    decreases |buttons|
  {
    if buttons == [] then []
    else
      var n := |buttons| - 1;
      KeyMacros(config, selected, buttons[..n])
      + if n <= LastKey && selected in config.sets && n in config.sets[selected].keys && buttons[n].rose
        then [config.sets[selected].keys[n].macro]
        else []
  }

  /** No selector comes before the last programmable button, so the scan of
      the programmable buttons leaves the selection as it was. */
  lemma {:induction false} ScanKeepsSelectionBeforeSelectors(config: Config, selected: int, buttons: seq<ButtonState>)
    requires |buttons| <= LastKey + 1
    ensures ScanButtons(config, selected, buttons).selected == selected
    decreases |buttons|
  {
    if buttons != [] {
      var n := |buttons| - 1;
      ScanKeepsSelectionBeforeSelectors(config, selected, buttons[..n]);
    }
  }

  /** The macros of a tick are queued in button-index order, and the set that
      decides them is the one selected when the tick starts, even when a
      selector rises later in the same tick. */
  lemma {:induction false} ScanQueuesKeyMacros(config: Config, selected: int, buttons: seq<ButtonState>)
    ensures ScanButtons(config, selected, buttons).queue == KeyMacros(config, selected, buttons)
    decreases |buttons|
  {
    if buttons != [] {
      var n := |buttons| - 1;
      ScanQueuesKeyMacros(config, selected, buttons[..n]);
      var s := ScanButtons(config, selected, buttons[..n]);
      if n <= LastKey {
        ScanKeepsSelectionBeforeSelectors(config, selected, buttons[..n]);
        ProgrammableKeyOutcome(config, s.selected, n, buttons[n]);
      } else {
        SelectorOutcome(config, s.selected, n, buttons[n]);
      }
    }
  }

  /** The programmable buttons' LEDs in a tick's frame are decided by the set
      selected when the tick starts. */
  lemma {:induction false} ScanKeyColors(config: Config, selected: int, buttons: seq<ButtonState>, i: nat)
    requires i < |buttons| && i <= LastKey
    ensures ScanButtons(config, selected, buttons).frame[i] == Handle(config, selected, i, buttons[i]).color
    decreases |buttons|
  {
    var n := |buttons| - 1;
    if i < n {
      ScanKeyColors(config, selected, buttons[..n], i);
    } else {
      ScanKeepsSelectionBeforeSelectors(config, selected, buttons[..n]);
    }
  }

  /** After a tick the selected set is that of the last selector that rose
      in it, or the one from before the tick when none rose. */
  lemma {:induction false} ScanSelectsLastRisingSelector(config: Config, selected: int, buttons: seq<ButtonState>)
    ensures (forall i :: LastKey < i < |buttons| ==> !buttons[i].rose) ==>
      ScanButtons(config, selected, buttons).selected == selected
    ensures forall i :: LastKey < i < |buttons| && buttons[i].rose
                        && (forall j :: i < j < |buttons| ==> !buttons[j].rose) ==>
      ScanButtons(config, selected, buttons).selected == PageOf(i)
    decreases |buttons|
  {
    if buttons != [] {
      var n := |buttons| - 1;
      var prefix := buttons[..n];
      ScanSelectsLastRisingSelector(config, selected, prefix);
      var s := ScanButtons(config, selected, prefix);
      if n <= LastKey {
        ProgrammableKeyOutcome(config, s.selected, n, buttons[n]);
      } else {
        SelectorOutcome(config, s.selected, n, buttons[n]);
      }
      forall i | LastKey < i < |buttons| && buttons[i].rose
                 && (forall j :: i < j < |buttons| ==> !buttons[j].rose)
        ensures ScanButtons(config, selected, buttons).selected == PageOf(i)
      {
        if i < n {
          assert !buttons[n].rose;
          assert prefix[i].rose && forall j :: i < j < |prefix| ==> !prefix[j].rose;
        }
      }
      if forall i :: LastKey < i < |buttons| ==> !buttons[i].rose {
        assert forall i :: LastKey < i < |prefix| ==> !prefix[i].rose;
      }
    }
  }

  /** The selected set stays a valid set number through a tick. */
  lemma {:induction false} ScanSelectionInRange(config: Config, selected: int, buttons: seq<ButtonState>)
    requires 0 <= selected < SelectorCount && |buttons| <= ButtonCount
    ensures 0 <= ScanButtons(config, selected, buttons).selected < SelectorCount
    decreases |buttons|
  {
    if buttons != [] {
      ScanSelectionInRange(config, selected, buttons[..|buttons| - 1]);
    }
  }

  /** Every keyboard call of the queue, macro after macro. */
  function AllCalls(effects: seq<Effect>): (r: seq<Call>)
    decreases |effects|
  {
    if effects == [] then [] else AllCalls(effects[..|effects| - 1]) + effects[|effects| - 1].calls
  }

  /** When no macro of the queue fails, every macro runs, their calls follow
      one another, and the USB LED ends as the last macro left it. */
  lemma {:induction false} RunQueueWithoutFailure(effects: seq<Effect>, led: bool)
    requires forall k :: 0 <= k < |effects| ==> effects[k].failure.None?
    ensures var q := RunQueue(effects, led);
      q.failure.None? && q.calls == AllCalls(effects)
      && q.usbLed == if effects == [] then led else effects[|effects| - 1].usbLed
    decreases |effects|
  {
    if effects != [] {
      RunQueueWithoutFailure(effects[..|effects| - 1], led);
    }
  }

  /** A tick whose queued macros contain no `no_auto_release` marker and all
      complete leaves no key held and the USB LED off. */
  lemma TickReleasesEverything(queue: seq<Macro>, names: NameTable, layout: Layout, held: set<Keycode>, led: bool)
    requires queue != []
    requires forall k :: 0 <= k < |queue| ==> Marker(NoAutoRelease) !in queue[k]
    requires forall k :: 0 <= k < |queue| ==> Execute(queue[k], names, layout).failure.None?
    ensures var q := RunQueue(Effects(queue, names, layout), led);
      q.failure.None? && !q.usbLed && Replay(held, q.calls) == {}
  {
    var effects := Effects(queue, names, layout);
    forall k | 0 <= k < |effects|
      ensures effects[k].failure.None?
    {
      EffectsAt(queue, names, layout, k);
    }
    RunQueueWithoutFailure(effects, led);
    var n := |queue| - 1;
    EffectsAt(queue, names, layout, n);
    CompletedMacroReleasesAll(queue[n], names, layout, {});
    var before := AllCalls(effects[..n]);
    assert effects[..|effects| - 1] == effects[..n];
    ReplayAppend(held, before, effects[n].calls);
    ReplayEndsReleased(Replay(held, before), effects[n].calls);
  }

  /** When no button but the first has just been pressed, only the first
      button's macro can be queued. */
  lemma {:induction false} KeyMacrosOnlyFirst(config: Config, selected: int, buttons: seq<ButtonState>)
    requires buttons != [] && forall i :: 0 < i < |buttons| ==> !buttons[i].rose
    ensures KeyMacros(config, selected, buttons)
      == if buttons[0].rose && selected in config.sets && 0 in config.sets[selected].keys
         then [config.sets[selected].keys[0].macro] else []
    decreases |buttons|
  {
    var n := |buttons| - 1;
    if n > 0 {
      KeyMacrosOnlyFirst(config, selected, buttons[..n]);
    } else {
      assert buttons[..n] == [];
    }
  }

  /** A tick in which no button but button 0 may have just been pressed keeps
      the selection, queues button 0's macro exactly when it rose and shows its
      colour for whether it is held. */
  lemma FirstKeyTick(config: Config, selected: int, b: seq<ButtonState>)
    requires selected in config.sets && 0 in config.sets[selected].keys
    requires |b| == ButtonCount && forall i :: 0 < i < ButtonCount ==> !b[i].rose
    ensures var key := config.sets[selected].keys[0];
      var s := ScanButtons(config, selected, b);
      s.selected == selected
      && s.queue == (if b[0].rose then [key.macro] else [])
      && s.frame[0] == (if b[0].value then key.onColor else key.offColor)
  {
    ScanSelectsLastRisingSelector(config, selected, b);
    ScanQueuesKeyMacros(config, selected, b);
    KeyMacrosOnlyFirst(config, selected, b);
    ScanKeyColors(config, selected, b, 0);
  }

  /** The macro of the press-and-release scenario: press keycode 5, then
      release it. */
  const PressRelease5: Macro := [Action(Press, Single(5)), Action(Release, Single(5))]

  /** Run on its own, the scenario's macro presses 5, releases 5, releases all
      keys and turns the USB LED off. */
  lemma PressRelease5Runs(names: NameTable, layout: Layout, led: bool)
    ensures RunQueue(Effects([PressRelease5], names, layout), led)
      == Effect([PressCall([5]), ReleaseCall(5), ReleaseAllCall], false, None)
  {
    var m := PressRelease5;
    assert m[1..][1..] == [];
    assert Interpret(m, names, layout).calls == [PressCall([5]), ReleaseCall(5)];
    var effects := Effects([m], names, layout);
    assert effects == [Execute(m, names, layout)];
    assert effects[..0] == [];
  }

  /** Button 0 is mapped to `PressRelease5` in set 0 and goes up, down and up
      again over three ticks while no other button is pressed: the macro runs
      exactly once, in the second tick, as press 5, release 5 and the final
      release of all keys; LED 0 shows the off, on and off colours. */
  lemma PressReleaseScenario(config: Config, names: NameTable, layout: Layout,
                             b1: seq<ButtonState>, b2: seq<ButtonState>, b3: seq<ButtonState>)
    requires 0 in config.sets && 0 in config.sets[0].keys
    requires config.sets[0].keys[0].macro == PressRelease5
    requires |b1| == ButtonCount && |b2| == ButtonCount && |b3| == ButtonCount
    requires b1[0] == ButtonState(false, false) && b2[0] == ButtonState(true, true) && b3[0] == ButtonState(false, false)
    requires forall i :: 0 < i < ButtonCount ==> !b1[i].rose && !b2[i].rose && !b3[i].rose
    ensures var key := config.sets[0].keys[0];
      var s1 := ScanButtons(config, 0, b1);
      var s2 := ScanButtons(config, s1.selected, b2);
      var s3 := ScanButtons(config, s2.selected, b3);
      s1.selected == 0 && s2.selected == 0 && s3.selected == 0
      && s1.queue == [] && s2.queue == [PressRelease5] && s3.queue == []
      && s1.frame[0] == key.offColor && s2.frame[0] == key.onColor && s3.frame[0] == key.offColor
      && RunQueue(Effects(s2.queue, names, layout), false)
         == Effect([PressCall([5]), ReleaseCall(5), ReleaseAllCall], false, None)
  {
    FirstKeyTick(config, 0, b1);
    FirstKeyTick(config, 0, b2);
    FirstKeyTick(config, 0, b3);
    PressRelease5Runs(names, layout, false);
  }
}
