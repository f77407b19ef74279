/** What the macro interpreter promises: the final release of all keys, the
    marker that suppresses it, keycode name resolution, and the shapes of the
    `type` and `hotkey` actions. */
module MacroProperties {
  import opened Optional
  import opened Hid
  import opened Macros

  /** When a macro runs to its end, its final release happens exactly when no
      entry is the marker. */
  lemma {:induction false} AutoReleaseIffNoMarker(m: Macro, names: NameTable, layout: Layout)
    requires Interpret(m, names, layout).failure.None?
    ensures Interpret(m, names, layout).autoRelease <==> Marker(NoAutoRelease) !in m
    decreases |m|
  {
    if m != [] {
      assert m == [m[0]] + m[1..];
      AutoReleaseIffNoMarker(m[1..], names, layout);
    }
  }

  /** A macro without the marker that runs to its end releases every key as
      its last call, whatever was held before, and switches the USB LED off. */
  lemma CompletedMacroReleasesAll(m: Macro, names: NameTable, layout: Layout, held: set<Keycode>)
    requires Execute(m, names, layout).failure.None?
    requires Marker(NoAutoRelease) !in m
    ensures var e := Execute(m, names, layout);
      !e.usbLed && e.calls != [] && e.calls[|e.calls| - 1] == ReleaseAllCall
      && Replay(held, e.calls) == {}
  {
    AutoReleaseIffNoMarker(m, names, layout);
    ReplayEndsReleased(held, Execute(m, names, layout).calls);
  }

  /** With the marker anywhere in the macro, nothing is appended to the calls
      its actions make and the USB LED stays on. */
  lemma MarkerSuppressesFinalRelease(m: Macro, names: NameTable, layout: Layout)
    requires Marker(NoAutoRelease) in m
    ensures var e := Execute(m, names, layout);
      e.usbLed && e.calls == Interpret(m, names, layout).calls
      && e.failure == Interpret(m, names, layout).failure
  {
    if Interpret(m, names, layout).failure.None? {
      AutoReleaseIffNoMarker(m, names, layout);
    }
  }

  /** The USB LED is left on after a macro exactly when the macro stopped on
      an error or holds the marker. */
  lemma UsbLedAfterMacro(m: Macro, names: NameTable, layout: Layout)
    ensures Execute(m, names, layout).usbLed
      <==> Execute(m, names, layout).failure.Some? || Marker(NoAutoRelease) in m
  {
    if Interpret(m, names, layout).failure.None? {
      AutoReleaseIffNoMarker(m, names, layout);
    }
  }

  /** The macro with every marker taken out. */
  function WithoutMarkers(m: Macro): (r: Macro)
    ensures Marker(NoAutoRelease) !in r
    decreases |m|
  {
    if m == [] then []
    else (if m[0] == Marker(NoAutoRelease) then [] else [m[0]]) + WithoutMarkers(m[1..])
  }

  /** The marker makes no keyboard call of its own: taking every marker out
      leaves the calls of the actions, and the error, as they were. */
  lemma {:induction false} MarkersMakeNoCalls(m: Macro, names: NameTable, layout: Layout)
    ensures Interpret(WithoutMarkers(m), names, layout).calls == Interpret(m, names, layout).calls
    ensures Interpret(WithoutMarkers(m), names, layout).failure == Interpret(m, names, layout).failure
    decreases |m|
  {
    if m != [] {
      MarkersMakeNoCalls(m[1..], names, layout);
      var w := WithoutMarkers(m);
      if m[0] != Marker(NoAutoRelease) {
        assert w == [m[0]] + WithoutMarkers(m[1..]);
        assert w != [] && w[0] == m[0] && w[1..] == WithoutMarkers(m[1..]);
      } else {
        assert w == [] + WithoutMarkers(m[1..]) == WithoutMarkers(m[1..]);
      }
    }
  }

  /** The elements of a list-valued key are handed to the keyboard one call
      each, in order: a keycode unchanged, a name as the table maps it. The
      first unknown name stops the list with that name as the error, after the
      calls for the elements before it. */
  lemma {:induction false} ItemsResolveInOrder(items: seq<KeyItem>, mode: Mode, names: NameTable)
    ensures var e := ItemsEmission(items, mode, names);
      |e.calls| <= |items|
      && (forall i :: 0 <= i < |e.calls| ==>
            Known(items[i], names) && e.calls[i] == ModeCall(mode, KnownCode(items[i], names)))
      && (e.failure.None? <==> |e.calls| == |items|)
      && (e.failure.Some? ==>
            !Known(items[|e.calls|], names) && e.failure == Some(UnknownKeyName(items[|e.calls|].name)))
    decreases |items|
  {
    if items != [] && Resolve(items[0], names).Some? {
      var e := ItemsEmission(items, mode, names);
      var rest := ItemsEmission(items[1..], mode, names);
      ItemsResolveInOrder(items[1..], mode, names);
      assert e.calls == [ModeCall(mode, KnownCode(items[0], names))] + rest.calls;
      forall i | 1 <= i < |e.calls|
        ensures Known(items[i], names) && e.calls[i] == ModeCall(mode, KnownCode(items[i], names))
      {
        assert e.calls[i] == rest.calls[i - 1] && items[i] == items[1..][i - 1];
      }
      if e.failure.Some? {
        assert items[|e.calls|] == items[1..][|rest.calls|];
      }
    }
  }

  /** Typing a string makes, per character in order, one press of that
      character's layout keycodes followed by a release of all keys. A
      character the layout lacks stops the string with that character as the
      error, after the calls for the characters before it. */
  lemma {:induction false} TextTypesCharacterByCharacter(s: string, layout: Layout)
    ensures var e := TextEmission(s, layout);
      |e.calls| % 2 == 0 && |e.calls| / 2 <= |s|
      && (forall k :: 0 <= k < |e.calls| / 2 ==>
            s[k] in layout && e.calls[2 * k] == PressCall(layout[s[k]]) && e.calls[2 * k + 1] == ReleaseAllCall)
      && (e.failure.None? <==> |e.calls| / 2 == |s|)
      && (e.failure.Some? ==>
            s[|e.calls| / 2] !in layout && e.failure == Some(UnknownCharacter(s[|e.calls| / 2])))
    decreases |s|
  {
    if s != [] && s[0] in layout {
      var e := TextEmission(s, layout);
      var rest := TextEmission(s[1..], layout);
      TextTypesCharacterByCharacter(s[1..], layout);
      assert e.calls == [PressCall(layout[s[0]]), ReleaseAllCall] + rest.calls;
      assert |e.calls| / 2 == |rest.calls| / 2 + 1;
      forall k | 1 <= k < |e.calls| / 2
        ensures s[k] in layout && e.calls[2 * k] == PressCall(layout[s[k]]) && e.calls[2 * k + 1] == ReleaseAllCall
      {
        assert s[k] == s[1..][k - 1];
        assert e.calls[2 * k] == rest.calls[2 * (k - 1)];
        assert e.calls[2 * k + 1] == rest.calls[2 * (k - 1) + 1];
      }
      if e.failure.Some? {
        assert s[|e.calls| / 2] == s[1..][|rest.calls| / 2];
      }
    }
  }

  /** While a string is typed, each character's keycodes are held together
      with nothing else (the first character also with whatever was held
      before the action), and after every character nothing is held. */
  lemma TypedCharactersReleasedBetween(s: string, layout: Layout, held: set<Keycode>)
    ensures var e := TextEmission(s, layout);
      forall k :: 0 <= k < |e.calls| / 2 ==>
        Replay(held, e.calls[..2 * k + 1]) == (if k == 0 then held else {}) + Codes(layout[s[k]])
        && Replay(held, e.calls[..2 * k + 2]) == {}
  {
    var e := TextEmission(s, layout);
    TextTypesCharacterByCharacter(s, layout);
    forall k | 0 <= k < |e.calls| / 2
      ensures Replay(held, e.calls[..2 * k + 1]) == (if k == 0 then held else {}) + Codes(layout[s[k]])
      ensures Replay(held, e.calls[..2 * k + 2]) == {}
    {
      assert e.calls[..2 * k + 1] == e.calls[..2 * k] + [e.calls[2 * k]];
      ReplaySnoc(held, e.calls[..2 * k], e.calls[2 * k]);
      if k > 0 {
        assert e.calls[..2 * k][2 * k - 1] == e.calls[2 * (k - 1) + 1];
        ReplayEndsReleased(held, e.calls[..2 * k]);
      } else {
        assert e.calls[..0] == [];
      }
      ReplayEndsReleased(held, e.calls[..2 * k + 2]);
    }
  }

  /** A hotkey whose keys all resolve. */
  predicate HotkeyResolvable(key: Key, names: NameTable)
  {
    key.Single? || (key.List? && forall i :: 0 <= i < |key.items| ==> Known(key.items[i], names))
  }

  /** The keycodes a resolvable hotkey presses, in order. */
  function HotkeyCodes(key: Key, names: NameTable): seq<Keycode>
    requires HotkeyResolvable(key, names)
  {
    if key.Single? then [key.code]
    else seq(|key.items|, i requires 0 <= i < |key.items| => KnownCode(key.items[i], names))
  }

  /** A hotkey holds all its keys at once, on top of what was held, and then
      releases every key, so nothing is held when it is done. */
  lemma HotkeyHoldsAllThenReleases(key: Key, names: NameTable, layout: Layout, held: set<Keycode>)
    requires HotkeyResolvable(key, names)
    ensures var e := ActionEmission(Hotkey, key, names, layout);
      e.failure.None? && e.calls != [] && e.calls[|e.calls| - 1] == ReleaseAllCall
      && Replay(held, e.calls[..|e.calls| - 1]) == held + Codes(HotkeyCodes(key, names))
      && Replay(held, e.calls) == {}
  {
    var e := ActionEmission(Hotkey, key, names, layout);
    var codes := HotkeyCodes(key, names);
    if key.Single? {
      assert e.calls[..1] == [PressCall(codes)];
      ReplaySnoc(held, [], PressCall(codes));
    } else {
      var p := ItemsEmission(key.items, Pressing, names);
      ItemsResolveInOrder(key.items, Pressing, names);
      assert p.failure.None?;
      assert e.calls == p.calls + [ReleaseAllCall];
      assert e.calls[..|e.calls| - 1] == p.calls;
      ReplayPresses(held, p.calls, codes);
    }
    ReplayEndsReleased(held, e.calls);
  }

  /** A single keycode is handed to press, release, send or the hotkey press
      exactly as a one-element list of that raw keycode would be, so
      `ItemsResolveInOrder` describes it too: passed on unchanged, with no
      name lookup. */
  lemma ScalarKeyActsAsOneElementList(v: Verb, c: Keycode, names: NameTable, layout: Layout)
    requires v.Press? || v.Release? || v.Type? || v.Hotkey?
    ensures ActionEmission(v, Single(c), names, layout) == ActionEmission(v, List([Code(c)]), names, layout)
  {
    var items := [Code(c)];
    assert items[1..] == [];
    assert Resolve(items[0], names) == Some(c);
    var mode := if v.Release? then Releasing else if v.Type? then Sending else Pressing;
    assert ItemsEmission(items, mode, names) == Emission([ModeCall(mode, c)], None);
  }

  /** A string where press, release or the hotkey need a keycode stops the
      macro with that string as the error, before any keyboard call: the held
      keys stay as they were. */
  lemma StringKeyMakesNoCall(v: Verb, s: string, names: NameTable, layout: Layout, held: set<Keycode>)
    requires v.Press? || v.Release? || v.Hotkey?
    ensures var e := ActionEmission(v, Text(s), names, layout);
      e.failure == Some(KeyNotACode(s)) && Replay(held, e.calls) == held
  {
  }
}
