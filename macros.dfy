/** The macro language of the key pad and what running a macro does to the
    keyboard, as pure functions over the configuration's values. */
module Macros {
  import opened Optional
  import opened Hid

  /** An element of a list-valued key: a raw keycode or a symbolic name
      looked up in the keycode name table. */
  datatype KeyItem = Code(code: Keycode) | Name(name: string)

  /** The `key` of an action: one keycode, a list, or a string. */
  datatype Key =
    | Single(code: Keycode)
    | List(items: seq<KeyItem>)
    | Text(text: string)

  /** The `action` of an entry; a name outside the four known ones does nothing. */
  datatype Verb = Press | Release | Type | Hotkey | Unknown(name: string)

  /** One entry of a macro: an action object, or a bare string. */
  datatype Entry = Action(verb: Verb, key: Key) | Marker(text: string)

  type Macro = seq<Entry>

  /** The bare string that switches off the final release of all keys. */
  const NoAutoRelease: string := "no_auto_release"

  /** Why a macro stopped before its end. */
  datatype MacroError =
    | UnknownKeyName(name: string)    // no such name in the keycode table
    | UnknownCharacter(c: char)       // the keyboard layout cannot type the character
    | KeyNotACode(text: string)       // a string handed to press or release as a keycode
    | MalformedEntry(text: string)    // a bare string other than the marker

  /** The keycode name table (`Keycode.<name>`). */
  type NameTable = map<string, Keycode>

  /** The keyboard layout: the keycodes to press together to type a character. */
  type Layout = map<char, seq<Keycode>>

  /** The keyboard calls made by a part of a macro, in order, and the error that
      stopped it, if one did. */
  datatype Emission = Emission(calls: seq<Call>, failure: Option<MacroError>)

  /** How each element of a list-valued key is handed to the keyboard. */
  datatype Mode = Pressing | Releasing | Sending

  function ModeCall(mode: Mode, k: Keycode): Call
  {
    match mode
    case Pressing => PressCall([k])
    case Releasing => ReleaseCall(k)
    case Sending => SendCall(k)
  }

  function Resolve(item: KeyItem, names: NameTable): Option<Keycode>
  {
    match item
    case Code(c) => Some(c)
    case Name(n) => if n in names then Some(names[n]) else None
  }

  predicate Known(item: KeyItem, names: NameTable)
  {
    item.Code? || item.name in names
  }

  /** The keycode of an element whose name is known. */
  function KnownCode(item: KeyItem, names: NameTable): Keycode
    requires Known(item, names)
  {
    if item.Code? then item.code else names[item.name]
  }

  /** Each element of a list, resolved and handed to the keyboard in order. */
  function ItemsEmission(items: seq<KeyItem>, mode: Mode, names: NameTable): Emission
    decreases |items|
  {
    if items == [] then Emission([], None)
    else match Resolve(items[0], names)
      case None => Emission([], Some(UnknownKeyName(items[0].name)))
      case Some(k) =>
        var rest := ItemsEmission(items[1..], mode, names);
        Emission([ModeCall(mode, k)] + rest.calls, rest.failure)
  }

  /** A string typed character by character: press the character's keycodes,
      then release all keys. */
  function TextEmission(text: string, layout: Layout): (r: Emission)
    ensures |r.calls| % 2 == 0 && |r.calls| / 2 <= |text|
    ensures forall k :: 0 <= k < |r.calls| / 2 ==> text[k] in layout
    decreases |text|
  {
    if text == [] then Emission([], None)
    else if text[0] !in layout then Emission([], Some(UnknownCharacter(text[0])))
    else
      var rest := TextEmission(text[1..], layout);
      Emission([PressCall(layout[text[0]]), ReleaseAllCall] + rest.calls, rest.failure)
  }

  function ActionEmission(verb: Verb, key: Key, names: NameTable, layout: Layout): Emission
  {
    match verb
    case Press =>
      (match key
       case Single(c) => Emission([PressCall([c])], None)
       case List(items) => ItemsEmission(items, Pressing, names)
       case Text(s) => Emission([], Some(KeyNotACode(s))))
    case Release =>
      (match key
       case Single(c) => Emission([ReleaseCall(c)], None)
       case List(items) => ItemsEmission(items, Releasing, names)
       case Text(s) => Emission([], Some(KeyNotACode(s))))
    case Type =>
      (match key
       case Single(c) => Emission([SendCall(c)], None)
       case List(items) => ItemsEmission(items, Sending, names)
       case Text(s) => TextEmission(s, layout))
    case Hotkey =>
      (match key
       case Single(c) => Emission([PressCall([c]), ReleaseAllCall], None)
       case List(items) =>
         var e := ItemsEmission(items, Pressing, names);
         if e.failure.None? then Emission(e.calls + [ReleaseAllCall], None) else e
       case Text(s) => Emission([], Some(KeyNotACode(s))))
    case Unknown(_) => Emission([], None)
  }

  /** The entries of a macro processed in order: the calls they make, whether no
      marker was seen before the walk ended, and the error that ended it early. */
  datatype Walk = Walk(calls: seq<Call>, autoRelease: bool, failure: Option<MacroError>)

  function Interpret(m: Macro, names: NameTable, layout: Layout): Walk
    decreases |m|
  {
    if m == [] then Walk([], true, None)
    else match m[0]
      case Marker(t) =>
        if t == NoAutoRelease then
          var rest := Interpret(m[1..], names, layout);
          Walk(rest.calls, false, rest.failure)
        else Walk([], true, Some(MalformedEntry(t)))
      case Action(v, k) =>
        var e := ActionEmission(v, k, names, layout);
        if e.failure.Some? then Walk(e.calls, true, e.failure)
        else
          var rest := Interpret(m[1..], names, layout);
          Walk(e.calls + rest.calls, rest.autoRelease, rest.failure)
  }

  /** An action at position `i` that succeeds: its calls, followed by what the
      rest of the macro does, are what the macro does from `i` on. */
  lemma InterpretActionStep(m: Macro, names: NameTable, layout: Layout, i: nat, before: seq<Call>, after: seq<Call>)
    requires i < |m| && m[i].Action?
    requires ActionEmission(m[i].verb, m[i].key, names, layout).failure.None?
    requires after == before + ActionEmission(m[i].verb, m[i].key, names, layout).calls
    ensures before + Interpret(m[i..], names, layout).calls == after + Interpret(m[i + 1..], names, layout).calls
    ensures Interpret(m[i..], names, layout).failure == Interpret(m[i + 1..], names, layout).failure
    ensures Interpret(m[i..], names, layout).autoRelease == Interpret(m[i + 1..], names, layout).autoRelease
  {
    assert m[i..][1..] == m[i + 1..];
  }

  /** What running a macro does: every keyboard call, the USB-activity LED
      afterwards, and the error that stopped it, if any. */
  datatype Effect = Effect(calls: seq<Call>, usbLed: bool, failure: Option<MacroError>)

  function Execute(m: Macro, names: NameTable, layout: Layout): Effect
  {
    var w := Interpret(m, names, layout);
    if w.failure.None? && w.autoRelease then Effect(w.calls + [ReleaseAllCall], false, None)
    else Effect(w.calls, true, w.failure)
  }
}
