/** The USB keyboard the macros drive, modelled abstractly: the set of keycodes
    it currently holds down and the log of calls made on it. */
module Hid {

  type Keycode = int

  /** One call on the keyboard object. */
  datatype Call =
    | PressCall(codes: seq<Keycode>)   // press(*codes)
    | ReleaseCall(code: Keycode)       // release(code)
    | ReleaseAllCall                   // release_all()
    | SendCall(code: Keycode)          // send(code): press(code), then release_all()

  function Codes(s: seq<Keycode>): set<Keycode> { set k | k in s }

  /** The held set after one call, starting from `held`. */
  function Apply(held: set<Keycode>, c: Call): set<Keycode>
  {
    match c
    case PressCall(cs) => held + Codes(cs)
    case ReleaseCall(k) => held - {k}
    case ReleaseAllCall => {}
    case SendCall(_) => {}
  }

  /** The held set after a sequence of calls, starting from `held`. */
  function Replay(held: set<Keycode>, calls: seq<Call>): set<Keycode>
    decreases |calls|
  {
    if calls == [] then held
    else Apply(Replay(held, calls[..|calls| - 1]), calls[|calls| - 1])
  }

  lemma ReplaySnoc(held: set<Keycode>, calls: seq<Call>, c: Call)
    ensures Replay(held, calls + [c]) == Apply(Replay(held, calls), c)
  {
    assert (calls + [c])[..|calls|] == calls;
  }

  /** Replaying a log in two parts is replaying it as a whole. */
  lemma {:induction false} ReplayAppend(held: set<Keycode>, a: seq<Call>, b: seq<Call>)
    ensures Replay(held, a + b) == Replay(Replay(held, a), b)
    decreases |b|
  {
    if b == [] {
      assert a + b == a;
    } else {
      var last := b[|b| - 1];
      var init := b[..|b| - 1];
      assert b == init + [last];
      assert a + b == (a + init) + [last];
      ReplaySnoc(held, a + init, last);
      ReplayAppend(held, a, init);
      ReplaySnoc(Replay(held, a), init, last);
    }
  }

  /** A log whose last call releases everything leaves nothing held, whatever
      came before it. */
  lemma {:induction false} ReplayEndsReleased(held: set<Keycode>, calls: seq<Call>)
    requires calls != [] && (calls[|calls| - 1] == ReleaseAllCall || calls[|calls| - 1].SendCall?)
    ensures Replay(held, calls) == {}
  {
  }

  /** A run of single-key presses leaves held exactly the keys pressed, added
      to what was held before. */
  lemma {:induction false} ReplayPresses(held: set<Keycode>, calls: seq<Call>, codes: seq<Keycode>)
    requires |calls| == |codes|
    requires forall i :: 0 <= i < |calls| ==> calls[i] == PressCall([codes[i]])
    ensures Replay(held, calls) == held + Codes(codes)
    decreases |calls|
  {
    if calls != [] {
      var n := |calls| - 1;
      ReplayPresses(held, calls[..n], codes[..n]);
      assert calls == calls[..n] + [calls[n]];
      assert codes == codes[..n] + [codes[n]];
      ReplaySnoc(held, calls[..n], calls[n]);
      assert Codes([codes[n]]) == {codes[n]};
      assert Codes(codes) == Codes(codes[..n]) + {codes[n]};
    }
  }

  class Keyboard {
    /** The keycodes currently held down. */
    var held: set<Keycode>
    /** Every call made on this keyboard, oldest first. */
    var log: seq<Call>

    /** The held set is exactly what the logged calls leave held. */
    ghost predicate Valid()
      reads this
    {
      held == Replay({}, log)
    }

    constructor ()
      ensures Valid() && held == {} && log == []
    {
      held := {};
      log := [];
    }

    method Press(codes: seq<Keycode>)
      requires Valid()
      modifies this
      ensures Valid()
      ensures log == old(log) + [PressCall(codes)]
      ensures held == old(held) + Codes(codes)
    {
      ReplaySnoc({}, log, PressCall(codes));
      log := log + [PressCall(codes)];
      held := held + Codes(codes);
    }

    method Release(code: Keycode)
      requires Valid()
      modifies this
      ensures Valid()
      ensures log == old(log) + [ReleaseCall(code)]
      ensures held == old(held) - {code}
    {
      ReplaySnoc({}, log, ReleaseCall(code));
      log := log + [ReleaseCall(code)];
      held := held - {code};
    }

    method ReleaseAll()
      requires Valid()
      modifies this
      ensures Valid()
      ensures log == old(log) + [ReleaseAllCall]
      ensures held == {}
    {
      ReplaySnoc({}, log, ReleaseAllCall);
      log := log + [ReleaseAllCall];
      held := {};
    }

    /** Press the key and then release every key, as the HID library's send does. */
    method Send(code: Keycode)
      requires Valid()
      modifies this
      ensures Valid()
      ensures log == old(log) + [SendCall(code)]
      ensures held == {}
    {
      ReplaySnoc({}, log, SendCall(code));
      log := log + [SendCall(code)];
      held := {};
    }
  }
}
