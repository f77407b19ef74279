/** The idle animation: a colour wheel and a rainbow that drifts along the LED
    strip, slowed down by a tick counter. */
module IdleAnimations {
  import opened Colors

  /** The brightness every rainbow pixel is written with. */
  const RainbowBrightness: Brightness := Brightness("0.1")

  /** How many ticks the rainbow waits before it moves on by one step. */
  const MaxInc: int := 10

  /** The number of positions on the colour wheel. */
  const WheelSize: int := 256

  /** The colour wheel: red fades into green, green into blue and blue back
      into red as `pos` runs over 0..255; any other position is black. */
  function Wheel(pos: int): (c: (int, int, int))
    ensures pos < 0 || pos > 255 ==> c == (0, 0, 0)
    ensures 0 <= pos <= 255 ==>
      0 <= c.0 <= 255 && 0 <= c.1 <= 255 && 0 <= c.2 <= 255
      && c.0 + c.1 + c.2 == 255
      && (c.0 == 0 || c.1 == 0 || c.2 == 0)
  {
    if pos < 0 || pos > 255 then (0, 0, 0)
    else if pos < 85 then (255 - pos * 3, pos * 3, 0)
    else if pos < 170 then (0, 255 - (pos - 85) * 3, (pos - 85) * 3)
    else ((pos - 170) * 3, 0, 255 - (pos - 170) * 3)
  }

  /** The three bands meet exactly at pure red, green and blue, and the last
      position closes the circle back at red. */
  lemma WheelBandBoundaries()
    ensures Wheel(0) == (255, 0, 0)
    ensures Wheel(85) == (0, 255, 0)
    ensures Wheel(170) == (0, 0, 255)
    ensures Wheel(255) == Wheel(0)
  {
  }

  /** Neighbouring positions of the wheel differ by at most 3 in every channel:
      the colours change smoothly, also across band boundaries. */
  lemma WheelSmooth(pos: int)
    requires 0 <= pos < 255
    ensures var (a, b) := (Wheel(pos), Wheel(pos + 1));
      -3 <= a.0 - b.0 <= 3 && -3 <= a.1 - b.1 <= 3 && -3 <= a.2 - b.2 <= 3
  {
  }

  /** Positions 0..254 all give different colours: one turn of the wheel shows
      255 distinct colours before coming back to red. */
  lemma WheelInjective(p: int, q: int)
    requires 0 <= p <= 254 && 0 <= q <= 254 && p != q
    ensures Wheel(p) != Wheel(q)
  {
  }

  /** The colour of pixel `i` when the rainbow stands at `index`. */
  function RainbowColor(index: int, i: int): Color
  {
    var c := Wheel((index + i * 2) % WheelSize);
    RgbBright(c.0, c.1, c.2, RainbowBrightness)
  }

  /** The whole rainbow frame for a strip of `n` pixels. */
  function RainbowFrame(index: int, n: nat): (f: seq<Color>)
    ensures |f| == n
  {
    seq(n, i => RainbowColor(index, i))
  }

  /** Every pixel of a frame is a wheel colour: channels in 0..255 summing to
      255, with the fixed brightness. */
  lemma RainbowPixelsOnWheel(index: int, n: nat, i: nat)
    requires i < n
    ensures var p := RainbowFrame(index, n)[i];
      p.RgbBright? && p.brightness == RainbowBrightness
      && 0 <= p.r <= 255 && 0 <= p.g <= 255 && 0 <= p.b <= 255
      && p.r + p.g + p.b == 255
  {
  }

  /** The rainbow travels: one step of `index` shifts the frame by half a pixel,
      so after two steps pixel `i` shows what pixel `i + 1` showed. */
  lemma RainbowTravels(index: int, n: nat, i: nat)
    requires i + 1 < n
    ensures RainbowFrame(index + 2, n)[i] == RainbowFrame(index, n)[i + 1]
  {
    assert index + 2 + i * 2 == index + (i + 1) * 2;
  }

  /** The rainbow repeats every 128 pixels along the strip and every 256
      steps of `index`. */
  lemma RainbowPeriodic(index: int, n: nat, i: nat)
    requires i + 128 < n
    ensures RainbowFrame(index, n)[i + 128] == RainbowFrame(index, n)[i]
    ensures RainbowFrame(index + WheelSize, n)[i] == RainbowFrame(index, n)[i]
  {
    assert (index + (i + 128) * 2) % WheelSize == (index + i * 2) % WheelSize by {
      assert index + (i + 128) * 2 == (index + i * 2) + WheelSize;
    }
    assert (index + WheelSize + i * 2) % WheelSize == (index + i * 2) % WheelSize by {
      assert index + WheelSize + i * 2 == (index + i * 2) + WheelSize;
    }
  }

  /** The animation's two counters: the rainbow's position and the number of
      ticks since it last moved. */
  datatype Counter = Counter(index: int, incIndex: int)

  /** The counters in their permitted ranges. */
  predicate InRange(c: Counter, maxInc: int)
  {
    0 <= c.index < WheelSize && 0 <= c.incIndex < maxInc
  }

  /** The counter update one tick makes. */
  function Step(c: Counter, maxInc: int): Counter
  {
    if c.incIndex + 1 >= maxInc then Counter((c.index + 1) % WheelSize, 0)
    else Counter(c.index, c.incIndex + 1)
  }

  /** The counters after `n` ticks. */
  function Steps(c: Counter, maxInc: int, n: nat): Counter
    decreases n
  {
    if n == 0 then c else Steps(Step(c, maxInc), maxInc, n - 1)
  }

  /** One tick keeps the counters in range; the rainbow moves by exactly one
      position when the tick counter reaches its maximum, and otherwise only the
      tick counter changes. */
  lemma StepInRange(c: Counter, maxInc: int)
    requires InRange(c, maxInc)
    ensures InRange(Step(c, maxInc), maxInc)
    ensures c.incIndex + 1 == maxInc ==> Step(c, maxInc) == Counter((c.index + 1) % WheelSize, 0)
    ensures c.incIndex + 1 < maxInc ==> Step(c, maxInc) == Counter(c.index, c.incIndex + 1)
  {
  }

  /** Any number of ticks keeps the counters in range. */
  lemma {:induction false} StepsInRange(c: Counter, maxInc: int, n: nat)
    requires InRange(c, maxInc)
    ensures InRange(Steps(c, maxInc, n), maxInc)
    decreases n
  {
    if n > 0 {
      StepInRange(c, maxInc);
      StepsInRange(Step(c, maxInc), maxInc, n - 1);
    }
  }

  /** After `n` ticks the rainbow has moved once per ten ticks counted from the
      tick counter's start value, and the tick counter holds the rest. */
  lemma {:induction false} StepsCount(c: Counter, n: nat)
    requires InRange(c, MaxInc)
    ensures Steps(c, MaxInc, n)
      == Counter((c.index + (c.incIndex + n) / MaxInc) % WheelSize, (c.incIndex + n) % MaxInc)
    decreases n
  {
    if n > 0 {
      var d := Step(c, MaxInc);
      StepsCount(d, n - 1);
      var t := c.incIndex + n;
      if c.incIndex + 1 >= MaxInc {
        // d = ((index + 1) % 256, 0), and t = MaxInc + (n - 1)
        assert t / MaxInc == 1 + (n - 1) / MaxInc && t % MaxInc == (n - 1) % MaxInc by {
          assert t == MaxInc + (n - 1);
        }
        ModAddDiv(c.index, (n - 1) / MaxInc);
      } else {
        assert d.incIndex + (n - 1) == t;
      }
    }
  }

  /** Ten ticks in a row move the rainbow by exactly one position and bring
      the tick counter back to where it was. The count is a parameter equal to
      `MaxInc` because a literal count would make the verifier unfold `Steps`
      ten times. */
  lemma TenTicksMoveOnce(c: Counter, ticks: nat)
    requires InRange(c, MaxInc) && ticks == MaxInc
    ensures Steps(c, MaxInc, ticks) == Counter((c.index + 1) % WheelSize, c.incIndex)
  {
    StepsCount(c, ticks);
  }

  /** Taking the position to the wheel first and moving on afterwards is moving
      on first. */
  lemma ModAddDiv(index: int, k: int)
    ensures ((index + 1) % WheelSize + k) % WheelSize == (index + (1 + k)) % WheelSize
  {
    var a := index + 1;
    assert a == (a / WheelSize) * WheelSize + a % WheelSize;
    assert ((a % WheelSize + k) - (a + k)) % WheelSize == 0 by {
      assert (a % WheelSize + k) - (a + k) == -(a / WheelSize) * WheelSize;
    }
  }

  /** The rainbow animation: fills the strip with a rainbow frame on every
      tick and moves the rainbow one position on every tenth tick. */
  class RainbowAnimation {
    /** The strip's pixel buffer; the animation shares it with its owner. */
    const leds: array<Color>
    var index: int
    var incIndex: int
    const maxInc: int

    ghost predicate Valid()
      reads this
    {
      maxInc == MaxInc && InRange(Counter(index, incIndex), maxInc)
    }

    constructor (leds: array<Color>)
      ensures Valid() && this.leds == leds
      ensures index == 0 && incIndex == 0 && maxInc == MaxInc
    {
      this.leds := leds;
      index := 0;
      incIndex := 0;
      maxInc := MaxInc;
    }

    /** Draw the frame for the current position, then count the tick. */
    method Tick()
      requires Valid()
      modifies this, leds
      ensures Valid()
      ensures leds[..] == RainbowFrame(old(index), leds.Length)
      ensures Counter(index, incIndex) == Step(Counter(old(index), old(incIndex)), maxInc)
    {
      var start := index;
      for i := 0 to leds.Length
        modifies leds
        invariant forall k :: 0 <= k < i ==> leds[k] == RainbowColor(start, k)
      {
        var value := (start + i * 2) % WheelSize;
        var (r, g, b) := Wheel(value);
        leds[i] := RgbBright(r, g, b, RainbowBrightness);
      }
      incIndex := incIndex + 1;
      if incIndex >= maxInc {
        incIndex := 0;
        index := (index + 1) % WheelSize;
      }
    }
  }
}
