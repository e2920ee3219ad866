/** A clock split into completed turns of a wheel and an index into the current
    turn; its meaning is the tick `cycles * wheelSize + index`. */
module WheelTimes {
  import opened Arithmetic

  /** Lexicographic comparison of (turns, index) is comparison of ticks. */
  lemma LexicographicIsTick(w: nat, c: int, i: int, d: int, j: int)
    requires 0 <= i < w && 0 <= j < w
    ensures (if c == d then i < j else c < d) <==> c * w + i < d * w + j
  {
    if c < d {
      WholeTurns(w, c, d);
    } else if d < c {
      WholeTurns(w, d, c);
    }
  }

  class WheelTime {
    const wheelSize: nat
    const resolution: nat  // milliseconds for one tick
    var cycles: int
    var index: int

    ghost predicate Valid()
      reads this
    {
      0 <= index < wheelSize && resolution > 0
    }

    ghost function Tick(): int
      reads this
    {
      cycles * wheelSize + index
    }

    lemma IndexIsTick()
      requires Valid()
      ensures index == Tick() % wheelSize
    {
      DivisionIsUnique(wheelSize, Tick(), cycles, index);
    }

    constructor (wheelSize: nat, resolution: nat, cycles: int, index: int)
      requires 0 <= index < wheelSize && resolution > 0
      ensures Valid() && this.wheelSize == wheelSize && this.resolution == resolution
      ensures Tick() == cycles * wheelSize + index
    {
      this.wheelSize, this.resolution, this.cycles, this.index := wheelSize, resolution, cycles, index;
    }

    /** The tick `offset` ticks after the clock reading `now`. */
    constructor FromClock(wheelSize: nat, resolution: nat, base: int, now: int, offset: nat)
      requires wheelSize > 0 && resolution > 0 && base <= now
      ensures Valid() && this.wheelSize == wheelSize && this.resolution == resolution
      ensures Tick() == (now - base) / resolution + offset
    {
      this.wheelSize, this.resolution, this.cycles, this.index := wheelSize, resolution, 0, 0;
      new;
      SetClock(base, now);
      Add(offset);
    }

    method Add(interval: nat)
      requires Valid()
      modifies this
      ensures Valid() && Tick() == old(Tick()) + interval
    {
      cycles := cycles + interval / wheelSize;
      index := index + interval % wheelSize;
      assert cycles * wheelSize == old(cycles) * wheelSize + (interval / wheelSize) * wheelSize;
      if index >= wheelSize {
        cycles := cycles + 1;
        index := index - wheelSize;
      }
    }

    method Increment()
      requires Valid()
      modifies this
      ensures Valid() && Tick() == old(Tick()) + 1
    {
      Add(1);
    }

    function Offset(time: WheelTime): (d: int)
      requires time.wheelSize == wheelSize
      reads this, time
      ensures d == Tick() - time.Tick()
    {
      (cycles - time.cycles) * wheelSize + (index - time.index)
    }

    predicate Less(time: WheelTime)
      requires Valid() && time.Valid() && time.wheelSize == wheelSize
      reads this, time
      ensures Less(time) <==> Tick() < time.Tick()
    {
      LexicographicIsTick(wheelSize, cycles, index, time.cycles, time.index);
      if cycles == time.cycles then index < time.index else cycles < time.cycles
    }

    method Set(cycles: int, index: int)
      requires resolution > 0 && 0 <= index < wheelSize
      modifies this
      ensures Valid() && Tick() == cycles * wheelSize + index
    {
      this.cycles, this.index := cycles, index;
    }

    /** Reads the clock; both times are in milliseconds. */
    method SetClock(base: int, now: int)
      requires wheelSize > 0 && resolution > 0 && base <= now
      modifies this
      ensures Valid() && Tick() == (now - base) / resolution
    {
      var offset := (now - base) / resolution;
      cycles := offset / wheelSize;
      index := offset % wheelSize;
    }

    method Assign(time: WheelTime)
      requires time.Valid() && time.wheelSize == wheelSize && time.resolution == resolution
      modifies this
      ensures Valid() && Tick() == old(time.Tick())
    {
      cycles, index := time.cycles, time.index;
    }
  }
}
