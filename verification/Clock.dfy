/** The local clock: a sequence of valid timestamps, read one after the other. */
module Clocks {
  import opened Types

  type Ticks = nat -> Instant

  /** A clock that never goes back. */
  ghost predicate Nondecreasing(at: Ticks) {
    forall i: nat, j: nat :: i <= j ==> at(i) <= at(j)
  }

  class Clock {
    const at: Ticks
    var tick: nat

    constructor (at: Ticks, tick: nat)
      ensures this.at == at && this.tick == tick
    {
      this.at := at;
      this.tick := tick;
    }

    method Now() returns (t: Instant)
      modifies this`tick
      ensures t == at(old(tick)) && tick == old(tick) + 1
    {
      t := at(tick);
      tick := tick + 1;
    }
  }
}
