/** Notices that the machine slept, or that its clock was set: wall-clock time
    passed that monotonic time did not, or the reverse. */
module Wake {
  import opened Domain

  datatype Reading = Reading(wall: Time, mono: int)

  /** How far apart the two clocks moved between two readings. */
  function Divergence(a: Reading, b: Reading): int {
    (b.wall - a.wall) - (b.mono - a.mono)
  }

  predicate Jump(a: Reading, b: Reading, threshold: int) {
    Divergence(a, b) > threshold || Divergence(a, b) < -threshold
  }

  class Detector {
    const threshold: int
    var have: bool
    var lastWall: Time
    var lastMono: int

    /** The reading the next one is compared with. */
    ghost function Baseline(): Option<Reading>
      reads this
    {
      if have then Some(Reading(lastWall, lastMono)) else None
    }

    constructor (threshold: int)
      ensures this.threshold == threshold && Baseline() == None
    {
      this.threshold := threshold;
      have, lastWall, lastMono := false, 0, 0;
    }

    method Mark(wall: Time, mono: int)
      modifies this
      ensures Baseline() == Some(Reading(wall, mono))
    {
      have, lastWall, lastMono := true, wall, mono;
    }

    /** Every reading becomes the baseline of the next one, jump or not. A clock
        set backwards is a jump during which no time passed. */
    method Check(wall: Time, mono: int) returns (jumped: bool, skipped: int, floor: Time)
      modifies this
      ensures Baseline() == Some(Reading(wall, mono))
      ensures jumped <==> old(Baseline()).Some? && Jump(old(Baseline()).value, Reading(wall, mono), threshold)
      ensures jumped <==>
                && old(have)
                && (wall - old(lastWall) > mono - old(lastMono) + threshold || wall - old(lastWall) < mono - old(lastMono) - threshold)
      ensures jumped ==> floor == wall
      ensures jumped && threshold >= 0 ==>
                skipped == if Divergence(old(Baseline()).value, Reading(wall, mono)) > threshold
                           then Divergence(old(Baseline()).value, Reading(wall, mono)) else 0
    {
      jumped, skipped, floor := false, 0, ZERO_TIME;
      if !have {
        Mark(wall, mono);
        return;
      }
      var wallDelta := wall - lastWall;
      var monoDelta := mono - lastMono;
      Mark(wall, mono);

      var divergence := wallDelta - monoDelta;
      if divergence < 0 {
        divergence := -divergence;
      }
      if divergence <= threshold {
        return;
      }
      skipped := wallDelta - monoDelta;
      if skipped < 0 {
        skipped := 0;
      }
      jumped, floor := true, wall;
    }
  }
}
