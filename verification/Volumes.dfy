/**
 The volume as clients see it, in steps, and as the device state holds it, from 0 to
 65535 (cmd/daemon/controls.go, cmd/daemon/player.go).  The value travels between the two
 through a one-slot channel as a 32-bit float.
 */
module Volumes {
  import opened Common

  const MAX_STATE_VOLUME := 65535
  const LIMIT_32 := 0x1_0000_0000

  /** math.Round of a number that is not negative */
  function Round(x: real): int { (x + 0.5).Floor }

  /** uint32(n) */
  function Wrap32(n: int): (r: nat)
    ensures 0 <= n < LIMIT_32 ==> r == n
  {
    n % LIMIT_32
  }

  /** The state volume as a number of `steps`. */
  function ApiVolume(state: nat, steps: nat): int {
    Round((Wrap32(state * steps) as real) / 65535.0)
  }

  /** The state volume asked for by `volume` of `steps`. */
  function Requested(volume: int, steps: nat): nat
    requires steps > 0
  {
    Wrap32(Wrap32(volume) * MAX_STATE_VOLUME) / steps
  }

  /** int32(n) */
  function Int32(n: int): (r: int)
    ensures -0x8000_0000 <= r < 0x8000_0000
    ensures -0x8000_0000 <= n < 0x8000_0000 ==> r == n
  {
    (n + 0x8000_0000) % LIMIT_32 - 0x8000_0000
  }

  /** A relative request moves the current number of steps and stays within them. */
  function RelativeTarget(state: nat, steps: nat, delta: int): int {
    Max(Min(Int32(Int32(ApiVolume(state, steps)) + delta), Int32(steps)), 0)
  }

  // ----- the float in between

  /** Largest relative error of one operation in 32-bit floating point. */
  const EPSILON := 1.0 / 16777216.0

  predicate Tiny(d: real) { -EPSILON <= d <= EPSILON }

  /** The float put into the channel for state volume `x`: a division with its rounding error. */
  function Sent(x: nat, d1: real): real { ((x as real) / 65535.0) * (1.0 + d1) }

  /** What the receiver multiplies it out to, with the rounding error of that. */
  function Received(f: real, d2: real): real { (f * 65535.0) * (1.0 + d2) }

  /** Rounding brings back the very number that was sent, whatever the two errors are. */
  lemma HopExact(x: nat, d1: real, d2: real)
    requires x <= MAX_STATE_VOLUME && Tiny(d1) && Tiny(d2)
    ensures Round(Received(Sent(x, d1), d2)) == x
  {
    var r, q, e := x as real, (x as real) / 65535.0, d1 + d2 + d1 * d2;
    assert q * 65535.0 == r;
    assert (q * (1.0 + d1)) * 65535.0 == r * (1.0 + d1);
    ExpandErrors(r, d1, d2);
    SmallProduct(d1, d2);
    SmallShift(r, e);
    assert Received(Sent(x, d1), d2) == r + r * e;
    RoundNear(r + r * e, x);
  }

  /** What travels is the share of the full volume: none is 0, all is 1, and more volume is a larger share. */
  lemma SentIsShare(x: nat, y: nat)
    requires x < y <= MAX_STATE_VOLUME
    ensures Sent(0, 0.0) == 0.0 && Sent(MAX_STATE_VOLUME, 0.0) == 1.0
    ensures Sent(x, 0.0) < Sent(y, 0.0)
    ensures Received(0.0, 0.0) == 0.0 && Received(1.0, 0.0) == 65535.0
  {
    var p, q := (x as real) / 65535.0, (y as real) / 65535.0;
    assert p * 65535.0 == x as real && q * 65535.0 == y as real;
  }

  lemma RoundNear(y: real, x: nat)
    requires -0.5 < y - x as real < 0.5
    ensures Round(y) == x
  {
  }

  lemma ExpandErrors(r: real, d1: real, d2: real)
    ensures (r * (1.0 + d1)) * (1.0 + d2) == r + r * (d1 + d2 + d1 * d2)
  {
  }

  lemma SmallProduct(d1: real, d2: real)
    requires Tiny(d1) && Tiny(d2)
    ensures -EPSILON <= d1 * d2 <= EPSILON
  {
    if d1 >= 0.0 {
      assert d1 * d2 <= d1 * 1.0 && d1 * d2 >= d1 * -1.0;
    } else {
      assert d1 * d2 <= d1 * -1.0 && d1 * d2 >= d1 * 1.0;
    }
  }

  lemma SmallShift(r: real, e: real)
    requires 0.0 <= r <= 65535.0 && -3.0 * EPSILON <= e <= 3.0 * EPSILON
    ensures -0.5 < r * e < 0.5
  {
    if e >= 0.0 {
      assert r * e <= 65535.0 * e;
    } else {
      assert r * e >= 65535.0 * e;
    }
  }

  // ----- setting and reading back

  lemma RoundsTo(num: nat, v: nat)
    requires (2 * v - 1) * MAX_STATE_VOLUME < 2 * num < (2 * v + 1) * MAX_STATE_VOLUME
    ensures Round((num as real) / 65535.0) == v
  {
    var q := (num as real) / 65535.0;
    assert q * 65535.0 == num as real;
    assert (2 * v - 1) as real * 65535.0 < 2.0 * (q * 65535.0) < (2 * v + 1) as real * 65535.0;
  }

  /**
   What is read back after `v` of `s` steps was set: the state volume falls short of
   v * 65535 / s by a remainder, and reading back loses `v` exactly when that remainder
   reaches half of 65535.
   */
  lemma ReadBack(v: nat, s: nat)
    requires 0 < s && v <= s
    requires s * MAX_STATE_VOLUME < LIMIT_32
    ensures Requested(v, s) <= MAX_STATE_VOLUME
    ensures ApiVolume(Requested(v, s), s) == v <==> 2 * ((v * MAX_STATE_VOLUME) % s) < MAX_STATE_VOLUME
  {
    var n := v * MAX_STATE_VOLUME;
    var x, r := n / s, n % s;
    Quotient(n, s);
    assert Wrap32(x * s) == n - r;
    if 2 * r < MAX_STATE_VOLUME {
      RoundsTo(n - r, v);
    } else {
      RoundsTo(n - r, v - 1);
    }
  }

  lemma Quotient(n: nat, s: nat)
    requires 0 < s && n <= s * MAX_STATE_VOLUME
    ensures n / s <= MAX_STATE_VOLUME && (n / s) * s == n - n % s && n % s < s
  {
    var q := n / s;
    assert n == q * s + n % s;
    if q > MAX_STATE_VOLUME {
      assert false by { Times(MAX_STATE_VOLUME + 1, q, s); }
    }
  }

  lemma Times(a: int, b: int, s: nat)
    requires a <= b
    ensures a * s <= b * s
  {
  }

  /** The state volume that arrives when `x` is sent. */
  function Arriving(x: nat, d1: real, d2: real): (r: int)
    requires x <= MAX_STATE_VOLUME && Tiny(d1) && Tiny(d2)
    ensures r == x
  {
    HopExact(x, d1, d2);
    Round(Received(Sent(x, d1), d2))
  }

  /** For up to 32768 steps every setting reads back as itself, float and all. */
  lemma SetThenGet(v: nat, s: nat, d1: real, d2: real)
    requires 1 <= s <= 32768 && v <= s && Tiny(d1) && Tiny(d2)
    ensures Requested(v, s) <= MAX_STATE_VOLUME
    ensures ApiVolume(Arriving(Requested(v, s), d1, d2), s) == v
  {
    ReadsBackExactly(v, s);
    assert Arriving(Requested(v, s), d1, d2) == Requested(v, s);
  }

  lemma ReadsBackExactly(v: nat, s: nat)
    requires 1 <= s <= 32768 && v <= s
    ensures Requested(v, s) <= MAX_STATE_VOLUME && ApiVolume(Requested(v, s), s) == v
  {
    ReadBack(v, s);
    SmallRemainder(v * MAX_STATE_VOLUME, s);
  }

  lemma SmallRemainder(n: nat, s: nat)
    requires 1 <= s <= 32768
    ensures 2 * (n % s) < MAX_STATE_VOLUME
  {
  }

  /** What is read is the number of steps nearest to the state volume's share of them. */
  lemma ReadsNearest(state: nat, s: nat)
    requires state * s < LIMIT_32
    ensures var v := ApiVolume(state, s);
            (2 * v - 1) * MAX_STATE_VOLUME <= 2 * (state * s) < (2 * v + 1) * MAX_STATE_VOLUME
  {
    var n := state * s;
    var q := (n as real) / 65535.0;
    assert q * 65535.0 == n as real;
    var v := Round(q);
    assert v as real <= q + 0.5 < (v + 1) as real;
    assert (2 * v - 1) as real * 65535.0 <= 2.0 * (q * 65535.0) < (2 * v + 1) as real * 65535.0;
  }

  /** Short of overflow, `v` of `s` steps asks for that share of 65535, rounded down. */
  lemma RequestedIsShare(v: nat, s: nat)
    requires 0 < s && v * MAX_STATE_VOLUME < LIMIT_32
    ensures Requested(v, s) * s <= v * MAX_STATE_VOLUME < (Requested(v, s) + 1) * s
  {
    var n := v * MAX_STATE_VOLUME;
    assert n == (n / s) * s + n % s;
  }

  /** More than there are steps asks for at least the full volume, up to 65537; after that the product overflows. */
  lemma AboveIsFull(v: nat, s: nat)
    requires 0 < s <= v
    ensures v <= 65537 ==> Requested(v, s) >= MAX_STATE_VOLUME
    ensures Requested(65538, s) <= 65534
  {
    if v <= 65537 {
      Times(s, v, MAX_STATE_VOLUME);
      RequestedIsShare(v, s);
      if Requested(v, s) < MAX_STATE_VOLUME {
        Times(Requested(v, s) + 1, MAX_STATE_VOLUME, s);
        assert false;
      }
    }
    assert Wrap32(65538 * MAX_STATE_VOLUME) == 65534;
    Shrinks(65534, s);
  }

  lemma Shrinks(n: nat, s: nat)
    requires s > 0
    ensures n / s <= n
  {
    var q := n / s;
    assert n == q * s + n % s;
    Times(1, s, q);
  }

  /** `v` moved by `delta` within the steps. */
  function Moved(v: nat, s: nat, delta: int): (r: nat)
    ensures r <= s
  {
    if v + delta < 0 then 0 else if v + delta > s then s else v + delta
  }

  /**
   A relative request moves the setting by `delta` and stays within the steps, exactly as
   long as the sum fits an int32; beyond that it wraps and the volume goes to zero.
   */
  lemma RelativeMoves(v: nat, s: nat, delta: int)
    requires 1 <= s <= 32768 && v <= s && -0x8000_0000 <= delta < 0x8000_0000
    ensures RelativeTarget(Requested(v, s), s, delta) == Moved(v, s, delta) <==> v + delta < 0x8000_0000
    ensures v + delta >= 0x8000_0000 ==> RelativeTarget(Requested(v, s), s, delta) == 0
  {
    ReadsBackExactly(v, s);
    var sum := v + delta;
    if sum >= 0x8000_0000 {
      assert Int32(sum) == sum - LIMIT_32;
    }
  }

  /** And what it set is what is read back. */
  lemma RelativeThenGet(v: nat, s: nat, delta: int, d1: real, d2: real)
    requires 1 <= s <= 32768 && v <= s && -0x8000_0000 <= delta < 0x8000_0000 - v && Tiny(d1) && Tiny(d2)
    ensures var target := RelativeTarget(Requested(v, s), s, delta);
            && target >= 0 && Requested(target, s) <= MAX_STATE_VOLUME
            && ApiVolume(Arriving(Requested(target, s), d1, d2), s) == Moved(v, s, delta)
  {
    RelativeMoves(v, s, delta);
    SetThenGet(Moved(v, s, delta), s, d1, d2);
  }

  // ----- the player

  class Player {
    const steps: nat
    var volumeUpdate: Option<real>
    var volume: nat

    constructor (steps: nat)
      requires steps > 0
      ensures this.steps == steps && volume == MAX_STATE_VOLUME && volumeUpdate == None
    {
      this.steps, volume, volumeUpdate := steps, MAX_STATE_VOLUME, None;
    }

    /** The channel has one slot: an older value in it is replaced. */
    method UpdateVolume(newVal: nat, d1: real)
      modifies this`volumeUpdate
      ensures volumeUpdate == Some(Sent(Min(newVal, MAX_STATE_VOLUME), d1))
    {
      var val := newVal;
      if val > MAX_STATE_VOLUME {
        val := MAX_STATE_VOLUME;
      }
      if volumeUpdate.Some? {
        volumeUpdate := None;
      }
      volumeUpdate := Some(Sent(val, d1));
    }

    /** The set-volume request; `d1` is the rounding error of the float it is sent as. */
    method SetVolume(relative: bool, value: int, d1: real)
      requires steps > 0
      modifies this`volumeUpdate
      ensures var target := if relative then RelativeTarget(volume, steps, value) else value;
              volumeUpdate == Some(Sent(Min(Requested(target, steps), MAX_STATE_VOLUME), d1))
    {
      var target;
      if relative {
        target := Int32(ApiVolume(volume, steps));
        target := Int32(target + value);
        target := Max(Min(target, Int32(steps)), 0);
      } else {
        target := value;
      }
      UpdateVolume(Requested(target, steps), d1);
    }

    /**
     The run loop's case for a value in the channel, whoever put it there: UpdateVolume or
     an output's mixer.  If it was UpdateVolume, the device volume is the value sent.
     */
    method OnVolumeUpdate(d2: real, ghost x: nat, ghost d1: real)
      requires volumeUpdate.Some? && Tiny(d2)
      modifies this
      ensures volumeUpdate == None
      ensures volume == Wrap32(Round(Received(old(volumeUpdate.value), d2)))
      ensures x <= MAX_STATE_VOLUME && Tiny(d1) && old(volumeUpdate) == Some(Sent(x, d1)) ==> volume == x
    {
      if x <= MAX_STATE_VOLUME && Tiny(d1) {
        HopExact(x, d1, d2);
      }
      var v := volumeUpdate.value;
      volumeUpdate := None;
      volume := Wrap32(Round(Received(v, d2)));
    }
  }
}
