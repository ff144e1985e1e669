/** A coloured circle of the puzzle: its radius, the merge buffer it grows from,
    the irrevocable merging-away and gone flags, and its speed limit.

    The per-tick rule is stated once as the pure function Tick on a CircleState;
    the class ColoredCircle changes its fields step by step as the source does and
    is proved to follow Tick. */
module Circles {
  import opened PlayTypes
  import opened EdgeWrap

  // ---------------------------------------------------------------------------
  // Radius floor and speed limit.

  /** The radius setRadius stores for a requested radius: a circle that is not
      merging away never drops below MIN_RADIUS, and no circle drops below
      ACTUAL_MIN_RADIUS. */
  function Clamp(r: real, mergingAway: bool): (c: real)
    ensures c >= ACTUAL_MIN_RADIUS
    ensures !mergingAway ==> c >= MIN_RADIUS
    ensures c >= r
    ensures r >= MIN_RADIUS ==> c == r
    ensures mergingAway && r >= ACTUAL_MIN_RADIUS ==> c == r
    ensures !mergingAway && r < MIN_RADIUS ==> c == MIN_RADIUS
    ensures mergingAway && r < ACTUAL_MIN_RADIUS ==> c == ACTUAL_MIN_RADIUS
  {
    if r < MIN_RADIUS && !mergingAway then MIN_RADIUS
    else if r < ACTUAL_MIN_RADIUS then ACTUAL_MIN_RADIUS
    else r
  }

  /** The speed limit of a circle: SPEED_FACTOR divided by its radius, or by
      MIN_RADIUS while it merges away, and never negative. */
  function SpeedLimit(radius: real, mergingAway: bool): (s: real)
    requires mergingAway || radius != 0.0
    ensures s >= 0.0
    ensures mergingAway ==> s * MIN_RADIUS == SPEED_FACTOR
    ensures !mergingAway && radius > 0.0 ==> s * radius == SPEED_FACTOR
    ensures !mergingAway && radius < 0.0 ==> s == 0.0
  {
    var q := SPEED_FACTOR / (if mergingAway then MIN_RADIUS else radius);
    if q < 0.0 then 0.0 else q
  }

  /** A smaller circle that is not merging away is faster. */
  lemma SmallerIsFaster(r1: real, r2: real)
    requires 0.0 < r1 < r2
    ensures SpeedLimit(r1, false) > SpeedLimit(r2, false)
  {
    var s1 := SpeedLimit(r1, false);
    var s2 := SpeedLimit(r2, false);
    var d := s2 * (r2 - r1);
    assert d > 0.0;
    assert (s1 - s2) * r1 == d;
    assert s1 - s2 == d / r1;
  }

  // ---------------------------------------------------------------------------
  // Interaction.

  datatype InteractionType = Merger | NoInteraction

  /** Two circles merge exactly when they have the same colour. */
  function InteractionOf(a: ColorType, b: ColorType): (t: InteractionType)
    ensures t == Merger <==> a == b
  {
    if a == b then Merger else NoInteraction
  }

  // ---------------------------------------------------------------------------
  // One tick of a circle, as a function of its state.

  datatype CircleState = CircleState(radius: real, buffer: real, mergingAway: bool, gone: bool)

  /** The states a circle can be in: above the absolute floor, above MIN_RADIUS
      unless merging away, gone only after merging away, and with a buffer that is
      never negative unless the circle merges away (where one overdrawn tick can
      leave it at most CHANGE_UP below zero). */
  predicate WellFormed(s: CircleState)
  {
    && s.radius >= ACTUAL_MIN_RADIUS
    && (!s.mergingAway ==> s.radius >= MIN_RADIUS && s.buffer >= 0.0)
    && (s.gone ==> s.mergingAway)
    && s.buffer > 0.0 - CHANGE_UP
  }

  /** One tick of ColoredCircle.update without the speed cap and the edge wrap.
      A merging-away circle first drains its buffer, then shrinks by CHANGE_UP per
      tick while it stays above ACTUAL_MIN_RADIUS, and is then gone; any other
      circle grows from its buffer by at most CHANGE_UP per tick. */
  function Tick(s: CircleState): (t: CircleState)
    ensures t.mergingAway == s.mergingAway
    ensures t.gone == (s.gone || (s.mergingAway && s.buffer <= 0.0 && s.radius - CHANGE_UP < ACTUAL_MIN_RADIUS))
    ensures !s.mergingAway ==> t.gone == s.gone
    ensures s.mergingAway ==> t.radius <= s.radius
    ensures !s.mergingAway && s.buffer <= 0.0 ==> t == s
    ensures !s.mergingAway && s.buffer > 0.0 && s.radius >= MIN_RADIUS ==>
              && t.radius == s.radius + Min(s.buffer, CHANGE_UP)
              && t.buffer == s.buffer - Min(s.buffer, CHANGE_UP)
    ensures s.mergingAway && s.buffer > 0.0 ==> t.radius == s.radius && t.buffer == s.buffer - CHANGE_UP
    ensures s.mergingAway && s.buffer <= 0.0 && s.radius - CHANGE_UP >= ACTUAL_MIN_RADIUS ==>
              t.radius == s.radius - CHANGE_UP && t.buffer == 0.0 && t.gone == s.gone
    ensures s.mergingAway && s.buffer <= 0.0 && s.radius - CHANGE_UP < ACTUAL_MIN_RADIUS ==>
              t == s.(gone := true)
    ensures WellFormed(s) ==> WellFormed(t)
  {
    if s.mergingAway then
      if s.buffer > 0.0 then s.(buffer := s.buffer - CHANGE_UP)
      else if s.radius - CHANGE_UP >= ACTUAL_MIN_RADIUS then
        s.(buffer := 0.0, radius := Clamp(s.radius - CHANGE_UP, true))
      else s.(gone := true)
    else if s.buffer > 0.0 then
      if s.buffer <= CHANGE_UP then s.(radius := Clamp(s.radius + s.buffer, false), buffer := 0.0)
      else s.(buffer := s.buffer - CHANGE_UP, radius := Clamp(s.radius + CHANGE_UP, false))
    else s
  }

  /** Whether a tick calls setRadius, which also refreshes the speed limit. */
  predicate Resizes(s: CircleState)
  {
    if s.mergingAway then s.buffer <= 0.0 && s.radius - CHANGE_UP >= ACTUAL_MIN_RADIUS
    else s.buffer > 0.0
  }

  /** `k` ticks in a row. */
  function Ticks(s: CircleState, k: nat): CircleState
    decreases k
  {
    if k == 0 then s else Ticks(Tick(s), k - 1)
  }

  /** Growth from the buffer is conserved: over any number of ticks a circle that
      is not merging away keeps radius + buffer constant, its buffer never goes
      negative and shrinks by CHANGE_UP per tick until it is empty, so once
      k * CHANGE_UP covers the initial buffer the radius has grown by exactly it. */
  lemma {:induction false} GrowthConserved(s: CircleState, k: nat)
    requires WellFormed(s) && !s.mergingAway
    ensures var t := Ticks(s, k);
      && WellFormed(t) && !t.mergingAway
      && t.radius + t.buffer == s.radius + s.buffer
      && 0.0 <= t.buffer <= Max(0.0, s.buffer - k as real * CHANGE_UP)
      && (k as real * CHANGE_UP >= s.buffer ==> t.radius == s.radius + s.buffer)
    decreases k
  {
    if k > 0 {
      var n := Tick(s);
      GrowthConserved(n, k - 1);
      assert n.buffer == Max(0.0, s.buffer - CHANGE_UP);
    }
  }

  /** A merging-away circle never grows, stays merging away, and once gone stays gone. */
  lemma {:induction false} MergingAwayShrinks(s: CircleState, k: nat)
    requires s.mergingAway
    ensures Ticks(s, k).mergingAway
    ensures Ticks(s, k).radius <= s.radius
    ensures s.gone ==> Ticks(s, k).gone
    decreases k
  {
    if k > 0 {
      MergingAwayShrinks(Tick(s), k - 1);
    }
  }

  /** An upper bound on the ticks a merging-away circle needs to be gone: one
      per CHANGE_UP of positive buffer, one per CHANGE_UP of radius, and one more. */
  function GoneBound(s: CircleState): int
  {
    if s.gone then 0
    else (if s.buffer > 0.0 then (s.buffer / CHANGE_UP).Floor + 1 else 0) + (s.radius / CHANGE_UP).Floor + 1
  }

  /** Each tick of a merging-away circle that is not yet gone lowers the bound. */
  lemma GoneBoundDecreases(s: CircleState)
    requires WellFormed(s) && s.mergingAway && !s.gone
    ensures 0 <= GoneBound(Tick(s)) < GoneBound(s)
  {
    var t := Tick(s);
    if s.buffer > 0.0 {
      assert (t.buffer / CHANGE_UP) == s.buffer / CHANGE_UP - 1.0;
    } else if s.radius - CHANGE_UP >= ACTUAL_MIN_RADIUS {
      assert (t.radius / CHANGE_UP) == s.radius / CHANGE_UP - 1.0;
    }
  }

  /** A merging-away circle is always gone within GoneBound ticks. */
  lemma {:induction false} MergingAwayEndsGone(s: CircleState, n: nat)
    requires WellFormed(s) && s.mergingAway && n >= GoneBound(s)
    ensures Ticks(s, n).gone
    decreases n
  {
    if s.gone {
      MergingAwayShrinks(s, n);
    } else {
      GoneBoundDecreases(s);
      MergingAwayEndsGone(Tick(s), n - 1);
    }
  }

  // ---------------------------------------------------------------------------
  // The circle object.

  class ColoredCircle {
    const color: ColorType
    var radius: real
    var speed: real
    var mergeBuffer: real
    var mergingAway: bool
    var gone: bool
    /** Centre of the circle's physics body. */
    var x: real
    var y: real

    function State(): CircleState
      reads this
    {
      CircleState(radius, mergeBuffer, mergingAway, gone)
    }

    predicate Valid()
      reads this
    {
      WellFormed(State())
    }

    /** A new circle starts at the given centre with an empty buffer, raised to
        MIN_RADIUS when the requested radius is smaller. */
    constructor (x0: real, y0: real, r0: real, c: ColorType)
      ensures Valid()
      ensures color == c && x == x0 && y == y0
      ensures radius >= MIN_RADIUS && (r0 >= MIN_RADIUS ==> radius == r0)
      ensures radius == Clamp(r0, false)
      ensures mergeBuffer == 0.0 && !mergingAway && !gone
      ensures speed == SpeedLimit(radius, false)
    {
      color := c;
      var r := r0;
      if r < MIN_RADIUS { r := MIN_RADIUS; }
      radius := r;
      mergeBuffer := 0.0;
      mergingAway := false;
      gone := false;
      x, y := x0, y0;
      speed := SpeedLimit(r, false);
    }

    /** A circle takes part in no interaction once it merges away or is gone. */
    predicate IsDisabled()
      reads this
    {
      mergingAway || gone
    }

    /** For a valid circle, being disabled is the same as merging away. */
    lemma DisabledIsMergingAway()
      requires Valid()
      ensures IsDisabled() <==> mergingAway
    {
    }

    /** Stores the clamped radius and refreshes the speed limit. */
    method SetRadius(r: real)
      modifies this`radius, this`speed
      ensures radius == Clamp(r, mergingAway)
      ensures speed == SpeedLimit(radius, mergingAway)
      ensures old(Valid()) ==> Valid()
    {
      var v := r;
      if v < MIN_RADIUS && !mergingAway { v := MIN_RADIUS; }
      else if v < ACTUAL_MIN_RADIUS { v := ACTUAL_MIN_RADIUS; }
      radius := v;
      speed := SpeedLimit(v, mergingAway);
    }

    /** Marks the circle as merging away; nothing clears the mark again. */
    method Unsign()
      modifies this
      ensures mergingAway
      ensures radius == old(radius) && speed == old(speed) && mergeBuffer == old(mergeBuffer)
      ensures gone == old(gone) && x == old(x) && y == old(y)
      ensures old(Valid()) ==> Valid()
    {
      mergingAway := true;
    }

    /** Moves the donor's whole radius into this circle's buffer and marks the
        donor as merging away; this circle's radius is unchanged. */
    method Merge(donor: ColoredCircle)
      modifies this, donor
      ensures mergeBuffer == old(mergeBuffer) + old(donor.radius)
      ensures donor.mergingAway
      ensures radius == old(radius) && speed == old(speed) && gone == old(gone)
      ensures x == old(x) && y == old(y)
      ensures donor != this ==> mergingAway == old(mergingAway)
      ensures donor != this ==>
                && donor.radius == old(donor.radius) && donor.speed == old(donor.speed)
                && donor.mergeBuffer == old(donor.mergeBuffer) && donor.gone == old(donor.gone)
                && donor.x == old(donor.x) && donor.y == old(donor.y)
      ensures old(Valid()) && old(donor.Valid()) ==> Valid() && donor.Valid()
    {
      mergeBuffer := mergeBuffer + donor.radius;
      donor.Unsign();
    }

    /** Two enabled circles of the same colour merge, this one taking the other's
        radius; in any other case neither circle changes. */
    method Interact(other: ColoredCircle)
      modifies this, other
      ensures var merges := !old(IsDisabled()) && !old(other.IsDisabled()) && color == other.color;
        && (merges ==> mergeBuffer == old(mergeBuffer) + old(other.radius) && other.mergingAway)
        && (merges && other != this ==>
              && mergingAway == old(mergingAway)
              && other.radius == old(other.radius) && other.mergeBuffer == old(other.mergeBuffer)
              && other.gone == old(other.gone) && other.speed == old(other.speed)
              && other.x == old(other.x) && other.y == old(other.y))
        && (!merges ==> unchanged(this) && unchanged(other))
      ensures radius == old(radius) && speed == old(speed) && gone == old(gone) && x == old(x) && y == old(y)
      ensures old(Valid()) && old(other.Valid()) ==> Valid() && other.Valid()
    {
      if !IsDisabled() && !other.IsDisabled() {
        match InteractionOf(color, other.color)
        case Merger => Merge(other);
        case NoInteraction =>
      }
    }

    /** One tick of the circle in a world of the given size: the buffer and
        radius step of Tick, the speed limit refreshed whenever the radius is set,
        and the toroidal edge wrap with the new radius. */
    method Update(width: real, height: real)
      modifies this
      ensures State() == Tick(old(State()))
      ensures speed == if Resizes(old(State())) then SpeedLimit(radius, mergingAway) else old(speed)
      ensures (x, y) == Wrap(old(x), old(y), radius, width, height)
      ensures old(Valid()) ==> Valid()
    {
      ghost var s := State();
      if mergingAway {
        if mergeBuffer > 0.0 {
          mergeBuffer := mergeBuffer - CHANGE_UP;
        } else if radius - CHANGE_UP >= ACTUAL_MIN_RADIUS {
          mergeBuffer := 0.0;
          SetRadius(radius - CHANGE_UP);
        } else {
          gone := true;
        }
      } else if mergeBuffer > 0.0 {
        if mergeBuffer <= CHANGE_UP {
          SetRadius(radius + mergeBuffer);
          mergeBuffer := 0.0;
        } else {
          mergeBuffer := mergeBuffer - CHANGE_UP;
          SetRadius(radius + CHANGE_UP);
        }
      }
      x, y := Wrap(x, y, radius, width, height).0, Wrap(x, y, radius, width, height).1;
    }
  }
}
