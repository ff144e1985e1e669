/** The trajectory preview of SimulationManager: a copy of the world is stepped
    181 times, and on every step each circle body gets the "ghost" version of
    the circle's growth step. The ghost step reads the circle and writes only to
    the copied body; every tenth step the bodies near the cursor are sampled.

    The preview code reads circle fields of a newer revision than the circle
    class of this model (a signed grow buffer and a fresh-shard flag), so it works
    on TrackedCircle, which holds exactly the fields it reads. The per-tick rate,
    the absolute floor and the per-colour minimum are parameters. */
module Simulation {
  import opened PlayTypes
  import opened EdgeWrap
  import Circles

  /** Constants the preview reads that this model takes as given. */
  datatype Params = Params(
    radiusChange: real,   // LevelStage.RADIUS_CHANGE
    actualMin: real,      // LevelStage.ACTUAL_MIN_RADIUS
    whiteMin: real,       // minimum radius of a WHITE circle
    blueMin: real,        // minimum radius of a BLUE circle
    width: real,          // world width
    height: real)         // world height

  function MinRadius(p: Params, c: ColorType): real
  {
    match c
    case White => p.whiteMin
    case Blue => p.blueMin
  }

  /** Mass a body gets per unit of radius. */
  const MASS_PER_RADIUS: real := 0.1

  /** Squared distance below which a body counts as near the cursor (radius 2). */
  const NEAR_SQUARED: real := 4.0

  /** The circle fields the preview reads. */
  class TrackedCircle {
    const color: ColorType
    var radius: real
    var growBuffer: real
    var mergingAway: bool
    var gone: bool
    var freshShard: bool

    constructor (c: ColorType, r: real, buffer: real, mA: bool, g: bool, fS: bool)
      ensures color == c && radius == r && growBuffer == buffer
      ensures mergingAway == mA && gone == g && freshShard == fS
    {
      color, radius, growBuffer := c, r, buffer;
      mergingAway, gone, freshShard := mA, g, fS;
    }

    function Fields(): Snapshot
      reads this
    {
      Snapshot(radius, growBuffer, mergingAway, gone, freshShard)
    }
  }

  /** A body of the copied world: its centre, shape radius and mass, whether it
      has a fixture, and the circle it stands for (null for walls). */
  class Body {
    var x: real
    var y: real
    var radius: real
    var mass: real
    const hasFixture: bool
    const circle: TrackedCircle?

    constructor (x0: real, y0: real, r: real, m: real, fixture: bool, c: TrackedCircle?)
      ensures x == x0 && y == y0 && radius == r && mass == m
      ensures hasFixture == fixture && circle == c
    {
      x, y, radius, mass := x0, y0, r, m;
      hasFixture, circle := fixture, c;
    }

    function View(): BodyView
      reads this
    {
      BodyView(x, y, radius, mass)
    }
  }

  /** The state of a body that a preview step may change. */
  datatype BodyView = BodyView(x: real, y: real, radius: real, mass: real)

  // ---------------------------------------------------------------------------
  // The ghost step on values.

  /** The fields of a circle as the ghost step reads them. */
  datatype Snapshot = Snapshot(radius: real, growBuffer: real, mergingAway: bool, gone: bool, freshShard: bool)

  /** The local variables of the ghost step when it ends; `resized` tells whether
      the body radius was set. */
  datatype Locals = Locals(radius: real, growBuffer: real, gone: bool, freshShard: bool, resized: bool)

  /** The radius applyBodyRadius gives a body: a circle that is neither merging
      away nor a fresh shard is raised to its colour's minimum, and any other
      circle to the absolute floor. */
  function BodyRadius(radius: real, mergingAway: bool, freshShard: bool, minRadius: real, actualMin: real): (c: real)
    ensures c >= radius
    ensures !mergingAway && !freshShard ==> c >= minRadius
    ensures (mergingAway || freshShard) ==> c >= actualMin
    ensures minRadius >= actualMin ==> c >= actualMin
    ensures radius >= minRadius && radius >= actualMin ==> c == radius
    ensures (mergingAway || freshShard) && radius >= actualMin ==> c == radius
    ensures c == radius || c == minRadius || c == actualMin
    ensures radius < minRadius && !mergingAway && !freshShard ==> c == minRadius
    ensures (mergingAway || freshShard || radius >= minRadius) && radius < actualMin ==> c == actualMin
  {
    if radius < minRadius && !mergingAway && !freshShard then minRadius
    else if radius < actualMin then actualMin
    else radius
  }

  /** The buffer and flag branch of the ghost step, before the final fresh-shard check. */
  function GrowLocals(s: Snapshot, minRadius: real, p: Params): Locals
  {
    var rc := p.radiusChange;
    var gB := s.growBuffer;
    if s.mergingAway then
      if gB > 0.0 then Locals(s.radius, gB - rc, s.gone, s.freshShard, false)
      else if s.radius - rc >= p.actualMin then
        Locals(BodyRadius(s.radius - rc, true, s.freshShard, minRadius, p.actualMin), 0.0, s.gone, s.freshShard, true)
      else Locals(s.radius, gB, true, s.freshShard, false)
    else if gB > 0.0 then
      if gB > rc then
        Locals(BodyRadius(s.radius + rc, false, s.freshShard, minRadius, p.actualMin), gB - rc, s.gone, s.freshShard, true)
      else
        Locals(BodyRadius(s.radius + gB, false, s.freshShard, minRadius, p.actualMin), 0.0, s.gone, false, true)
    else if gB < 0.0 then
      if 0.0 - gB > rc then
        Locals(BodyRadius(s.radius - rc, false, s.freshShard, minRadius, p.actualMin), gB + rc, s.gone, s.freshShard, true)
      else
        Locals(BodyRadius(s.radius + gB, false, s.freshShard, minRadius, p.actualMin), 0.0, s.gone, s.freshShard, true)
    else Locals(s.radius, gB, s.gone, s.freshShard, false)
  }

  /** One ghost step of a circle. A circle that is not merging away moves its
      radius toward radius + buffer by at most radiusChange, takes exactly what it
      moved out of the buffer, and never overshoots: the buffer keeps its sign and
      shrinks in size by radiusChange or to zero. A merging-away circle drains a
      positive buffer first, then shrinks by radiusChange while it stays above the
      absolute floor, and is otherwise gone. The fresh-shard flag is only ever
      cleared, and is cleared once the radius reaches the colour minimum or a
      positive buffer is used up. */
  function GhostStep(s: Snapshot, minRadius: real, p: Params): (t: Locals)
    requires p.radiusChange > 0.0
    ensures t.gone == (s.gone || (s.mergingAway && s.growBuffer <= 0.0 && s.radius - p.radiusChange < p.actualMin))
    ensures t.freshShard == (s.freshShard && t.radius < minRadius
                             && !(!s.mergingAway && 0.0 < s.growBuffer <= p.radiusChange))
    ensures t.resized == (if s.mergingAway then s.growBuffer <= 0.0 && s.radius - p.radiusChange >= p.actualMin
                          else s.growBuffer != 0.0)
    ensures s.mergingAway ==> t.radius <= s.radius
    ensures s.mergingAway && s.growBuffer > 0.0 ==> t.radius == s.radius && t.growBuffer == s.growBuffer - p.radiusChange
    ensures s.mergingAway && s.growBuffer <= 0.0 && s.radius - p.radiusChange >= p.actualMin ==>
              t.radius == s.radius - p.radiusChange && t.growBuffer == 0.0 && t.gone == s.gone
    ensures s.mergingAway && s.growBuffer <= 0.0 && s.radius - p.radiusChange < p.actualMin ==>
              t.radius == s.radius && t.growBuffer == s.growBuffer && t.gone
    ensures !s.mergingAway && s.growBuffer >= 0.0 ==> t.growBuffer == Max(0.0, s.growBuffer - p.radiusChange)
    ensures !s.mergingAway && s.growBuffer <= 0.0 ==> t.growBuffer == Min(0.0, s.growBuffer + p.radiusChange)
    ensures !s.mergingAway && s.growBuffer != 0.0 ==>
              t.radius == BodyRadius(s.radius + (s.growBuffer - t.growBuffer), false, s.freshShard, minRadius, p.actualMin)
    ensures !t.resized ==> t.radius == s.radius
  {
    var g := GrowLocals(s, minRadius, p);
    g.(freshShard := g.freshShard && !(g.radius >= minRadius))
  }

  /** The ghost step is the newer form of the live circle tick: with the live
      constants, no fresh shard and the colour minimum MIN_RADIUS, it computes the
      same radius, buffer and gone flag as Circles.Tick on every state a live
      circle can be in. */
  lemma GhostStepAgreesWithTick(c: Circles.CircleState)
    requires Circles.WellFormed(c)
    ensures var p := Params(CHANGE_UP, ACTUAL_MIN_RADIUS, MIN_RADIUS, MIN_RADIUS, 0.0, 0.0);
      var t := GhostStep(Snapshot(c.radius, c.buffer, c.mergingAway, c.gone, false), MIN_RADIUS, p);
      var u := Circles.Tick(c);
      t.radius == u.radius && t.growBuffer == u.buffer && t.gone == u.gone
  {
  }

  // ---------------------------------------------------------------------------
  // The ghost step on the copied body.

  /** Clamps the radius, sets it as the body's shape radius when the body has a
      fixture, and sets the body mass in proportion to it. */
  method ApplyBodyRadius(body: Body, radius: real, mergingAway: bool, freshShard: bool, minRadius: real, actualMin: real)
    returns (r: real)
    modifies body`radius, body`mass
    ensures r == BodyRadius(radius, mergingAway, freshShard, minRadius, actualMin)
    ensures body.radius == (if body.hasFixture then r else old(body.radius))
    ensures body.mass == MASS_PER_RADIUS * r
  {
    r := radius;
    if r < minRadius && !mergingAway && !freshShard {
      r := minRadius;
    } else if r < actualMin {
      r := actualMin;
    }
    if body.hasFixture {
      body.radius := r;
    }
    body.mass := MASS_PER_RADIUS * r;
  }

  /** The ghost step of one circle body: the circle's fields are copied to
      locals, the growth branch writes the body's radius and mass, and the body is
      wrapped at the world's edges with the new radius. The circle itself is only
      read. */
  method ApplyCircleUpdate(circle: TrackedCircle, body: Body, p: Params) returns (t: Locals)
    requires p.radiusChange > 0.0
    modifies body
    ensures t == GhostStep(circle.Fields(), MinRadius(p, circle.color), p)
    ensures t.resized ==> body.mass == MASS_PER_RADIUS * t.radius
    ensures t.resized && body.hasFixture ==> body.radius == t.radius
    ensures !t.resized ==> body.radius == old(body.radius) && body.mass == old(body.mass)
    ensures (body.x, body.y) == Wrap(old(body.x), old(body.y), t.radius, p.width, p.height)
    ensures unchanged(circle)
  {
    var minR := MinRadius(p, circle.color);
    var grown := GrowBody(circle, body, minR, p);
    var fS := grown.freshShard;
    if grown.radius >= minR {
      fS := false;
    }
    var w := Wrap(body.x, body.y, grown.radius, p.width, p.height);
    body.x, body.y := w.0, w.1;
    t := grown.(freshShard := fS);
  }

  /** The buffer and flag branch of the ghost step: the locals it leaves, with
      the body's radius and mass written exactly when the radius was set. */
  method GrowBody(circle: TrackedCircle, body: Body, minR: real, p: Params) returns (t: Locals)
    modifies body`radius, body`mass
    ensures t == GrowLocals(circle.Fields(), minR, p)
    ensures t.resized ==> body.mass == MASS_PER_RADIUS * t.radius
    ensures t.resized && body.hasFixture ==> body.radius == t.radius
    ensures !t.resized ==> body.radius == old(body.radius) && body.mass == old(body.mass)
  {
    var rc := p.radiusChange;
    var mA := circle.mergingAway;
    var gB := circle.growBuffer;
    var g := circle.gone;
    var fS := circle.freshShard;
    var radius := circle.radius;
    var resized := false;
    if mA {
      if gB > 0.0 {
        gB := gB - rc;
      } else if circle.radius - rc >= p.actualMin {
        gB := 0.0;
        radius := ApplyBodyRadius(body, circle.radius - rc, mA, fS, minR, p.actualMin);
        resized := true;
      } else {
        g := true;
      }
    } else if gB > 0.0 {
      if gB > rc {
        gB := gB - rc;
        radius := ApplyBodyRadius(body, circle.radius + rc, mA, fS, minR, p.actualMin);
      } else {
        radius := ApplyBodyRadius(body, circle.radius + gB, mA, fS, minR, p.actualMin);
        gB := 0.0;
        fS := false;
      }
      resized := true;
    } else if gB < 0.0 {
      if 0.0 - gB > rc {
        gB := gB + rc;
        radius := ApplyBodyRadius(body, circle.radius - rc, mA, fS, minR, p.actualMin);
      } else {
        radius := ApplyBodyRadius(body, circle.radius + gB, mA, fS, minR, p.actualMin);
        gB := 0.0;
      }
      resized := true;
    }
    t := Locals(radius, gB, g, fS, resized);
  }

  // ---------------------------------------------------------------------------
  // The preview schedule.

  /** A preview point: the step it was taken at, the position of its body in
      the world's body list, the body centre, and the circle. */
  datatype Sample = Sample(step: nat, body: nat, x: real, y: real, circle: TrackedCircle)

  /** Preview points come step by step, and within a step in body order. */
  predicate SampleBefore(a: Sample, b: Sample)
  {
    a.step < b.step || (a.step == b.step && a.body < b.body)
  }

  /** Every sample comes before every later one. */
  predicate InOrder(samples: seq<Sample>)
  {
    forall a, b :: 0 <= a < b < |samples| ==> SampleBefore(samples[a], samples[b])
  }

  /** Every sample was taken before body `j` of step `i`. */
  predicate AllBefore(samples: seq<Sample>, i: nat, j: nat)
  {
    forall k :: 0 <= k < |samples| ==> samples[k].step < i || (samples[k].step == i && samples[k].body < j)
  }

  /** A sample taken after all earlier ones keeps the samples in order. */
  lemma InOrderSnoc(samples: seq<Sample>, s: Sample)
    requires InOrder(samples) && AllBefore(samples, s.step, s.body)
    ensures InOrder(samples + [s])
  {
    var t := samples + [s];
    forall a, b | 0 <= a < b < |t|
      ensures SampleBefore(t[a], t[b])
    {
      if b < |samples| {
        assert t[a] == samples[a] && t[b] == samples[b];
      }
    }
  }

  predicate Near(x: real, y: real, mx: real, my: real)
  {
    (x - mx) * (x - mx) + (y - my) * (y - my) < NEAR_SQUARED
  }

  /** A sample is taken on every tenth step, near the cursor, and only of a
      circle that is neither a fresh shard, merging away nor gone. */
  predicate SampleAllowed(s: Sample, mx: real, my: real)
    reads s.circle
  {
    && s.step % 10 == 0 && s.step <= 180
    && Near(s.x, s.y, mx, my)
    && !s.circle.freshShard && !s.circle.mergingAway && !s.circle.gone
  }

  /** The number of sampling steps (multiples of 10) below `i`. */
  function SamplingStepsBelow(i: nat): nat
  {
    (i + 9) / 10
  }

  /** One step more adds one sampling step's worth of samples to the bound
      exactly when the step is a sampling step. */
  lemma SamplingBoundStep(i: nat, n: nat)
    ensures SamplingStepsBelow(i + 1) * n == SamplingStepsBelow(i) * n + (if i % 10 == 0 then n else 0)
  {
    assert SamplingStepsBelow(i + 1) == SamplingStepsBelow(i) + (if i % 10 == 0 then 1 else 0);
  }

  /** The bodies of a world are distinct objects. */
  predicate DistinctBodies(bodies: seq<Body>)
  {
    forall a, b :: 0 <= a < b < |bodies| ==> bodies[a] != bodies[b]
  }

  /** The world's own step moves every body; the physics engine is not part of
      this model, so the motion is the given function of the step index and the
      body centre. */
  method StepWorld(bodies: seq<Body>, i: nat, advance: (nat, real, real) -> (real, real))
    requires DistinctBodies(bodies)
    modifies set b | b in bodies
    ensures forall j :: 0 <= j < |bodies| ==>
              (bodies[j].x, bodies[j].y) == advance(i, old(bodies[j].x), old(bodies[j].y))
    ensures forall j :: 0 <= j < |bodies| ==>
              bodies[j].radius == old(bodies[j].radius) && bodies[j].mass == old(bodies[j].mass)
  {
    for j := 0 to |bodies|
      invariant forall k :: 0 <= k < j ==>
                  (bodies[k].x, bodies[k].y) == advance(i, old(bodies[k].x), old(bodies[k].y))
      invariant forall k :: j <= k < |bodies| ==> bodies[k].x == old(bodies[k].x) && bodies[k].y == old(bodies[k].y)
      invariant forall k :: 0 <= k < |bodies| ==>
                  bodies[k].radius == old(bodies[k].radius) && bodies[k].mass == old(bodies[k].mass)
    {
      var b := bodies[j];
      var next := advance(i, b.x, b.y);
      b.x, b.y := next.0, next.1;
    }
  }

  /** One body on one preview step: a circle body gets the ghost step, and on a
      sampling step a circle body near the cursor whose circle is neither a
      fresh shard, merging away nor gone yields a sample. */
  method VisitBody(body: Body, j: nat, i: nat, p: Params, mx: real, my: real) returns (sample: Option<Sample>)
    requires p.radiusChange > 0.0 && i <= 180
    modifies body
    ensures sample.Some? <==> Sampleable(body, i, mx, my)
    ensures sample.Some? ==> i % 10 == 0 && sample.value.step == i && SampleAllowed(sample.value, mx, my)
    ensures sample.Some? ==> sample.value.body == j && sample.value.circle == body.circle
    ensures sample.Some? ==> sample.value.x == body.x && sample.value.y == body.y
    ensures body.circle != null ==> unchanged(body.circle)
    ensures Stepped(body, old(body.View()), p)
  {
    sample := None;
    var circle := body.circle;
    if circle != null {
      var _ := ApplyCircleUpdate(circle, body, p);
      if Near(body.x, body.y, mx, my) {
        if i % 10 == 0 && !circle.freshShard && !circle.mergingAway && !circle.gone {
          sample := Some(Sample(i, j, body.x, body.y, circle));
        }
      }
    }
  }

  /** The radius the ghost step gives a circle. */
  function StepRadius(c: TrackedCircle, p: Params): real
    requires p.radiusChange > 0.0
    reads c
  {
    GhostStep(c.Fields(), MinRadius(p, c.color), p).radius
  }

  /** After its ghost step, a circle body is wrapped at the world's edges with
      the circle's new radius; any other body is left as it was. */
  predicate Stepped(b: Body, before: BodyView, p: Params)
    requires p.radiusChange > 0.0
    reads b, b.circle
  {
    SteppedAt(b.circle, b.View(), before, p)
  }

  /** The same for a body of circle `c` whose state went from `before` to `now`. */
  predicate SteppedAt(c: TrackedCircle?, now: BodyView, before: BodyView, p: Params)
    requires p.radiusChange > 0.0
    reads c
  {
    if c == null then now == before
    else (now.x, now.y) == Wrap(before.x, before.y, StepRadius(c, p), p.width, p.height)
  }

  /** The positions of the bodies that samples were taken of. */
  function BodiesOf(samples: seq<Sample>): set<nat>
  {
    set k | 0 <= k < |samples| :: samples[k].body
  }

  lemma BodiesOfSnoc(samples: seq<Sample>, s: Sample)
    ensures BodiesOf(samples + [s]) == BodiesOf(samples) + {s.body}
  {
    var t := samples + [s];
    assert t[|samples|] == s;
    forall k | 0 <= k < |samples|
      ensures t[k] == samples[k]
    {
    }
  }

  /** A body is sampled on step `i` when it stands for a circle that is neither
      a fresh shard, merging away nor gone, the step is a tenth step, and its
      centre is near the cursor. */
  predicate Sampleable(b: Body, i: nat, mx: real, my: real)
    reads b, b.circle
  {
    SampleableAt(b.circle, b.View(), i, mx, my)
  }

  /** The sampling rule for a body of circle `c` whose state is `v`. */
  predicate SampleableAt(c: TrackedCircle?, v: BodyView, i: nat, mx: real, my: real)
    reads c
  {
    && c != null && i % 10 == 0 && Near(v.x, v.y, mx, my)
    && !c.freshShard && !c.mergingAway && !c.gone
  }

  /** Every sample is of the circle of its body and obeys the sampling rule. */
  predicate Recorded(samples: seq<Sample>, bodies: seq<Body>, mx: real, my: real)
    reads set s | s in samples :: s.circle
  {
    forall k :: 0 <= k < |samples| ==>
      && samples[k].body < |bodies| && samples[k].circle == bodies[samples[k].body].circle
      && SampleAllowed(samples[k], mx, my)
  }

  lemma RecordedAppend(samples: seq<Sample>, taken: seq<Sample>, bodies: seq<Body>, mx: real, my: real)
    requires Recorded(samples, bodies, mx, my) && Recorded(taken, bodies, mx, my)
    ensures Recorded(samples + taken, bodies, mx, my)
  {
    var t := samples + taken;
    forall k | 0 <= k < |t|
      ensures t[k].body < |bodies| && t[k].circle == bodies[t[k].body].circle && SampleAllowed(t[k], mx, my)
    {
      if k < |samples| {
        assert t[k] == samples[k];
      } else {
        assert t[k] == taken[k - |samples|];
      }
    }
  }

  /** Joining the samples of step `i` to those of earlier steps keeps them in order. */
  lemma InOrderAppend(samples: seq<Sample>, taken: seq<Sample>, i: nat)
    requires InOrder(samples) && AllBefore(samples, i, 0)
    requires InOrder(taken) && forall k :: 0 <= k < |taken| ==> taken[k].step == i
    ensures InOrder(samples + taken) && AllBefore(samples + taken, i + 1, 0)
  {
    var t := samples + taken;
    forall a, b | 0 <= a < b < |t|
      ensures SampleBefore(t[a], t[b])
    {
      if b < |samples| {
        assert t[a] == samples[a] && t[b] == samples[b];
      } else if a >= |samples| {
        assert t[a] == taken[a - |samples|] && t[b] == taken[b - |samples|];
      } else {
        assert t[a] == samples[a] && t[b] == taken[b - |samples|];
      }
    }
  }

  /** One preview step over all bodies, before the world step: every circle body
      gets the ghost step, and the samples of this step come in body order, each
      of its body's circle and obeying the sampling rule. Only a sampling step
      yields samples. */
  method PreviewStep(bodies: seq<Body>, i: nat, p: Params, mx: real, my: real) returns (taken: seq<Sample>)
    requires p.radiusChange > 0.0 && i <= 180 && DistinctBodies(bodies)
    modifies set b | b in bodies
    ensures |taken| <= (if i % 10 == 0 then |bodies| else 0)
    ensures InOrder(taken) && forall k :: 0 <= k < |taken| ==> taken[k].step == i
    ensures forall k :: 0 <= k < |taken| ==>
              taken[k].body < |bodies| && taken[k].circle == bodies[taken[k].body].circle
    ensures forall k :: 0 <= k < |taken| ==> SampleAllowed(taken[k], mx, my)
    ensures forall k :: 0 <= k < |taken| ==>
              taken[k].x == bodies[taken[k].body].x && taken[k].y == bodies[taken[k].body].y
    ensures forall m :: 0 <= m < |bodies| && Sampleable(bodies[m], i, mx, my) ==> m in BodiesOf(taken)
    ensures forall m :: 0 <= m < |bodies| ==> Stepped(bodies[m], old(bodies[m].View()), p)
  {
    ghost var before := seq(|bodies|, m requires 0 <= m < |bodies| reads bodies => bodies[m].View());
    ghost var after := before;
    taken := [];
    for j := 0 to |bodies|
      invariant |after| == |bodies|
      invariant forall m :: 0 <= m < |bodies| ==> bodies[m].View() == after[m]
      invariant forall m :: j <= m < |bodies| ==> after[m] == before[m]
      invariant SteppedUpTo(bodies, before, after, j, p)
      invariant TakenFrom(taken, bodies, after, i, j, mx, my)
    {
      taken, after := VisitNext(bodies, j, i, p, mx, my, taken, before, after);
    }
  }

  /** Visits body `j` of a preview step and extends what the step's samples
      and the stepped bodies say from the first `j` bodies to the first `j + 1`. */
  method VisitNext(bodies: seq<Body>, j: nat, i: nat, p: Params, mx: real, my: real,
                   taken: seq<Sample>, ghost before: seq<BodyView>, ghost after: seq<BodyView>)
    returns (taken': seq<Sample>, ghost after': seq<BodyView>)
    requires p.radiusChange > 0.0 && i <= 180 && DistinctBodies(bodies) && j < |bodies|
    requires |before| == |after| == |bodies|
    requires forall m :: 0 <= m < |bodies| ==> bodies[m].View() == after[m]
    requires forall m :: j <= m < |bodies| ==> after[m] == before[m]
    requires SteppedUpTo(bodies, before, after, j, p)
    requires TakenFrom(taken, bodies, after, i, j, mx, my)
    modifies bodies[j]
    ensures |after'| == |bodies|
    ensures forall m :: 0 <= m < |bodies| ==> bodies[m].View() == after'[m]
    ensures forall m :: j < m < |bodies| ==> after'[m] == before[m]
    ensures SteppedUpTo(bodies, before, after', j + 1, p)
    ensures TakenFrom(taken', bodies, after', i, j + 1, mx, my)
  {
    var sample := VisitBody(bodies[j], j, i, p, mx, my);
    ghost var v := bodies[j].View();
    TakenStep(taken, bodies, after, i, j, mx, my, v, sample);
    SteppedStep(bodies, before, after, j, p, v);
    after' := after[j := v];
    taken' := if sample.Some? then taken + [sample.value] else taken;
  }

  /** The first `j` bodies went from the states `before` to `after` by their ghost step. */
  predicate SteppedUpTo(bodies: seq<Body>, before: seq<BodyView>, after: seq<BodyView>, j: nat, p: Params)
    requires p.radiusChange > 0.0 && |before| == |after| == |bodies| && j <= |bodies|
    reads set b | b in bodies :: b.circle
  {
    forall m :: 0 <= m < j ==> SteppedAt(bodies[m].circle, after[m], before[m], p)
  }

  /** Body `j`, stepped to state `v`, extends the stepped prefix by one. */
  lemma SteppedStep(bodies: seq<Body>, before: seq<BodyView>, after: seq<BodyView>, j: nat, p: Params, v: BodyView)
    requires p.radiusChange > 0.0 && |before| == |after| == |bodies| && j < |bodies|
    requires SteppedUpTo(bodies, before, after, j, p)
    requires SteppedAt(bodies[j].circle, v, before[j], p)
    ensures SteppedUpTo(bodies, before, after[j := v], j + 1, p)
  {
  }

  /** What the samples of step `i` taken from the first `j` bodies say, the
      bodies being in the states `after`: at most one per body and none off a
      sampling step, in body order, each at its body's position, of its body's
      circle and obeying the sampling rule, and every sampleable body among
      them sampled. */
  predicate TakenFrom(taken: seq<Sample>, bodies: seq<Body>, after: seq<BodyView>, i: nat, j: nat, mx: real, my: real)
    requires |after| == |bodies| && j <= |bodies|
    reads set b | b in bodies :: b.circle
  {
    && |taken| <= (if i % 10 == 0 then j else 0)
    && InOrder(taken) && AllBefore(taken, i, j)
    && (forall k :: 0 <= k < |taken| ==>
          && taken[k].step == i && taken[k].body < j
          && taken[k].circle == bodies[taken[k].body].circle
          && SampleAllowed(taken[k], mx, my)
          && taken[k].x == after[taken[k].body].x && taken[k].y == after[taken[k].body].y)
    && forall m :: 0 <= m < j && SampleableAt(bodies[m].circle, after[m], i, mx, my) ==> m in BodiesOf(taken)
  }

  /** Visiting body `j`, now in state `v`, extends what the samples say to the
      first `j + 1` bodies. */
  lemma TakenStep(taken: seq<Sample>, bodies: seq<Body>, after: seq<BodyView>, i: nat, j: nat, mx: real, my: real,
                  v: BodyView, sample: Option<Sample>)
    requires |after| == |bodies| && j < |bodies|
    requires TakenFrom(taken, bodies, after, i, j, mx, my)
    requires sample.Some? <==> SampleableAt(bodies[j].circle, v, i, mx, my)
    requires sample.Some? ==>
               && sample.value.step == i && sample.value.body == j
               && sample.value.circle == bodies[j].circle && SampleAllowed(sample.value, mx, my)
               && sample.value.x == v.x && sample.value.y == v.y
    ensures TakenFrom(if sample.Some? then taken + [sample.value] else taken, bodies, after[j := v], i, j + 1, mx, my)
  {
    if sample.Some? {
      InOrderSnoc(taken, sample.value);
      BodiesOfSnoc(taken, sample.value);
    }
  }

  /** Runs the preview: steps 0 to 180, each applying the ghost step to every
      circle body, sampling on every tenth step, and then stepping the world. It
      runs exactly 181 steps; its samples come in step order and, within a step,
      in body order, so no body is sampled twice on one step and there are at
      most 19 samples per body; every sample is of its body's circle and
      satisfies the sampling rule; and no circle is written. */
  method DrawSimulation(bodies: seq<Body>, p: Params, mx: real, my: real, advance: (nat, real, real) -> (real, real))
    returns (samples: seq<Sample>, steps: nat)
    requires p.radiusChange > 0.0 && DistinctBodies(bodies)
    modifies set b | b in bodies
    ensures steps == 181
    ensures |samples| <= 19 * |bodies|
    ensures InOrder(samples)
    ensures forall k :: 0 <= k < |samples| ==>
              samples[k].body < |bodies| && samples[k].circle == bodies[samples[k].body].circle
    ensures forall k :: 0 <= k < |samples| ==> SampleAllowed(samples[k], mx, my)
    ensures forall b :: b in bodies && b.circle != null ==> unchanged(b.circle)
  {
    samples := [];
    steps := 0;
    var i := 0;
    while i <= 180
      invariant 0 <= i <= 181 && steps == i
      invariant |samples| <= SamplingStepsBelow(i) * |bodies|
      invariant InOrder(samples) && AllBefore(samples, i, 0)
      invariant Recorded(samples, bodies, mx, my)
    {
      var taken := PreviewStep(bodies, i, p, mx, my);
      InOrderAppend(samples, taken, i);
      RecordedAppend(samples, taken, bodies, mx, my);
      samples := samples + taken;
      StepWorld(bodies, i, advance);
      SamplingBoundStep(i, |bodies|);
      i := i + 1;
      steps := steps + 1;
    }
  }

}
