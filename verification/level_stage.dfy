/** The stage of one level: the circles grouped by colour, each colour's
    conserved power, the circle the player last touched, and the completion flag.

    Loading a level builds the groups from the level's circle descriptors; a tick
    of the stage grows the touched circle at the expense of the rest of its group
    (the corrected allocator of module Allocation) and marks the level completed
    once every colour is down to at most one circle. */
module Stage {
  import opened PlayTypes
  import opened Allocation
  import opened Circles

  /** A circle descriptor of a level: centre, heading, integer radius and colour. */
  datatype CircleInfo = CircleInfo(x: real, y: real, angle: real, radius: int, kind: ColorType)

  /** A level: its circle descriptors and its intro text. */
  datatype LevelInfo = LevelInfo(circles: seq<CircleInfo>, intro: string)

  // ---------------------------------------------------------------------------
  // Level setup on values.

  /** How many descriptors of the level have colour `c`. */
  function Count(infos: seq<CircleInfo>, c: ColorType): nat
  {
    if infos == [] then 0
    else Count(infos[..|infos| - 1], c) + (if infos[|infos| - 1].kind == c then 1 else 0)
  }

  /** The power of colour `c`: each descriptor of that colour contributes its
      radius, or MIN_RADIUS when its radius is smaller. */
  function Power(infos: seq<CircleInfo>, c: ColorType): real
  {
    if infos == [] then 0.0
    else
      var last := infos[|infos| - 1];
      Power(infos[..|infos| - 1], c) + (if last.kind == c then Max(last.radius as real, MIN_RADIUS) else 0.0)
  }

  /** The radius a new circle gets from its descriptor. */
  function StartRadius(info: CircleInfo): (r: real)
    ensures r >= MIN_RADIUS
    ensures info.radius as real >= MIN_RADIUS ==> r == info.radius as real
    ensures info.radius as real < MIN_RADIUS ==> r == MIN_RADIUS
  {
    Clamp(info.radius as real, false)
  }

  /** The start radii of the circles of colour `c`, in level order. */
  function StartRadii(infos: seq<CircleInfo>, c: ColorType): (rs: seq<real>)
    ensures |rs| == Count(infos, c)
  {
    if infos == [] then []
    else
      var last := infos[|infos| - 1];
      StartRadii(infos[..|infos| - 1], c) + (if last.kind == c then [StartRadius(last)] else [])
  }

  /** A colour's power is at least MIN_RADIUS per circle of that colour, so it is
      positive exactly when the colour occurs, and it equals the sum of the
      group's start radii: loading a level starts every group with its power. */
  lemma {:induction false} PowerOfLevel(infos: seq<CircleInfo>, c: ColorType)
    ensures Power(infos, c) >= Count(infos, c) as real * MIN_RADIUS
    ensures Power(infos, c) > 0.0 <==> Count(infos, c) > 0
    ensures Power(infos, c) == Sum(StartRadii(infos, c))
  {
    if infos != [] {
      var init := infos[..|infos| - 1];
      var last := infos[|infos| - 1];
      PowerOfLevel(init, c);
      if last.kind == c {
        var rs := StartRadii(infos, c);
        assert rs[..|rs| - 1] == StartRadii(init, c);
      } else {
        assert StartRadii(infos, c) == StartRadii(init, c);
      }
    }
  }

  /** The prefix of a level one descriptor longer: the new descriptor adds one
      circle, its start radius and its share of the power to its own colour and
      leaves the other colour's count, power and start radii as they were.
      Either way the power stays positive exactly when the colour occurs. */
  lemma LevelSnoc(infos: seq<CircleInfo>, i: nat, c: ColorType)
    requires i < |infos|
    ensures var info := infos[i];
            && Count(infos[..i + 1], c) == Count(infos[..i], c) + (if info.kind == c then 1 else 0)
            && Power(infos[..i + 1], c) == Power(infos[..i], c) + (if info.kind == c then Max(info.radius as real, MIN_RADIUS) else 0.0)
            && StartRadii(infos[..i + 1], c) == StartRadii(infos[..i], c) + (if info.kind == c then [StartRadius(info)] else [])
    ensures Power(infos[..i + 1], c) > 0.0 <==> Count(infos[..i + 1], c) > 0
  {
    assert infos[..i + 1][..i] == infos[..i];
    PowerPositive(infos[..i + 1], c);
  }

  /** A colour has positive power exactly when it occurs in the level. */
  lemma PowerPositive(infos: seq<CircleInfo>, c: ColorType)
    ensures Power(infos, c) > 0.0 <==> Count(infos, c) > 0
  {
    PowerOfLevel(infos, c);
  }

  // ---------------------------------------------------------------------------
  // Groups of circle objects.

  /** The radii of a group, in group order. */
  function Radii(g: seq<ColoredCircle>): (rs: seq<real>)
    reads g
    ensures |rs| == |g|
    ensures forall m {:trigger rs[m]} :: 0 <= m < |g| ==> rs[m] == g[m].radius
  {
    if g == [] then [] else Radii(g[..|g| - 1]) + [g[|g| - 1].radius]
  }

  /** No circle occurs twice in a group. */
  predicate DistinctCircles(g: seq<ColoredCircle>)
  {
    forall a, b :: 0 <= a < b < |g| ==> g[a] != g[b]
  }

  /** Every circle of a group is valid and has the group's colour, and none
      occurs twice. */
  predicate GroupValid(g: seq<ColoredCircle>, k: ColorType)
    reads g
  {
    && (forall m :: 0 <= m < |g| ==> g[m].Valid() && g[m].color == k)
    && DistinctCircles(g)
  }

  /** Position of the first occurrence of `x` in `g`, or -1. */
  function IndexOf(g: seq<ColoredCircle>, x: ColoredCircle): (r: int)
    ensures -1 <= r < |g|
    ensures r >= 0 ==> g[r] == x && forall m :: 0 <= m < r ==> g[m] != x
    ensures r < 0 ==> x !in g
  {
    if g == [] then -1
    else if g[0] == x then 0
    else
      var j := IndexOf(g[1..], x);
      if j < 0 then -1 else j + 1
  }

  /** ArrayList.remove(Object): the group without the first occurrence of `x`. */
  function RemoveFirst(g: seq<ColoredCircle>, x: ColoredCircle): (r: seq<ColoredCircle>)
  {
    var i := IndexOf(g, x);
    if i < 0 then g else g[..i] + g[i + 1..]
  }

  /** Removing a circle takes exactly that one occurrence out of the group. */
  lemma RemoveFirstSpec(g: seq<ColoredCircle>, x: ColoredCircle)
    ensures x !in g ==> RemoveFirst(g, x) == g
    ensures x in g ==> multiset(RemoveFirst(g, x)) + multiset{x} == multiset(g)
    ensures forall c :: c in RemoveFirst(g, x) ==> c in g
  {
    var i := IndexOf(g, x);
    if i >= 0 {
      assert g == g[..i] + [x] + g[i + 1..];
    }
  }

  /** Removing a circle keeps a group of distinct circles distinct, and the
      circle is gone from it. */
  lemma RemoveFirstDistinct(g: seq<ColoredCircle>, x: ColoredCircle)
    requires DistinctCircles(g)
    ensures DistinctCircles(RemoveFirst(g, x)) && x !in RemoveFirst(g, x)
  {
    var i := IndexOf(g, x);
    if i >= 0 {
      var r := RemoveFirst(g, x);
      RemoveAtIndices(g, i);
      forall a, b | 0 <= a < b < |r|
        ensures r[a] != r[b]
      {
        var a' := if a < i then a else a + 1;
        var b' := if b < i then b else b + 1;
        assert r[a] == g[a'] && r[b] == g[b'] && a' < b';
      }
      forall a | 0 <= a < |r|
        ensures r[a] != x
      {
        var a' := if a < i then a else a + 1;
        assert r[a] == g[a'] && a' != i;
      }
    }
  }

  /** Where the members of a group without its member at `i` come from. */
  lemma RemoveAtIndices(g: seq<ColoredCircle>, i: nat)
    requires i < |g|
    ensures |g[..i] + g[i + 1..]| == |g| - 1
    ensures forall a :: 0 <= a < |g| - 1 ==> (g[..i] + g[i + 1..])[a] == if a < i then g[a] else g[a + 1]
  {
  }

  // ---------------------------------------------------------------------------
  // The allocator's loops on circle objects.

  /** Sets a radius the clamp leaves alone on one valid circle of a group of
      distinct circles; the group's radii change in that position only. */
  method Resize(g: seq<ColoredCircle>, k: nat, v: real)
    requires k < |g| && DistinctCircles(g) && g[k].Valid() && v >= MIN_RADIUS
    modifies {g[k]}`radius, {g[k]}`speed
    ensures Radii(g) == old(Radii(g))[k := v]
    ensures g[k].Valid()
  {
    ghost var before := Radii(g);
    g[k].SetRadius(v);
    RadiiAfterResize(g, k, before);
  }

  /** After one circle of a group of distinct circles changes radius, the
      group's radii differ in that position only. */
  lemma RadiiAfterResize(g: seq<ColoredCircle>, k: nat, before: seq<real>)
    requires k < |g| && DistinctCircles(g) && |before| == |g|
    requires forall m :: 0 <= m < |g| && m != k ==> g[m].radius == before[m]
    ensures Radii(g) == before[k := g[k].radius]
  {
  }

  /** One step of the corrected donor loop on the circle at position `el[i]`:
      the group moves from the pass state after `i` donors to the one after
      `i + 1`. */
  method ShareOne(g: seq<ColoredCircle>, el: seq<nat>, i: nat, changeDown: real, ghost rs: seq<real>)
    returns (spare: real, nextChangeDown: real)
    requires i < |el| && InRange(el, |g|) && DistinctCircles(g) && |rs| == |g|
    requires forall m :: 0 <= m < |g| ==> g[m].Valid()
    requires Radii(g) == ShareUpTo(rs, el, i).radii && changeDown == ShareUpTo(rs, el, i).changeDown
    modifies {g[el[i]]}`radius, {g[el[i]]}`speed
    ensures Radii(g) == ShareUpTo(rs, el, i + 1).radii
    ensures spare == ShareUpTo(rs, el, i + 1).spare && nextChangeDown == ShareUpTo(rs, el, i + 1).changeDown
    ensures forall m :: 0 <= m < |g| ==> g[m].Valid()
  {
    var k := el[i];
    var c := g[k];
    var fits := c.radius - changeDown >= MIN_RADIUS;
    var v := if fits then c.radius - changeDown else MIN_RADIUS;
    spare := if fits then 0.0 else changeDown - (c.radius - MIN_RADIUS);
    nextChangeDown := changeDown;
    if spare > 0.0 && i + 1 < |el| {
      nextChangeDown := changeDown + spare / (|el| - i - 1) as real;
    }
    Resize(g, k, v);
  }

  /** The corrected donor loop of distributedSizeChange on the circles of a
      group: it leaves the group's radii as ShareUpTo describes and returns the
      last shortfall. */
  method ShareDonors(g: seq<ColoredCircle>, el: seq<nat>) returns (spare: real)
    requires 0 < |el| && InRange(el, |g|) && DistinctCircles(g)
    requires forall m :: 0 <= m < |g| ==> g[m].Valid()
    modifies g`radius, g`speed
    ensures Radii(g) == ShareUpTo(old(Radii(g)), el, |el|).radii
    ensures spare == ShareUpTo(old(Radii(g)), el, |el|).spare
    ensures forall m :: 0 <= m < |g| ==> g[m].Valid()
  {
    ghost var rs := Radii(g);
    var changeDown := CHANGE_UP / |el| as real;
    spare := 0.0;
    for i := 0 to |el|
      invariant Radii(g) == ShareUpTo(rs, el, i).radii
      invariant changeDown == ShareUpTo(rs, el, i).changeDown && spare == ShareUpTo(rs, el, i).spare
      invariant forall m :: 0 <= m < |g| ==> g[m].Valid()
    {
      spare, changeDown := ShareOne(g, el, i, changeDown, rs);
    }
  }

  /** One step of the residue sweep on the circle at position `el[i]`: the group
      moves from the sweep state after `i` donors to the one after `i + 1`. */
  method SweepOne(g: seq<ColoredCircle>, el: seq<nat>, i: nat, owed: real,
                  ghost rs: seq<real>, ghost residue: real)
    returns (left: real)
    requires i < |el| && InRange(el, |g|) && Distinct(el) && DistinctCircles(g) && |rs| == |g|
    requires forall m :: 0 <= m < |g| ==> g[m].Valid()
    requires forall j :: 0 <= j < |el| ==> rs[el[j]] >= MIN_RADIUS
    requires Radii(g) == SweepUpTo(rs, el, residue, i).radii && owed == SweepUpTo(rs, el, residue, i).residue
    modifies {g[el[i]]}`radius, {g[el[i]]}`speed
    ensures Radii(g) == SweepUpTo(rs, el, residue, i + 1).radii && left == SweepUpTo(rs, el, residue, i + 1).residue
    ensures forall m :: 0 <= m < |g| ==> g[m].Valid()
  {
    ghost var p := SweepUpTo(rs, el, residue, i);
    SweepUntouched(rs, el, residue, i, el[i]);
    var k := el[i];
    var c := g[k];
    assert c.radius == p.radii[k];
    var take := Min(c.radius - MIN_RADIUS, owed);
    if take != 0.0 {
      Resize(g, k, c.radius - take);
    } else {
      assert p.radii[k := c.radius] == p.radii;
    }
    left := owed - take;
  }

  /** The residue sweep of the corrected allocator on circle objects: donors
      still above the floor give what is left owed, in donor order. */
  method SweepDonors(g: seq<ColoredCircle>, el: seq<nat>, residue: real)
    requires InRange(el, |g|) && Distinct(el) && DistinctCircles(g)
    requires forall m :: 0 <= m < |g| ==> g[m].Valid()
    requires forall j :: 0 <= j < |el| ==> Radii(g)[el[j]] >= MIN_RADIUS
    modifies g`radius, g`speed
    ensures Radii(g) == SweepUpTo(old(Radii(g)), el, residue, |el|).radii
    ensures forall m :: 0 <= m < |g| ==> g[m].Valid()
  {
    ghost var rs := Radii(g);
    var owed := residue;
    for i := 0 to |el|
      invariant Radii(g) == SweepUpTo(rs, el, residue, i).radii
      invariant owed == SweepUpTo(rs, el, residue, i).residue
      invariant forall m :: 0 <= m < |g| ==> g[m].Valid()
    {
      owed := SweepOne(g, el, i, owed, rs, residue);
    }
  }

  /** One member more in the eligibility scan: it is appended when it is not the
      chosen one and can donate, and its room above the floor joins the slack. */
  lemma EligibleStep(rs: seq<real>, p: int, m: nat)
    requires m < |rs|
    ensures var el := EligiblesUpTo(rs, p, m);
      if m != p && CanDonate(rs[m]) then
        EligiblesUpTo(rs, p, m + 1) == el + [m] && Slack(rs, el + [m]) == Slack(rs, el) + (rs[m] - MIN_RADIUS)
      else EligiblesUpTo(rs, p, m + 1) == el
  {
    var el := EligiblesUpTo(rs, p, m);
    assert (el + [m])[..|el|] == el;
  }

  /** The eligibility loop of distributedSizeChange: the positions of the other
      members that can donate, and the room they have above the floor. */
  method FindEligibles(g: seq<ColoredCircle>, chosen: ColoredCircle) returns (el: seq<nat>, changeSpace: real)
    requires DistinctCircles(g)
    ensures el == Eligibles(Radii(g), IndexOf(g, chosen))
    ensures changeSpace == Slack(Radii(g), el)
  {
    ghost var rs := Radii(g);
    ghost var p := IndexOf(g, chosen);
    el := [];
    changeSpace := 0.0;
    for m := 0 to |g|
      invariant el == EligiblesUpTo(rs, p, m)
      invariant changeSpace == Slack(rs, el)
    {
      var c := g[m];
      assert c.radius == rs[m];
      assert c == chosen <==> m == p;
      EligibleStep(rs, p, m);
      if c != chosen && c.radius - MIN_CHANGE_DOWN >= MIN_RADIUS {
        el := el + [m];
        changeSpace := changeSpace + (c.radius - MIN_RADIUS);
      }
    }
  }

  /** The donor part of one allocation: the corrected loop, then the sweep. */
  method AllocateDonors(g: seq<ColoredCircle>, el: seq<nat>)
    requires 0 < |el| && InRange(el, |g|) && Distinct(el) && DistinctCircles(g)
    requires forall m :: 0 <= m < |g| ==> g[m].Valid()
    requires forall j :: 0 <= j < |el| ==> g[el[j]].radius >= MIN_RADIUS
    modifies g`radius, g`speed
    ensures Radii(g) == Donated(old(Radii(g)), el)
    ensures forall m :: 0 <= m < |g| ==> g[m].Valid()
  {
    ghost var rs := Radii(g);
    var spare := ShareDonors(g, el);
    forall j | 0 <= j < |el|
      ensures Radii(g)[el[j]] >= MIN_RADIUS
    {
      ShareDonorBounds(rs, el, |el|, j);
    }
    SweepDonors(g, el, spare);
  }

  /** Grows the chosen circle by CHANGE_UP; when it is a member of the group,
      the group's radii change in its position only. */
  method GrowCircle(g: seq<ColoredCircle>, chosen: ColoredCircle)
    requires DistinctCircles(g) && chosen.Valid()
    requires forall m :: 0 <= m < |g| ==> g[m].Valid()
    modifies chosen`radius, chosen`speed
    ensures chosen.radius == old(chosen.radius) + CHANGE_UP
    ensures var p := IndexOf(g, chosen);
      Radii(g) == if p >= 0 then old(Radii(g))[p := chosen.radius] else old(Radii(g))
    ensures chosen.Valid()
    ensures forall m :: 0 <= m < |g| ==> g[m].Valid()
  {
    ghost var before := Radii(g);
    ghost var p := IndexOf(g, chosen);
    chosen.SetRadius(chosen.radius + CHANGE_UP);
    if p >= 0 {
      RadiiAfterResize(g, p, before);
    }
  }

  /** The chosen member is not a donor, so the donors' radii keep its radius. */
  lemma DonatedKeepsChosen(rs: seq<real>, el: seq<nat>, p: int)
    requires p < |rs| && el == Eligibles(rs, p) && 0 < |el|
    ensures 0 <= p ==> Donated(rs, el)[p] == rs[p]
  {
    if 0 <= p {
      DonatedAt(rs, el, p);
    }
  }

  /** An allocation that is not blocked: the donors give, then the chosen circle
      grows. */
  method GrowUnblocked(g: seq<ColoredCircle>, chosen: ColoredCircle, el: seq<nat>)
    requires DistinctCircles(g) && chosen.Valid()
    requires forall m :: 0 <= m < |g| ==> g[m].Valid()
    requires el == Eligibles(Radii(g), IndexOf(g, chosen)) && 0 < |el|
    modifies g`radius, g`speed, chosen`radius, chosen`speed
    ensures var p := IndexOf(g, chosen);
      Radii(g) == if 0 <= p then Donated(old(Radii(g)), el)[p := old(chosen.radius) + CHANGE_UP]
                  else Donated(old(Radii(g)), el)
    ensures chosen.radius == old(chosen.radius) + CHANGE_UP
    ensures forall m :: 0 <= m < |g| ==> g[m].Valid()
    ensures chosen.Valid()
  {
    ghost var rs := Radii(g);
    ghost var p := IndexOf(g, chosen);
    ghost var r0 := chosen.radius;
    DonatedKeepsChosen(rs, el, p);
    AllocateDonors(g, el);
    assert chosen.radius == r0 && chosen.Valid() by {
      if 0 <= p {
        assert chosen.radius == Radii(g)[p];
      }
    }
    GrowCircle(g, chosen);
  }

  /** The allocation the guards select: nothing, or the donors' radii with the
      chosen circle grown by CHANGE_UP. */
  lemma AllocateByGuard(rs: seq<real>, p: int, r0: real, power: real, go: bool, el: seq<nat>,
                        after: seq<real>, grown: real)
    requires p < |rs|
    requires go <==> !Blocked(rs, p, r0, power)
    requires go ==> el == Eligibles(rs, p) && 0 < |el|
    requires !go ==> after == rs && grown == r0
    requires go ==> grown == r0 + CHANGE_UP
    requires go ==> after == if 0 <= p then Donated(rs, el)[p := r0 + CHANGE_UP] else Donated(rs, el)
    ensures after == Allocate(rs, p, r0, power).group && grown == Allocate(rs, p, r0, power).chosen
  {
  }

  /** The guards of distributedSizeChange: whether the allocation goes ahead,
      and with which donors. */
  method AllocationGuard(g: seq<ColoredCircle>, chosen: ColoredCircle, power: real)
    returns (go: bool, el: seq<nat>)
    requires DistinctCircles(g)
    ensures go <==> !Blocked(Radii(g), IndexOf(g, chosen), chosen.radius, power)
    ensures go ==> el == Eligibles(Radii(g), IndexOf(g, chosen)) && 0 < |el|
  {
    go, el := false, [];
    if |g| > 1 && chosen.radius + CHANGE_UP <= power - (|g| - 1) as real * MIN_RADIUS {
      var changeSpace;
      el, changeSpace := FindEligibles(g, chosen);
      go := changeSpace >= CHANGE_UP && |el| > 0;
    }
  }

  /** One tick of the corrected allocator on the group `g` of the chosen circle,
      whose colour has power `power`. */
  method GrowChosen(g: seq<ColoredCircle>, chosen: ColoredCircle, power: real)
    requires GroupValid(g, chosen.color) && chosen.Valid()
    modifies g`radius, g`speed, chosen`radius, chosen`speed
    ensures Radii(g) == Allocate(old(Radii(g)), IndexOf(g, chosen), old(chosen.radius), power).group
    ensures chosen.radius == Allocate(old(Radii(g)), IndexOf(g, chosen), old(chosen.radius), power).chosen
    ensures forall m :: 0 <= m < |g| ==> g[m].Valid()
    ensures chosen.Valid()
  {
    ghost var rs := Radii(g);
    ghost var p := IndexOf(g, chosen);
    ghost var r0 := chosen.radius;
    var go, el := AllocationGuard(g, chosen, power);
    if go {
      GrowUnblocked(g, chosen, el);
      AllocateByGuard(rs, p, r0, power, go, el, Radii(g), chosen.radius);
    } else {
      AllocateByGuard(rs, p, r0, power, go, el, Radii(g), chosen.radius);
    }
  }

  /** The other colour. */
  function Other(k: ColorType): (j: ColorType)
    ensures j != k
  {
    if k == White then Blue else White
  }

  // ---------------------------------------------------------------------------
  // The stage.

  class LevelStage {
    var circles: map<ColorType, seq<ColoredCircle>>
    var colorPowers: map<ColorType, real>
    var lastTouch: ColoredCircle?
    var currentLevel: int
    var completed: bool
    var timer: real
    var frameCounter: real
    var seconds: int
    var introMessage: Option<string>

    /** The circles of one colour, as a set. */
    function GroupSet(k: ColorType): set<ColoredCircle>
      reads this`circles
    {
      if k in circles then set c | c in circles[k] else {}
    }

    /** The touched circle, as a set. */
    function Touched(): set<ColoredCircle>
      reads this`lastTouch
    {
      if lastTouch == null then {} else {lastTouch}
    }

    /** Every circle of every group. */
    function Members(): set<ColoredCircle>
      reads this`circles
    {
      GroupSet(White) + GroupSet(Blue)
    }

    /** The group of colour `k`, when there is one, is valid. */
    ghost predicate GroupOk(k: ColorType)
      reads this`circles, GroupSet(k)
    {
      k in circles ==> GroupValid(circles[k], k)
    }

    /** Every colour with a group has a power, every group is valid, and the
        touched circle is valid. */
    ghost predicate Valid()
      reads this`circles, this`colorPowers, this`lastTouch, Members()
      reads Touched()
    {
      && circles.Keys == colorPowers.Keys
      && GroupOk(White) && GroupOk(Blue)
      && (lastTouch != null ==> lastTouch.Valid())
    }

    /** A level is complete when every colour is down to at most one circle. */
    predicate IsComplete()
      reads this`circles
    {
      forall k :: k in circles ==> |circles[k]| <= 1
    }

    constructor ()
      ensures Valid()
      ensures circles == map[] && colorPowers == map[] && lastTouch == null
      ensures currentLevel == -1 && !completed
      ensures timer == 0.0 && frameCounter == 0.0 && seconds == 0 && introMessage == None
    {
      circles := map[];
      colorPowers := map[];
      lastTouch := null;
      currentLevel := -1;
      completed := false;
      timer, frameCounter, seconds := 0.0, 0.0, 0;
      introMessage := None;
    }

    /** loadLevel: a negative level index does nothing. Otherwise the clocks, the
        completion flag and the touched circle are reset; when the level exists,
        each colour that occurs in it gets a fresh group and its power. */
    method LoadLevel(levelNum: int, level: Option<LevelInfo>)
      requires Valid()
      modifies this
      ensures Valid()
      ensures levelNum < 0 ==> unchanged(this)
      ensures levelNum >= 0 ==>
                && timer == 0.0 && frameCounter == 0.0 && seconds == 0
                && !completed && lastTouch == null && currentLevel == levelNum
      ensures levelNum >= 0 && level.None? ==>
                circles == old(circles) && colorPowers == old(colorPowers) && introMessage == old(introMessage)
      ensures levelNum >= 0 && level.Some? ==>
                && introMessage == Some(level.value.intro)
                && ColorLoaded(White, level.value.circles, old(circles), old(colorPowers))
                && ColorLoaded(Blue, level.value.circles, old(circles), old(colorPowers))
    {
      if levelNum >= 0 {
        timer, frameCounter, seconds := 0.0, 0.0, 0;
        completed := false;
        lastTouch := null;
        currentLevel := levelNum;
        if level.Some? {
          InstallLevel(level.value);
        }
      }
    }

    /** Colour `k` is as loading a level with `n` circles of that colour, of
        power `power` and start radii `radii`, leaves it over the maps `c0` and
        `p0`: a colour that occurs has a group of `n` circles with those radii and
        that power; a colour that does not occur keeps its group and power, or
        their absence. Either way its group is valid. */
    ghost predicate LoadedAs(k: ColorType, n: nat, power: real, radii: seq<real>,
                             c0: map<ColorType, seq<ColoredCircle>>, p0: map<ColorType, real>)
      reads this`circles, this`colorPowers, GroupSet(k)
    {
      && (if n > 0 then
            && k in circles && k in colorPowers
            && |circles[k]| == n && colorPowers[k] == power && Radii(circles[k]) == radii
          else
            && (k in circles <==> k in c0) && (k in colorPowers <==> k in p0)
            && (k in circles ==> circles[k] == c0[k])
            && (k in colorPowers ==> colorPowers[k] == p0[k]))
      && GroupOk(k)
    }

    /** Colour `k` is as loading the descriptors `infos` leaves it. */
    ghost predicate ColorLoaded(k: ColorType, infos: seq<CircleInfo>,
                                c0: map<ColorType, seq<ColoredCircle>>, p0: map<ColorType, real>)
      reads this`circles, this`colorPowers, GroupSet(k)
    {
      LoadedAs(k, Count(infos, k), Power(infos, k), StartRadii(infos, k), c0, p0)
    }

    /** The part of loadLevel that runs when the level exists: the descriptors
        become new circles, and each colour with a positive power and at least one
        circle replaces its group and its power. */
    method InstallLevel(info: LevelInfo)
      requires circles.Keys == colorPowers.Keys && GroupOk(White) && GroupOk(Blue)
      modifies this`circles, this`colorPowers, this`introMessage
      ensures circles.Keys == colorPowers.Keys
      ensures introMessage == Some(info.intro)
      ensures ColorLoaded(White, info.circles, old(circles), old(colorPowers))
      ensures ColorLoaded(Blue, info.circles, old(circles), old(colorPowers))
    {
      introMessage := Some(info.intro);
      var whites, whitePower, blues, bluePower := BuildGroups(info.circles);
      InstallGroups(whites, whitePower, Count(info.circles, White), StartRadii(info.circles, White),
                    blues, bluePower, Count(info.circles, Blue), StartRadii(info.circles, Blue));
    }

    /** The puts at the end of loadLevel: each colour whose power is positive and
        whose group is not empty gets its new group and power. */
    method InstallGroups(whites: seq<ColoredCircle>, whitePower: real, ghost whiteCount: nat, ghost whiteRadii: seq<real>,
                         blues: seq<ColoredCircle>, bluePower: real, ghost blueCount: nat, ghost blueRadii: seq<real>)
      requires GroupOf(whites, White, whitePower, whiteCount, whiteRadii)
      requires GroupOf(blues, Blue, bluePower, blueCount, blueRadii)
      requires circles.Keys == colorPowers.Keys && GroupOk(White) && GroupOk(Blue)
      modifies this`circles, this`colorPowers
      ensures circles.Keys == colorPowers.Keys
      ensures LoadedAs(White, whiteCount, whitePower, whiteRadii, old(circles), old(colorPowers))
      ensures LoadedAs(Blue, blueCount, bluePower, blueRadii, old(circles), old(colorPowers))
    {
      var newCircles, newPowers := circles, colorPowers;
      if whitePower > 0.0 && |whites| > 0 {
        newCircles, newPowers := newCircles[White := whites], newPowers[White := whitePower];
      }
      if bluePower > 0.0 && |blues| > 0 {
        newCircles, newPowers := newCircles[Blue := blues], newPowers[Blue := bluePower];
      }
      circles, colorPowers := newCircles, newPowers;
    }

    /** A valid group of colour `k` with `n` circles whose radii are `radii`,
        and a power that is positive exactly when `n` is. */
    static ghost predicate GroupOf(g: seq<ColoredCircle>, k: ColorType, power: real, n: nat, radii: seq<real>)
      reads g
    {
      && GroupValid(g, k) && Radii(g) == radii && |radii| == n
      && (power > 0.0 <==> n > 0)
    }

    /** `g` and `power` are what the descriptor loop builds for colour `k` from
        `infos`: a valid group with the start radii, and the colour's power. */
    static ghost predicate Built(g: seq<ColoredCircle>, k: ColorType, power: real, infos: seq<CircleInfo>)
      reads g
    {
      GroupOf(g, k, power, Count(infos, k), StartRadii(infos, k)) && power == Power(infos, k)
    }

    /** The descriptor loop of loadLevel: one new circle per descriptor, WHITE
        ones in one group and all others in the other, with each colour's power. */
    static method BuildGroups(infos: seq<CircleInfo>)
      returns (whites: seq<ColoredCircle>, whitePower: real, blues: seq<ColoredCircle>, bluePower: real)
      ensures Built(whites, White, whitePower, infos) && Built(blues, Blue, bluePower, infos)
      ensures forall c :: c in whites || c in blues ==> fresh(c)
    {
      whites, blues := [], [];
      whitePower, bluePower := 0.0, 0.0;
      for i := 0 to |infos|
        invariant Built(whites, White, whitePower, infos[..i]) && Built(blues, Blue, bluePower, infos[..i])
        invariant forall c :: c in whites || c in blues ==> fresh(c)
      {
        whites, whitePower, blues, bluePower := AddDescriptor(whites, whitePower, blues, bluePower, infos, i);
      }
      assert infos[..|infos|] == infos;
    }

    /** One iteration of the descriptor loop: the descriptor's circle joins the
        group of its colour, and the group of the other colour stays. */
    static method AddDescriptor(whites: seq<ColoredCircle>, whitePower: real, blues: seq<ColoredCircle>, bluePower: real,
                                infos: seq<CircleInfo>, i: nat)
      returns (whites': seq<ColoredCircle>, whitePower': real, blues': seq<ColoredCircle>, bluePower': real)
      requires i < |infos|
      requires Built(whites, White, whitePower, infos[..i]) && Built(blues, Blue, bluePower, infos[..i])
      ensures Built(whites', White, whitePower', infos[..i + 1]) && Built(blues', Blue, bluePower', infos[..i + 1])
      ensures forall c :: c in whites' || c in blues' ==> c in whites || c in blues || fresh(c)
    {
      whites', whitePower', blues', bluePower' := whites, whitePower, blues, bluePower;
      match infos[i].kind {
        case White =>
          BuiltOther(blues, Blue, bluePower, infos, i);
          whites', whitePower' := AddCircle(whites, White, whitePower, infos, i);
        case Blue =>
          BuiltOther(whites, White, whitePower, infos, i);
          blues', bluePower' := AddCircle(blues, Blue, bluePower, infos, i);
      }
    }

    /** A descriptor of the other colour leaves what the loop has built for
        colour `k` as it is. */
    static lemma BuiltOther(g: seq<ColoredCircle>, k: ColorType, power: real, infos: seq<CircleInfo>, i: nat)
      requires i < |infos| && infos[i].kind != k && Built(g, k, power, infos[..i])
      ensures Built(g, k, power, infos[..i + 1])
    {
      LevelSnoc(infos, i, k);
    }

    /** One step of the descriptor loop: a new circle for `info` joins the end
        of the group of its colour, and the descriptor's radius, or MIN_RADIUS
        when that is larger, joins the colour's power. */
    static method AddCircle(g: seq<ColoredCircle>, k: ColorType, power: real, infos: seq<CircleInfo>, i: nat)
      returns (g': seq<ColoredCircle>, power': real)
      requires i < |infos| && infos[i].kind == k && Built(g, k, power, infos[..i])
      ensures Built(g', k, power', infos[..i + 1])
      ensures |g'| == |g| + 1 && g'[..|g|] == g && fresh(g'[|g|])
      ensures forall x :: x in g' ==> x in g || fresh(x)
    {
      var info := infos[i];
      var c := new ColoredCircle(info.x, info.y, info.radius as real, k);
      g' := g + [c];
      power' := power + Max(info.radius as real, MIN_RADIUS);
      LevelSnoc(infos, i, k);
      assert g'[..|g|] == g;
    }

    /** checkCompletion: true exactly when no colour has more than one circle. */
    method CheckCompletion() returns (done: bool)
      ensures done == IsComplete()
    {
      var keys := circles.Keys;
      while keys != {}
        invariant keys <= circles.Keys
        invariant forall k :: k in circles && k !in keys ==> |circles[k]| <= 1
        decreases |keys|
      {
        var k :| k in keys;
        if |circles[k]| > 1 {
          return false;
        }
        keys := keys - {k};
      }
      return true;
    }

    /** distributedSizeChange: grows the chosen circle by CHANGE_UP and shrinks
        the rest of its group to match, as the corrected allocator prescribes, so
        the radii of a group the chosen circle belongs to keep their sum. A
        colour without a group changes nothing. */
    method DistributedSizeChange(chosen: ColoredCircle)
      requires Valid() && chosen.Valid()
      modifies GroupSet(chosen.color)`radius, GroupSet(chosen.color)`speed, chosen`radius, chosen`speed
      ensures Valid() && chosen.Valid()
      ensures chosen.color !in circles ==> unchanged(chosen)
      ensures chosen.color in circles ==>
                var g := circles[chosen.color];
                var a := Allocate(old(Radii(g)), IndexOf(g, chosen), old(chosen.radius), colorPowers[chosen.color]);
                Radii(g) == a.group && chosen.radius == a.chosen
    ensures chosen.color in circles && chosen in circles[chosen.color] ==>
              Sum(Radii(circles[chosen.color])) == old(Sum(Radii(circles[chosen.color])))
    ensures forall c | c in Members() && c.color != chosen.color :: c.radius == old(c.radius) && c.speed == old(c.speed)
    {
      GroupColor(chosen.color);
      if chosen.color in circles {
        assert GroupOk(chosen.color);
        var g := circles[chosen.color];
        ghost var rs := Radii(g);
        ghost var p := IndexOf(g, chosen);
        GrowChosen(g, chosen, colorPowers[chosen.color]);
        if p >= 0 {
          assert rs[p] == old(chosen.radius);
          AllocateConserves(rs, p, colorPowers[chosen.color]);
        }
      }
    }

    /** The selection and completion part of update: while the button is held,
        a disabled touched circle is let go and any other touched circle grows
        at the expense of its group; then the level is marked completed, and the
        continue button enabled, the first time every colour is down to at most
        one circle. */
    method Update(pressed: bool) returns (justCompleted: bool)
      requires Valid()
      modifies this`lastTouch, this`completed, Members()`radius, Members()`speed, Touched()`radius, Touched()`speed
      ensures Valid()
      ensures circles == old(circles) && colorPowers == old(colorPowers)
      ensures var t := old(lastTouch);
        lastTouch == if pressed && t != null && old(t.IsDisabled()) then null else t
      ensures var t := old(lastTouch);
        !(pressed && t != null && !old(t.IsDisabled())) ==> unchanged(Members()) && (t != null ==> unchanged(t))
      ensures var t := old(lastTouch);
        pressed && t != null && !old(t.IsDisabled()) && t.color in circles ==>
          var g := circles[t.color];
          var a := Allocate(old(Radii(g)), IndexOf(g, t), old(t.radius), colorPowers[t.color]);
          Radii(g) == a.group && t.radius == a.chosen
      ensures var t := old(lastTouch);
        t != null ==> forall c | c in old(Members()) && c.color != t.color :: c.radius == old(c.radius) && c.speed == old(c.speed)
      ensures var t := old(lastTouch);
        t != null && t.color !in circles ==> unchanged(t)
      ensures completed == (old(completed) || IsComplete())
      ensures justCompleted <==> !old(completed) && completed
    {
      Select(pressed);
      justCompleted := MarkCompleted();
    }

    /** The touched circle while the button is held: a disabled one is let go,
        any other one grows at the expense of its group. */
    method Select(pressed: bool)
      requires Valid()
      modifies this`lastTouch, Members()`radius, Members()`speed, Touched()`radius, Touched()`speed
      ensures Valid()
      ensures var t := old(lastTouch);
        lastTouch == if pressed && t != null && old(t.IsDisabled()) then null else t
      ensures var t := old(lastTouch);
        !(pressed && t != null && !old(t.IsDisabled())) ==> unchanged(Members()) && (t != null ==> unchanged(t))
      ensures var t := old(lastTouch);
        pressed && t != null && !old(t.IsDisabled()) && t.color in circles ==>
          var g := circles[t.color];
          var a := Allocate(old(Radii(g)), IndexOf(g, t), old(t.radius), colorPowers[t.color]);
          Radii(g) == a.group && t.radius == a.chosen
      ensures var t := old(lastTouch);
        t != null ==> forall c | c in old(Members()) && c.color != t.color :: c.radius == old(c.radius) && c.speed == old(c.speed)
      ensures var t := old(lastTouch);
        t != null && t.color !in circles ==> unchanged(t)
    {
      if pressed && lastTouch != null {
        if lastTouch.IsDisabled() {
          lastTouch := null;
        } else {
          GroupInMembers(lastTouch.color);
          DistributedSizeChange(lastTouch);
        }
      }
    }

    /** Every circle of a valid group has the group's colour. */
    lemma GroupColor(k: ColorType)
      requires GroupOk(k)
      ensures forall c :: c in GroupSet(k) ==> c.color == k
    {
      if k in circles {
        forall c | c in GroupSet(k)
          ensures c.color == k
        {
          var m :| 0 <= m < |circles[k]| && circles[k][m] == c;
        }
      }
    }

    /** The group of a colour is part of the members. */
    lemma GroupInMembers(k: ColorType)
      ensures GroupSet(k) <= Members()
    {
      match k
      case White =>
      case Blue =>
    }

    /** Sets the completion flag the first time the level is complete, and says
        whether this was that time. */
    method MarkCompleted() returns (justCompleted: bool)
      modifies this`completed
      ensures completed == (old(completed) || IsComplete())
      ensures justCompleted <==> !old(completed) && completed
    {
      var done := CheckCompletion();
      justCompleted := false;
      if done && !completed {
        completed := true;
        justCompleted := true;
      }
    }

    /** removeCircle: the circle leaves the first group that holds it. Since
        every group holds only circles of its own colour, that is the group of
        the circle's colour; afterwards no group holds the circle. */
    method RemoveCircle(c: ColoredCircle)
      requires Valid()
      modifies this`circles
      ensures Valid()
      ensures circles == if c.color in old(circles) && c in old(circles)[c.color]
                         then old(circles)[c.color := RemoveFirst(old(circles)[c.color], c)]
                         else old(circles)
      ensures c !in Members()
    {
      var keys := circles.Keys;
      while keys != {}
        invariant keys <= circles.Keys
        invariant circles == old(circles)
        invariant forall k :: k in circles && k !in keys ==> c !in circles[k]
        decreases |keys|
      {
        var k :| k in keys;
        if c in circles[k] {
          RemoveFrom(k, c);
          return;
        }
        keys := keys - {k};
      }
      GroupOkAt(c.color);
    }

    /** A colour's group is valid when both colours' groups are. */
    lemma GroupOkAt(k: ColorType)
      requires GroupOk(White) && GroupOk(Blue)
      ensures GroupOk(k)
    {
      match k
      case White =>
      case Blue =>
    }

    /** The removal in the group `k` that holds the circle. */
    method RemoveFrom(k: ColorType, c: ColoredCircle)
      requires Valid() && k in circles && c in circles[k]
      modifies this`circles
      ensures Valid()
      ensures k == c.color && circles == old(circles)[k := RemoveFirst(old(circles)[k], c)]
      ensures c !in Members()
    {
      GroupOkAt(k);
      GroupOkAt(Other(k));
      RemoveFirstSpec(circles[k], c);
      RemoveFirstDistinct(circles[k], c);
      circles := circles[k := RemoveFirst(circles[k], c)];
    }
  }
}
