/** The player-driven "grow one, shrink the rest" allocator of LevelStage
    (distributedSizeChange), as functions over the radii of one colour group.

    A group is the sequence `rs` of its members' radii in group order; `chosen` is
    the position of the chosen circle in the group (any other value when the chosen
    circle is not a member) and `chosenRadius` its radius.

    Two versions of the donor loop are given. The one the source writes
    (AsWritten*) carries a floored donor's shortfall with the divisor
    `eligibles - i + 1` and never clears a positive shortfall, so the donors do
    not always give up exactly CHANGE_UP (see AsWrittenBreaksConservation). The
    corrected one (Share*, then Sweep*) carries the shortfall to the donors still
    to come, clears it per donor, and finally takes any residue from donors that
    are still above the floor; Allocate is built from it and the stage uses it. */
module Allocation {
  import opened PlayTypes

  /** A donor must be able to give up at least this much and stay at MIN_RADIUS. */
  const MIN_CHANGE_DOWN: real := 0.001

  predicate CanDonate(r: real)
  {
    r - MIN_CHANGE_DOWN >= MIN_RADIUS
  }

  /** Every position in `el` is a position of a group of size `n`. */
  predicate InRange(el: seq<nat>, n: nat)
  {
    forall j :: 0 <= j < |el| ==> el[j] < n
  }

  /** No position occurs twice in `el`. */
  predicate Distinct(el: seq<nat>)
  {
    forall a, b :: 0 <= a < b < |el| ==> el[a] != el[b]
  }

  /** The positions in `el` are in group order. */
  predicate Ascending(el: seq<nat>)
  {
    forall a, b :: 0 <= a < b < |el| ==> el[a] < el[b]
  }

  /** The eligible donors among the first `upTo` members, in group order: every
      member other than the chosen one that can donate. */
  function EligiblesUpTo(rs: seq<real>, chosen: int, upTo: nat): (el: seq<nat>)
    requires upTo <= |rs|
    ensures InRange(el, upTo) && Distinct(el)
    ensures forall j :: 0 <= j < |el| ==> el[j] != chosen && CanDonate(rs[el[j]])
    ensures forall k :: 0 <= k < upTo && k != chosen && CanDonate(rs[k]) ==> k in el
  {
    if upTo == 0 then []
    else
      var prev := EligiblesUpTo(rs, chosen, upTo - 1);
      if upTo - 1 != chosen && CanDonate(rs[upTo - 1]) then prev + [upTo - 1] else prev
  }

  /** Of two listed eligible donors, the earlier one comes first in the group. */
  lemma {:induction false} EligibleBefore(rs: seq<real>, chosen: int, upTo: nat, a: nat, b: nat)
    requires upTo <= |rs| && a < b < |EligiblesUpTo(rs, chosen, upTo)|
    ensures EligiblesUpTo(rs, chosen, upTo)[a] < EligiblesUpTo(rs, chosen, upTo)[b]
  {
    var prev := EligiblesUpTo(rs, chosen, upTo - 1);
    if b < |prev| {
      EligibleBefore(rs, chosen, upTo - 1, a, b);
      assert EligiblesUpTo(rs, chosen, upTo)[a] == prev[a] && EligiblesUpTo(rs, chosen, upTo)[b] == prev[b];
    } else {
      assert EligiblesUpTo(rs, chosen, upTo) == prev + [upTo - 1];
      assert prev[a] < upTo - 1;
    }
  }

  /** The eligible donors are listed in group order, each once. */
  lemma EligiblesInOrder(rs: seq<real>, chosen: int, upTo: nat)
    requires upTo <= |rs|
    ensures Ascending(EligiblesUpTo(rs, chosen, upTo))
  {
    var el := EligiblesUpTo(rs, chosen, upTo);
    forall a, b | 0 <= a < b < |el|
      ensures el[a] < el[b]
    {
      EligibleBefore(rs, chosen, upTo, a, b);
    }
  }

  /** The eligible donors of the whole group. */
  function Eligibles(rs: seq<real>, chosen: int): (el: seq<nat>)
    ensures InRange(el, |rs|) && Distinct(el)
    ensures forall k :: 0 <= k < |rs| ==> (k in el <==> k != chosen && CanDonate(rs[k]))
  {
    EligiblesUpTo(rs, chosen, |rs|)
  }

  /** Total room above the floor of the donors at positions `el` (changeSpace). */
  function Slack(rs: seq<real>, el: seq<nat>): real
    requires InRange(el, |rs|)
  {
    if el == [] then 0.0 else Slack(rs, el[..|el| - 1]) + (rs[el[|el| - 1]] - MIN_RADIUS)
  }

  /** Changing one radius changes the slack of `el` by the difference if that
      member is listed in `el`, and not at all otherwise. */
  lemma {:induction false} SlackUpdate(rs: seq<real>, el: seq<nat>, k: nat, v: real)
    requires InRange(el, |rs|) && Distinct(el) && k < |rs|
    ensures Slack(rs[k := v], el) == Slack(rs, el) + (if k in el then v - rs[k] else 0.0)
  {
    if el != [] {
      var m := |el| - 1;
      var init := el[..m];
      assert forall j :: 0 <= j < |init| ==> init[j] == el[j];
      SlackUpdate(rs, init, k, v);
      if el[m] == k {
        assert k !in init;
      } else {
        assert (k in el) == (k in init) by {
          assert el == init + [el[m]];
        }
      }
    }
  }

  /** State of the donor loop: radii so far, the current per-donor share, and
      the last shortfall (spareChange). */
  datatype PassState = PassState(radii: seq<real>, changeDown: real, spare: real)

  /** What the donors still have to give after `i` of `n` corrected steps. */
  function Remaining(s: PassState, n: nat, i: nat): real
  {
    if i < n then (n - i) as real * s.changeDown else s.spare
  }

  // ---------------------------------------------------------------------------
  // The corrected donor loop.

  /** One corrected donor step: the donor gives the share if it can, otherwise it
      drops to the floor and its shortfall is spread over the donors after it. */
  function ShareStep(s: PassState, el: seq<nat>, i: nat): (t: PassState)
    requires i < |el| && el[i] < |s.radii|
    ensures |t.radii| == |s.radii|
  {
    var k := el[i];
    var r := s.radii[k];
    var fits := r - s.changeDown >= MIN_RADIUS;
    var radii := if fits then s.radii[k := r - s.changeDown] else s.radii[k := MIN_RADIUS];
    var spare := if fits then 0.0 else s.changeDown - (r - MIN_RADIUS);
    var changeDown :=
      if spare > 0.0 && i + 1 < |el| then s.changeDown + spare / (|el| - i - 1) as real
      else s.changeDown;
    PassState(radii, changeDown, spare)
  }

  /** The corrected donor loop after its first `i` donors. */
  function ShareUpTo(rs: seq<real>, el: seq<nat>, i: nat): (s: PassState)
    requires 0 < |el| && i <= |el| && InRange(el, |rs|)
    ensures |s.radii| == |rs|
  {
    if i == 0 then PassState(rs, CHANGE_UP / |el| as real, 0.0)
    else ShareStep(ShareUpTo(rs, el, i - 1), el, i - 1)
  }

  lemma ShareOfRemainder(m: real, spare: real, cd: real)
    requires m > 0.0
    ensures m * (cd + spare / m) == m * cd + spare
  {
  }

  /** One corrected step changes only the visited donor, keeps it between the floor
      and its old radius, and lowers what is still owed by exactly what it took. */
  lemma ShareStepSpec(p: PassState, el: seq<nat>, i: nat)
    requires i < |el| && InRange(el, |p.radii|)
    requires p.changeDown > 0.0 && p.spare >= 0.0 && p.radii[el[i]] >= MIN_RADIUS
    ensures var s := ShareStep(p, el, i);
      && s.radii == p.radii[el[i] := s.radii[el[i]]]
      && MIN_RADIUS <= s.radii[el[i]] <= p.radii[el[i]]
      && s.changeDown > 0.0 && s.spare >= 0.0
      && Remaining(s, |el|, i + 1) == Remaining(p, |el|, i) - (p.radii[el[i]] - s.radii[el[i]])
  {
    var s := ShareStep(p, el, i);
    var n := |el|;
    var r := p.radii[el[i]];
    if r - p.changeDown < MIN_RADIUS && i + 1 < n {
      ShareOfRemainder((n - i - 1) as real, s.spare, p.changeDown);
    }
  }

  /** The share of the corrected loop stays positive and a shortfall is never negative. */
  lemma {:induction false} SharePositive(rs: seq<real>, el: seq<nat>, i: nat)
    requires 0 < |el| && i <= |el| && InRange(el, |rs|)
    ensures ShareUpTo(rs, el, i).changeDown > 0.0 && ShareUpTo(rs, el, i).spare >= 0.0
  {
    if i > 0 {
      SharePositive(rs, el, i - 1);
    }
  }

  /** The corrected loop does not touch a member before visiting it. */
  lemma {:induction false} ShareUntouched(rs: seq<real>, el: seq<nat>, i: nat, k: nat)
    requires 0 < |el| && i <= |el| && InRange(el, |rs|) && k < |rs|
    requires forall j :: 0 <= j < i ==> el[j] != k
    ensures ShareUpTo(rs, el, i).radii[k] == rs[k]
  {
    if i > 0 {
      ShareUntouched(rs, el, i - 1, k);
    }
  }

  /** A donor visited by the corrected loop ends between the floor and its old radius. */
  lemma {:induction false} ShareDonorBounds(rs: seq<real>, el: seq<nat>, i: nat, j: nat)
    requires 0 < |el| && i <= |el| && InRange(el, |rs|) && Distinct(el) && j < i
    requires rs[el[j]] >= MIN_RADIUS
    ensures MIN_RADIUS <= ShareUpTo(rs, el, i).radii[el[j]] <= rs[el[j]]
  {
    if j == i - 1 {
      ShareUntouched(rs, el, j, el[j]);
      SharePositive(rs, el, j);
    } else {
      ShareDonorBounds(rs, el, i - 1, j);
      assert el[i - 1] != el[j];
    }
  }

  /** A donor that cannot give the share it is asked for when its turn comes is
      left exactly at the floor by the corrected loop. */
  lemma {:induction false} ShareFloorExact(rs: seq<real>, el: seq<nat>, i: nat, j: nat)
    requires 0 < |el| && i <= |el| && InRange(el, |rs|) && Distinct(el) && j < i
    requires ShareUpTo(rs, el, j).radii[el[j]] - ShareUpTo(rs, el, j).changeDown < MIN_RADIUS
    ensures ShareUpTo(rs, el, i).radii[el[j]] == MIN_RADIUS
  {
    if j < i - 1 {
      ShareFloorExact(rs, el, i - 1, j);
      assert el[i - 1] != el[j];
    }
  }

  /** What the corrected loop keeps after `i` donors: the radii removed so far plus
      what is still owed add up to CHANGE_UP, and the slack of the donors shrinks
      by what was removed. */
  lemma {:induction false} ShareInvariant(rs: seq<real>, el: seq<nat>, i: nat)
    requires 0 < |el| && i <= |el| && InRange(el, |rs|) && Distinct(el)
    requires forall j :: 0 <= j < |el| ==> rs[el[j]] >= MIN_RADIUS
    ensures (Sum(rs) - Sum(ShareUpTo(rs, el, i).radii)) + Remaining(ShareUpTo(rs, el, i), |el|, i) == CHANGE_UP
    ensures Slack(ShareUpTo(rs, el, i).radii, el) == Slack(rs, el) - (Sum(rs) - Sum(ShareUpTo(rs, el, i).radii))
  {
    var n := |el|;
    if i == 0 {
      assert n as real * (CHANGE_UP / n as real) == CHANGE_UP;
    } else {
      ShareInvariant(rs, el, i - 1);
      SharePositive(rs, el, i - 1);
      var p := ShareUpTo(rs, el, i - 1);
      var k := el[i - 1];
      ShareUntouched(rs, el, i - 1, k);
      ShareStepSpec(p, el, i - 1);
      var s := ShareStep(p, el, i - 1);
      SumUpdate(p.radii, k, s.radii[k]);
      SlackUpdate(p.radii, el, k, s.radii[k]);
      assert k in el;
    }
  }

  /** When no donor would reach the floor, the corrected loop keeps its first
      share and never records a shortfall. */
  lemma {:induction false} ShareWithoutFloorState(rs: seq<real>, el: seq<nat>, i: nat)
    requires 0 < |el| && i <= |el| && InRange(el, |rs|) && Distinct(el)
    requires forall j :: 0 <= j < |el| ==> rs[el[j]] - CHANGE_UP / |el| as real >= MIN_RADIUS
    ensures ShareUpTo(rs, el, i).changeDown == CHANGE_UP / |el| as real
    ensures ShareUpTo(rs, el, i).spare == 0.0
  {
    if i > 0 {
      ShareWithoutFloorState(rs, el, i - 1);
      ShareUntouched(rs, el, i - 1, el[i - 1]);
    }
  }

  /** When no donor would reach the floor, every donor gives exactly CHANGE_UP / |el|. */
  lemma {:induction false} ShareWithoutFloorAt(rs: seq<real>, el: seq<nat>, i: nat, j: nat)
    requires 0 < |el| && i <= |el| && InRange(el, |rs|) && Distinct(el) && j < i
    requires forall j :: 0 <= j < |el| ==> rs[el[j]] - CHANGE_UP / |el| as real >= MIN_RADIUS
    ensures ShareUpTo(rs, el, i).radii[el[j]] == rs[el[j]] - CHANGE_UP / |el| as real
  {
    if j == i - 1 {
      ShareWithoutFloorState(rs, el, j);
      ShareUntouched(rs, el, j, el[j]);
    } else {
      ShareWithoutFloorAt(rs, el, i - 1, j);
      assert el[i - 1] != el[j];
    }
  }

  // ---------------------------------------------------------------------------
  // The residue sweep of the corrected allocator.

  datatype SweepState = SweepState(radii: seq<real>, residue: real)

  /** One step of the sweep: donor `el[i]` gives what it still can above the
      floor, up to the residue that is left. */
  function SweepStep(p: SweepState, el: seq<nat>, i: nat): (t: SweepState)
    requires i < |el| && el[i] < |p.radii|
    ensures |t.radii| == |p.radii|
  {
    var k := el[i];
    var take := Min(p.radii[k] - MIN_RADIUS, p.residue);
    SweepState(p.radii[k := p.radii[k] - take], p.residue - take)
  }

  /** The sweep after its first `i` donors. */
  function SweepUpTo(rs: seq<real>, el: seq<nat>, residue: real, i: nat): (s: SweepState)
    requires i <= |el| && InRange(el, |rs|)
    ensures |s.radii| == |rs|
  {
    if i == 0 then SweepState(rs, residue)
    else SweepStep(SweepUpTo(rs, el, residue, i - 1), el, i - 1)
  }

  /** The sweep does not touch a member before visiting it. */
  lemma {:induction false} SweepUntouched(rs: seq<real>, el: seq<nat>, residue: real, i: nat, k: nat)
    requires i <= |el| && InRange(el, |rs|) && k < |rs|
    requires forall j :: 0 <= j < i ==> el[j] != k
    ensures SweepUpTo(rs, el, residue, i).radii[k] == rs[k]
  {
    if i > 0 {
      SweepUntouched(rs, el, residue, i - 1, k);
    }
  }

  /** The sweep leaves max(0, residue - slack) owed, where slack is the room the
      visited donors had above the floor. */
  lemma {:induction false} SweepResidue(rs: seq<real>, el: seq<nat>, residue: real, i: nat)
    requires i <= |el| && InRange(el, |rs|) && Distinct(el) && residue >= 0.0
    requires forall j :: 0 <= j < |el| ==> rs[el[j]] >= MIN_RADIUS
    ensures SweepUpTo(rs, el, residue, i).residue == Max(0.0, residue - Slack(rs, el[..i]))
  {
    if i == 0 {
      assert el[..0] == [];
    } else {
      SweepResidue(rs, el, residue, i - 1);
      var p := SweepUpTo(rs, el, residue, i - 1);
      var k := el[i - 1];
      SweepUntouched(rs, el, residue, i - 1, k);
      var before := Slack(rs, el[..i - 1]);
      assert Slack(rs, el[..i]) == before + (rs[k] - MIN_RADIUS) by {
        assert el[..i][..i - 1] == el[..i - 1];
      }
      ResidueStep(residue, before, rs[k] - MIN_RADIUS, p.residue);
    }
  }

  /** One sweep step removes from the radii exactly what it takes off the residue. */
  lemma SweepStepSum(p: SweepState, el: seq<nat>, i: nat)
    requires i < |el| && el[i] < |p.radii|
    ensures Sum(SweepStep(p, el, i).radii) == Sum(p.radii) - (p.residue - SweepStep(p, el, i).residue)
  {
    var k := el[i];
    SumUpdate(p.radii, k, p.radii[k] - Min(p.radii[k] - MIN_RADIUS, p.residue));
  }

  /** The sweep removes from the radii exactly what it no longer owes. */
  lemma {:induction false} SweepSum(rs: seq<real>, el: seq<nat>, residue: real, i: nat)
    requires i <= |el| && InRange(el, |rs|)
    ensures Sum(SweepUpTo(rs, el, residue, i).radii) == Sum(rs) - (residue - SweepUpTo(rs, el, residue, i).residue)
  {
    if i > 0 {
      SweepSum(rs, el, residue, i - 1);
      SweepStepSum(SweepUpTo(rs, el, residue, i - 1), el, i - 1);
    }
  }

  /** Arithmetic of one sweep step: owing max(0, residue - before) and giving
      min(room, owed) leaves max(0, residue - (before + room)) owed. */
  lemma ResidueStep(residue: real, before: real, room: real, owed: real)
    requires room >= 0.0 && owed == Max(0.0, residue - before)
    ensures owed - Min(room, owed) == Max(0.0, residue - (before + room))
  {
  }

  /** A donor visited by the sweep ends between the floor and its radius before the sweep. */
  lemma {:induction false} SweepDonorBounds(rs: seq<real>, el: seq<nat>, residue: real, i: nat, j: nat)
    requires i <= |el| && InRange(el, |rs|) && Distinct(el) && residue >= 0.0 && j < i
    requires forall j :: 0 <= j < |el| ==> rs[el[j]] >= MIN_RADIUS
    ensures MIN_RADIUS <= SweepUpTo(rs, el, residue, i).radii[el[j]] <= rs[el[j]]
  {
    if j == i - 1 {
      SweepUntouched(rs, el, residue, j, el[j]);
      SweepResidue(rs, el, residue, j);
    } else {
      SweepDonorBounds(rs, el, residue, i - 1, j);
      assert el[i - 1] != el[j];
    }
  }

  /** With nothing owed the sweep changes nothing. */
  lemma {:induction false} SweepNothingOwed(rs: seq<real>, el: seq<nat>, i: nat)
    requires i <= |el| && InRange(el, |rs|)
    requires forall j :: 0 <= j < |el| ==> rs[el[j]] >= MIN_RADIUS
    ensures SweepUpTo(rs, el, 0.0, i) == SweepState(rs, 0.0)
  {
    if i > 0 {
      SweepNothingOwed(rs, el, i - 1);
      assert rs[el[i - 1] := rs[el[i - 1]]] == rs;
    }
  }

  // ---------------------------------------------------------------------------
  // The allocator.

  /** New radii of the group and of the chosen circle. */
  datatype Allocation = Allocation(group: seq<real>, chosen: real)

  /** The ceiling the chosen circle may reach while every other member sits at the floor. */
  function MaxRadius(n: nat, power: real): real
  {
    power - (n - 1) as real * MIN_RADIUS
  }

  /** The allocator does nothing this tick: the group has at most one member, the
      chosen circle would pass the ceiling, there is no eligible donor, or the
      donors' slack is below CHANGE_UP. */
  predicate Blocked(rs: seq<real>, chosen: int, chosenRadius: real, power: real)
  {
    || |rs| <= 1
    || chosenRadius + CHANGE_UP > MaxRadius(|rs|, power)
    || |Eligibles(rs, chosen)| == 0
    || Slack(rs, Eligibles(rs, chosen)) < CHANGE_UP
  }

  /** The donors' radii after the corrected loop and the residue sweep. */
  function Donated(rs: seq<real>, el: seq<nat>): (ds: seq<real>)
    requires 0 < |el| && InRange(el, |rs|)
    ensures |ds| == |rs|
  {
    var shared := ShareUpTo(rs, el, |el|);
    SweepUpTo(shared.radii, el, shared.spare, |el|).radii
  }

  /** Every donor is at or above the floor when the corrected loop ends. */
  lemma ShareFloors(rs: seq<real>, el: seq<nat>)
    requires 0 < |el| && InRange(el, |rs|) && Distinct(el)
    requires forall j :: 0 <= j < |el| ==> rs[el[j]] >= MIN_RADIUS
    ensures forall j :: 0 <= j < |el| ==> ShareUpTo(rs, el, |el|).radii[el[j]] >= MIN_RADIUS
  {
    forall j | 0 <= j < |el|
      ensures ShareUpTo(rs, el, |el|).radii[el[j]] >= MIN_RADIUS
    {
      ShareDonorBounds(rs, el, |el|, j);
    }
  }

  /** A donor ends between the floor and its old radius; any other member is untouched. */
  lemma DonatedAt(rs: seq<real>, el: seq<nat>, k: nat)
    requires 0 < |el| && InRange(el, |rs|) && Distinct(el) && k < |rs|
    requires forall j :: 0 <= j < |el| ==> rs[el[j]] >= MIN_RADIUS
    ensures k in el ==> MIN_RADIUS <= Donated(rs, el)[k] <= rs[k]
    ensures k !in el ==> Donated(rs, el)[k] == rs[k]
  {
    var n := |el|;
    var shared := ShareUpTo(rs, el, n);
    SharePositive(rs, el, n);
    ShareFloors(rs, el);
    if k in el {
      var j :| 0 <= j < n && el[j] == k;
      ShareDonorBounds(rs, el, n, j);
      SweepDonorBounds(shared.radii, el, shared.spare, n, j);
    } else {
      ShareUntouched(rs, el, n, k);
      SweepUntouched(shared.radii, el, shared.spare, n, k);
    }
  }

  /** When the donors' slack covers CHANGE_UP, together they give up exactly CHANGE_UP. */
  lemma DonatedSum(rs: seq<real>, el: seq<nat>)
    requires 0 < |el| && InRange(el, |rs|) && Distinct(el)
    requires forall j :: 0 <= j < |el| ==> rs[el[j]] >= MIN_RADIUS
    requires Slack(rs, el) >= CHANGE_UP
    ensures Sum(Donated(rs, el)) == Sum(rs) - CHANGE_UP
  {
    var n := |el|;
    var shared := ShareUpTo(rs, el, n);
    ShareInvariant(rs, el, n);
    SharePositive(rs, el, n);
    ShareFloors(rs, el);
    SweepResidue(shared.radii, el, shared.spare, n);
    SweepSum(shared.radii, el, shared.spare, n);
    assert el[..n] == el;
  }

  /** One tick of the corrected allocator on a group. */
  function Allocate(rs: seq<real>, chosen: int, chosenRadius: real, power: real): (a: Allocation)
  {
    if Blocked(rs, chosen, chosenRadius, power) then Allocation(rs, chosenRadius)
    else
      var donated := Donated(rs, Eligibles(rs, chosen));
      var grown := chosenRadius + CHANGE_UP;
      Allocation(if 0 <= chosen < |rs| then donated[chosen := grown] else donated, grown)
  }

  /** What one tick of the allocator promises. A blocked tick changes nothing.
      Otherwise the chosen circle grows by exactly CHANGE_UP and stays under the
      ceiling, members that cannot donate keep their radius, every donor ends at
      or above MIN_RADIUS and no higher than before, and the donors together give
      up exactly CHANGE_UP. */
  lemma AllocateSpec(rs: seq<real>, chosen: int, chosenRadius: real, power: real)
    ensures var a := Allocate(rs, chosen, chosenRadius, power);
      && |a.group| == |rs|
      && (Blocked(rs, chosen, chosenRadius, power) ==> a == Allocation(rs, chosenRadius))
      && (!Blocked(rs, chosen, chosenRadius, power) ==>
            && a.chosen == chosenRadius + CHANGE_UP
            && a.chosen <= MaxRadius(|rs|, power)
            && (0 <= chosen < |rs| ==> a.group[chosen] == a.chosen)
            && (forall k :: 0 <= k < |rs| && k != chosen && !CanDonate(rs[k]) ==> a.group[k] == rs[k])
            && (forall k :: 0 <= k < |rs| && k != chosen && CanDonate(rs[k]) ==>
                  MIN_RADIUS <= a.group[k] <= rs[k])
            && Sum(a.group) == Sum(rs) - CHANGE_UP
                 + (if 0 <= chosen < |rs| then a.chosen - rs[chosen] else 0.0))
  {
    if !Blocked(rs, chosen, chosenRadius, power) {
      var el := Eligibles(rs, chosen);
      var a := Allocate(rs, chosen, chosenRadius, power);
      var donated := Donated(rs, el);
      forall k | 0 <= k < |rs| && k != chosen
        ensures donated[k] == a.group[k]
        ensures !CanDonate(rs[k]) ==> a.group[k] == rs[k]
        ensures CanDonate(rs[k]) ==> MIN_RADIUS <= a.group[k] <= rs[k]
      {
        DonatedAt(rs, el, k);
      }
      DonatedSum(rs, el);
      if 0 <= chosen < |rs| {
        DonatedAt(rs, el, chosen);
        SumUpdate(donated, chosen, chosenRadius + CHANGE_UP);
      }
    }
  }

  /** Conservation of the colour's power: when the chosen circle is a member of
      the group, one tick leaves the group's radius sum unchanged. */
  lemma AllocateConserves(rs: seq<real>, chosen: nat, power: real)
    requires chosen < |rs|
    ensures Sum(Allocate(rs, chosen, rs[chosen], power).group) == Sum(rs)
  {
    AllocateSpec(rs, chosen, rs[chosen], power);
  }

  /** When no eligible donor would reach the floor, each gives exactly
      CHANGE_UP / |eligibles|. */
  lemma AllocateEqualShares(rs: seq<real>, chosen: int, chosenRadius: real, power: real, k: nat)
    requires !Blocked(rs, chosen, chosenRadius, power)
    requires forall k :: k in Eligibles(rs, chosen) ==>
               rs[k] - CHANGE_UP / |Eligibles(rs, chosen)| as real >= MIN_RADIUS
    requires k in Eligibles(rs, chosen)
    ensures Allocate(rs, chosen, chosenRadius, power).group[k]
              == rs[k] - CHANGE_UP / |Eligibles(rs, chosen)| as real
  {
    var el := Eligibles(rs, chosen);
    var n := |el|;
    ShareWithoutFloorState(rs, el, n);
    var j :| 0 <= j < n && el[j] == k;
    ShareWithoutFloorAt(rs, el, n, j);
    var shared := ShareUpTo(rs, el, n);
    ShareFloors(rs, el);
    SweepNothingOwed(shared.radii, el, n);
    assert k != chosen;
  }

  // ---------------------------------------------------------------------------
  // The donor loop as the source writes it.

  /** One donor step as written: the shortfall is divided by `|el| - i + 1`, and
      once positive it is never cleared, so it is added again for every later donor. */
  function AsWrittenStep(s: PassState, el: seq<nat>, i: nat): (t: PassState)
    requires i < |el| && el[i] < |s.radii|
    ensures |t.radii| == |s.radii|
  {
    var k := el[i];
    var r := s.radii[k];
    var fits := r - s.changeDown >= MIN_RADIUS;
    var radii := if fits then s.radii[k := r - s.changeDown] else s.radii[k := MIN_RADIUS];
    var spare := if fits then s.spare else s.changeDown - (r - MIN_RADIUS);
    if spare > 0.0 then PassState(radii, s.changeDown + spare / (|el| - i + 1) as real, spare)
    else PassState(radii, s.changeDown, 0.0)
  }

  function AsWrittenUpTo(rs: seq<real>, el: seq<nat>, i: nat): (s: PassState)
    requires 0 < |el| && i <= |el| && InRange(el, |rs|)
    ensures |s.radii| == |rs|
  {
    if i == 0 then PassState(rs, CHANGE_UP / |el| as real, 0.0)
    else AsWrittenStep(AsWrittenUpTo(rs, el, i - 1), el, i - 1)
  }

  /** One donor step as written changes only that donor, which gives the share
      or what it has above the floor, whichever is less. The share grows for
      the later donors exactly when this donor falls short or an earlier
      shortfall is still carried. */
  lemma AsWrittenStepSpec(p: PassState, el: seq<nat>, i: nat)
    requires i < |el| && InRange(el, |p.radii|)
    requires p.changeDown > 0.0 && p.spare >= 0.0 && p.radii[el[i]] >= MIN_RADIUS
    ensures var s := AsWrittenStep(p, el, i);
      var r := p.radii[el[i]];
      && s.radii == p.radii[el[i] := Max(MIN_RADIUS, r - p.changeDown)]
      && MIN_RADIUS <= s.radii[el[i]] <= r
      && s.changeDown >= p.changeDown && s.spare >= 0.0
      && (s.changeDown > p.changeDown <==> r - p.changeDown < MIN_RADIUS || p.spare > 0.0)
  {
  }

  /** One tick of the allocator exactly as the source writes it. */
  function AllocateAsWritten(rs: seq<real>, chosen: int, chosenRadius: real, power: real): (a: Allocation)
  {
    if Blocked(rs, chosen, chosenRadius, power) then Allocation(rs, chosenRadius)
    else
      var el := Eligibles(rs, chosen);
      var passed := AsWrittenUpTo(rs, el, |el|);
      var grown := chosenRadius + CHANGE_UP;
      Allocation(if 0 <= chosen < |rs| then passed.radii[chosen := grown] else passed.radii, grown)
  }

  /** The share of the loop as written stays positive and a shortfall is never negative. */
  lemma {:induction false} AsWrittenPositive(rs: seq<real>, el: seq<nat>, i: nat)
    requires 0 < |el| && i <= |el| && InRange(el, |rs|)
    ensures AsWrittenUpTo(rs, el, i).changeDown > 0.0 && AsWrittenUpTo(rs, el, i).spare >= 0.0
  {
    if i > 0 {
      AsWrittenPositive(rs, el, i - 1);
    }
  }

  /** The loop as written does not touch a member before visiting it. */
  lemma {:induction false} AsWrittenUntouched(rs: seq<real>, el: seq<nat>, i: nat, k: nat)
    requires 0 < |el| && i <= |el| && InRange(el, |rs|) && k < |rs|
    requires forall j :: 0 <= j < i ==> el[j] != k
    ensures AsWrittenUpTo(rs, el, i).radii[k] == rs[k]
  {
    if i > 0 {
      AsWrittenUntouched(rs, el, i - 1, k);
    }
  }

  /** The loop as written still keeps each donor between the floor and its old radius. */
  lemma {:induction false} AsWrittenDonorBounds(rs: seq<real>, el: seq<nat>, i: nat, j: nat)
    requires 0 < |el| && i <= |el| && InRange(el, |rs|) && Distinct(el) && j < i
    requires rs[el[j]] >= MIN_RADIUS
    ensures MIN_RADIUS <= AsWrittenUpTo(rs, el, i).radii[el[j]] <= rs[el[j]]
  {
    if j == i - 1 {
      AsWrittenUntouched(rs, el, j, el[j]);
      AsWrittenPositive(rs, el, j);
    } else {
      AsWrittenDonorBounds(rs, el, i - 1, j);
      assert el[i - 1] != el[j];
    }
  }

  /** The loop as written also leaves a donor that cannot give the share it is
      asked for exactly at the floor. */
  lemma {:induction false} AsWrittenFloorExact(rs: seq<real>, el: seq<nat>, i: nat, j: nat)
    requires 0 < |el| && i <= |el| && InRange(el, |rs|) && Distinct(el) && j < i
    requires AsWrittenUpTo(rs, el, j).radii[el[j]] - AsWrittenUpTo(rs, el, j).changeDown < MIN_RADIUS
    ensures AsWrittenUpTo(rs, el, i).radii[el[j]] == MIN_RADIUS
  {
    if j < i - 1 {
      AsWrittenFloorExact(rs, el, i - 1, j);
      assert el[i - 1] != el[j];
    }
  }

  /** When no donor would reach the floor, the loop as written keeps its first
      share and never records a shortfall. */
  lemma {:induction false} AsWrittenWithoutFloorState(rs: seq<real>, el: seq<nat>, i: nat)
    requires 0 < |el| && i <= |el| && InRange(el, |rs|) && Distinct(el)
    requires forall j :: 0 <= j < |el| ==> rs[el[j]] - CHANGE_UP / |el| as real >= MIN_RADIUS
    ensures AsWrittenUpTo(rs, el, i).changeDown == CHANGE_UP / |el| as real
    ensures AsWrittenUpTo(rs, el, i).spare == 0.0
  {
    if i > 0 {
      AsWrittenWithoutFloorState(rs, el, i - 1);
      AsWrittenUntouched(rs, el, i - 1, el[i - 1]);
    }
  }

  /** So on such a group the loop as written agrees with the corrected one: every
      donor gives exactly CHANGE_UP / |el|. */
  lemma {:induction false} AsWrittenWithoutFloorAt(rs: seq<real>, el: seq<nat>, i: nat, j: nat)
    requires 0 < |el| && i <= |el| && InRange(el, |rs|) && Distinct(el) && j < i
    requires forall j :: 0 <= j < |el| ==> rs[el[j]] - CHANGE_UP / |el| as real >= MIN_RADIUS
    ensures AsWrittenUpTo(rs, el, i).radii[el[j]] == rs[el[j]] - CHANGE_UP / |el| as real
  {
    if j == i - 1 {
      AsWrittenWithoutFloorState(rs, el, j);
      AsWrittenUntouched(rs, el, j, el[j]);
    } else {
      AsWrittenWithoutFloorAt(rs, el, i - 1, j);
      assert el[i - 1] != el[j];
    }
  }

  /** When no donor would reach the floor, the loop as written and the corrected
      loop are the same loop. */
  lemma {:induction false} AsWrittenAgreesWithoutFloor(rs: seq<real>, el: seq<nat>, i: nat)
    requires 0 < |el| && i <= |el| && InRange(el, |rs|) && Distinct(el)
    requires forall j :: 0 <= j < |el| ==> rs[el[j]] - CHANGE_UP / |el| as real >= MIN_RADIUS
    ensures AsWrittenUpTo(rs, el, i) == ShareUpTo(rs, el, i)
  {
    if i > 0 {
      AsWrittenAgreesWithoutFloor(rs, el, i - 1);
      ShareWithoutFloorState(rs, el, i - 1);
      ShareUntouched(rs, el, i - 1, el[i - 1]);
    }
  }

  /** Where the source does conserve power: when no eligible donor would reach
      the floor, one tick as written is the corrected tick, so a chosen circle
      of the group grows by exactly what the others give up. */
  lemma AsWrittenConservesWithoutFloor(rs: seq<real>, chosen: int, chosenRadius: real, power: real)
    requires !Blocked(rs, chosen, chosenRadius, power)
    requires forall k :: k in Eligibles(rs, chosen) ==>
               rs[k] - CHANGE_UP / |Eligibles(rs, chosen)| as real >= MIN_RADIUS
    ensures AllocateAsWritten(rs, chosen, chosenRadius, power) == Allocate(rs, chosen, chosenRadius, power)
    ensures 0 <= chosen < |rs| && chosenRadius == rs[chosen] ==>
              Sum(AllocateAsWritten(rs, chosen, chosenRadius, power).group) == Sum(rs)
  {
    var el := Eligibles(rs, chosen);
    var n := |el|;
    assert forall j :: 0 <= j < n ==> el[j] in el;
    AsWrittenAgreesWithoutFloor(rs, el, n);
    ShareWithoutFloorState(rs, el, n);
    ShareFloors(rs, el);
    SweepNothingOwed(ShareUpTo(rs, el, n).radii, el, n);
    if 0 <= chosen < |rs| && chosenRadius == rs[chosen] {
      AllocateConserves(rs, chosen, power);
    }
  }

  /** What one tick as written still promises: a blocked tick changes nothing.
      Otherwise the chosen circle grows by exactly CHANGE_UP and stays under the
      ceiling, members that cannot donate keep their radius, and every donor
      ends at or above MIN_RADIUS and no higher than before. What it loses is
      the group's sum (AsWrittenBreaksConservation). */
  lemma AsWrittenSpec(rs: seq<real>, chosen: int, chosenRadius: real, power: real)
    ensures var a := AllocateAsWritten(rs, chosen, chosenRadius, power);
      && |a.group| == |rs|
      && (Blocked(rs, chosen, chosenRadius, power) ==> a == Allocation(rs, chosenRadius))
      && (!Blocked(rs, chosen, chosenRadius, power) ==>
            && a.chosen == chosenRadius + CHANGE_UP
            && a.chosen <= MaxRadius(|rs|, power)
            && (0 <= chosen < |rs| ==> a.group[chosen] == a.chosen)
            && (forall k :: 0 <= k < |rs| && k != chosen && !CanDonate(rs[k]) ==> a.group[k] == rs[k])
            && (forall k :: 0 <= k < |rs| && k != chosen && CanDonate(rs[k]) ==>
                  MIN_RADIUS <= a.group[k] <= rs[k]))
  {
    if !Blocked(rs, chosen, chosenRadius, power) {
      var el := Eligibles(rs, chosen);
      var passed := AsWrittenUpTo(rs, el, |el|);
      forall k | 0 <= k < |rs| && k != chosen
        ensures !CanDonate(rs[k]) ==> passed.radii[k] == rs[k]
        ensures CanDonate(rs[k]) ==> MIN_RADIUS <= passed.radii[k] <= rs[k]
      {
        if k in el {
          var j :| 0 <= j < |el| && el[j] == k;
          AsWrittenDonorBounds(rs, el, |el|, j);
        } else {
          AsWrittenUntouched(rs, el, |el|, k);
        }
      }
    }
  }

  /** The finding: a group with radii 0.1 (chosen), 0.052 and 0.1 and power 0.252.
      The second member reaches the floor after giving 0.002; the loop as written
      then raises the share of the last donor to 0.006 only, so the donors give up
      0.008 while the chosen circle grows by 0.01 and the group's sum rises by
      0.002. The corrected allocator takes 0.008 from the last donor and keeps the
      sum at 0.252. */
  lemma AsWrittenBreaksConservation()
    ensures var rs := [0.1, 0.052, 0.1];
      && !Blocked(rs, 0, 0.1, 0.252)
      && AllocateAsWritten(rs, 0, 0.1, 0.252).group == [0.11, 0.05, 0.094]
      && Sum(AllocateAsWritten(rs, 0, 0.1, 0.252).group) == Sum(rs) + 0.002
      && Allocate(rs, 0, 0.1, 0.252).group == [0.11, 0.05, 0.092]
      && Sum(Allocate(rs, 0, 0.1, 0.252).group) == Sum(rs)
  {
    var rs := [0.1, 0.052, 0.1];
    ExampleEligibles();
    ExampleNotBlocked();
    ExampleAsWritten();
    ExampleCorrected();
    assert Sum(rs) == 0.252 by { SumOfThree(0.1, 0.052, 0.1); }
    SumOfThree(0.11, 0.05, 0.094);
    SumOfThree(0.11, 0.05, 0.092);
  }

  lemma SumOfThree(a: real, b: real, c: real)
    ensures Sum([a, b, c]) == a + b + c
  {
    assert [a, b, c][..2] == [a, b];
    assert [a, b][..1] == [a];
    assert [a][..0] == [];
    assert Sum([a]) == a;
    assert Sum([a, b]) == a + b;
  }

  /** In the example group the eligible donors are the second and third members. */
  lemma ExampleEligibles()
    ensures Eligibles([0.1, 0.052, 0.1], 0) == [1, 2]
  {
    var rs := [0.1, 0.052, 0.1];
    assert EligiblesUpTo(rs, 0, 1) == [];
    assert EligiblesUpTo(rs, 0, 2) == [1] by { assert CanDonate(rs[1]); }
    assert CanDonate(rs[2]);
  }

  /** Their slack is 0.002 and 0.05, so the tick is not blocked. */
  lemma ExampleNotBlocked()
    ensures Slack([0.1, 0.052, 0.1], [1]) == 0.002
    ensures Slack([0.1, 0.052, 0.1], [1, 2]) == 0.052
    ensures !Blocked([0.1, 0.052, 0.1], 0, 0.1, 0.252)
  {
    var rs := [0.1, 0.052, 0.1];
    ExampleEligibles();
    assert [1, 2][..1] == [1] && [1][..0] == [];
    assert Slack(rs, [1]) == 0.002;
  }

  /** The loop as written on the example: the share of the last donor becomes 0.006. */
  lemma ExampleAsWritten()
    requires Eligibles([0.1, 0.052, 0.1], 0) == [1, 2]
    ensures AsWrittenUpTo([0.1, 0.052, 0.1], [1, 2], 2).radii == [0.1, 0.05, 0.094]
  {
    var rs := [0.1, 0.052, 0.1];
    var el := [1, 2];
    var w0 := AsWrittenUpTo(rs, el, 0);
    assert w0 == PassState(rs, 0.005, 0.0);
    var w1 := AsWrittenUpTo(rs, el, 1);
    assert w1 == AsWrittenStep(w0, el, 0);
    assert w1 == PassState([0.1, 0.05, 0.1], 0.006, 0.003);
    assert AsWrittenUpTo(rs, el, 2) == AsWrittenStep(w1, el, 1);
  }

  /** The corrected loop on the example: the share of the last donor becomes 0.008. */
  lemma ExampleCorrected()
    ensures ShareUpTo([0.1, 0.052, 0.1], [1, 2], 2) == PassState([0.1, 0.05, 0.092], 0.008, 0.0)
    ensures SweepUpTo([0.1, 0.05, 0.092], [1, 2], 0.0, 2).radii == [0.1, 0.05, 0.092]
  {
    var rs := [0.1, 0.052, 0.1];
    var el := [1, 2];
    var c0 := ShareUpTo(rs, el, 0);
    assert c0 == PassState(rs, 0.005, 0.0);
    var c1 := ShareUpTo(rs, el, 1);
    assert c1 == ShareStep(c0, el, 0);
    assert c1 == PassState([0.1, 0.05, 0.1], 0.008, 0.003);
    assert ShareUpTo(rs, el, 2) == ShareStep(c1, el, 1);
    SweepNothingOwed([0.1, 0.05, 0.092], el, 2);
  }
}
