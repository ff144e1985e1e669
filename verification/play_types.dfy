/** Shared vocabulary of the circle puzzle: the colour tags, the tuning constants
    of the stage and of a circle, and an Option type for lookups that may fail. */
module PlayTypes {

  /** The colour tags a level can use. A level descriptor that is not WHITE is
      loaded as BLUE, so these two are the only colours the stage ever groups. */
  datatype ColorType = White | Blue

  /** Smallest radius of a circle that is not merging away (LevelStage.MIN_RADIUS). */
  const MIN_RADIUS: real := 0.05

  /** Radius a chosen circle gains per tick, and the per-tick buffer rate (LevelStage.CHANGE_UP). */
  const CHANGE_UP: real := 0.01

  /** Absolute radius floor of every circle (ColoredCircle.ACTUAL_MIN_RADIUS). */
  const ACTUAL_MIN_RADIUS: real := 0.001

  /** Numerator of the speed limit: speed = SPEED_FACTOR / radius. */
  const SPEED_FACTOR: real := 0.1

  datatype Option<T> = None | Some(value: T)

  /** The larger of two reals. */
  function Max(a: real, b: real): (m: real)
    ensures m >= a && m >= b && (m == a || m == b)
  {
    if a >= b then a else b
  }

  /** The smaller of two reals. */
  function Min(a: real, b: real): (m: real)
    ensures m <= a && m <= b && (m == a || m == b)
  {
    if a <= b then a else b
  }

  /** Sum of a sequence of radii, accumulated from the back so that loops that
      append one element at a time can keep it as an invariant. */
  function Sum(rs: seq<real>): real
  {
    if rs == [] then 0.0 else Sum(rs[..|rs| - 1]) + rs[|rs| - 1]
  }

  /** Replacing one element changes the sum by exactly the difference. */
  lemma {:induction false} SumUpdate(rs: seq<real>, k: nat, v: real)
    requires k < |rs|
    ensures Sum(rs[k := v]) == Sum(rs) - rs[k] + v
  {
    var n := |rs|;
    if k == n - 1 {
      assert rs[k := v][..n - 1] == rs[..n - 1];
    } else {
      assert rs[k := v][..n - 1] == rs[..n - 1][k := v];
      SumUpdate(rs[..n - 1], k, v);
    }
  }
}
