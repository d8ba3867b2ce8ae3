/** The three-body simulator: a fixed heavy "yellow" anchor and two moving
    bodies, "blue" and "white", each of which keeps a bounded trail of the
    positions it has left behind. */
module Simulation {
  import opened Numerics
  import opened Geometry

  /** The gravitational constant. */
  const G: real := 1.0

  /** The time step `update` uses when none is given. */
  const DefaultDeltaT: real := 0.05

  /** How many past positions a trail keeps for time step `dt`: the
      whole-number part of `2.0 / dt`. */
  function Capacity(dt: real): (c: nat)
    requires dt > 0.0
    ensures c as real <= 2.0 / dt < c as real + 1.0
  {
    (2.0 / dt).Floor
  }

  /** The eviction test of `update`, `len(trail) > 2.0 / delta_t`, holds for a
      whole-number length exactly when the length exceeds the capacity. */
  lemma ExceedsIff(n: nat, dt: real)
    requires dt > 0.0
    ensures (n as real > 2.0 / dt) <==> n > Capacity(dt)
  {
  }

  /** At the default time step a trail keeps 40 positions. */
  lemma DefaultCapacity()
    ensures Capacity(DefaultDeltaT) == 40
  {
  }

  /** The newest entries of `t`, at most `c` of them, oldest first. */
  function Retain(t: seq<Vector>, c: nat): (r: seq<Vector>)
    ensures |r| == if |t| <= c then |t| else c
    ensures r == t[|t| - |r|..]
  {
    if |t| <= c then t else t[|t| - c..]
  }

  /** The eviction loop of `update` as a function: drop the oldest entry
      while the trail is longer than `limit`. */
  function Evict(t: seq<Vector>, limit: real): seq<Vector>
    decreases |t|
  {
    if t != [] && |t| as real > limit then Evict(t[1..], limit) else t
  }

  /** What eviction leaves is the newest part of `t`, in order, no longer
      than a non-negative `limit`, and only as short as the limit forces. */
  lemma {:induction false} EvictShape(t: seq<Vector>, limit: real)
    ensures |Evict(t, limit)| <= |t|
    ensures Evict(t, limit) == t[|t| - |Evict(t, limit)|..]
    ensures limit >= 0.0 ==> |Evict(t, limit)| as real <= limit
    ensures Evict(t, limit) == t || (|Evict(t, limit)| + 1) as real > limit
    decreases |t|
  {
    if t != [] && |t| as real > limit {
      EvictShape(t[1..], limit);
      assert t[1..][|t| - 1 - |Evict(t, limit)|..] == t[|t| - |Evict(t, limit)|..];
    }
  }

  /** Appending `p` to `trail` and then evicting from the front while the
      trail is longer than `2.0 / dt`. */
  method Record(trail: seq<Vector>, p: Vector, dt: real) returns (t: seq<Vector>)
    requires dt > 0.0
    ensures t == Evict(trail + [p], 2.0 / dt)
  {
    t := trail + [p];
    while |t| as real > 2.0 / dt
      invariant Evict(t, 2.0 / dt) == Evict(trail + [p], 2.0 / dt)
      decreases |t|
    {
      t := t[1..];
    }
  }

  /** With a limit of at least one, the entry just appended survives
      eviction as the newest entry, and every kept entry was in the trail
      or is the new one. */
  lemma EvictNewest(t: seq<Vector>, p: Vector, limit: real)
    requires limit >= 1.0
    ensures Evict(t + [p], limit) != []
    ensures Evict(t + [p], limit)[|Evict(t + [p], limit)| - 1] == p
    ensures forall q :: q in Evict(t + [p], limit) ==> q in t || q == p
  {
    var r := Evict(t + [p], limit);
    EvictShape(t + [p], limit);
    assert r == (t + [p])[|t| + 1 - |r|..];
    assert r[|r| - 1] == (t + [p])[|t|];
    forall q | q in r
      ensures q in t || q == p
    {
      var k :| 0 <= k < |r| && r[k] == q;
      assert q == (t + [p])[|t| + 1 - |r| + k];
    }
  }

  /** Evicting against `2.0 / dt` keeps exactly the newest `Capacity(dt)`
      entries: the loop's result in closed form. */
  lemma {:induction false} EvictIsRetain(t: seq<Vector>, dt: real)
    requires dt > 0.0
    ensures Evict(t, 2.0 / dt) == Retain(t, Capacity(dt))
    decreases |t|
  {
    ExceedsIff(|t|, dt);
    if t != [] && |t| as real > 2.0 / dt {
      EvictIsRetain(t[1..], dt);
      assert t[1..][|t| - 1 - Capacity(dt)..] == t[|t| - Capacity(dt)..];
    }
  }

  /** A trail after eviction holds at most `floor(2.0 / dt)` entries, and
      exactly that many once the history is that long. */
  lemma EvictWithinCapacity(t: seq<Vector>, dt: real)
    requires dt > 0.0
    ensures |Evict(t, 2.0 / dt)| <= Capacity(dt)
    ensures |t| >= Capacity(dt) ==> |Evict(t, 2.0 / dt)| == Capacity(dt)
  {
    EvictIsRetain(t, dt);
  }

  /** Evicting before appending loses nothing: recording `p` on a trail that
      already holds the newest `c` entries of a history gives the newest `c`
      entries of the history extended by `p`. */
  lemma RetainAppend(t: seq<Vector>, p: Vector, c: nat)
    ensures Retain(Retain(t, c) + [p], c) == Retain(t + [p], c)
  {
  }

  /** One step of the eviction loop on a trail that holds the newest
      `Capacity(dt)` entries of a history keeps the newest `Capacity(dt)`
      entries of the extended history: the bridge from `Record` to
      `Replay`. */
  lemma StepKeepsRetain(h: seq<Vector>, p: Vector, dt: real)
    requires dt > 0.0
    ensures Evict(Retain(h, Capacity(dt)) + [p], 2.0 / dt) == Retain(h + [p], Capacity(dt))
  {
    EvictIsRetain(Retain(h, Capacity(dt)) + [p], dt);
    RetainAppend(h, p, Capacity(dt));
  }

  /** The trail left by `Update` recording `history` one position at a time,
      starting from an empty trail, with the same step `dt` each time: each
      step is the append and eviction that `Record` performs. */
  function Replay(history: seq<Vector>, dt: real): seq<Vector>
    requires dt > 0.0
  {
    if history == [] then []
    else Evict(Replay(history[..|history| - 1], dt) + [history[|history| - 1]], 2.0 / dt)
  }

  /** After any number of updates at one positive step, a trail holds exactly
      the newest `min(steps, Capacity(dt))` positions, oldest first. */
  lemma {:induction false} ReplayIsRetain(history: seq<Vector>, dt: real)
    requires dt > 0.0
    ensures Replay(history, dt) == Retain(history, Capacity(dt))
  {
    if history != [] {
      var init, last := history[..|history| - 1], history[|history| - 1];
      assert init + [last] == history;
      ReplayIsRetain(init, dt);
      StepKeepsRetain(init, last, dt);
    }
  }

  /** The velocity change that body of mass `m` at displacement `d` causes in
      one step: `G * m * d / (abs(d) ** 3) * delta_t`, evaluated in the
      source's order (scale, divide, scale). */
  function Pull(d: Vector, m: real, dt: real): Vector
    requires d.Abs() != 0.0
  {
    d.RMul(G * m).Div(Cube(d.Abs())).Mul(dt)
  }

  /** The pull is `d` scaled by one factor, `G * m * dt / abs(d) ** 3`: the
      order of the source's operations does not matter over the reals. */
  lemma PullAlong(d: Vector, m: real, dt: real)
    requires d.Abs() != 0.0
    ensures Pull(d, m, dt) == d.Mul(G * m * dt / Cube(d.Abs()))
  {
  }

  /** Newton's inverse-square law: for a non-negative mass and time step the
      pull has length `G * m * dt / abs(d) ** 2`. */
  lemma PullInverseSquare(d: Vector, m: real, dt: real)
    requires SqrtSound()
    requires d.Abs() != 0.0
    requires m >= 0.0 && dt >= 0.0
    ensures Pull(d, m, dt).Abs() == G * m * dt / Square(d.Abs())
  {
    var n := d.Abs();
    AbsNonNegative(d);
    var k := G * m * dt / Cube(n);
    PullAlong(d, m, dt);
    AbsMul(d, k);
    SquareSign(n);
    DivCancel(G * m * dt, Square(n), n);
    assert k >= 0.0;
  }

  /** Gravity attracts: the pull has a positive component along `d`, so
      subtracting it from the velocity of the body at `d` (relative to the
      attractor) turns that velocity towards the attractor. */
  lemma PullAttracts(d: Vector, m: real, dt: real)
    requires SqrtSound()
    requires d.Abs() != 0.0
    requires m > 0.0 && dt > 0.0
    ensures Pull(d, m, dt).x * d.x + Pull(d, m, dt).y * d.y > 0.0
  {
    AbsNonNegative(d);
    AbsZeroIff(d);
    SquaredLengthSign(d);
    var k := G * m * dt / Cube(d.Abs());
    PullAlong(d, m, dt);
    assert k > 0.0;
    assert Pull(d, m, dt).x * d.x + Pull(d, m, dt).y * d.y == k * (Square(d.x) + Square(d.y));
  }

  /** The simulated system, updated in place one time step at a time. */
  class Universe {
    var yellowR: real
    var yellowM: real
    var yellowP: Vector

    var blueR: real
    var blueM: real
    var blueP: Vector
    var blueV: Vector
    var blueTrail: seq<Vector>

    var whiteR: real
    var whiteM: real
    var whiteP: Vector
    var whiteV: Vector
    var whiteTrail: seq<Vector>

    /** Every mass and every radius is positive. */
    predicate Valid()
      reads this
    {
      yellowM > 0.0 && blueM > 0.0 && whiteM > 0.0 &&
      yellowR > 0.0 && blueR > 0.0 && whiteR > 0.0
    }

    /** The initial system: the anchor at the origin, blue at (200, 0) and
        white at (200, 30), each moving straight down at the speed of a
        circular orbit around the anchor alone. */
    constructor ()
      requires SqrtSound()
      ensures Valid()
      ensures yellowR == 50.0 && yellowM == 5000000.0 && yellowP == Zero
      ensures blueR == 15.0 && blueM == 3000.0 && blueP == Vector(200.0, 0.0)
      ensures whiteR == 5.0 && whiteM == 100.0 && whiteP == Vector(200.0, 30.0)
      ensures blueTrail == [] && whiteTrail == []
      ensures blueP.Sub(yellowP).Abs() > 0.0 && whiteP.Sub(yellowP).Abs() > 0.0
      ensures blueV == Vector(0.0, -Sqrt(G * yellowM / blueP.Sub(yellowP).Abs()))
      ensures whiteV == Vector(0.0, -Sqrt(G * yellowM / whiteP.Sub(yellowP).Abs()))
      ensures blueV.x == 0.0 && blueV.y < 0.0 && whiteV.x == 0.0 && whiteV.y < 0.0
      ensures Square(blueV.y) == 25000.0
    {
      var anchorM := 5000000.0;
      var blue := Vector(200.0, 0.0);
      var white := Vector(200.0, 30.0);
      var blueDist := blue.Sub(Zero).Abs();
      var whiteDist := white.Sub(Zero).Abs();
      OrbitSpeed(blue.Sub(Zero), anchorM);
      OrbitSpeed(white.Sub(Zero), anchorM);

      yellowR := 50.0;
      yellowM := anchorM;
      yellowP := Zero;

      blueR := 15.0;
      blueM := 3000.0;
      blueP := blue;
      blueV := Vector(0.0, -Sqrt(G * anchorM / blueDist));
      blueTrail := [];

      whiteR := 5.0;
      whiteM := 100.0;
      whiteP := white;
      whiteV := Vector(0.0, -Sqrt(G * anchorM / whiteDist));
      whiteTrail := [];
      new;
      BlueStartSpeed(this);
    }

    /** `scene`: the three bodies as circles, anchor first, then blue, then
        white, each at the body's position with the body's radius. */
    function Scene(): (s: Geometry.Scene)
      reads this
      ensures |s.shapes| == 3
      ensures forall i :: 0 <= i < 3 ==> s.shapes[i].Circle?
      ensures s.shapes[0].o == yellowP && s.shapes[0].r == yellowR
      ensures s.shapes[1].o == blueP && s.shapes[1].r == blueR
      ensures s.shapes[2].o == whiteP && s.shapes[2].r == whiteR
    {
      Geometry.Scene([Circle(yellowP, yellowR), Circle(blueP, blueR), Circle(whiteP, whiteR)])
    }

    /** One explicit Euler step of length `dt`. For blue, then for white:
        record the old position in the trail, move by the old velocity, then
        change the velocity by the pull of the other bodies at their current
        positions (so white feels blue where blue has just moved to). The
        anchor never moves. Requires the divisions by `abs(d) ** 3` to be
        defined, which is where the source would fail. */
    method Update(dt: real := DefaultDeltaT)
      requires dt > 0.0
      requires blueP.Add(blueV.Mul(dt)).Sub(yellowP).Abs() != 0.0
      requires whiteP.Add(whiteV.Mul(dt)).Sub(yellowP).Abs() != 0.0
      requires whiteP.Add(whiteV.Mul(dt)).Sub(blueP.Add(blueV.Mul(dt))).Abs() != 0.0
      modifies this
      ensures yellowP == old(yellowP)
      ensures yellowM == old(yellowM) && blueM == old(blueM) && whiteM == old(whiteM)
      ensures yellowR == old(yellowR) && blueR == old(blueR) && whiteR == old(whiteR)
      ensures blueTrail == Evict(old(blueTrail) + [old(blueP)], 2.0 / dt)
      ensures blueP == old(blueP).Add(old(blueV).Mul(dt))
      ensures blueV == old(blueV).Sub(Pull(blueP.Sub(yellowP), yellowM, dt))
      ensures whiteTrail == Evict(old(whiteTrail) + [old(whiteP)], 2.0 / dt)
      ensures whiteP == old(whiteP).Add(old(whiteV).Mul(dt))
      ensures whiteV == old(whiteV).Sub(Pull(whiteP.Sub(yellowP), yellowM, dt))
                                   .Sub(Pull(whiteP.Sub(blueP), blueM, dt))
      ensures Scene().shapes[0] == old(Scene().shapes[0])
      ensures Scene().shapes[1].r == old(Scene().shapes[1].r)
      ensures Scene().shapes[2].r == old(Scene().shapes[2].r)
      ensures old(Valid()) ==> Valid()
    {
      var bTrail := Record(blueTrail, blueP, dt);
      var bP := blueP.Add(blueV.Mul(dt));
      var d := bP.Sub(yellowP);
      var bV := blueV.Sub(Pull(d, yellowM, dt));

      var wTrail := Record(whiteTrail, whiteP, dt);
      var wP := whiteP.Add(whiteV.Mul(dt));
      var dYellow := wP.Sub(yellowP);
      var dBlue := wP.Sub(bP);
      var wV := whiteV.Sub(Pull(dYellow, yellowM, dt)).Sub(Pull(dBlue, blueM, dt));

      blueTrail, blueP, blueV := bTrail, bP, bV;
      whiteTrail, whiteP, whiteV := wTrail, wP, wV;
    }
  }

  /** The initial speed `sqrt(G * M / abs(d))` of a body at displacement `d`
      from an anchor of mass `M > 0` is the circular-orbit speed:
      `speed ** 2 * abs(d) == G * M`. */
  lemma OrbitSpeed(d: Vector, anchorM: real)
    requires SqrtSound()
    requires d != Zero && anchorM > 0.0
    ensures d.Abs() > 0.0
    ensures Sqrt(G * anchorM / d.Abs()) > 0.0
    ensures Square(-Sqrt(G * anchorM / d.Abs())) * d.Abs() == G * anchorM
  {
    AbsNonNegative(d);
    AbsZeroIff(d);
    var v := Sqrt(G * anchorM / d.Abs());
    SqrtAt(G * anchorM / d.Abs());
    SqrtZeroIff(G * anchorM / d.Abs());
    assert Square(-v) == Square(v);
  }

  /** In the universe the constructor builds, blue starts 200 units from the
      anchor, so the square of its initial speed
      `sqrt(G * 5000000 / abs(blue_p - yellow_p))` is 25000 (a speed of about
      158.11). The hypotheses are the constructor's postconditions about these
      fields. */
  lemma BlueStartSpeed(u: Universe)
    requires SqrtSound()
    requires u.yellowM == 5000000.0 && u.yellowP == Zero && u.blueP == Vector(200.0, 0.0)
    requires u.blueP.Sub(u.yellowP).Abs() > 0.0
    requires u.blueV == Vector(0.0, -Sqrt(G * u.yellowM / u.blueP.Sub(u.yellowP).Abs()))
    ensures u.blueP.Sub(u.yellowP).Abs() == 200.0
    ensures Square(u.blueV.y) == 25000.0
  {
    SqrtOf(Square(200.0) + Square(0.0), 200.0);
    NegRootOfQuotient(G * u.yellowM, u.blueP.Sub(u.yellowP).Abs(), 200.0, 25000.0);
  }

  /** The three pulls that `Update` subtracts, taken at the positions its
      postcondition names (the new ones), all attract in a valid universe:
      each has a positive component along its displacement `d`, so
      subtracting it turns blue towards the anchor, and white towards the
      anchor and towards blue. Applied to the universe after `Update`, whose
      masses are unchanged and whose `Valid()` is kept. */
  lemma UpdatePullsAttract(u: Universe, dt: real)
    requires SqrtSound()
    requires u.Valid() && dt > 0.0
    requires u.blueP.Sub(u.yellowP).Abs() != 0.0
    requires u.whiteP.Sub(u.yellowP).Abs() != 0.0
    requires u.whiteP.Sub(u.blueP).Abs() != 0.0
    ensures var d := u.blueP.Sub(u.yellowP);
      Pull(d, u.yellowM, dt).x * d.x + Pull(d, u.yellowM, dt).y * d.y > 0.0
    ensures var d := u.whiteP.Sub(u.yellowP);
      Pull(d, u.yellowM, dt).x * d.x + Pull(d, u.yellowM, dt).y * d.y > 0.0
    ensures var d := u.whiteP.Sub(u.blueP);
      Pull(d, u.blueM, dt).x * d.x + Pull(d, u.blueM, dt).y * d.y > 0.0
  {
    PullAttracts(u.blueP.Sub(u.yellowP), u.yellowM, dt);
    PullAttracts(u.whiteP.Sub(u.yellowP), u.yellowM, dt);
    PullAttracts(u.whiteP.Sub(u.blueP), u.blueM, dt);
  }

  /** Every circle of a valid universe's scene has a proper bounding box
      that covers the body's disc. */
  lemma SceneBoxesProper(u: Universe, i: nat, p: Vector)
    requires u.Valid() && i < 3
    requires Square(p.x - u.Scene().shapes[i].o.x) + Square(p.y - u.Scene().shapes[i].o.y)
          <= Square(u.Scene().shapes[i].r)
    ensures u.Scene().shapes[i].BoundingBox().Proper()
    ensures u.Scene().shapes[i].BoundingBox().Contains(p)
  {
    var c := u.Scene().shapes[i];
    CircleBoxShape(c);
    CircleBoxCoversDisc(c, p);
  }
}
