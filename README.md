# orbits — a Dafny model of the gravity simulator core

`main.py` of the orbits repository draws a heavy fixed "yellow" anchor and
two bodies, "blue" and "white", that move around it under Newtonian gravity,
advanced by explicit Euler steps. Each moving body keeps a trail of the
positions it has left behind. This project models the two parts of that
file that compute something:

- **Geometry** (`geometry.dfy`, module `Geometry`): the frozen value types
  `Vector`, `BBox`, `Circle`, `Curve` and `Scene`, as datatypes over `real`
  and functions. `Circle` and `Curve` are the two variants of one `Shape`
  datatype, which replaces the source's empty `Shape` base class.
  The lemmas cover:
  - vector arithmetic, and the length `abs`;
  - translation of boxes, circles and polylines as a group action;
  - the circle's bounding box: its shape, that it covers the disc, and
    that it commutes with translation.
- **Simulation** (`simulation.dfy`, module `Simulation`): the `Universe`
  state machine as a class whose fields are the source's attributes, with:
  - the constructor, with the initial configuration;
  - the read-only `Scene` snapshot;
  - `Update`, which changes every moving field in place.

  The trail eviction loop (`append`, then `pop(0)` while the trail is longer
  than `2.0 / delta_t`) is the method `Record`, with a `while` loop. It is
  proved against the recursive specification `Evict`. Lemmas then give
  `Evict` in closed form: it keeps the newest `floor(2.0 / delta_t)` entries.
  The gravity term `G * m * d / abs(d) ** 3 * delta_t` is the function
  `Pull`, evaluated in the source's order. Lemmas prove that it points
  along `d`, that it attracts, and that its length follows the
  inverse-square law.
- **Numerics** (`numerics.dfy`, module `Numerics`): the square `a * a`, the
  cube `a ** 3`, and the square root behind `** 0.5`. Dafny's reals do not
  prove that square roots exist, so `Sqrt` is an uninterpreted function.
  Every fact that needs it to be the real root takes the hypothesis
  `SqrtSound()`: `Sqrt(x) >= 0` and `Sqrt(x) * Sqrt(x) == x` for `x >= 0`.
  Everything else about `Sqrt` is proved from that hypothesis.

All arithmetic is over Dafny's exact `real`, in place of Python floats.

## Model

| member | source | states |
|---|---|---|
| Geometry.Vector.Add | main.py:26-29 | `self + other` is the componentwise sum; its laws are `AddCommutativeMonoid` and `AddSubCancel` |
| Geometry.Vector.Sub | main.py:31-34 | `self - other` is the componentwise difference; `AddSubCancel` shows it undoes `Add` |
| Geometry.Vector.Mul | main.py:36-37 | `self * c` scales both components by `c`; `MulCommutes`, `DivUndoesMul` and `AbsMul` state its laws |
| Geometry.Vector.Div | main.py:42-43 | `self / d` divides both components by a non-zero `d`; `DivUndoesMul` shows it is the inverse of `Mul` |
| Geometry.Vector.Abs | main.py:45-46 | `abs(self)` is `Sqrt(x*x + y*y)`; `AbsNonNegative`, `AbsZeroIff`, `AbsOnAxis` and `AbsMul` state its laws |
| Geometry.Vector.RMul | main.py:39-40 | `c * v` scales each component by `c`, as `v * c` does |
| Geometry.MulCommutes | main.py:36-40 | scalar multiplication gives the same vector in either order: `c * v == v * c` |
| Geometry.AddSubCancel | main.py:26-34 | componentwise subtraction undoes addition: `(a + b) - b == a` |
| Geometry.AddCommutativeMonoid | main.py:26-29 | vector addition is commutative and associative, with `Vector()` as identity |
| Geometry.DivUndoesMul | main.py:36-43 | for a non-zero divisor, dividing then scaling, and scaling then dividing, give back the vector |
| Geometry.SquaredLengthSign | main.py:45-46 | `x*x + y*y` is non-negative and zero exactly at the origin |
| Geometry.AbsNonNegative | main.py:45-46 | `abs(v)` is never negative |
| Geometry.AbsZeroIff | main.py:45-46 | `abs(v) == 0` exactly when `v` is the origin |
| Geometry.AbsOnAxis | main.py:45-46 | a vector `(a, 0)` with `a >= 0` has length `a` |
| Geometry.AbsMul | main.py:36-46 | `abs(v * c) == abs(c) * abs(v)` |
| Geometry.AsTupleInjective | main.py:56-57 | `as_tuple` is `(min.x, min.y, max.x, max.y)` and loses nothing: equal tuples mean equal boxes |
| Geometry.BBox.AsTuple | main.py:56-57 | `as_tuple` is `(min.x, min.y, max.x, max.y)`; `AsTupleInjective` shows it loses nothing |
| Geometry.BBox.Add | main.py:59-60 | `box + d` shifts both corners by `d`; `BBoxTranslate` and `BBoxTranslateAction` state its laws |
| Geometry.BBox.RAdd | main.py:62-63 | `d + box` shifts both corners by `d` |
| Geometry.BBoxTranslate | main.py:56-60 | `box + d` shifts each tuple entry by the matching coordinate of `d`, keeps the box proper exactly when it was, and moves exactly the contained points |
| Geometry.BBoxTranslateAction | main.py:59-63 | box translation composes by adding the shifts, the zero shift is the identity, and `d + box == box + d` |
| Geometry.Shifted | main.py:90-91 | shifting a polyline keeps its length and shifts point `i` by `d`, in order |
| Geometry.Shape.Add | main.py:79-91 | `shape + d` keeps the variant; a circle keeps its radius and moves its centre; a curve keeps its points' number and order and shifts each one |
| Geometry.Shape.RAdd | main.py:82-94 | `d + shape` is the same translation with `d` on the left |
| Geometry.Shape.BoundingBox | main.py:73-77 | a circle's `bbox` runs from `o - (r, r)` to `o + (r, r)`; `CircleBoxShape`, `CircleBoxCoversDisc` and `CircleBoxCommutes` state its laws |
| Geometry.CircleBoxShape | main.py:73-77 | for `r >= 0` the circle's box has min ≤ max on both axes, sides `2r`, and centre `o` |
| Geometry.CircleBoxCoversDisc | main.py:73-77 | every point of the closed disc lies in the circle's box |
| Geometry.CircleBoxCommutes | main.py:73-80 | `(c + d).bbox == c.bbox + d` |
| Geometry.ShiftedCompose | main.py:90-91 | shifting a polyline by `d1` then `d2` is shifting it by `d1 + d2` |
| Geometry.ShapeTranslateAction | main.py:79-94 | for circles and curves, translating by `d1` then `d2` is translating by `d1 + d2`, and translating by `Vector(0, 0)` is the identity |
| Numerics.Cube | main.py:179 | `a ** 3` is positive exactly when `a` is and zero exactly when `a` is, so `abs(d) ** 3` is a valid divisor whenever `abs(d)` is |
| Numerics.SqrtOf | main.py:46 | under `SqrtSound`, any non-negative `r` with `r * r == x` is the root of `x` |
| Simulation.Capacity | main.py:174 | the number of entries a trail keeps is the whole-number part of `2.0 / delta_t` |
| Simulation.ExceedsIff | main.py:174 | for a whole-number length, `len > 2.0 / delta_t` holds exactly when the length exceeds `Capacity` |
| Simulation.DefaultCapacity | main.py:9 | at the default step 0.05 a trail keeps 40 positions |
| Simulation.Retain | main.py:173-175 | the kept part is the newest `min(len, c)` entries of the trail, oldest first |
| Simulation.Evict | main.py:174-175 | the `pop(0)` loop as a recursive function: drop the oldest entry while the trail is non-empty and longer than the limit; `Record` is proved equal to it, and `EvictShape`, `EvictNewest`, `EvictIsRetain` and `EvictWithinCapacity` state its laws |
| Simulation.EvictShape | main.py:174-175 | eviction leaves a suffix of the trail, no longer than the limit, and removes an entry only while the trail exceeds the limit |
| Simulation.Record | main.py:173-175 | appending the position and running the `pop(0)` loop yields `Evict(trail + [p], 2.0 / dt)` |
| Simulation.EvictNewest | main.py:173-175 | when the limit is at least 1, the trail is non-empty, its last entry is the position just appended, and every entry was in the old trail or is the new one |
| Simulation.EvictIsRetain | main.py:173-175 | the eviction loop keeps exactly the newest `floor(2.0 / delta_t)` entries |
| Simulation.EvictWithinCapacity | main.py:181-183 | after eviction a trail holds at most `floor(2.0 / delta_t)` entries, and exactly that many once the history is that long |
| Simulation.RetainAppend | main.py:173-175 | evicting before appending loses nothing: a bounded trail extended and evicted equals the whole history extended and evicted |
| Simulation.StepKeepsRetain | main.py:172-183 | one update's eviction, applied to a trail that already holds the newest `Capacity` positions of a history, gives the newest `Capacity` positions of the history extended by the new position |
| Simulation.ReplayIsRetain | main.py:172-183 | after any number of updates at one positive step `dt`, each appending the position and evicting as `Update` does, starting from an empty trail, the trail is the newest `Capacity(dt)` positions of the body's history, in order |
| Simulation.Pull | main.py:179-191 | the velocity change `G * m * d / abs(d) ** 3 * delta_t`, in the source's order (scale, divide, scale); `PullAlong`, `PullInverseSquare` and `PullAttracts` state its laws |
| Simulation.PullAlong | main.py:179 | the velocity change is `d` scaled by the single factor `G * m * delta_t / abs(d) ** 3` |
| Simulation.PullInverseSquare | main.py:179 | the velocity change has length `G * m * delta_t / abs(d) ** 2` (Newton's inverse-square law) |
| Simulation.PullAttracts | main.py:188-191 | for positive mass and step the pull has a positive component along `d`, so subtracting it turns the velocity towards the attractor |
| Simulation.UpdatePullsAttract | main.py:179-191 | in a valid universe (positive masses) and for a positive step, the three pulls `update` subtracts, measured at the new positions (anchor on blue, anchor on white, blue on white), each have a positive component along their displacement, so each turns the velocity towards its attractor |
| Simulation.Universe.constructor | main.py:139-158 | the initial radii, masses and positions, empty trails, and each moving body's velocity `(0, -sqrt(G * M / abs(p - yellow_p)))`, with a zero x component and a strictly negative y component; blue's speed squared is 25000 |
| Simulation.OrbitSpeed | main.py:147-149 | the initial speed `v` of a body at distance `r` from the anchor satisfies `v * v * r == G * M`, the circular-orbit speed |
| Simulation.BlueStartSpeed | main.py:141-148 | in a universe whose anchor mass, anchor position, blue position and blue velocity are as the constructor sets them, blue is 200 from the anchor and the square of its initial speed `sqrt(G * 5000000 / abs(blue_p - yellow_p))` is 25000 |
| Numerics.NegRootOfQuotient | main.py:148 | under `SqrtSound`, a speed `-sqrt(n / a)` whose quotient `n / a` is `q >= 0` squares back to `q` |
| Simulation.Universe.Scene | main.py:161-170 | `scene` is exactly three circles, yellow, blue, white in that order, each at the body's position with the body's radius |
| Simulation.SceneBoxesProper | main.py:161-170 | in a universe with positive radii, every circle of the scene has a proper bounding box that covers its disc |
| Simulation.Universe.Update | main.py:172-192 | each trail becomes `Evict(old trail + [old position], 2.0 / delta_t)`; each position moves by the old velocity times `delta_t`; blue's velocity loses the anchor's pull at blue's new position; white's loses the anchor's pull and blue's pull, both measured from the new positions (blue's already updated); yellow, masses and radii unchanged; the scene's anchor circle and radii unchanged |

## Left out

- `Canvas` and its `render`/`render_shape`/`render_circle`/`render_curve` (main.py:102-135): these are drawing calls into the Tk GUI library.
- `loop`, `run`, `main` and the global `universe` (main.py:195-224): a thread, `sleep` pacing and the Tk main loop. `MAX_DURATION` and `MAX_FRAMES` (main.py:10-11) only bound that loop.
- `@cache` on `as_tuple` and `bbox` (main.py:55, 72): memoisation on frozen values changes no result, so both are plain functions here.
- The `NotImplemented` branches of `__add__`/`__sub__` (main.py:27-28, 32-33): Dafny's typing admits only vectors as operands.
- Floating-point rounding, overflow and `inf`/`nan`: all arithmetic is over exact reals. Nothing is claimed about energy drift, orbital accuracy or periodicity.
- Geometry.Vector.Div: `requires d != 0.0` excludes the zero divisor, where `__truediv__` (main.py:43) raises `ZeroDivisionError`.
- Simulation.Evict: for a negative limit the `t != []` guard stops at the empty trail and returns `[]`, where `pop(0)` (main.py:175, 183) raises `IndexError`; every caller requires `dt > 0`, so that case is never reached.
- Numerics.Sqrt: `** 0.5` is an uninterpreted function. Facts that need it to be the square root take `SqrtSound()` as a hypothesis.
- Simulation.Universe.constructor: requires `SqrtSound()` to show the initial distances are non-zero and the initial speeds are real roots. Beyond blue's squared speed of 25000, the numeric values of the initial speeds are not stated.
- Simulation.Universe.Update: requires `delta_t > 0` and non-zero distances at the new positions. The source raises there instead: `ZeroDivisionError` for `delta_t == 0` or a zero distance, and `IndexError` from `pop(0)` on an emptied trail for `delta_t < 0`. The fields it has already changed before raising are not modelled.
- Simulation.Universe.Update: the trail's length bound and its newest entry follow from `EvictWithinCapacity` and `EvictNewest` rather than being repeated in the method's contract.
- Simulation.Universe.Update: the trails are `seq` fields that the method reassigns. The in-place `append`/`pop(0)` on a shared Python list, and any aliasing of that list, are not captured.
- The trail-eviction loop appears once, as `Record`, and is called for both trails; the source repeats it for blue and white.
- The `Curve` trail shapes commented out of `scene` (main.py:166, 168) are not part of the scene, as in the source.
