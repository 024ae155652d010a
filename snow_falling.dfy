/**
 * The falling-snow canvas component: a fixed pool of flake records that one
 * animation callback moves in place once per frame, plus the pointer handlers
 * that feed it a pointer position and a wind scalar.
 *
 * Coordinates are `real`. The host's Math.random, Math.sin and Math.sqrt are
 * parameters: random draws arrive as values in [0, 1), and `sin` and `sqrt`
 * as functions whose ranges and relations are stated where a proof needs them.
 */
module SnowFalling {

  const BASE_SPEED: real := 0.5
  const FLAKE_COUNT: nat := 150
  /** Math.PI as the double the host uses. */
  const PI: real := 3.141592653589793
  const AVOID_RADIUS: real := 100.0
  const AVOID_MIN: real := 20.0
  /** Margin past the canvas edges before a flake is recycled or wrapped. */
  const MARGIN: real := 10.0
  /** Fall speed is expressed per nominal 16 ms frame. */
  const NOMINAL_FRAME: real := 16.0
  const FLAKE_COLOR: string := "rgba(255, 255, 255, 0.9)"

  datatype Option<T> = None | Some(value: T)

  datatype Point = Point(x: real, y: real)

  datatype Flake = Flake(
    x: real,
    y: real,
    r: real,
    speed: real,
    sway: real,
    swaySpeed: real,
    swayOffset: real,
    opacity: real,
    color: string,
    wind: real)

  /** The eight Math.random() results one flake creation consumes, in call order. */
  datatype Draws = Draws(
    x: real,
    y: real,
    r: real,
    sway: real,
    swaySpeed: real,
    swayOffset: real,
    opacity: real,
    wind: real)

  /** What one frame shares among all flakes. */
  datatype Frame = Frame(dt: real, time: real, windForce: real, mouse: Point, width: nat, height: nat)

  predicate IsUnit(u: real) {
    0.0 <= u < 1.0
  }

  predicate ValidDraws(d: Draws) {
    && IsUnit(d.x) && IsUnit(d.y) && IsUnit(d.r) && IsUnit(d.sway)
    && IsUnit(d.swaySpeed) && IsUnit(d.swayOffset) && IsUnit(d.opacity) && IsUnit(d.wind)
  }

  /** Math.sin never leaves [-1, 1]. */
  ghost predicate SineBounded(sin: real -> real) {
    forall v :: -1.0 <= sin(v) <= 1.0
  }

  /** Math.sqrt gives the non-negative square root of a non-negative argument. */
  ghost predicate IsSqrt(sqrt: real -> real) {
    forall v :: 0.0 <= v ==> 0.0 <= sqrt(v) && sqrt(v) * sqrt(v) == v
  }

  /** The ranges createFlake gives every attribute except the position, kept for a flake's whole life. */
  predicate InSpawnRanges(f: Flake) {
    && f.speed == BASE_SPEED
    && 0.5 <= f.r < 1.0
    && 0.2 <= f.opacity < 1.0
    && 0.0 <= f.sway < 0.15
    && 0.02 <= f.swaySpeed < 0.07
    && 0.0 <= f.swayOffset < 2.0 * PI
    && -0.25 <= f.wind < 0.25
    && f.color == FLAKE_COLOR
  }

  /** v lies in [0, extent), or is 0 on a canvas of extent 0. */
  predicate InExtent(v: real, extent: nat) {
    0.0 <= v && (v < extent as real || v == extent as real == 0.0)
  }

  /** `Math.random() * extent`. */
  function Scale(u: real, extent: nat): (v: real)
    requires IsUnit(u)
    ensures InExtent(v, extent)
  {
    UnitTimesExtent(u, extent);
    u * extent as real
  }

  lemma UnitTimesExtent(u: real, extent: nat)
    requires IsUnit(u)
    ensures 0.0 <= u * extent as real
    ensures extent > 0 ==> u * extent as real < extent as real
  {
    var e := extent as real;
    assert 0.0 <= u * e;
    if extent > 0 {
      assert e - u * e == (1.0 - u) * e;
    }
  }

  /** createFlake: a fresh flake anywhere on the canvas, every attribute in its spawn range. */
  function CreateFlake(d: Draws, width: nat, height: nat): (f: Flake)
    requires ValidDraws(d)
    ensures InSpawnRanges(f)
    ensures InExtent(f.x, width) && InExtent(f.y, height)
  {
    Flake(
      x := Scale(d.x, width),
      y := Scale(d.y, height),
      r := d.r * 0.5 + 0.5,
      speed := BASE_SPEED,
      sway := d.sway * 0.15,
      swaySpeed := d.swaySpeed * 0.05 + 0.02,
      swayOffset := d.swayOffset * PI * 2.0,
      opacity := d.opacity * 0.8 + 0.2,
      color := FLAKE_COLOR,
      wind := d.wind * 0.5 - 0.25)
  }

  /** The wind scalar a mouse move leaves: horizontal movement scaled, clamped to [-1, 1], times 0.3. */
  function WindFromMovement(movementX: real): (w: real)
    ensures -0.3 <= w <= 0.3
    ensures -50.0 <= movementX <= 50.0 ==> w == movementX * 0.006
    ensures movementX >= 50.0 ==> w == 0.3
    ensures movementX <= -50.0 ==> w == -0.3
  {
    var scaled := movementX * 0.02;
    var clamped := if scaled < 1.0 then scaled else 1.0;
    (if -1.0 > clamped then -1.0 else clamped) * 0.3
  }

  /** Elapsed time of a frame: a nominal 16 ms when the stored timestamp is falsy (0). */
  function DeltaTime(lastTime: real, timestamp: real): (dt: real)
    ensures lastTime == 0.0 ==> dt == NOMINAL_FRAME
    ensures lastTime != 0.0 ==> lastTime + dt == timestamp
  {
    if lastTime != 0.0 then timestamp - lastTime else NOMINAL_FRAME
  }

  /** The fall of one frame: only y changes, and it never decreases while time moves forward. */
  function Fall(f: Flake, dt: real): (g: Flake)
    ensures g == f.(y := g.y)
    ensures 0.0 <= f.speed && 0.0 <= dt ==> f.y <= g.y
  {
    f.(y := f.y + Drop(f.speed, dt))
  }

  /** How far a flake of the given speed falls in dt milliseconds. */
  function Drop(speed: real, dt: real): real {
    speed * (dt / NOMINAL_FRAME)
  }

  /** The horizontal sway of one frame, `Math.sin(swayOffset + time * swaySpeed) * sway`. */
  function SwayTerm(swayOffset: real, swaySpeed: real, sway: real, time: real, sin: real -> real): (s: real)
    ensures SineBounded(sin) && 0.0 <= sway ==> -sway <= s <= sway
  {
    var phase := sin(swayOffset + time * swaySpeed);
    SwayTermBounded(phase, sway);
    phase * sway
  }

  /** Fall, then the horizontal sway, the global wind and the flake's own wind. */
  function Moved(f: Flake, fr: Frame, sin: real -> real): (g: Flake)
    ensures g == f.(x := g.x, y := g.y)
    ensures g.y == Fall(f, fr.dt).y
    ensures SineBounded(sin) && 0.0 <= f.sway ==>
      f.x + fr.windForce + f.wind - f.sway <= g.x <= f.x + fr.windForce + f.wind + f.sway
  {
    var fallen := Fall(f, fr.dt);
    fallen.(x := fallen.x + SwayTerm(f.swayOffset, f.swaySpeed, f.sway, fr.time, sin) + fr.windForce + fallen.wind)
  }

  lemma SwayTermBounded(s: real, sway: real)
    ensures -1.0 <= s <= 1.0 && 0.0 <= sway ==> -sway <= s * sway <= sway
  {
    if -1.0 <= s <= 1.0 && 0.0 <= sway {
      MulMonotone(s, 1.0, sway);
      MulMonotone(-1.0, s, sway);
    }
  }

  lemma MulMonotone(a: real, b: real, c: real)
    requires a <= b && 0.0 <= c
    ensures a * c <= b * c
  {
    assert (b - a) * c >= 0.0;
  }

  function Position(f: Flake): Point {
    Point(f.x, f.y)
  }

  /** The vector from q to p. */
  function Offset(p: Point, q: Point): Point {
    Point(p.x - q.x, p.y - q.y)
  }

  function SqLength(v: Point): real {
    v.x * v.x + v.y * v.y
  }

  function Scaled(v: Point, k: real): Point {
    Point(v.x * k, v.y * k)
  }

  /** Distance from the pointer as the frame computes it: `Math.sqrt(dx * dx + dy * dy)`. */
  function Distance(f: Flake, mouse: Point, sqrt: real -> real): (d: real)
    ensures IsSqrt(sqrt) ==> 0.0 <= d && d * d == SqLength(Offset(Position(f), mouse))
  {
    sqrt(SqLength(Offset(Position(f), mouse)))
  }

  /** The avoidance factor: linear falloff, strictly between 0 and 0.8 inside the band. */
  function AvoidForce(d: real): (force: real)
    ensures AVOID_MIN < d < AVOID_RADIUS ==> 0.0 < force < 0.8
    ensures d >= AVOID_RADIUS ==> force <= 0.0
  {
    (AVOID_RADIUS - d) / AVOID_RADIUS
  }

  /** The push away from the pointer at distance d: along the separation, scaled by the falloff. */
  function Pushed(f: Flake, mouse: Point, d: real): (g: Flake)
    requires d != 0.0
    ensures g == f.(x := g.x, y := g.y)
    ensures AVOID_MIN < d < AVOID_RADIUS ==>
      (g.x - f.x) * (f.x - mouse.x) >= 0.0 && (g.y - f.y) * (f.y - mouse.y) >= 0.0
  {
    var force := AvoidForce(d);
    AwayAlong(f.x - mouse.x, d, force);
    AwayAlong(f.y - mouse.y, d, force);
    f.(x := f.x + ((f.x - mouse.x) / d) * force, y := f.y + ((f.y - mouse.y) / d) * force)
  }

  /** A push of `(s / d) * force` with d and force positive has the sign of s. */
  lemma AwayAlong(s: real, d: real, force: real)
    ensures d > 0.0 && force > 0.0 ==> ((s / d) * force) * s >= 0.0
  {
    if d > 0.0 && force > 0.0 {
      var k := force / d;
      assert (s / d) * force == s * k;
      assert (s * k) * s == (s * s) * k;
    }
  }

  /** The push is taken only when 20 < d < 100, so it never divides by zero. */
  function Avoided(f: Flake, mouse: Point, sqrt: real -> real): (g: Flake)
    ensures g == f.(x := g.x, y := g.y)
    ensures !(AVOID_MIN < Distance(f, mouse, sqrt) < AVOID_RADIUS) ==> g == f
  {
    var d := Distance(f, mouse, sqrt);
    if d < AVOID_RADIUS && d > AVOID_MIN then Pushed(f, mouse, d) else f
  }

  /** A flake below the bottom margin is overwritten by a fresh one entering just above the top. */
  function Recycled(f: Flake, width: nat, height: nat, spawn: Draws, u: real): (g: Flake)
    requires ValidDraws(spawn) && IsUnit(u)
    ensures f.y > height as real + MARGIN ==> g.y == -MARGIN && InExtent(g.x, width) && InSpawnRanges(g)
    ensures f.y <= height as real + MARGIN ==> g == f
  {
    if f.y > height as real + MARGIN then
      CreateFlake(spawn, width, height).(y := -MARGIN).(x := Scale(u, width))
    else
      f
  }

  /** The two horizontal wrap checks, in source order. */
  function Wrapped(f: Flake, width: nat): (g: Flake)
    ensures g == f.(x := g.x)
    ensures -MARGIN <= g.x <= width as real + MARGIN
    ensures -MARGIN <= f.x <= width as real + MARGIN ==> g == f
  {
    var x1 := if f.x > width as real + MARGIN then -MARGIN else f.x;
    var x2 := if x1 < -MARGIN then width as real + MARGIN else x1;
    f.(x := x2)
  }

  /** One flake's whole update inside a frame. */
  function FlakeStep(f: Flake, fr: Frame, sin: real -> real, sqrt: real -> real, spawn: Draws, u: real): (g: Flake)
    requires ValidDraws(spawn) && IsUnit(u)
    ensures -MARGIN <= g.x <= fr.width as real + MARGIN
    ensures InSpawnRanges(f) ==> InSpawnRanges(g)
  {
    var moved := Avoided(Moved(f, fr, sin), fr.mouse, sqrt);
    Wrapped(Recycled(moved, fr.width, fr.height, spawn, u), fr.width)
  }

  /** The whole pool after one frame: flake k is stepped with the draws it would consume if recycled. */
  function FrameStep(before: seq<Flake>, fr: Frame, sin: real -> real, sqrt: real -> real,
                     spawn: seq<Draws>, respawnX: seq<real>): (after: seq<Flake>)
    requires |spawn| == |respawnX| == |before|
    requires forall k :: 0 <= k < |spawn| ==> ValidDraws(spawn[k])
    requires forall k :: 0 <= k < |respawnX| ==> IsUnit(respawnX[k])
    ensures |after| == |before|
    ensures forall k :: 0 <= k < |after| ==> -MARGIN <= after[k].x <= fr.width as real + MARGIN
    ensures forall k :: 0 <= k < |after| ==> InSpawnRanges(before[k]) ==> InSpawnRanges(after[k])
  {
    seq(|before|, k requires 0 <= k < |before| => FlakeStep(before[k], fr, sin, sqrt, spawn[k], respawnX[k]))
  }

  /** Where a flake is drawn: `Math.round(v * 2) / 2`, with ties rounded up. */
  function HalfPixel(v: real): (p: real)
    ensures v - 0.25 < p <= v + 0.25
    ensures (p * 2.0).Floor as real == p * 2.0
  {
    (v * 2.0 + 0.5).Floor as real / 2.0
  }

  function DrawPosition(f: Flake): (p: Point)
    ensures f.x - 0.25 < p.x <= f.x + 0.25 && f.y - 0.25 < p.y <= f.y + 0.25
  {
    Point(HalfPixel(f.x), HalfPixel(f.y))
  }

  /** A flake that crossed the bottom margin after moving ends the frame at y = -10, fresh, inside the canvas. */
  lemma RecycleRespawnsAtTop(f: Flake, fr: Frame, sin: real -> real, sqrt: real -> real, spawn: Draws, u: real)
    requires ValidDraws(spawn) && IsUnit(u)
    requires Avoided(Moved(f, fr, sin), fr.mouse, sqrt).y > fr.height as real + MARGIN
    ensures var g := FlakeStep(f, fr, sin, sqrt, spawn, u);
      g.y == -MARGIN && InExtent(g.x, fr.width) && InSpawnRanges(g)
  {
  }

  /**
   * Away from the pointer band, and with no recycle and no wrap, a flake moves only by
   * its fall, its sway and the two winds.
   */
  lemma QuietStep(f: Flake, fr: Frame, sin: real -> real, sqrt: real -> real, spawn: Draws, u: real)
    requires ValidDraws(spawn) && IsUnit(u)
    requires !(AVOID_MIN < Distance(Moved(f, fr, sin), fr.mouse, sqrt) < AVOID_RADIUS)
    requires Moved(f, fr, sin).y <= fr.height as real + MARGIN
    requires -MARGIN <= Moved(f, fr, sin).x <= fr.width as real + MARGIN
    ensures var g := FlakeStep(f, fr, sin, sqrt, spawn, u);
      && g.y == f.y + f.speed * (fr.dt / NOMINAL_FRAME)
      && g.x == f.x + SwayTerm(f.swayOffset, f.swaySpeed, f.sway, fr.time, sin) + fr.windForce + f.wind
      && g == f.(x := g.x, y := g.y)
  {
  }

  /**
   * Inside the band the push points along the separation from the pointer, has length
   * `AvoidForce(d)`, and leaves the flake exactly that much farther from the pointer.
   */
  lemma AvoidPushesAway(f: Flake, mouse: Point, sqrt: real -> real)
    requires IsSqrt(sqrt)
    requires AVOID_MIN < Distance(f, mouse, sqrt) < AVOID_RADIUS
    ensures var g := Avoided(f, mouse, sqrt);
      var d := Distance(f, mouse, sqrt);
      var force := AvoidForce(d);
      && 0.0 < force < 0.8
      && Offset(Position(g), Position(f)) == Scaled(Offset(Position(f), mouse), force / d)
      && 0.0 < force / d
      && SqLength(Offset(Position(g), Position(f))) == force * force
      && SqLength(Offset(Position(g), mouse)) == (d + force) * (d + force)
  {
    var sep := Offset(Position(f), mouse);
    assert 0.0 <= SqLength(sep);
    var d := Distance(f, mouse, sqrt);
    assert d == sqrt(SqLength(sep));
    assert SqLength(sep) == d * d;
    var force := AvoidForce(d);
    var k := force / d;
    assert d * k == force;
    var g := Avoided(f, mouse, sqrt);
    DivScale(sep.x, d, force);
    DivScale(sep.y, d, force);
    assert Offset(Position(g), Position(f)) == Scaled(sep, k);
    ScaledSqLength(sep, d, k);
    MulOfEqual(d * k, force, d * k);
    MulOfEqual(d * k, force, force);
    assert Offset(Position(g), mouse) == Scaled(sep, 1.0 + k);
    ScaledSqLength(sep, d, 1.0 + k);
    assert d * (1.0 + k) == d + force;
    MulOfEqual(d * (1.0 + k), d + force, d * (1.0 + k));
    MulOfEqual(d * (1.0 + k), d + force, d + force);
  }

  lemma DivScale(a: real, d: real, force: real)
    requires d != 0.0
    ensures (a / d) * force == a * (force / d)
  {
    var q := a / d;
    assert q * d == a;
    var k := force / d;
    assert k * d == force;
    assert (q * force) * d == (a * k) * d;
  }

  lemma MulOfEqual(a: real, b: real, c: real)
    requires a == b
    ensures a * c == b * c
  {
  }

  lemma SqLengthScaled(v: Point, k: real)
    ensures SqLength(Scaled(v, k)) == SqLength(v) * (k * k)
  {
  }

  /** Scaling a vector of length d by k gives length d * k (squared). */
  lemma ScaledSqLength(v: Point, d: real, k: real)
    requires SqLength(v) == d * d
    ensures SqLength(Scaled(v, k)) == (d * k) * (d * k)
  {
    SqLengthScaled(v, k);
    MulOfEqual(SqLength(v), d * d, k * k);
  }

  /** One step of f under fr takes neither the pointer push nor the recycle. */
  predicate Quiet(f: Flake, fr: Frame, sin: real -> real, sqrt: real -> real) {
    var moved := Moved(f, fr, sin);
    !(AVOID_MIN < Distance(moved, fr.mouse, sqrt) < AVOID_RADIUS) && moved.y <= fr.height as real + MARGIN
  }

  /** A step with no push and no recycle moves y by the fall alone, whatever the wrap does to x. */
  lemma QuietY(f: Flake, fr: Frame, sin: real -> real, sqrt: real -> real, spawn: Draws, u: real)
    requires ValidDraws(spawn) && IsUnit(u)
    requires Quiet(f, fr, sin, sqrt)
    ensures var g := FlakeStep(f, fr, sin, sqrt, spawn, u);
      g == f.(x := g.x, y := g.y) && g.y == Fall(f, fr.dt).y
  {
  }

  /** A flake carried through a run of frames, frame k with the respawn draws spawn[k] and us[k]. */
  function FlakeSteps(f: Flake, frames: seq<Frame>, sin: real -> real, sqrt: real -> real,
                      spawn: seq<Draws>, us: seq<real>): Flake
    requires |spawn| == |us| == |frames|
    requires forall k :: 0 <= k < |spawn| ==> ValidDraws(spawn[k])
    requires forall k :: 0 <= k < |us| ==> IsUnit(us[k])
    decreases |frames|
  {
    if frames == [] then f
    else FlakeSteps(FlakeStep(f, frames[0], sin, sqrt, spawn[0], us[0]), frames[1..], sin, sqrt, spawn[1..], us[1..])
  }

  /** No frame of the run pushes or recycles the flake. */
  predicate QuietRun(f: Flake, frames: seq<Frame>, sin: real -> real, sqrt: real -> real,
                     spawn: seq<Draws>, us: seq<real>)
    requires |spawn| == |us| == |frames|
    requires forall k :: 0 <= k < |spawn| ==> ValidDraws(spawn[k])
    requires forall k :: 0 <= k < |us| ==> IsUnit(us[k])
    decreases |frames|
  {
    frames == [] ||
      (Quiet(f, frames[0], sin, sqrt)
       && QuietRun(FlakeStep(f, frames[0], sin, sqrt, spawn[0], us[0]), frames[1..], sin, sqrt, spawn[1..], us[1..]))
  }

  /** Total elapsed time of a run of frames. */
  function Elapsed(frames: seq<Frame>): real
    decreases |frames|
  {
    if frames == [] then 0.0 else frames[0].dt + Elapsed(frames[1..])
  }

  /** Over a quiet run the fall adds up: y grows by speed times the total elapsed time over 16 ms. */
  lemma {:induction false} QuietRunFalls(f: Flake, frames: seq<Frame>, sin: real -> real, sqrt: real -> real,
                                         spawn: seq<Draws>, us: seq<real>)
    requires |spawn| == |us| == |frames|
    requires forall k :: 0 <= k < |spawn| ==> ValidDraws(spawn[k])
    requires forall k :: 0 <= k < |us| ==> IsUnit(us[k])
    requires QuietRun(f, frames, sin, sqrt, spawn, us)
    ensures FlakeSteps(f, frames, sin, sqrt, spawn, us).speed == f.speed
    ensures FlakeSteps(f, frames, sin, sqrt, spawn, us).y == f.y + Drop(f.speed, Elapsed(frames))
    decreases |frames|
  {
    if frames != [] {
      var g := FlakeStep(f, frames[0], sin, sqrt, spawn[0], us[0]);
      QuietY(f, frames[0], sin, sqrt, spawn[0], us[0]);
      QuietRunFalls(g, frames[1..], sin, sqrt, spawn[1..], us[1..]);
      var r := FlakeSteps(g, frames[1..], sin, sqrt, spawn[1..], us[1..]);
      var e := Elapsed(frames[1..]);
      assert FlakeSteps(f, frames, sin, sqrt, spawn, us) == r;
      assert Elapsed(frames) == frames[0].dt + e;
      assert r.y == f.y + Drop(f.speed, frames[0].dt) + Drop(f.speed, e);
      FallsAdd(f.speed, frames[0].dt, e);
    }
  }

  lemma FallsAdd(speed: real, a: real, b: real)
    ensures Drop(speed, a) + Drop(speed, b) == Drop(speed, a + b)
  {
  }

  lemma DropOverSecond(speed: real)
    ensures Drop(speed, 60.0 * NOMINAL_FRAME) == 60.0 * speed
  {
  }

  lemma {:induction false} ElapsedUniform(frames: seq<Frame>, dt: real)
    requires forall k :: 0 <= k < |frames| ==> frames[k].dt == dt
    ensures Elapsed(frames) == |frames| as real * dt
    decreases |frames|
  {
    if frames != [] {
      ElapsedUniform(frames[1..], dt);
    }
  }

  /**
   * Any quiet run of equal frames totalling 960 ms drops a flake by 60 * speed: sixty
   * frames of 16 ms and thirty frames of 32 ms alike.
   */
  lemma FrameRateIndependent(f: Flake, frames: seq<Frame>, sin: real -> real, sqrt: real -> real,
                             spawn: seq<Draws>, us: seq<real>, dt: real)
    requires |spawn| == |us| == |frames|
    requires forall k :: 0 <= k < |spawn| ==> ValidDraws(spawn[k])
    requires forall k :: 0 <= k < |us| ==> IsUnit(us[k])
    requires QuietRun(f, frames, sin, sqrt, spawn, us)
    requires forall k :: 0 <= k < |frames| ==> frames[k].dt == dt
    requires |frames| as real * dt == 60.0 * NOMINAL_FRAME
    ensures FlakeSteps(f, frames, sin, sqrt, spawn, us).y == f.y + 60.0 * f.speed
  {
    QuietRunFalls(f, frames, sin, sqrt, spawn, us);
    ElapsedUniform(frames, dt);
    assert Elapsed(frames) == 60.0 * NOMINAL_FRAME;
    DropOverSecond(f.speed);
  }

  /** The forEach callback of one frame: moves, pushes, recycles and wraps one flake, in source order. */
  method UpdateFlake(f0: Flake, fr: Frame, sin: real -> real, sqrt: real -> real, spawn: Draws, u: real)
    returns (f: Flake)
    requires ValidDraws(spawn) && IsUnit(u)
    ensures f == FlakeStep(f0, fr, sin, sqrt, spawn, u)
  {
    f := f0;
    f := Fall(f, fr.dt);
    f := f.(x := f.x + SwayTerm(f.swayOffset, f.swaySpeed, f.sway, fr.time, sin) + fr.windForce + f.wind);
    assert f == Moved(f0, fr, sin);
    var distance := Distance(f, fr.mouse, sqrt);
    if distance < AVOID_RADIUS && distance > AVOID_MIN {
      f := Pushed(f, fr.mouse, distance);
    }
    assert f == Avoided(Moved(f0, fr, sin), fr.mouse, sqrt);
    if f.y > fr.height as real + MARGIN {
      f := CreateFlake(spawn, fr.width, fr.height);
      f := f.(y := -MARGIN);
      f := f.(x := Scale(u, fr.width));
    }
    assert f == Recycled(Avoided(Moved(f0, fr, sin), fr.mouse, sqrt), fr.width, fr.height, spawn, u);
    if f.x > fr.width as real + MARGIN {
      f := f.(x := -MARGIN);
    }
    if f.x < -MARGIN {
      f := f.(x := fr.width as real + MARGIN);
    }
  }

  /** The canvas, its flake pool and the pointer state the handlers share with the frame. */
  class SnowField {
    var width: nat
    var height: nat
    var flakes: array<Flake>
    var mousePos: Point
    var windForce: real
    var lastTime: real

    ghost predicate Valid()
      reads this, flakes
    {
      && flakes.Length == FLAKE_COUNT
      && (forall k :: 0 <= k < flakes.Length ==> InSpawnRanges(flakes[k]))
      && -0.3 <= windForce <= 0.3
    }

    /** Mount: size the canvas to the window and fill the pool with 150 fresh flakes. */
    constructor (innerWidth: nat, innerHeight: nat, spawn: seq<Draws>)
      requires |spawn| == FLAKE_COUNT
      requires forall k :: 0 <= k < |spawn| ==> ValidDraws(spawn[k])
      ensures Valid() && fresh(flakes)
      ensures width == innerWidth && height == innerHeight
      ensures forall k :: 0 <= k < FLAKE_COUNT ==> flakes[k] == CreateFlake(spawn[k], innerWidth, innerHeight)
      ensures forall k :: 0 <= k < FLAKE_COUNT ==>
        InExtent(flakes[k].x, innerWidth) && InExtent(flakes[k].y, innerHeight)
      ensures mousePos == Point(0.0, 0.0) && windForce == 0.0 && lastTime == 0.0
    {
      width := innerWidth;
      height := innerHeight;
      mousePos := Point(0.0, 0.0);
      windForce := 0.0;
      lastTime := 0.0;
      var pool := new Flake[FLAKE_COUNT];
      var i := 0;
      while i < FLAKE_COUNT
        invariant 0 <= i <= FLAKE_COUNT
        invariant forall k :: 0 <= k < i ==> pool[k] == CreateFlake(spawn[k], innerWidth, innerHeight)
      {
        pool[i] := CreateFlake(spawn[i], innerWidth, innerHeight);
        i := i + 1;
      }
      flakes := pool;
    }

    /** Window resize: the canvas takes the new size; no flake moves. */
    method Resize(innerWidth: nat, innerHeight: nat)
      requires Valid()
      modifies this`width, this`height
      ensures Valid()
      ensures width == innerWidth && height == innerHeight
      ensures unchanged(flakes)
    {
      width := innerWidth;
      height := innerHeight;
    }

    method HandleMouseMove(clientX: real, clientY: real, movementX: real)
      requires Valid()
      modifies this`mousePos, this`windForce
      ensures Valid()
      ensures mousePos == Point(clientX, clientY)
      ensures windForce == WindFromMovement(movementX)
      ensures -0.3 <= windForce <= 0.3
    {
      mousePos := Point(clientX, clientY);
      windForce := WindFromMovement(movementX);
    }

    /** A touch move updates the pointer only when a first touch point exists. */
    method HandleTouchMove(firstTouch: Option<Point>)
      requires Valid()
      modifies this`mousePos
      ensures Valid()
      ensures firstTouch.Some? ==> mousePos == firstTouch.value
      ensures firstTouch.None? ==> mousePos == old(mousePos)
    {
      if firstTouch.Some? {
        mousePos := Point(firstTouch.value.x, firstTouch.value.y);
      }
    }

    /**
     * One animation frame: every flake is updated in place by FlakeStep, and the
     * half-pixel positions it is drawn at are returned; the stored positions are
     * not rounded. `spawn[k]` and `respawnX[k]` are the draws flake k would consume
     * if it is recycled this frame.
     */
    method Animate(timestamp: real, sin: real -> real, sqrt: real -> real,
                   spawn: seq<Draws>, respawnX: seq<real>) returns (drawn: seq<Point>)
      requires Valid()
      requires |spawn| == |respawnX| == flakes.Length
      requires forall k :: 0 <= k < |spawn| ==> ValidDraws(spawn[k])
      requires forall k :: 0 <= k < |respawnX| ==> IsUnit(respawnX[k])
      modifies this`lastTime, flakes
      ensures Valid()
      ensures lastTime == timestamp
      ensures flakes[..] == FrameStep(old(flakes[..]),
        Frame(DeltaTime(old(lastTime), timestamp), timestamp * 0.0001, windForce, mousePos, width, height),
        sin, sqrt, spawn, respawnX)
      ensures forall k :: 0 <= k < flakes.Length ==> -MARGIN <= flakes[k].x <= width as real + MARGIN
      ensures |drawn| == flakes.Length
      ensures forall k :: 0 <= k < flakes.Length ==> drawn[k] == DrawPosition(flakes[k])
    {
      var deltaTime := if lastTime != 0.0 then timestamp - lastTime else 16.0;
      assert deltaTime == DeltaTime(lastTime, timestamp);
      lastTime := timestamp;
      var time := timestamp * 0.0001;
      var fr := Frame(deltaTime, time, windForce, mousePos, width, height);
      drawn := StepPool(fr, sin, sqrt, spawn, respawnX);
    }

    /** The forEach over the pool: each flake in turn is replaced by its step and its draw position recorded. */
    method StepPool(fr: Frame, sin: real -> real, sqrt: real -> real, spawn: seq<Draws>, respawnX: seq<real>)
      returns (drawn: seq<Point>)
      requires |spawn| == |respawnX| == flakes.Length
      requires forall k :: 0 <= k < |spawn| ==> ValidDraws(spawn[k])
      requires forall k :: 0 <= k < |respawnX| ==> IsUnit(respawnX[k])
      modifies flakes
      ensures flakes[..] == FrameStep(old(flakes[..]), fr, sin, sqrt, spawn, respawnX)
      ensures |drawn| == flakes.Length
      ensures forall k :: 0 <= k < flakes.Length ==> drawn[k] == DrawPosition(flakes[k])
    {
      ghost var before := flakes[..];
      ghost var after := FrameStep(before, fr, sin, sqrt, spawn, respawnX);
      drawn := [];
      var i := 0;
      while i < flakes.Length
        invariant 0 <= i <= flakes.Length
        invariant |drawn| == i
        invariant flakes[..i] == after[..i]
        invariant flakes[i..] == before[i..]
        invariant forall k :: 0 <= k < i ==> drawn[k] == DrawPosition(flakes[k])
      {
        var f := UpdateFlake(flakes[i], fr, sin, sqrt, spawn[i], respawnX[i]);
        assert f == after[i];
        flakes[i] := f;
        drawn := drawn + [Point(HalfPixel(f.x), HalfPixel(f.y))];
        i := i + 1;
      }
      assert flakes[..] == flakes[..i];
    }
  }
}
