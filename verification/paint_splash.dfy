/**
 * The paint-splash particle engine of the portfolio page (class `PaintSplash`
 * in script.js), as a state machine over the ordered list of active splashes.
 *
 * One call of `createSplash` is `Emit`; one `animate` frame is `Tick` (the
 * next list of splashes) together with `FrameOps` (what the frame paints).
 * `Animate` is the frame written the way the source writes it, a reverse-index
 * loop that splices expired splashes out in place, and is proved to compute
 * exactly `Tick` and `FrameOps`.
 *
 * Numbers are exact reals. `Math.random()` results and the unit direction
 * (cos, sin) of each particle's angle are parameters.
 */
module PaintSplash {
  import opened Wrappers

  /** Particles created per splash. */
  const ParticleCount: nat := 20
  /** Amount a splash's life drops each frame. */
  const LifeStep: real := 0.01
  /** Downward acceleration added to a particle's vertical velocity each frame. */
  const Gravity: real := 0.1
  /** Radius of the circle drawn for a particle. */
  const DotRadius: real := 2.0
  /** Colour used when `createSplash` is called without one. */
  const DefaultColor: string := "#000"

  datatype Particle = Particle(x: real, y: real, vx: real, vy: real, life: real, decay: real)

  datatype Splash = Splash(x: real, y: real, color: string, particles: seq<Particle>, life: real)

  /** Unit vector (cos a, sin a) for a particle's emission angle a = 2*pi*i/20. */
  datatype Direction = Direction(cos: real, sin: real)

  /** One canvas operation issued during a frame. */
  datatype DrawOp =
    | ClearSurface
    | FillCircle(x: real, y: real, radius: real, alpha: real, color: string)

  /** A value `Math.random()` can return. */
  predicate IsRandomDraw(r: real) {
    0.0 <= r < 1.0
  }

  /** Every value in `draws` is one `Math.random()` can return. */
  predicate AllRandomDraws(draws: seq<real>) {
    forall k :: 0 <= k < |draws| ==> IsRandomDraw(draws[k])
  }

  /* ---------------------------------------------------------------------- */
  /* Emission                                                               */
  /* ---------------------------------------------------------------------- */

  /** Radial speed of a particle, from its first random draw. */
  function Speed(r: real): (v: real)
    requires IsRandomDraw(r)
    ensures 2.0 <= v < 5.0
  {
    r * 3.0 + 2.0
  }

  /** Decay rate of a particle, from its second random draw. */
  function Decay(r: real): (d: real)
    requires IsRandomDraw(r)
    ensures 0.01 <= d < 0.03
  {
    r * 0.02 + 0.01
  }

  /** Particle `i` of a splash at (x, y): speed draw `rs`, decay draw `rd`. */
  function NewParticle(x: real, y: real, dir: Direction, rs: real, rd: real): (p: Particle)
    requires IsRandomDraw(rs) && IsRandomDraw(rd)
    ensures p.x == x && p.y == y && p.life == 1.0
    ensures 0.01 <= p.decay < 0.03
  {
    var v := Speed(rs);
    Particle(x, y, dir.cos * v, dir.sin * v, 1.0, Decay(rd))
  }

  /**
   * `createSplash(x, y, color)`: a splash with 20 particles at (x, y).
   * `dirs[i]` is the direction of particle i; `draws` holds the 40 values of
   * `Math.random()` in the order the source asks for them: for particle i,
   * `draws[2*i]` is its speed draw and `draws[2*i+1]` its decay draw.
   */
  function CreateSplash(x: real, y: real, color: Option<string>, dirs: seq<Direction>, draws: seq<real>): (s: Splash)
    requires |dirs| == ParticleCount && |draws| == 2 * ParticleCount
    requires AllRandomDraws(draws)
    ensures s.x == x && s.y == y && s.life == 1.0
    ensures color.None? ==> s.color == DefaultColor
    ensures color.Some? ==> s.color == color.value
    ensures |s.particles| == ParticleCount
    ensures forall i :: 0 <= i < |s.particles| ==>
              s.particles[i].x == x && s.particles[i].y == y && s.particles[i].life == 1.0
    ensures forall i :: 0 <= i < |s.particles| ==> 0.01 <= s.particles[i].decay < 0.03
    ensures forall i :: 0 <= i < |s.particles| ==>
              && s.particles[i].vx == dirs[i].cos * Speed(draws[2 * i])
              && s.particles[i].vy == dirs[i].sin * Speed(draws[2 * i])
              && s.particles[i].decay == Decay(draws[2 * i + 1])
    ensures ValidSplash(s)
  {
    var ps := seq(ParticleCount, i requires 0 <= i < ParticleCount =>
                NewParticle(x, y, dirs[i], draws[2 * i], draws[2 * i + 1]));
    Splash(x, y, color.GetOr(DefaultColor), ps, 1.0)
  }

  /**
   * `this.splashes.push(splash)`: appends the new splash after all the
   * existing ones and leaves those unchanged.
   */
  function Emit(splashes: seq<Splash>, x: real, y: real, color: Option<string>,
                dirs: seq<Direction>, draws: seq<real>): (r: seq<Splash>)
    requires |dirs| == ParticleCount && |draws| == 2 * ParticleCount
    requires AllRandomDraws(draws)
    ensures |r| == |splashes| + 1
    ensures r[..|splashes|] == splashes
    ensures r[|splashes|].x == x && r[|splashes|].y == y && r[|splashes|].life == 1.0
    ensures |r[|splashes|].particles| == ParticleCount
    ensures ValidEngine(splashes) ==> ValidEngine(r)
  {
    splashes + [CreateSplash(x, y, color, dirs, draws)]
  }

  /**
   * The scroll handler's guard: a splash is emitted only when the page is
   * scrolled strictly between its top and its bottom.
   */
  predicate ScrollEmits(scrollY: real, windowHeight: real, documentHeight: real) {
    scrollY > 0.0 && scrollY < documentHeight - windowHeight
  }

  /**
   * The debounced scroll callback: when the guard holds, a default-coloured
   * splash at (rx * windowWidth, ry * windowHeight) for two random draws
   * rx and ry; otherwise nothing.
   */
  function OnScroll(splashes: seq<Splash>, scrollY: real, windowWidth: real, windowHeight: real,
                    documentHeight: real, rx: real, ry: real,
                    dirs: seq<Direction>, draws: seq<real>): (r: seq<Splash>)
    requires IsRandomDraw(rx) && IsRandomDraw(ry)
    requires |dirs| == ParticleCount && |draws| == 2 * ParticleCount
    requires AllRandomDraws(draws)
    ensures |r| == |splashes| + 1 <==> 0.0 < scrollY < documentHeight - windowHeight
    ensures !(0.0 < scrollY < documentHeight - windowHeight) ==> r == splashes
    ensures |r| > |splashes| ==> r[..|splashes|] == splashes && r[|splashes|].color == DefaultColor
    ensures |r| > |splashes| && windowWidth > 0.0 ==> 0.0 <= r[|splashes|].x < windowWidth
    ensures |r| > |splashes| && windowHeight > 0.0 ==> 0.0 <= r[|splashes|].y < windowHeight
    ensures |r| > |splashes| ==> r == Emit(splashes, rx * windowWidth, ry * windowHeight, None, dirs, draws)
    ensures ValidEngine(splashes) ==> ValidEngine(r)
  {
    if ScrollEmits(scrollY, windowHeight, documentHeight) then
      assert windowWidth > 0.0 ==> rx * windowWidth < windowWidth by {
        if windowWidth > 0.0 { ScaleBelow(rx, windowWidth); }
      }
      assert windowHeight > 0.0 ==> ry * windowHeight < windowHeight by {
        if windowHeight > 0.0 { ScaleBelow(ry, windowHeight); }
      }
      Emit(splashes, rx * windowWidth, ry * windowHeight, None, dirs, draws)
    else
      splashes
  }

  /** Squaring preserves the bounds of a speed in [2, 5). */
  lemma SquareBounds(v: real)
    requires 2.0 <= v < 5.0
    ensures 4.0 <= v * v < 25.0
  {
    var below := v - 2.0;
    var above := 5.0 - v;
    MulNonnegative(v, below);
    MulPositive(v, above);
    assert v * below == v * v - 2.0 * v;
    assert v * above == 5.0 * v - v * v;
  }

  lemma MulNonnegative(a: real, b: real)
    requires a >= 0.0 && b >= 0.0
    ensures a * b >= 0.0
  {
  }

  lemma MulPositive(a: real, b: real)
    requires a > 0.0 && b > 0.0
    ensures a * b > 0.0
  {
  }

  /** A random draw scales a positive extent to a point inside it. */
  lemma ScaleBelow(r: real, w: real)
    requires IsRandomDraw(r) && w > 0.0
    ensures 0.0 <= r * w < w
  {
    assert w - r * w == (1.0 - r) * w;
  }

  /* ---------------------------------------------------------------------- */
  /* One animation frame                                                    */
  /* ---------------------------------------------------------------------- */

  /** `splash.life -= 0.01; if (splash.life <= 0) ...`: the splash outlives this frame. */
  predicate Survives(s: Splash) {
    s.life - LifeStep > 0.0
  }

  /** The per-frame update of one particle: move, apply gravity, decay. */
  function StepParticle(p: Particle): Particle {
    p.(x := p.x + p.vx, y := p.y + p.vy, vy := p.vy + Gravity, life := p.life - p.decay)
  }

  function StepParticles(ps: seq<Particle>): (r: seq<Particle>)
    ensures |r| == |ps|
    ensures forall k :: 0 <= k < |ps| ==> r[k] == StepParticle(ps[k])
  {
    seq(|ps|, k requires 0 <= k < |ps| => StepParticle(ps[k]))
  }

  /** A splash that survives the frame: one life step older, its particles moved. */
  function Advance(s: Splash): Splash {
    s.(life := s.life - LifeStep, particles := StepParticles(s.particles))
  }

  /** The next list of splashes: survivors advanced, in their original order. */
  function Tick(splashes: seq<Splash>): (r: seq<Splash>)
    ensures |r| <= |splashes|
  {
    if |splashes| == 0 then []
    else (if Survives(splashes[0]) then [Advance(splashes[0])] else []) + Tick(splashes[1..])
  }

  /** The circle painted for a particle whose life is still positive. */
  function Dot(p: Particle, color: string): DrawOp {
    FillCircle(p.x, p.y, DotRadius, p.life, color)
  }

  /**
   * The dots painted for a splash's (already moved) particles, in particle
   * order: exactly one per particle with positive life.
   */
  function ParticleDraws(ps: seq<Particle>, color: string): (r: seq<DrawOp>)
    ensures |r| <= |ps|
  {
    if |ps| == 0 then []
    else (if ps[0].life > 0.0 then [Dot(ps[0], color)] else []) + ParticleDraws(ps[1..], color)
  }

  /**
   * `ParticleDraws` paints a dot for a particle exactly when its life is
   * positive, and paints nothing else.
   */
  lemma {:induction false} ParticleDrawsSpec(ps: seq<Particle>, color: string)
    ensures forall k :: 0 <= k < |ps| && ps[k].life > 0.0 ==> Dot(ps[k], color) in ParticleDraws(ps, color)
    ensures forall d :: d in ParticleDraws(ps, color) ==>
              exists k :: 0 <= k < |ps| && ps[k].life > 0.0 && d == Dot(ps[k], color)
  {
    ParticleDrawsInOrder(ps, color);
    var r := ParticleDraws(ps, color);
    var live := LiveIndices(ps);
    forall k | 0 <= k < |ps| && ps[k].life > 0.0
      ensures Dot(ps[k], color) in r
    {
      var j :| 0 <= j < |live| && live[j] == k;
      assert r[j] == Dot(ps[k], color);
    }
    forall d | d in r
      ensures exists k :: 0 <= k < |ps| && ps[k].life > 0.0 && d == Dot(ps[k], color)
    {
      var j :| 0 <= j < |r| && r[j] == d;
      assert live[j] in live;
    }
  }

  /** A particle that still has life after its update is painted. */
  predicate IsLive(p: Particle) {
    p.life > 0.0
  }

  /** The dot painted for a live particle of a splash of colour `color`. */
  function DotIn(color: string): Particle -> DrawOp {
    p => Dot(p, color)
  }

  /** The live particles of `ps`, by position. */
  function LiveIndices(ps: seq<Particle>): seq<nat> {
    Positions(ps, IsLive, 0)
  }

  /** `ParticleDraws` is the selection of the live particles, each turned into its dot. */
  lemma {:induction false} ParticleDrawsIsSelect(ps: seq<Particle>, color: string)
    ensures ParticleDraws(ps, color) == Select(ps, IsLive, DotIn(color))
    decreases |ps|
  {
    if |ps| > 0 {
      ParticleDrawsIsSelect(ps[1..], color);
    }
  }

  /**
   * `ParticleDraws` paints exactly one dot per live particle, in particle
   * order: its j-th dot belongs to the j-th live particle.
   */
  lemma ParticleDrawsInOrder(ps: seq<Particle>, color: string)
    ensures |ParticleDraws(ps, color)| == |LiveIndices(ps)|
    ensures forall j :: 0 <= j < |LiveIndices(ps)| ==> LiveIndices(ps)[j] < |ps|
    ensures forall j :: 0 <= j < |ParticleDraws(ps, color)| ==>
              ParticleDraws(ps, color)[j] == Dot(ps[LiveIndices(ps)[j]], color)
    ensures forall j1, j2 :: 0 <= j1 < j2 < |LiveIndices(ps)| ==> LiveIndices(ps)[j1] < LiveIndices(ps)[j2]
    ensures forall k :: 0 <= k < |ps| ==> (k in LiveIndices(ps) <==> ps[k].life > 0.0)
  {
    ParticleDrawsIsSelect(ps, color);
    SelectAt(ps, IsLive, DotIn(color), 0);
    PositionsSelects(ps, IsLive, 0);
  }

  /**
   * Number of dots a frame paints: for every splash that survives, one per
   * particle that is still live after the move.
   */
  function LiveDotCount(splashes: seq<Splash>): nat {
    if |splashes| == 0 then 0
    else
      (if Survives(splashes[0]) then |LiveIndices(StepParticles(splashes[0].particles))| else 0)
      + LiveDotCount(splashes[1..])
  }

  /** What one splash paints in a frame: nothing if it expires, else its live dots. */
  function SplashDraws(s: Splash): seq<DrawOp> {
    if Survives(s) then ParticleDraws(StepParticles(s.particles), s.color) else []
  }

  /**
   * The dots painted for a list of splashes. The source walks the list from
   * the last index down to 0, so the newest splash paints first.
   */
  function DrawsFrom(splashes: seq<Splash>): seq<DrawOp> {
    if |splashes| == 0 then []
    else DrawsFrom(splashes[1..]) + SplashDraws(splashes[0])
  }

  /** Every operation of one `animate` frame: a clear, then the dots. */
  function FrameOps(splashes: seq<Splash>): (r: seq<DrawOp>)
    ensures |r| >= 1 && r[0] == ClearSurface
  {
    [ClearSurface] + DrawsFrom(splashes)
  }

  /**
   * `animate()` as the source writes it: walk the splashes from the last
   * index down, decrement each one's life, splice it out when it is spent,
   * otherwise move its particles and paint the live ones.
   */
  method Animate(splashes: seq<Splash>) returns (next: seq<Splash>, ops: seq<DrawOp>)
    ensures next == Tick(splashes)
    ensures ops == FrameOps(splashes)
  {
    next := splashes;
    ops := [ClearSurface];
    var i: int := |splashes| - 1;
    while i >= 0
      invariant -1 <= i < |splashes|
      invariant next == splashes[..i + 1] + Tick(splashes[i + 1..])
      invariant ops == [ClearSurface] + DrawsFrom(splashes[i + 1..])
    {
      next, ops := AnimateAt(splashes, i, next, ops);
      i := i - 1;
    }
    assert splashes[0..] == splashes;
  }

  /**
   * One pass of the loop in `animate`, at index i: splashes after i are
   * already processed, splash i is decremented and either spliced out or
   * moved and painted.
   */
  method AnimateAt(splashes: seq<Splash>, i: int, next: seq<Splash>, ops: seq<DrawOp>)
    returns (next': seq<Splash>, ops': seq<DrawOp>)
    requires 0 <= i < |splashes|
    requires next == splashes[..i + 1] + Tick(splashes[i + 1..])
    requires ops == [ClearSurface] + DrawsFrom(splashes[i + 1..])
    ensures next' == splashes[..i] + Tick(splashes[i..])
    ensures ops' == [ClearSurface] + DrawsFrom(splashes[i..])
  {
    assert next[i] == splashes[i] by { SplitAt(splashes, i); }
    var splash := next[i].(life := next[i].life - LifeStep);
    if splash.life <= 0.0 {
      next' := next[..i] + next[i + 1..];
      ops' := ops;
      ExpiredStep(splashes, i, next);
    } else {
      var moved := splash.(particles := StepParticles(splash.particles));
      var own := ParticleDraws(moved.particles, moved.color);
      next' := next[i := moved];
      ops' := ops + own;
      SurvivingStep(splashes, i, next);
      SurvivingDraws(splashes, i, ops);
    }
  }

  lemma SplitAt(splashes: seq<Splash>, i: int)
    requires 0 <= i < |splashes|
    ensures (splashes[..i + 1] + Tick(splashes[i + 1..]))[i] == splashes[i]
  {
  }

  /** The loop step for a splash that expires this frame: it is spliced out, nothing is painted. */
  lemma ExpiredStep(splashes: seq<Splash>, i: int, next: seq<Splash>)
    requires 0 <= i < |splashes| && !Survives(splashes[i])
    requires next == splashes[..i + 1] + Tick(splashes[i + 1..])
    ensures next[..i] + next[i + 1..] == splashes[..i] + Tick(splashes[i..])
    ensures DrawsFrom(splashes[i..]) == DrawsFrom(splashes[i + 1..])
  {
    TickAt(splashes, i);
    DrawsAt(splashes, i);
    var later := Tick(splashes[i + 1..]);
    assert splashes[..i + 1] == splashes[..i] + [splashes[i]];
    SpliceOut(splashes[..i], splashes[i], later);
    assert SplashDraws(splashes[i]) == [];
    assert DrawsFrom(splashes[i + 1..]) + [] == DrawsFrom(splashes[i + 1..]);
  }

  /** The loop step for a surviving splash: it is advanced in place... */
  lemma SurvivingStep(splashes: seq<Splash>, i: int, next: seq<Splash>)
    requires 0 <= i < |splashes| && Survives(splashes[i])
    requires next == splashes[..i + 1] + Tick(splashes[i + 1..])
    ensures next[i := Advance(splashes[i])] == splashes[..i] + Tick(splashes[i..])
  {
    TickAt(splashes, i);
    assert splashes[..i + 1] == splashes[..i] + [splashes[i]];
    Replace(splashes[..i], splashes[i], Advance(splashes[i]), Tick(splashes[i + 1..]));
  }

  /** ...and its live dots are painted after those of the splashes behind it. */
  lemma SurvivingDraws(splashes: seq<Splash>, i: int, ops: seq<DrawOp>)
    requires 0 <= i < |splashes| && Survives(splashes[i])
    requires ops == [ClearSurface] + DrawsFrom(splashes[i + 1..])
    ensures ops + ParticleDraws(StepParticles(splashes[i].particles), splashes[i].color)
            == [ClearSurface] + DrawsFrom(splashes[i..])
  {
    DrawsAt(splashes, i);
    var drawn := DrawsFrom(splashes[i + 1..]);
    var own := ParticleDraws(StepParticles(splashes[i].particles), splashes[i].color);
    assert SplashDraws(splashes[i]) == own;
    assert [ClearSurface] + drawn + own == [ClearSurface] + (drawn + own);
  }

  /** Splicing out the element at index |p| leaves the rest in order. */
  lemma SpliceOut<T>(p: seq<T>, x: T, t: seq<T>)
    ensures (p + [x] + t)[..|p|] + (p + [x] + t)[|p| + 1..] == p + t
  {
    assert (p + [x] + t)[..|p|] == p;
    assert (p + [x] + t)[|p| + 1..] == t;
  }

  /** Overwriting the element at index |p| changes nothing else. */
  lemma Replace<T>(p: seq<T>, x: T, y: T, t: seq<T>)
    ensures (p + [x] + t)[|p| := y] == p + [y] + t
  {
  }

  /** Splash `i` contributes its survivor (if any) in front of the survivors after it. */
  lemma TickAt(splashes: seq<Splash>, i: int)
    requires 0 <= i < |splashes|
    ensures Tick(splashes[i..]) ==
              (if Survives(splashes[i]) then [Advance(splashes[i])] else []) + Tick(splashes[i + 1..])
  {
    assert splashes[i..][0] == splashes[i];
    assert splashes[i..][1..] == splashes[i + 1..];
  }

  /** Splash `i` paints after the splashes behind it, since the loop runs from the end. */
  lemma DrawsAt(splashes: seq<Splash>, i: int)
    requires 0 <= i < |splashes|
    ensures DrawsFrom(splashes[i..]) == DrawsFrom(splashes[i + 1..]) + SplashDraws(splashes[i])
  {
    assert splashes[i..][0] == splashes[i];
    assert splashes[i..][1..] == splashes[i + 1..];
  }


  /* ---------------------------------------------------------------------- */
  /* Invariants of the splash list                                          */
  /* ---------------------------------------------------------------------- */

  /** A particle's decay rate is in the drawn range and its life never exceeds 1. */
  predicate ValidParticle(p: Particle) {
    0.01 <= p.decay < 0.03 && p.life <= 1.0
  }

  /** A live splash: positive life at most 1, exactly 20 valid particles. */
  predicate ValidSplash(s: Splash) {
    && 0.0 < s.life <= 1.0
    && |s.particles| == ParticleCount
    && forall k :: 0 <= k < |s.particles| ==> ValidParticle(s.particles[k])
  }

  predicate ValidEngine(splashes: seq<Splash>) {
    forall i :: 0 <= i < |splashes| ==> ValidSplash(splashes[i])
  }

  /* ---------------------------------------------------------------------- */
  /* Which splashes survive a frame                                         */
  /* ---------------------------------------------------------------------- */

  /**
   * Positions (counted from `base`) of the elements of `xs` that `keep`
   * selects, in increasing order.
   */
  function Positions<T>(xs: seq<T>, keep: T -> bool, base: nat): (idx: seq<nat>)
    ensures forall j :: 0 <= j < |idx| ==> base <= idx[j] < base + |xs|
  {
    if |xs| == 0 then []
    else (if keep(xs[0]) then [base] else []) + Positions(xs[1..], keep, base + 1)
  }

  /** `Positions` lists the selected positions, each once, in increasing order. */
  lemma {:induction false} PositionsSelects<T>(xs: seq<T>, keep: T -> bool, base: nat)
    ensures forall j1, j2 :: 0 <= j1 < j2 < |Positions(xs, keep, base)| ==>
              Positions(xs, keep, base)[j1] < Positions(xs, keep, base)[j2]
    ensures forall i :: 0 <= i < |xs| ==> (base + i in Positions(xs, keep, base) <==> keep(xs[i]))
    decreases |xs|
  {
    if |xs| > 0 {
      var tail := xs[1..];
      PositionsSelects(tail, keep, base + 1);
      var rest := Positions(tail, keep, base + 1);
      var head: seq<nat> := if keep(xs[0]) then [base] else [];
      assert Positions(xs, keep, base) == head + rest;
      forall i | 1 <= i < |xs|
        ensures base + i in Positions(xs, keep, base) <==> keep(xs[i])
      {
        assert xs[i] == tail[i - 1];
        assert base + i in rest <==> keep(tail[i - 1]);
      }
    }
  }

  /** The images under `f` of the elements `keep` selects, in their order. */
  function Select<T, U>(xs: seq<T>, keep: T -> bool, f: T -> U): (r: seq<U>)
    ensures |r| <= |xs|
  {
    if |xs| == 0 then []
    else (if keep(xs[0]) then [f(xs[0])] else []) + Select(xs[1..], keep, f)
  }

  /** The j-th selected image is `f` of the element at the j-th selected position. */
  lemma {:induction false} SelectAt<T, U>(xs: seq<T>, keep: T -> bool, f: T -> U, base: nat)
    ensures |Select(xs, keep, f)| == |Positions(xs, keep, base)|
    ensures forall j :: 0 <= j < |Select(xs, keep, f)| ==>
              Positions(xs, keep, base)[j] - base < |xs| &&
              Select(xs, keep, f)[j] == f(xs[Positions(xs, keep, base)[j] - base])
    decreases |xs|
  {
    if |xs| > 0 {
      var tail := xs[1..];
      SelectAt(tail, keep, f, base + 1);
      var r := Select(xs, keep, f);
      var idx := Positions(xs, keep, base);
      var head := if keep(xs[0]) then [f(xs[0])] else [];
      var headIdx: seq<nat> := if keep(xs[0]) then [base] else [];
      assert r == head + Select(tail, keep, f);
      assert idx == headIdx + Positions(tail, keep, base + 1);
      forall j | 0 <= j < |r|
        ensures idx[j] - base < |xs| && r[j] == f(xs[idx[j] - base])
      {
        if j < |head| {
          assert r[j] == f(xs[0]) && idx[j] == base;
        } else {
          var j' := j - |head|;
          var tailIdx := Positions(tail, keep, base + 1);
          assert r[j] == Select(tail, keep, f)[j'];
          assert idx[j] == tailIdx[j'];
          var m := tailIdx[j'] - (base + 1);
          assert 0 <= m < |tail|;
          assert tail[m] == xs[m + 1];
          assert idx[j] - base == m + 1;
        }
      }
    }
  }

  /** Indices of the splashes whose life after the frame's decrement is still positive. */
  function KeptIndices(splashes: seq<Splash>): seq<nat> {
    Positions(splashes, Survives, 0)
  }

  /** `Tick` is the selection of the surviving splashes, each advanced. */
  lemma {:induction false} TickIsSelect(splashes: seq<Splash>)
    ensures Tick(splashes) == Select(splashes, Survives, Advance)
    decreases |splashes|
  {
    if |splashes| > 0 {
      TickIsSelect(splashes[1..]);
    }
  }

  /**
   * One frame keeps exactly the splashes whose life after the decrement is
   * positive, in their original relative order.
   */
  lemma TickRemovesExactlyExpired(splashes: seq<Splash>)
    ensures |Tick(splashes)| == |KeptIndices(splashes)|
    ensures forall j :: 0 <= j < |KeptIndices(splashes)| ==> KeptIndices(splashes)[j] < |splashes|
    ensures forall j :: 0 <= j < |Tick(splashes)| ==>
              Tick(splashes)[j] == Advance(splashes[KeptIndices(splashes)[j]])
    ensures forall j1, j2 :: 0 <= j1 < j2 < |KeptIndices(splashes)| ==>
              KeptIndices(splashes)[j1] < KeptIndices(splashes)[j2]
    ensures forall i :: 0 <= i < |splashes| ==>
              (i in KeptIndices(splashes) <==> splashes[i].life - 0.01 > 0.0)
  {
    TickIsSelect(splashes);
    SelectAt(splashes, Survives, Advance, 0);
    PositionsSelects(splashes, Survives, 0);
  }

  /**
   * The j-th survivor is splash `KeptIndices[j]` one life step older, with
   * every particle moved by its velocity, pulled by gravity and decayed,
   * and nothing else about it changed.
   */
  lemma TickUpdatesSurvivors(splashes: seq<Splash>)
    ensures |Tick(splashes)| == |KeptIndices(splashes)|
    ensures forall j :: 0 <= j < |Tick(splashes)| ==>
              var s := splashes[KeptIndices(splashes)[j]];
              var t := Tick(splashes)[j];
              && t.life == s.life - 0.01
              && t.x == s.x && t.y == s.y && t.color == s.color
              && |t.particles| == |s.particles|
              && forall k :: 0 <= k < |s.particles| ==>
                   var p := s.particles[k];
                   var q := t.particles[k];
                   && q.x == p.x + p.vx && q.y == p.y + p.vy
                   && q.vx == p.vx && q.vy == p.vy + 0.1
                   && q.life == p.life - p.decay && q.decay == p.decay
  {
    TickIsSelect(splashes);
    SelectAt(splashes, Survives, Advance, 0);
  }

  /** Each splash is updated on its own: a frame over `a + b` is the frames over `a` and `b`. */
  lemma {:induction false} TickAppend(a: seq<Splash>, b: seq<Splash>)
    ensures Tick(a + b) == Tick(a) + Tick(b)
    decreases |a|
  {
    if |a| == 0 {
      assert a + b == b;
    } else {
      var head := if Survives(a[0]) then [Advance(a[0])] else [];
      assert (a + b)[0] == a[0];
      assert (a + b)[1..] == a[1..] + b;
      assert Tick(a + b) == head + Tick(a[1..] + b);
      TickAppend(a[1..], b);
      assert Tick(a) == head + Tick(a[1..]);
    }
  }

  /** A frame keeps every splash valid: the invariant survives `animate`. */
  lemma {:induction false} TickPreservesValid(splashes: seq<Splash>)
    requires ValidEngine(splashes)
    ensures ValidEngine(Tick(splashes))
    decreases |splashes|
  {
    if |splashes| > 0 {
      TickPreservesValid(splashes[1..]);
      var s := splashes[0];
      if Survives(s) {
        var t := Advance(s);
        assert ValidSplash(t) by {
          forall k | 0 <= k < |t.particles|
            ensures ValidParticle(t.particles[k])
          {
            assert ValidParticle(s.particles[k]);
          }
        }
      }
    }
  }

  /* ---------------------------------------------------------------------- */
  /* What a frame paints                                                    */
  /* ---------------------------------------------------------------------- */

  /** Particle k of splash s, once moved, is live and paints dot d. */
  predicate PaintsDot(s: Splash, k: int, d: DrawOp) {
    && Survives(s)
    && 0 <= k < |s.particles|
    && StepParticle(s.particles[k]).life > 0.0
    && d == Dot(StepParticle(s.particles[k]), s.color)
  }

  lemma {:induction false} DrawsFromExact(splashes: seq<Splash>)
    ensures forall i, k ::
              (0 <= i < |splashes| && 0 <= k < |splashes[i].particles| &&
               Survives(splashes[i]) && StepParticle(splashes[i].particles[k]).life > 0.0) ==>
              Dot(StepParticle(splashes[i].particles[k]), splashes[i].color) in DrawsFrom(splashes)
    ensures forall d :: d in DrawsFrom(splashes) ==>
              exists i, k :: 0 <= i < |splashes| && PaintsDot(splashes[i], k, d)
    decreases |splashes|
  {
    if |splashes| > 0 {
      var s := splashes[0];
      var tail := splashes[1..];
      DrawsFromExact(tail);
      assert forall i :: 1 <= i < |splashes| ==> splashes[i] == tail[i - 1];
      var own := SplashDraws(s);
      ParticleDrawsSpec(StepParticles(s.particles), s.color);
      forall d | d in own
        ensures PaintsDot(s, 0, d) || exists k :: PaintsDot(s, k, d)
      {
        var ps := StepParticles(s.particles);
        var k :| 0 <= k < |ps| && ps[k].life > 0.0 && d == Dot(ps[k], s.color);
        assert PaintsDot(s, k, d);
      }
      forall d | d in DrawsFrom(splashes)
        ensures exists i, k :: 0 <= i < |splashes| && PaintsDot(splashes[i], k, d)
      {
        if d in own {
          var k :| PaintsDot(s, k, d);
          assert PaintsDot(splashes[0], k, d);
        } else {
          assert d in DrawsFrom(tail);
          var i, k :| 0 <= i < |tail| && PaintsDot(tail[i], k, d);
          assert PaintsDot(splashes[i + 1], k, d);
        }
      }
    }
  }

  /**
   * A frame paints one clear and then a dot (alpha = the particle's life,
   * the splash's colour, radius 2) for a particle exactly when its splash
   * survives the frame and the particle's life after decay is positive.
   */
  lemma FrameDrawsLiveParticles(splashes: seq<Splash>)
    ensures FrameOps(splashes)[0] == ClearSurface
    ensures ClearSurface !in FrameOps(splashes)[1..]
    ensures forall i, k ::
              (0 <= i < |splashes| && 0 <= k < |splashes[i].particles| &&
               Survives(splashes[i]) && StepParticle(splashes[i].particles[k]).life > 0.0) ==>
              FillCircle(splashes[i].particles[k].x + splashes[i].particles[k].vx,
                         splashes[i].particles[k].y + splashes[i].particles[k].vy,
                         2.0,
                         splashes[i].particles[k].life - splashes[i].particles[k].decay,
                         splashes[i].color) in FrameOps(splashes)
    ensures forall d :: d in FrameOps(splashes)[1..] ==>
              exists i, k :: 0 <= i < |splashes| && PaintsDot(splashes[i], k, d)
  {
    var drawn := DrawsFrom(splashes);
    DrawsFromExact(splashes);
    assert FrameOps(splashes)[1..] == drawn;
    forall d | d in drawn
      ensures d != ClearSurface
    {
      var i, k :| 0 <= i < |splashes| && PaintsDot(splashes[i], k, d);
    }
    forall i, k | (0 <= i < |splashes| && 0 <= k < |splashes[i].particles| &&
                   Survives(splashes[i]) && StepParticle(splashes[i].particles[k]).life > 0.0)
      ensures FillCircle(splashes[i].particles[k].x + splashes[i].particles[k].vx,
                         splashes[i].particles[k].y + splashes[i].particles[k].vy,
                         2.0,
                         splashes[i].particles[k].life - splashes[i].particles[k].decay,
                         splashes[i].color) in FrameOps(splashes)
    {
      var p := splashes[i].particles[k];
      assert Dot(StepParticle(p), splashes[i].color) in drawn;
    }
  }

  /** A frame is its clear followed by exactly one dot per live particle of a surviving splash. */
  lemma {:induction false} FrameDotCount(splashes: seq<Splash>)
    ensures |FrameOps(splashes)| == 1 + LiveDotCount(splashes)
    decreases |splashes|
  {
    if |splashes| > 0 {
      FrameDotCount(splashes[1..]);
      var s := splashes[0];
      if Survives(s) {
        ParticleDrawsInOrder(StepParticles(s.particles), s.color);
      }
    }
  }

  /**
   * A particle that has stopped painting stays dark: with a positive decay
   * its life only falls, so after the next update it is still not live.
   */
  lemma ExpiredParticleStaysDark(splashes: seq<Splash>, j: int, k: int)
    requires ValidEngine(splashes)
    requires 0 <= j < |Tick(splashes)|
    requires 0 <= k < |Tick(splashes)[j].particles|
    requires Tick(splashes)[j].particles[k].life <= 0.0
    ensures StepParticle(Tick(splashes)[j].particles[k]).life <= 0.0
    ensures !IsLive(StepParticle(Tick(splashes)[j].particles[k]))
  {
    TickPreservesValid(splashes);
    assert ValidSplash(Tick(splashes)[j]);
    assert ValidParticle(Tick(splashes)[j].particles[k]);
  }

  /** With valid splashes every dot is painted with an opacity in (0, 1). */
  lemma FrameAlphaInRange(splashes: seq<Splash>)
    requires ValidEngine(splashes)
    ensures forall d :: d in FrameOps(splashes)[1..] ==>
              d.FillCircle? && 0.0 < d.alpha < 1.0 && d.radius == 2.0
  {
    FrameDrawsLiveParticles(splashes);
    forall d | d in FrameOps(splashes)[1..]
      ensures d.FillCircle? && 0.0 < d.alpha < 1.0 && d.radius == 2.0
    {
      var i, k :| 0 <= i < |splashes| && PaintsDot(splashes[i], k, d);
      assert ValidParticle(splashes[i].particles[k]);
    }
  }

  /** With no splashes a frame only clears the canvas and the list stays empty. */
  lemma EmptyFrame()
    ensures Tick([]) == []
    ensures FrameOps([]) == [ClearSurface]
  {
  }

  /**
   * Squared speed of a fresh particle is in [4, 25) when its direction is a
   * unit vector: the source's `Math.random() * 3 + 2` lies in [2, 5).
   */
  lemma ParticleSpeedInRange(x: real, y: real, dir: Direction, rs: real, rd: real)
    requires IsRandomDraw(rs) && IsRandomDraw(rd)
    requires dir.cos * dir.cos + dir.sin * dir.sin == 1.0
    ensures var p := NewParticle(x, y, dir, rs, rd);
            4.0 <= p.vx * p.vx + p.vy * p.vy < 25.0
  {
    var v := Speed(rs);
    var p := NewParticle(x, y, dir, rs, rd);
    var c2 := dir.cos * dir.cos;
    var s2 := dir.sin * dir.sin;
    var v2 := v * v;
    SquareBounds(v);
    assert p.vx * p.vx == c2 * v2;
    assert p.vy * p.vy == s2 * v2;
    assert c2 * v2 + s2 * v2 == (c2 + s2) * v2;
    assert c2 + s2 == 1.0;
    assert (c2 + s2) * v2 == v2;
    assert 4.0 <= v2 < 25.0;
    assert 4.0 <= p.vx * p.vx + p.vy * p.vy < 25.0;
  }

  /**
   * Every particle of a created splash whose direction is a unit vector
   * leaves with a squared speed in [4, 25).
   */
  lemma CreatedParticleSpeed(x: real, y: real, color: Option<string>, dirs: seq<Direction>, draws: seq<real>)
    requires |dirs| == ParticleCount && |draws| == 2 * ParticleCount
    requires AllRandomDraws(draws)
    requires forall i :: 0 <= i < |dirs| ==> dirs[i].cos * dirs[i].cos + dirs[i].sin * dirs[i].sin == 1.0
    ensures var s := CreateSplash(x, y, color, dirs, draws);
            forall i :: 0 <= i < |s.particles| ==>
              4.0 <= s.particles[i].vx * s.particles[i].vx + s.particles[i].vy * s.particles[i].vy < 25.0
  {
    var s := CreateSplash(x, y, color, dirs, draws);
    forall i | 0 <= i < |s.particles|
      ensures 4.0 <= s.particles[i].vx * s.particles[i].vx + s.particles[i].vy * s.particles[i].vy < 25.0
    {
      ParticleSpeedInRange(x, y, dirs[i], draws[2 * i], draws[2 * i + 1]);
      assert s.particles[i] == NewParticle(x, y, dirs[i], draws[2 * i], draws[2 * i + 1]);
    }
  }

}
