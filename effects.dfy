/** Visual feedback with state: the explosion particles and the cursor trail. */
module Effects {
  import opened Options
  import opened Geometry

  /** Life a particle loses per frame. */
  const PARTICLE_FADE: real := 0.05
  /** Life a trail point loses per frame. */
  const TRAIL_FADE: real := 0.1
  /** Particles spawned by one explosion. */
  const BURST_SIZE: nat := 20
  /** Most trail points alive at once (a point lives for ten frames). */
  const TRAIL_MAX: nat := 10

  /** The colour table an explosion draws from; its first entry is null. */
  const PALETTE: seq<Option<string>> :=
    [None, Some("#111111"), Some("#ffccaa"), Some("#ffffff"), Some("#333333")]
  /** The colour used when the draw lands on the null entry. */
  const FALLBACK_COLOUR: string := "#fff"

  datatype Particle = Particle(x: real, y: real, speedX: real, speedY: real,
                               size: real, colour: string, life: real)

  /** The four `Math.random()` values one burst particle consumes, in the
      order the source draws them: the palette index (in `explode`), then
      size, horizontal and vertical speed (in the constructor). */
  datatype ParticleDraws = ParticleDraws(colour: real, size: real, speedX: real, speedY: real)

  predicate IsUnit(r: real) {
    0.0 <= r < 1.0
  }

  predicate IsParticleDraws(d: ParticleDraws) {
    IsUnit(d.colour) && IsUnit(d.size) && IsUnit(d.speedX) && IsUnit(d.speedY)
  }

  /** The draws of a whole burst: one set per particle. */
  predicate IsBurstDraws(ds: seq<ParticleDraws>) {
    |ds| == BURST_SIZE && forall i :: 0 <= i < |ds| ==> IsParticleDraws(ds[i])
  }

  /** `colors[Math.floor(r * colors.length)] || '#fff'`. */
  function PaletteColour(r: real): (c: string)
    requires IsUnit(r)
    ensures c == FALLBACK_COLOUR || Some(c) in PALETTE
    ensures c == FALLBACK_COLOUR <==> r < 1.0 / |PALETTE| as real
  {
    var i := (r * |PALETTE| as real).Floor;
    PALETTE[i].GetOr(FALLBACK_COLOUR)
  }

  /** The `Particle` constructor: a fresh particle sits at the given point
      with full life, a size in [4, 10) and a speed in [-7.5, 7.5) per axis. */
  function NewParticle(at: Point, d: ParticleDraws): (p: Particle)
    requires IsParticleDraws(d)
    ensures p.x == at.x && p.y == at.y && p.life == 1.0
    ensures 4.0 <= p.size < 10.0
    ensures -7.5 <= p.speedX < 7.5 && -7.5 <= p.speedY < 7.5
  {
    Particle(at.x, at.y, (d.speedX - 0.5) * 15.0, (d.speedY - 0.5) * 15.0,
             d.size * 6.0 + 4.0, PaletteColour(d.colour), 1.0)
  }

  /** The particles `explode` appends, in order: BURST_SIZE of them, all
      starting at `at` with full life. */
  function Burst(at: Point, ds: seq<ParticleDraws>): (ps: seq<Particle>)
    requires IsBurstDraws(ds)
    ensures |ps| == BURST_SIZE
    ensures forall i :: 0 <= i < |ps| ==>
      ps[i].x == at.x && ps[i].y == at.y && ps[i].life == 1.0 && 4.0 <= ps[i].size < 10.0
  {
    seq(BURST_SIZE, i requires 0 <= i < BURST_SIZE => NewParticle(at, ds[i]))
  }

  /** `Particle.update`: move by the speed and lose PARTICLE_FADE of life. */
  function StepParticle(p: Particle): (q: Particle)
    ensures q.x - p.x == p.speedX && q.y - p.y == p.speedY
    ensures q.life == p.life - PARTICLE_FADE < p.life
    ensures q.speedX == p.speedX && q.speedY == p.speedY
    ensures q.size == p.size && q.colour == p.colour
  {
    p.(x := p.x + p.speedX, y := p.y + p.speedY, life := p.life - PARTICLE_FADE)
  }

  /** The particle after k updates. */
  function Aged(p: Particle, k: nat): Particle {
    if k == 0 then p else StepParticle(Aged(p, k - 1))
  }

  lemma {:induction false} AgedLife(p: Particle, k: nat)
    ensures Aged(p, k).life == p.life - PARTICLE_FADE * k as real
    ensures Aged(p, k).colour == p.colour && Aged(p, k).size == p.size
  {
    if k > 0 {
      AgedLife(p, k - 1);
    }
  }

  /** A particle born with full life still has life left after k updates
      exactly when k < 20 (1.0 / PARTICLE_FADE): the pass removes it on its
      twentieth frame. */
  lemma ParticleLifetime(p: Particle, k: nat)
    requires p.life == 1.0
    ensures Aged(p, k).life > 0.0 <==> k < 20
  {
    AgedLife(p, k);
  }

  /** The particle pass of one frame: every particle stepped, those whose
      life has run out dropped, the rest kept in their order. */
  function Survivors(ps: seq<Particle>): seq<Particle> {
    if ps == [] then []
    else
      var q := StepParticle(ps[0]);
      (if q.life > 0.0 then [q] else []) + Survivors(ps[1..])
  }

  /** A particle survives a frame exactly when it is the step of an old
      particle and still has life left; no frame adds particles. */
  lemma {:induction false} SurvivorsSpec(ps: seq<Particle>)
    ensures |Survivors(ps)| <= |ps|
    ensures forall q :: q in Survivors(ps) <==>
      q.life > 0.0 && exists p :: p in ps && q == StepParticle(p)
  {
    if ps != [] {
      SurvivorsSpec(ps[1..]);
      assert ps == [ps[0]] + ps[1..];
      forall q: Particle | q.life > 0.0 && (exists p :: p in ps && q == StepParticle(p))
        ensures q in Survivors(ps)
      {
        var p :| p in ps && q == StepParticle(p);
        if p != ps[0] {
          assert p in ps[1..];
        }
      }
    }
  }

  /** A point of the cursor trail. */
  datatype TrailPoint = TrailPoint(x: real, y: real, life: real)

  /** The trail after the drawing loop has aged every point in place. */
  function Faded(s: seq<TrailPoint>): (r: seq<TrailPoint>)
    ensures |r| == |s|
  {
    seq(|s|, i requires 0 <= i < |s| => s[i].(life := s[i].life - TRAIL_FADE))
  }

  /** `cursorTrail.filter(p => p.life > 0)`. */
  function Live(s: seq<TrailPoint>): seq<TrailPoint> {
    if s == [] then []
    else (if s[0].life > 0.0 then [s[0]] else []) + Live(s[1..])
  }

  /** A point is kept by the filter exactly when it was there with life left. */
  lemma {:induction false} LiveSpec(s: seq<TrailPoint>)
    ensures |Live(s)| <= |s|
    ensures forall t :: t in Live(s) <==> t in s && t.life > 0.0
  {
    if s != [] {
      LiveSpec(s[1..]);
      assert s == [s[0]] + s[1..];
    }
  }

  /** The trail part of `drawCursor`: age, filter, then append the pointer. */
  function TrailStep(s: seq<TrailPoint>, mouse: Point): seq<TrailPoint> {
    Live(Faded(s)) + [TrailPoint(mouse.x, mouse.y, 1.0)]
  }

  /** After a trail step the last point is the pointer with full life, and
      the earlier ones are exactly the old points, aged by TRAIL_FADE, that
      still have life left. */
  lemma TrailStepSpec(s: seq<TrailPoint>, mouse: Point)
    ensures var r := TrailStep(s, mouse);
      && |r| <= |s| + 1
      && r[|r| - 1] == TrailPoint(mouse.x, mouse.y, 1.0)
      && forall t :: t in r[..|r| - 1] <==>
           t.life > 0.0 && exists u :: u in s && t == u.(life := u.life - TRAIL_FADE)
  {
    var r := TrailStep(s, mouse);
    LiveSpec(Faded(s));
    assert r[..|r| - 1] == Live(Faded(s));
    forall t: TrailPoint | t.life > 0.0 && (exists u :: u in s && t == u.(life := u.life - TRAIL_FADE))
      ensures t in Faded(s)
    {
      var u :| u in s && t == u.(life := u.life - TRAIL_FADE);
      var i :| 0 <= i < |s| && s[i] == u;
      assert Faded(s)[i] == t;
    }
  }

  /** The shape one trail point per frame gives the trail: the newest point
      has life 1.0, each older one 0.1 less, and there are at most TRAIL_MAX. */
  ghost predicate IsLadder(s: seq<TrailPoint>) {
    && |s| <= TRAIL_MAX
    && forall j :: 0 <= j < |s| ==> s[j].life == 1.0 - TRAIL_FADE * (|s| - 1 - j) as real
  }

  lemma {:induction false} LiveAllAlive(s: seq<TrailPoint>)
    requires forall j :: 0 <= j < |s| ==> s[j].life > 0.0
    ensures Live(s) == s
  {
    if s != [] {
      LiveAllAlive(s[1..]);
      assert s == [s[0]] + s[1..];
    }
  }

  lemma {:induction false} LiveSkipsDeadPrefix(s: seq<TrailPoint>, k: nat)
    requires k <= |s|
    requires forall j :: 0 <= j < k ==> s[j].life <= 0.0
    ensures Live(s) == Live(s[k..])
  {
    if k > 0 {
      LiveSkipsDeadPrefix(s[1..], k - 1);
      assert s[1..][k - 1..] == s[k..];
    }
  }

  /** A trail step keeps the ladder shape, so the trail never holds more
      than TRAIL_MAX points and every point has life in (0, 1]. */
  lemma TrailStepKeepsLadder(s: seq<TrailPoint>, mouse: Point)
    requires IsLadder(s)
    ensures IsLadder(TrailStep(s, mouse))
  {
    var f := Faded(s);
    var n := |s|;
    var k := if n >= TRAIL_MAX then n - (TRAIL_MAX - 1) else 0;
    forall j | 0 <= j < k ensures f[j].life <= 0.0 {
      assert f[j].life == 1.0 - TRAIL_FADE * (n - j) as real;
    }
    LiveSkipsDeadPrefix(f, k);
    forall j | 0 <= j < |f[k..]| ensures f[k..][j].life > 0.0 {
      assert f[k..][j] == f[k + j];
    }
    LiveAllAlive(f[k..]);
    var r := TrailStep(s, mouse);
    assert r == f[k..] + [TrailPoint(mouse.x, mouse.y, 1.0)];
    forall j | 0 <= j < |r| ensures r[j].life == 1.0 - TRAIL_FADE * (|r| - 1 - j) as real {
      if j < |r| - 1 {
        assert r[j] == f[k + j];
      }
    }
  }

  /** Every point of a ladder-shaped trail has life in (0, 1]. */
  lemma LadderLives(s: seq<TrailPoint>)
    requires IsLadder(s)
    ensures forall j :: 0 <= j < |s| ==> 0.0 < s[j].life <= 1.0
  {
  }
}
