/**
 * The orbital particle backdrop, reduced to its bookkeeping: the particle
 * list is filled once, on the first resize that finds it empty.
 */
module Orbital {

  const ParticleCount: nat := 40

  /** One particle: orbit radius, angle, angular speed, size and hue. */
  datatype Particle = Particle(r: real, a: real, s: real, size: real, hue: real)

  /** `2 * Math.PI` as a double. */
  const TwoPi: real := 6.283185307179586

  /** Five `Math.random()` draws, each in [0, 1). */
  datatype Draws = Draws(r: real, a: real, s: real, size: real, hue: real)

  predicate UnitDraws(d: Draws)
  {
    0.0 <= d.r < 1.0 && 0.0 <= d.a < 1.0 && 0.0 <= d.s < 1.0 && 0.0 <= d.size < 1.0 && 0.0 <= d.hue < 1.0
  }

  function Min(x: real, y: real): real
  {
    if x <= y then x else y
  }

  /** One particle for a `w` by `h` surface. */
  function Spawn(w: real, h: real, d: Draws): (p: Particle)
    requires UnitDraws(d) && w >= 0.0 && h >= 0.0
    ensures 40.0 <= p.r <= 40.0 + Min(w, h) * 0.25
    ensures 0.0 <= p.a < TwoPi
    ensures 0.0015 <= p.s < 0.0045
    ensures 1.0 <= p.size < 3.0
    ensures 200.0 <= p.hue < 280.0
  {
    var m := Min(w, h);
    assert 0.0 <= d.r * m <= m by {
      assert (1.0 - d.r) * m >= 0.0;
    }
    Particle(40.0 + d.r * m * 0.25, d.a * TwoPi, 0.0015 + d.s * 0.003, 1.0 + d.size * 2.0, 200.0 + d.hue * 80.0)
  }

  function SpawnAll(w: real, h: real, draws: seq<Draws>): (ps: seq<Particle>)
    requires forall i :: 0 <= i < |draws| ==> UnitDraws(draws[i])
    requires w >= 0.0 && h >= 0.0
    ensures |ps| == |draws|
    ensures forall i :: 0 <= i < |ps| ==> 40.0 <= ps[i].r <= 40.0 + Min(w, h) * 0.25
  {
    if |draws| == 0 then [] else [Spawn(w, h, draws[0])] + SpawnAll(w, h, draws[1..])
  }

  /**
   * `resize()`: the surface takes the new size; an empty particle list gets
   * 40 new particles drawn for it, a non-empty one is kept as it is.
   * `draws` supplies the random numbers for each new particle.
   */
  function Resize(particles: seq<Particle>, w: real, h: real, draws: nat -> Draws): (r: seq<Particle>)
    requires forall n :: UnitDraws(draws(n))
    requires w >= 0.0 && h >= 0.0
    ensures |particles| > 0 ==> r == particles
    ensures |particles| == 0 ==> |r| == ParticleCount
    ensures |particles| == 0 ==> forall i :: 0 <= i < |r| ==> 40.0 <= r[i].r <= 40.0 + Min(w, h) * 0.25
  {
    if |particles| == 0 then SpawnAll(w, h, seq(ParticleCount, i requires 0 <= i => draws(i))) else particles
  }

  /** A series of resizes, each with its own surface size and random draws. */
  datatype ResizeEvent = ResizeEvent(w: real, h: real, draws: nat -> Draws)

  ghost predicate ValidEvent(e: ResizeEvent)
  {
    e.w >= 0.0 && e.h >= 0.0 && forall n :: UnitDraws(e.draws(n))
  }

  function ResizeAll(particles: seq<Particle>, events: seq<ResizeEvent>): seq<Particle>
    requires forall i :: 0 <= i < |events| ==> ValidEvent(events[i])
    decreases |events|
  {
    if |events| == 0 then particles
    else
      assert ValidEvent(events[0]);
      ResizeAll(Resize(particles, events[0].w, events[0].h, events[0].draws), events[1..])
  }

  /** However many resizes follow the first, the field holds exactly 40 particles, the ones made first. */
  lemma {:induction false} CountInvariant(events: seq<ResizeEvent>)
    requires |events| > 0 && forall i :: 0 <= i < |events| ==> ValidEvent(events[i])
    ensures |ResizeAll([], events)| == ParticleCount
    ensures ResizeAll([], events) == Resize([], events[0].w, events[0].h, events[0].draws)
  {
    var first := Resize([], events[0].w, events[0].h, events[0].draws);
    KeptAcross(first, events[1..]);
  }

  lemma {:induction false} KeptAcross(particles: seq<Particle>, events: seq<ResizeEvent>)
    requires |particles| > 0 && forall i :: 0 <= i < |events| ==> ValidEvent(events[i])
    ensures ResizeAll(particles, events) == particles
    decreases |events|
  {
    if |events| > 0 {
      KeptAcross(particles, events[1..]);
    }
  }
}
