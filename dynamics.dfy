/** One frame of the gas as a function of the particles: the motion
    `Iterate` produces and the respawning that follows it. */
module Dynamics {
  import opened Vectors
  import opened Particles
  import opened Grid
  import opened Forces

  /** Every draw of `rand() / RAND_MAX` lies in `[0, 1]`. */
  ghost predicate UnitDraws(rand: nat -> real)
  {
    forall n :: 0.0 <= rand(n) <= 1.0
  }

  /** The number of particles among the first `n` that are off screen. */
  function OffCount(ps: seq<Particle>, n: nat): (c: nat)
    requires n <= |ps|
    ensures c <= n
  {
    if n == 0 then 0 else OffCount(ps, n - 1) + (if OnScreen(ps[n - 1].pos) then 0 else 1)
  }

  /** Particle `p` after the tests of `RespawnOffScreen`, when the stream
      of draws is at position `d`. */
  function RespawnedOne(rand: nat -> real, d: nat, p: Particle): Particle
    requires UnitDraws(rand)
  {
    if OnScreen(p.pos) then p else Respawned(p, rand(d), rand(d + 1))
  }

  /** The particles after `RespawnOffScreen`, when the stream of draws is
      at position `d`: each off-screen particle takes the next two draws,
      in index order. */
  function RespawnedAll(rand: nat -> real, d: nat, ps: seq<Particle>): (r: seq<Particle>)
    requires UnitDraws(rand)
    ensures |r| == |ps|
  {
    if ps == [] then []
    else
      var n := |ps| - 1;
      RespawnedAll(rand, d, ps[..n]) + [RespawnedOne(rand, d + 2 * OffCount(ps, n), ps[n])]
  }

  /** The off-screen count of the first `n` particles ignores the rest. */
  lemma {:induction false} OffCountPrefix(ps: seq<Particle>, m: nat, n: nat)
    requires n <= m <= |ps|
    ensures OffCount(ps[..m], n) == OffCount(ps, n)
  {
    if n > 0 {
      OffCountPrefix(ps, m, n - 1);
      assert ps[..m][n - 1] == ps[n - 1];
    }
  }

  /** Particle `n` after respawning: it draws at the position that the
      off-screen particles before it leave the stream at. */
  lemma {:induction false} RespawnedAllAt(rand: nat -> real, d: nat, ps: seq<Particle>, n: nat)
    requires UnitDraws(rand) && n < |ps|
    ensures RespawnedAll(rand, d, ps)[n] == RespawnedOne(rand, d + 2 * OffCount(ps, n), ps[n])
    decreases |ps|
  {
    var last := |ps| - 1;
    if n < last {
      RespawnedAllAt(rand, d, ps[..last], n);
      OffCountPrefix(ps, last, n);
      assert ps[..last][n] == ps[n];
    }
  }

  /** After respawning every particle is on screen; on-screen particles are
      left alone, the others are at rest in the inset rectangle, and no
      particle changes identity or recorded cell. */
  lemma RespawnedAllOnScreen(rand: nat -> real, d: nat, ps: seq<Particle>, n: nat)
    requires UnitDraws(rand) && n < |ps|
    ensures OnScreen(RespawnedAll(rand, d, ps)[n].pos)
    ensures OnScreen(ps[n].pos) ==> RespawnedAll(rand, d, ps)[n] == ps[n]
    ensures !OnScreen(ps[n].pos) ==>
      InInset(RespawnedAll(rand, d, ps)[n].pos) && RespawnedAll(rand, d, ps)[n].vel == Zero() && RespawnedAll(rand, d, ps)[n].acc == Zero()
    ensures RespawnedAll(rand, d, ps)[n].id == ps[n].id
    ensures RespawnedAll(rand, d, ps)[n].i == ps[n].i && RespawnedAll(rand, d, ps)[n].j == ps[n].j
  {
    RespawnedAllAt(rand, d, ps, n);
  }

  lemma {:induction false} OffCountNone(ps: seq<Particle>, n: nat)
    requires n <= |ps|
    requires forall m :: 0 <= m < n ==> OnScreen(ps[m].pos)
    ensures OffCount(ps, n) == 0
  {
    if n > 0 {
      OffCountNone(ps, n - 1);
    }
  }

  /** Respawning is idempotent: a second pass finds every particle on
      screen, draws nothing and changes nothing. */
  lemma RespawnIdempotent(rand: nat -> real, d: nat, d': nat, ps: seq<Particle>)
    requires UnitDraws(rand)
    ensures OffCount(RespawnedAll(rand, d, ps), |ps|) == 0
    ensures RespawnedAll(rand, d', RespawnedAll(rand, d, ps)) == RespawnedAll(rand, d, ps)
  {
    var r := RespawnedAll(rand, d, ps);
    forall m | 0 <= m < |r|
      ensures OnScreen(r[m].pos)
    {
      RespawnedAllOnScreen(rand, d, ps, m);
    }
    OffCountNone(r, |r|);
    forall m | 0 <= m < |r|
      ensures RespawnedAll(rand, d', r)[m] == r[m]
    {
      RespawnedAllAt(rand, d', r, m);
    }
  }

  /** The particles after the physics of one `Iterate`, given the particles
      `Partition` filed: each is pushed by the legacy force of all
      particles, then advanced. */
  function Moved(sqrt: real -> real, ps: seq<Particle>): (r: seq<Particle>)
    ensures |r| == |ps|
  {
    seq(|ps|, k requires 0 <= k < |ps| => Advance(ps[k].(acc := LegacyForce(sqrt, ps, k))))
  }

  /** An isolated particle keeps its velocity through the step. */
  lemma MovedIsolated(sqrt: real -> real, ps: seq<Particle>, k: nat)
    requires k < |ps|
    requires forall n :: 0 <= n < |ps| ==> !Interacts(ps[k], ps[n])
    ensures Moved(sqrt, ps)[k].vel == ps[k].vel
    ensures Moved(sqrt, ps)[k].pos == Add(ps[k].pos, ps[k].vel)
  {
    IsolatedParticle(sqrt, ps, k);
  }

  /** `ClearAcc` then `Repulsion` inside `Iterate`: `Partition` filed the
      particles `fs` into `g`, `ClearAcc` left `cs`, and `Repulsion` added
      to each acceleration the force of the particles in the cells around
      it, leaving `rs`. Then each acceleration is the force of all
      particles. */
  lemma ClearedGridForce(sqrt: real -> real, fs: seq<Particle>, cs: seq<Particle>, rs: seq<Particle>, g: Cells)
    requires Partitioned(fs, g) && |cs| == |fs| && |rs| == |fs|
    requires forall n :: 0 <= n < |fs| ==> cs[n] == fs[n].(acc := Zero())
    requires Indexed(cs, g)
    requires forall n :: 0 <= n < |rs| ==> rs[n] == cs[n].(acc := Add(cs[n].acc, GridForce(sqrt, cs, g, n)))
    ensures forall n :: 0 <= n < |rs| ==> rs[n] == fs[n].(acc := LegacyForce(sqrt, fs, n))
  {
    PartitionedFrame(fs, cs, g);
    forall n | 0 <= n < |rs|
      ensures rs[n] == fs[n].(acc := LegacyForce(sqrt, fs, n))
    {
      var force := GridForce(sqrt, cs, g, n);
      ClearedGridForceAt(sqrt, fs, cs, g, n);
      var v := Add(cs[n].acc, force);
      assert v == force;
      assert rs[n] == cs[n].(acc := v);
    }
  }

  /** One particle of `ClearedGridForce`: the grid scan over the cleared
      particles equals the all-pairs force over the filed ones. */
  lemma ClearedGridForceAt(sqrt: real -> real, fs: seq<Particle>, cs: seq<Particle>, g: Cells, n: nat)
    requires Partitioned(cs, g) && n < |cs| == |fs|
    requires forall m :: 0 <= m < |fs| ==> cs[m].pos == fs[m].pos && cs[m].id == fs[m].id
    ensures Indexed(cs, g)
    ensures GridForce(sqrt, cs, g, n) == LegacyForce(sqrt, fs, n)
  {
    PartitionedIndexed(cs, g);
    var force := GridForce(sqrt, cs, g, n);
    assert force == LegacyForce(sqrt, cs, n) by {
      GridMatchesLegacy(sqrt, cs, g, n);
    }
    assert LegacyForce(sqrt, cs, n) == LegacyForce(sqrt, fs, n) by {
      PushesFrame(sqrt, cs, fs, n);
    }
  }
}
