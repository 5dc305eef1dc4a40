/** Configuration, the particle record, the cell index of a coordinate and the
    repulsion law of the gas (main.cpp, classes `Game`, `Particle` and `Gas`). */
module Particles {
  import opened Vectors

  // Configuration, with the values main.cpp gives it.
  const ScreenWidth: int := 1600
  const ScreenHeight: int := 800
  const Population: nat := 1000
  const RepulsiveForce: real := 0.01
  const CellWidth: int := 20
  /** `interaction_threshold` is initialised from `cell_width`. */
  const InteractionThreshold: real := CellWidth as real
  /** Number of grid columns and rows (C++ integer division of positive ints). */
  const CellsX: int := ScreenWidth / CellWidth
  const CellsY: int := ScreenHeight / CellWidth

  /** A particle: position, velocity, acceleration, its identity (also its
      index in the particle and vertex vectors) and its current grid cell.
      The source initialises `id`, `i` and `j` to -1. */
  datatype Particle = Particle(pos: Vec2, vel: Vec2, acc: Vec2, id: int, i: int, j: int)

  /** `static_cast<int>` of a double: truncation toward zero. */
  function Trunc(x: real): (t: int)
    ensures 0.0 <= x ==> t as real <= x < t as real + 1.0
    ensures x < 0.0 ==> x <= t as real < x + 1.0
  {
    if x >= 0.0 then x.Floor else -((-x).Floor)
  }

  /** C++ `/` on ints, which truncates toward zero (Dafny's `/` is Euclidean). */
  function TruncDiv(a: int, b: int): int
    requires b > 0
  {
    if a >= 0 then a / b else -((-a) / b)
  }

  /** The cell coordinate `static_cast<int>(x) / cell_width` that `Partition`
      computes. For a non-negative coordinate it is the floor of `x / 20`; cell
      0 also takes every coordinate in (-20, 0), because both the cast and the
      division truncate toward zero; coordinates at or below -20 get a
      negative index. */
  function CellIndex(x: real): (c: int)
    ensures 0.0 <= x ==> (c * CellWidth) as real <= x < ((c + 1) * CellWidth) as real
    ensures -(CellWidth as real) < x < 0.0 ==> c == 0
    ensures x <= -(CellWidth as real) ==> c < 0
  {
    TruncDiv(Trunc(x), CellWidth)
  }

  /** The test of `RespawnOffScreen`: neither `x < 0 || x > W` nor `y < 0 || y > H`. */
  predicate OnScreen(p: Vec2)
  {
    !(p.x < 0.0 || p.x > ScreenWidth as real) && !(p.y < 0.0 || p.y > ScreenHeight as real)
  }

  /** The inset rectangle that new and respawned particles are drawn from. */
  predicate InInset(p: Vec2)
  {
    50.0 <= p.x <= (ScreenWidth - 50) as real && 50.0 <= p.y <= (ScreenHeight - 50) as real
  }

  /** The cell `Partition` computes for position `p` exists in the grid, so
      `cells[i][j]` is not indexed out of range. */
  predicate InGrid(p: Vec2)
  {
    0 <= CellIndex(p.x) < CellsX && 0 <= CellIndex(p.y) < CellsY
  }

  /** A position strictly inside the screen has a grid cell. */
  lemma InsideScreenInGrid(p: Vec2)
    requires 0.0 <= p.x < ScreenWidth as real && 0.0 <= p.y < ScreenHeight as real
    ensures InGrid(p)
  {
    var cx, cy := CellIndex(p.x), CellIndex(p.y);
    assert (cx * CellWidth) as real <= p.x < ((cx + 1) * CellWidth) as real;
    assert (cy * CellWidth) as real <= p.y < ((cy + 1) * CellWidth) as real;
  }

  /** The right edge of the screen passes the test of `RespawnOffScreen` but
      has no grid cell: its column index equals the number of columns. */
  lemma RightEdgeOutsideGrid(y: real)
    requires 0.0 <= y <= ScreenHeight as real
    ensures OnScreen(Vec2(ScreenWidth as real, y))
    ensures CellIndex(ScreenWidth as real) == CellsX
    ensures !InGrid(Vec2(ScreenWidth as real, y))
  {
    var c := CellIndex(ScreenWidth as real);
    assert (c * CellWidth) as real <= 1600.0 < ((c + 1) * CellWidth) as real;
  }

  /** The position `Initialise` and `Respawn` compute from two draws of
      `rand() / RAND_MAX`: each coordinate is `r * (size - 100) + 50`. */
  function InsetPoint(rx: real, ry: real): (p: Vec2)
    requires 0.0 <= rx <= 1.0 && 0.0 <= ry <= 1.0
    ensures InInset(p) && OnScreen(p) && InGrid(p)
  {
    var p := Vec2(rx * (ScreenWidth - 100) as real + 50.0, ry * (ScreenHeight - 100) as real + 50.0);
    InsideScreenInGrid(p);
    p
  }

  /** A coordinate difference of at most one cell width moves the cell index
      by at most one, for every coordinate that has a non-negative index. */
  lemma {:induction false} CellIndexStep(x: real, x': real)
    requires CellIndex(x) >= 0 && CellIndex(x') >= 0
    requires x' - x <= InteractionThreshold
    ensures CellIndex(x') <= CellIndex(x) + 1
  {
    var c, c' := CellIndex(x), CellIndex(x');
    if x' < 0.0 {
      assert c' == 0;
    } else if x >= 0.0 {
      assert (c' * CellWidth) as real <= x' && x < ((c + 1) * CellWidth) as real;
      assert c' * CellWidth < (c + 2) * CellWidth;
    } else {
      assert c == 0;
      assert (c' * CellWidth) as real <= x' < InteractionThreshold;
    }
  }

  /** Particle `p` is pushed by particle `q` in `Repel`: they are different
      particles and their distance does not exceed the threshold (compared
      on squares, which is `sqrt(dx*dx + dy*dy) > interaction_threshold`
      for the true square root). */
  predicate Interacts(p: Particle, q: Particle)
  {
    p.id != q.id && SquaredLength(Sub(p.pos, q.pos)) <= InteractionThreshold * InteractionThreshold
  }

  lemma SquareBound(d: real)
    requires d * d <= InteractionThreshold * InteractionThreshold
    ensures -InteractionThreshold <= d <= InteractionThreshold
  {
  }

  /** Interacting particles are at most one cell width apart on each axis. */
  lemma InteractingAreClose(p: Particle, q: Particle)
    requires Interacts(p, q)
    ensures -InteractionThreshold <= p.pos.x - q.pos.x <= InteractionThreshold
    ensures -InteractionThreshold <= p.pos.y - q.pos.y <= InteractionThreshold
  {
    var d := Sub(p.pos, q.pos);
    assert d.x * d.x >= 0.0 && d.y * d.y >= 0.0;
    SquareBound(d.x);
    SquareBound(d.y);
  }

  /** Particles that interact lie in the same or in adjacent grid cells
      (because the cell width equals the interaction threshold). */
  lemma InteractingNeighbourCells(p: Particle, q: Particle)
    requires Interacts(p, q) && InGrid(p.pos) && InGrid(q.pos)
    ensures -1 <= CellIndex(q.pos.x) - CellIndex(p.pos.x) <= 1
    ensures -1 <= CellIndex(q.pos.y) - CellIndex(p.pos.y) <= 1
  {
    InteractingAreClose(p, q);
    CellIndexStep(p.pos.x, q.pos.x);
    CellIndexStep(q.pos.x, p.pos.x);
    CellIndexStep(p.pos.y, q.pos.y);
    CellIndexStep(q.pos.y, p.pos.y);
  }

  /** What `Repel(p, q)` adds to `p.acc`: nothing when `q` is `p` itself or
      farther than the threshold; otherwise the unit vector from `q` to `p`
      scaled by `(1 - distance / threshold) * repulsive_force`. `sqrt` stands
      for the C library's square root. For coincident particles (distance 0)
      the source divides by zero; the model adds nothing there. */
  function Contribution(sqrt: real -> real, p: Particle, q: Particle): (r: Vec2)
    ensures !Interacts(p, q) ==> r == Zero()
  {
    if p.id == q.id then Zero()
    else
      var d := Sub(p.pos, q.pos);
      if SquaredLength(d) > InteractionThreshold * InteractionThreshold then Zero()
      else
        var distance := sqrt(SquaredLength(d));
        if distance == 0.0 then Zero()
        else Scale(Normalise(d, distance), (1.0 - distance / InteractionThreshold) * RepulsiveForce)
  }

  /** The push depends on positions and identities only. */
  lemma ContributionFrame(sqrt: real -> real, p: Particle, q: Particle, p': Particle, q': Particle)
    requires p.pos == p'.pos && p.id == p'.id && q.pos == q'.pos && q.id == q'.id
    ensures Contribution(sqrt, p, q) == Contribution(sqrt, p', q')
  {
  }

  /** Two particles 5 apart on the x axis: each is pushed away from the
      other with strength (1 - 5/20) * 0.01 = 0.0075. */
  lemma RepelAlongAxis(sqrt: real -> real, p: Particle, q: Particle)
    requires sqrt(25.0) == 5.0
    requires p.id != q.id && p.pos == Vec2(0.0, 0.0) && q.pos == Vec2(5.0, 0.0)
    ensures Contribution(sqrt, p, q) == Vec2(-0.0075, 0.0)
    ensures Contribution(sqrt, q, p) == Vec2(0.0075, 0.0)
  {
    ContributionAt(sqrt, p, q, Vec2(-5.0, 0.0), 5.0);
    ContributionAt(sqrt, q, p, Vec2(5.0, 0.0), 5.0);
    assert (1.0 - 5.0 / InteractionThreshold) * RepulsiveForce == 0.0075;
  }

  /** The last branch of `Contribution`, for a given difference and distance. */
  lemma ContributionAt(sqrt: real -> real, p: Particle, q: Particle, d: Vec2, distance: real)
    requires p.id != q.id && Sub(p.pos, q.pos) == d
    requires SquaredLength(d) <= InteractionThreshold * InteractionThreshold
    requires sqrt(SquaredLength(d)) == distance && distance != 0.0
    ensures Contribution(sqrt, p, q) == Scale(Normalise(d, distance), (1.0 - distance / InteractionThreshold) * RepulsiveForce)
  {
  }

  /** Of two positive numbers, the one with the smaller square is the smaller. */
  lemma RootAtMost(r: real, t: real)
    requires 0.0 < r && 0.0 < t && r * r <= t * t
    ensures r <= t
  {
    assert (t - r) * (t + r) == t * t - r * r;
  }

  /** Within the threshold the strength `(1 - distance / threshold) *
      repulsive_force` is non-negative. */
  lemma StrengthBounds(distance: real)
    requires 0.0 < distance <= InteractionThreshold
    ensures 0.0 <= (1.0 - distance / InteractionThreshold) * RepulsiveForce
    ensures 0.0 <= (1.0 - distance / InteractionThreshold) * RepulsiveForce / distance
  {
  }

  /** Where the square root is exact, the push of a distinct neighbour
      within the threshold points away from it: it is a non-negative multiple
      of `p.pos - q.pos`, and its length is `(1 - distance / threshold) *
      repulsive_force`, which is at least 0 and falls to 0 at the threshold. */
  lemma {:induction false} ContributionAway(sqrt: real -> real, p: Particle, q: Particle)
    requires p.id != q.id
    requires 0.0 < SquaredLength(Sub(p.pos, q.pos)) <= InteractionThreshold * InteractionThreshold
    requires sqrt(SquaredLength(Sub(p.pos, q.pos))) > 0.0
    requires sqrt(SquaredLength(Sub(p.pos, q.pos))) * sqrt(SquaredLength(Sub(p.pos, q.pos)))
             == SquaredLength(Sub(p.pos, q.pos))
    ensures var distance := sqrt(SquaredLength(Sub(p.pos, q.pos)));
            var strength := (1.0 - distance / InteractionThreshold) * RepulsiveForce;
            && 0.0 <= strength && 0.0 <= strength / distance
            && Contribution(sqrt, p, q) == Scale(Sub(p.pos, q.pos), strength / distance)
            && SquaredLength(Contribution(sqrt, p, q)) == strength * strength
  {
    var d := Sub(p.pos, q.pos);
    var distance := sqrt(SquaredLength(d));
    var strength := (1.0 - distance / InteractionThreshold) * RepulsiveForce;
    RootAtMost(distance, InteractionThreshold);
    StrengthBounds(distance);
    ContributionAt(sqrt, p, q, d, distance);
    NormaliseThenScale(d, distance, strength);
    ScaledToLength(d, distance, strength);
  }

  /** What `Respawn` makes of particle `p`, given its two draws of
      `rand() / RAND_MAX`: a fresh position in the inset rectangle, at rest. */
  function Respawned(p: Particle, rx: real, ry: real): (r: Particle)
    requires 0.0 <= rx <= 1.0 && 0.0 <= ry <= 1.0
    ensures InInset(r.pos) && OnScreen(r.pos) && InGrid(r.pos)
    ensures r.vel == Zero() && r.acc == Zero()
    ensures r.id == p.id && r.i == p.i && r.j == p.j
  {
    p.(pos := InsetPoint(rx, ry), vel := Zero(), acc := Zero())
  }

  /** One step of `Step`: `vel += acc`, then `pos += vel`. */
  function Advance(p: Particle): (r: Particle)
    ensures r.vel == Add(p.vel, p.acc) && r.pos == Add(p.pos, r.vel)
    ensures r.acc == p.acc && r.id == p.id && r.i == p.i && r.j == p.j
  {
    var v := Add(p.vel, p.acc);
    p.(vel := v, pos := Add(p.pos, v))
  }
}
