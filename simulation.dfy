/** The `Gas` class of main.cpp: the particle vector, the vertex vector that
    mirrors the positions for drawing, and the grid of cells, updated in
    place frame after frame. */
module Simulation {
  import opened Vectors
  import opened Particles
  import opened Grid
  import opened Forces
  import opened Dynamics

  class Gas {
    /** `rand() / RAND_MAX` of the `n`-th call to `rand()`. */
    const rand: nat -> real
    /** The C library's `sqrt`. */
    const sqrt: real -> real
    /** How many values have been drawn from `rand` so far. */
    var drawn: nat
    var particles: array<Particle>
    /** The vertex of particle `k` holds its position (`SetPosition`). */
    var vertices: array<Vec2>
    var cells: Cells

    /** What holds between any two calls: draws lie in `[0, 1]`, particle `k`
        has identity `k`, and vertex `k` mirrors its position. */
    ghost predicate Valid()
      reads this, particles, vertices
    {
      UnitDraws(rand)
      && particles.Length == vertices.Length
      && (forall k :: 0 <= k < particles.Length ==> particles[k].id == k && vertices[k] == particles[k].pos)
    }

    /** After `Initialise`: the whole population and a grid of the right shape. */
    ghost predicate Ready()
      reads this, particles, vertices
    {
      Valid() && particles.Length == Population && Shaped(cells)
    }

    /** `Gas()`: empty vectors; the draws and the square root are given. */
    constructor (rand: nat -> real, sqrt: real -> real)
      requires UnitDraws(rand)
      ensures Valid() && this.rand == rand && this.sqrt == sqrt && drawn == 0
      ensures particles.Length == 0 && vertices.Length == 0 && cells == []
    {
      this.rand := rand;
      this.sqrt := sqrt;
      drawn := 0;
      particles := new Particle[0];
      vertices := new Vec2[0];
      cells := [];
    }

    /** `static_cast<double>(rand()) / RAND_MAX`: the next draw. */
    method Draw() returns (r: real)
      requires UnitDraws(rand)
      modifies this`drawn
      ensures r == rand(old(drawn)) && drawn == old(drawn) + 1
      ensures 0.0 <= r <= 1.0
    {
      r := rand(drawn);
      drawn := drawn + 1;
    }

    /** `SetPosition(particle, x, y)`: the particle moves to `(x, y)` and
        vertex `particle.id` follows it; no other vertex changes. The
        particle is passed by value and returned. */
    method SetPosition(p: Particle, x: real, y: real) returns (q: Particle)
      requires 0 <= p.id < vertices.Length
      modifies vertices
      ensures q == p.(pos := Vec2(x, y))
      ensures vertices[..] == old(vertices[..])[p.id := Vec2(x, y)]
    {
      q := p.(pos := Vec2(x, y));
      vertices[p.id] := q.pos;
    }

    /** The first loop of `Initialise`: `cell_i_max` columns of
        `cell_j_max` empty cells each. */
    static method NewGrid() returns (g: Cells)
      ensures Empty(g)
    {
      g := [];
      var i := 0;
      while i < CellsX
        invariant 0 <= i <= CellsX && |g| == i
        invariant forall a :: 0 <= a < i ==> |g[a]| == CellsY
        invariant forall a, b :: 0 <= a < i && 0 <= b < CellsY ==> g[a][b] == []
      {
        var column: seq<seq<nat>> := [];
        var j := 0;
        while j < CellsY
          invariant 0 <= j <= CellsY && |column| == j
          invariant forall b :: 0 <= b < j ==> column[b] == []
        {
          column := column + [[]];
          j := j + 1;
        }
        g := g + [column];
        i := i + 1;
      }
    }

    /** `Initialise`: a grid of empty cells, `population` vertices, and
        `population` particles with identities `0, 1, ...`, each at a
        position drawn in the inset rectangle (two draws per particle), at
        rest, with no cell recorded yet. */
    method Initialise()
      requires Valid() && particles.Length == 0 && vertices.Length == 0 && cells == []
      modifies this
      ensures Ready() && Empty(cells) && fresh(particles) && fresh(vertices)
      ensures drawn == old(drawn) + 2 * Population
      ensures forall k :: 0 <= k < Population ==>
        particles[k] == Particle(InsetPoint(rand(old(drawn) + 2 * k), rand(old(drawn) + 2 * k + 1)), Zero(), Zero(), k, -1, -1)
    {
      cells := NewGrid();
      vertices := new Vec2[Population](_ => Zero());
      particles := new Particle[Population](_ => Particle(Zero(), Zero(), Zero(), -1, -1, -1));
      Populate();
    }

    /** The last loop of `Initialise`: particle `k` gets identity `k` and a
        position from the next two draws, which its vertex mirrors. */
    method Populate()
      requires UnitDraws(rand) && particles.Length == Population && vertices.Length == Population
      modifies this`drawn, particles, vertices
      ensures Valid()
      ensures drawn == old(drawn) + 2 * Population
      ensures forall k :: 0 <= k < Population ==>
        particles[k] == Particle(InsetPoint(rand(old(drawn) + 2 * k), rand(old(drawn) + 2 * k + 1)), Zero(), Zero(), k, -1, -1)
    {
      ghost var d0 := drawn;
      var k := 0;
      while k < Population
        invariant 0 <= k <= Population && drawn == d0 + 2 * k
        invariant particles.Length == Population && vertices.Length == Population
        invariant forall m :: 0 <= m < k ==>
          particles[m] == Particle(InsetPoint(rand(d0 + 2 * m), rand(d0 + 2 * m + 1)), Zero(), Zero(), m, -1, -1)
        invariant forall m :: 0 <= m < k ==> vertices[m] == particles[m].pos
      {
        PopulateOne(k, d0);
        k := k + 1;
      }
    }

    /** One pass of the last loop of `Initialise`: particle `k` gets
        identity `k` and a position from the next two draws. */
    method PopulateOne(k: nat, ghost d0: nat)
      requires UnitDraws(rand) && k < Population && drawn == d0 + 2 * k
      requires particles.Length == Population && vertices.Length == Population
      requires forall m :: 0 <= m < k ==>
        particles[m] == Particle(InsetPoint(rand(d0 + 2 * m), rand(d0 + 2 * m + 1)), Zero(), Zero(), m, -1, -1)
      requires forall m :: 0 <= m < k ==> vertices[m] == particles[m].pos
      modifies this`drawn, particles, vertices
      ensures drawn == d0 + 2 * (k + 1)
      ensures forall m :: 0 <= m < k + 1 ==>
        particles[m] == Particle(InsetPoint(rand(d0 + 2 * m), rand(d0 + 2 * m + 1)), Zero(), Zero(), m, -1, -1)
      ensures forall m :: 0 <= m < k + 1 ==> vertices[m] == particles[m].pos
    {
      var particle := Particle(Zero(), Zero(), Zero(), k, -1, -1);
      var rx := Draw();
      var x := rx * (ScreenWidth - 100) as real + 50.0;
      var ry := Draw();
      var y := ry * (ScreenHeight - 100) as real + 50.0;
      assert Vec2(x, y) == InsetPoint(rx, ry);
      particle := SetPosition(particle, x, y);
      particles[k] := particle;
    }

    /** `Respawn(particle)`: two draws give a position in the inset
        rectangle; velocity and acceleration are zeroed; the vertex follows.
        No other particle changes. */
    method Respawn(k: nat)
      requires Valid() && k < particles.Length
      modifies this`drawn, particles, vertices
      ensures Valid()
      ensures drawn == old(drawn) + 2
      ensures particles[..] == old(particles[..])[k := Respawned(old(particles[k]), rand(old(drawn)), rand(old(drawn) + 1))]
    {
      var rx := Draw();
      var x := rx * (ScreenWidth - 100) as real + 50.0;
      var ry := Draw();
      var y := ry * (ScreenHeight - 100) as real + 50.0;
      assert Vec2(x, y) == InsetPoint(rx, ry);
      var particle := particles[k];
      particle := particle.(vel := Zero(), acc := Zero());
      particle := SetPosition(particle, x, y);
      particles[k] := particle;
    }

    /** The body of the loop of `RespawnOffScreen` for particle `k`: the x
        test, then the y test on the possibly respawned position. Only an
        off-screen particle is respawned, and only once. */
    method RespawnIfOffScreen(k: nat, ghost d: nat, ghost p: Particle)
      requires Valid() && k < particles.Length
      requires drawn == d && particles[k] == p
      modifies this`drawn, particles, vertices
      ensures Valid()
      ensures particles[k] == RespawnedOne(rand, d, p)
      ensures forall m :: 0 <= m < particles.Length && m != k ==> particles[m] == old(particles[m])
      ensures drawn == d + if OnScreen(p.pos) then 0 else 2
    {
      if particles[k].pos.x < 0.0 || particles[k].pos.x > ScreenWidth as real {
        Respawn(k);
      }
      if particles[k].pos.y < 0.0 || particles[k].pos.y > ScreenHeight as real {
        Respawn(k);
      }
    }

    /** `RespawnOffScreen`: every particle outside `[0, W] x [0, H]` is
        respawned, taking the next two draws in index order; the others are
        untouched. A particle respawned for its x coordinate passes the y
        test, so none is respawned twice. */
    method RespawnOffScreen()
      requires Valid()
      modifies this`drawn, particles, vertices
      ensures Valid()
      ensures particles[..] == RespawnedAll(rand, old(drawn), old(particles[..]))
      ensures drawn == old(drawn) + 2 * OffCount(old(particles[..]), particles.Length)
    {
      ghost var ps := particles[..];
      ghost var d0 := drawn;
      ghost var rs := RespawnedAll(rand, d0, ps);
      var k := 0;
      while k < particles.Length
        invariant 0 <= k <= particles.Length && Valid()
        invariant drawn == d0 + 2 * OffCount(ps, k)
        invariant forall m :: 0 <= m < k ==> particles[m] == rs[m]
        invariant forall m :: k <= m < particles.Length ==> particles[m] == ps[m]
      {
        RespawnStep(k, d0, ps, rs);
        k := k + 1;
      }
      assert k == |ps|;
      assert particles[..] == rs;
    }

    /** One pass of the loop of `RespawnOffScreen`, over the particles `ps`
        it started from with the stream of draws at `d0`: particle `k` takes
        its place in `rs`, the particles after the loop. */
    method RespawnStep(k: nat, ghost d0: nat, ghost ps: seq<Particle>, ghost rs: seq<Particle>)
      requires Valid() && k < particles.Length == |ps|
      requires rs == RespawnedAll(rand, d0, ps)
      requires drawn == d0 + 2 * OffCount(ps, k)
      requires forall m :: 0 <= m < k ==> particles[m] == rs[m]
      requires forall m :: k <= m < particles.Length ==> particles[m] == ps[m]
      modifies this`drawn, particles, vertices
      ensures Valid()
      ensures drawn == d0 + 2 * OffCount(ps, k + 1)
      ensures forall m :: 0 <= m < k + 1 ==> particles[m] == rs[m]
      ensures forall m :: k + 1 <= m < particles.Length ==> particles[m] == ps[m]
    {
      assert OffCount(ps, k + 1) == OffCount(ps, k) + if OnScreen(ps[k].pos) then 0 else 1;
      RespawnedAllAt(rand, d0, ps, k);
      RespawnIfOffScreen(k, d0 + 2 * OffCount(ps, k), ps[k]);
    }

    /** `ClearCells`: every cell of the grid becomes empty. */
    method ClearCells()
      requires Shaped(cells)
      modifies this`cells
      ensures Empty(cells)
    {
      var i := 0;
      while i < CellsX
        invariant 0 <= i <= CellsX && Shaped(cells)
        invariant forall a, b :: 0 <= a < i && 0 <= b < CellsY ==> cells[a][b] == []
      {
        var j := 0;
        while j < CellsY
          invariant 0 <= j <= CellsY && Shaped(cells)
          invariant forall a, b :: 0 <= a < i && 0 <= b < CellsY ==> cells[a][b] == []
          invariant forall b :: 0 <= b < j ==> cells[i][b] == []
        {
          cells := cells[i := cells[i][j := []]];
          j := j + 1;
        }
        i := i + 1;
      }
    }

    /** `Partition`: the cells are cleared, then every particle records the
        cell `(trunc(x) / cell_width, trunc(y) / cell_width)` of its
        position and is appended to that cell. The source indexes the grid
        with that cell unchecked, so every particle must have one. */
    method Partition()
      requires Valid() && Shaped(cells)
      requires forall k :: 0 <= k < particles.Length ==> InGrid(particles[k].pos)
      modifies this`cells, particles
      ensures Valid()
      ensures particles[..] == Filed(old(particles[..]))
      ensures Partitioned(particles[..], cells)
    {
      ghost var ps := particles[..];
      ClearCells();
      ghost var g := cells;
      FileAll();
      FiledGridBuckets(g, ps, |ps|);
      FiledPartitioned(ps, cells);
    }

    /** The loop of `Partition`, on an empty grid: each particle records its
        cell and is appended to it. */
    method FileAll()
      requires Valid() && Empty(cells)
      requires forall k :: 0 <= k < particles.Length ==> InGrid(particles[k].pos)
      modifies this`cells, particles
      ensures Valid()
      ensures particles[..] == Filed(old(particles[..]))
      ensures cells == FiledGrid(old(cells), old(particles[..]), particles.Length)
    {
      ghost var ps := particles[..];
      ghost var g := cells;
      var k := 0;
      while k < particles.Length
        invariant 0 <= k <= particles.Length == |ps| && Valid()
        invariant cells == FiledGrid(g, ps, k)
        invariant particles[..] == FiledPrefix(ps, k)
      {
        FileParticle(k, ps, g);
        k := k + 1;
      }
      FiledPrefixAll(ps);
    }

    /** One pass of the loop of `Partition`: particle `k` records its cell
        and is appended to it. */
    method FileParticle(k: nat, ghost ps: seq<Particle>, ghost g: Cells)
      requires Valid() && k < particles.Length == |ps| && Shaped(g)
      requires InGrid(ps[k].pos)
      requires cells == FiledGrid(g, ps, k)
      requires particles[..] == FiledPrefix(ps, k)
      modifies this`cells, particles
      ensures Valid()
      ensures cells == FiledGrid(g, ps, k + 1)
      ensures particles[..] == FiledPrefix(ps, k + 1)
    {
      ghost var before := particles[..];
      FiledPrefixAt(ps, k);
      var i := TruncDiv(Trunc(particles[k].pos.x), CellWidth);
      var j := TruncDiv(Trunc(particles[k].pos.y), CellWidth);
      particles[k] := particles[k].(i := i, j := j);
      assert particles[..] == before[k := ps[k].(i := i, j := j)];
      cells := Append(cells, i, j, k);
    }

    /** `ClearAcc`: every acceleration becomes zero; nothing else changes. */
    method ClearAcc()
      requires Valid()
      modifies particles
      ensures Valid()
      ensures forall k :: 0 <= k < particles.Length ==> particles[k] == old(particles[k]).(acc := Zero())
    {
      var k := 0;
      while k < particles.Length
        invariant 0 <= k <= particles.Length && Valid()
        invariant forall m :: 0 <= m < k ==> particles[m] == old(particles[m]).(acc := Zero())
        invariant forall m :: k <= m < particles.Length ==> particles[m] == old(particles[m])
      {
        particles[k] := particles[k].(acc := Zero());
        k := k + 1;
      }
    }

    /** `Step`: every particle adds its acceleration to its velocity and its
        velocity to its position; its vertex follows. */
    method Step()
      requires Valid()
      modifies particles, vertices
      ensures Valid()
      ensures forall k :: 0 <= k < particles.Length ==> particles[k] == Advance(old(particles[k]))
    {
      var k := 0;
      while k < particles.Length
        invariant 0 <= k <= particles.Length && Valid()
        invariant forall m :: 0 <= m < k ==> particles[m] == Advance(old(particles[m]))
        invariant forall m :: k <= m < particles.Length ==> particles[m] == old(particles[m])
      {
        var particle := particles[k];
        particle := particle.(vel := Vec2(particle.vel.x + particle.acc.x, particle.vel.y + particle.acc.y));
        particle := SetPosition(particle, particle.pos.x + particle.vel.x, particle.pos.y + particle.vel.y);
        particles[k] := particle;
        k := k + 1;
      }
    }

    /** `Repel(particle, neighbour)`: nothing happens when the neighbour is
        the particle itself or lies beyond the threshold; otherwise the
        particle's acceleration grows by the push away from the neighbour.
        Only the particle's acceleration changes; the neighbour is read. */
    method Repel(k: nat, n: nat)
      requires Valid() && k < particles.Length && n < particles.Length
      modifies particles
      ensures Valid()
      ensures particles[k] == old(particles[k]).(acc := Add(old(particles[k]).acc, Contribution(sqrt, old(particles[k]), old(particles[n]))))
      ensures forall m :: 0 <= m < particles.Length && m != k ==> particles[m] == old(particles[m])
    {
      var particle, neighbour := particles[k], particles[n];
      ghost var c := Contribution(sqrt, particle, neighbour);
      if particle.id == neighbour.id {
        return;
      }
      var dx := particle.pos.x - neighbour.pos.x;
      var dy := particle.pos.y - neighbour.pos.y;
      var squared := dx * dx + dy * dy;
      if squared > InteractionThreshold * InteractionThreshold {
        return;
      }
      var distance := sqrt(squared);
      if distance == 0.0 {
        return;
      }
      var force := Vec2(particle.pos.x - neighbour.pos.x, particle.pos.y - neighbour.pos.y);
      force := Normalise(force, distance);
      var penetration := 1.0 - distance / InteractionThreshold;
      var strength := penetration * RepulsiveForce;
      force := Scale(force, strength);
      assert force == c;
      assert particle.pos == old(particles[k]).pos;
      particles[k] := particle.(acc := Vec2(particle.acc.x + force.x, particle.acc.y + force.y));
    }

    /** One `Repel(particle, neighbour)` call of a scan: particle `k`, which
        the particles `ns` have pushed so far, is pushed by particle `n` too.
        `ps` is the vector when the scan began. */
    method RepelNext(k: nat, n: nat, ghost ps: seq<Particle>, ghost push: seq<Vec2>, ghost ns: seq<nat>)
      requires Valid() && k < particles.Length == |ps| && n < particles.Length
      requires push == Pushes(sqrt, ps, k) && Below(ns, |push|)
      requires particles[k] == ps[k].(acc := Add(ps[k].acc, Force(push, ns)))
      requires forall m :: 0 <= m < particles.Length && m != k ==> particles[m] == ps[m]
      modifies particles
      ensures Valid() && Below(ns + [n], |push|)
      ensures particles[k] == ps[k].(acc := Add(ps[k].acc, Force(push, ns + [n])))
      ensures forall m :: 0 <= m < particles.Length && m != k ==> particles[m] == ps[m]
    {
      ContributionFrame(sqrt, particles[k], particles[n], ps[k], ps[n]);
      Repel(k, n);
      assert (ns + [n])[..|ns|] == ns;
    }

    /** One `for (Particle* pointer : cells[a][b])` loop of `Repulsion`:
        particle `k` is repelled by every particle listed in the cell, in
        order. `push` is what each particle pushes particle `k` with. */
    method RepelCell(k: nat, a: int, b: int, ghost push: seq<Vec2>)
      requires Valid() && k < particles.Length && Shaped(cells) && InRange((a, b))
      requires Below(cells[a][b], particles.Length)
      requires push == Pushes(sqrt, particles[..], k)
      modifies particles
      ensures Valid() && push == Pushes(sqrt, particles[..], k)
      ensures particles[k] == old(particles[k]).(acc := Add(old(particles[k]).acc, Force(push, cells[a][b])))
      ensures forall m :: 0 <= m < particles.Length && m != k ==> particles[m] == old(particles[m])
    {
      ghost var ps := particles[..];
      var pointers := cells[a][b];
      var t := 0;
      while t < |pointers|
        invariant 0 <= t <= |pointers| && Valid()
        invariant particles[k] == ps[k].(acc := Add(ps[k].acc, Force(push, pointers[..t])))
        invariant forall m :: 0 <= m < particles.Length && m != k ==> particles[m] == ps[m]
      {
        RepelNext(k, pointers[t], ps, push, pointers[..t]);
        assert pointers[..t + 1] == pointers[..t] + [pointers[t]];
        t := t + 1;
      }
      assert pointers[..t] == pointers;
      PushesFrame(sqrt, ps, particles[..], k);
    }

    /** The scan of one column in `Repulsion`: cell `(a, j)`, then `(a, j-1)`
        and `(a, j+1)` when those rows exist, `j` being the row particle `k`
        records. */
    method RepelColumn(k: nat, a: int, ghost push: seq<Vec2>)
      requires Valid() && k < particles.Length && Shaped(cells) && CellsBelow(cells, particles.Length)
      requires 0 <= a < CellsX && 0 <= particles[k].j < CellsY
      requires push == Pushes(sqrt, particles[..], k)
      modifies particles
      ensures Valid() && push == Pushes(sqrt, particles[..], k)
      ensures AllInRange(Column(a, old(particles[k]).j))
      ensures particles[k] == old(particles[k]).(acc := Add(old(particles[k]).acc, ScanForce(push, cells, Column(a, old(particles[k]).j))))
      ensures forall m :: 0 <= m < particles.Length && m != k ==> particles[m] == old(particles[m])
    {
      var j := particles[k].j;
      ghost var p0 := particles[k];
      ghost var own := Force(push, cells[a][j]);
      ghost var up := if j - 1 >= 0 then Force(push, cells[a][j - 1]) else Zero();
      ghost var down := if j + 1 < CellsY then Force(push, cells[a][j + 1]) else Zero();
      RepelCell(k, a, j, push);
      assert particles[k] == p0.(acc := Add(p0.acc, own));
      RepelAboveBelow(k, a, j, push);
      assert particles[k] == p0.(acc := Add(Add(Add(p0.acc, own), up), down));
      assert Add(Add(Add(p0.acc, own), up), down) == Add(p0.acc, ScanForce(push, cells, Column(a, j))) by {
        ColumnForce(push, cells, a, j);
        AddGrouped(p0.acc, own, up, down);
      }
    }

    /** The two optional cells of a column scan: the row above and the row
        below, each only where it exists. */
    method RepelAboveBelow(k: nat, a: int, j: int, ghost push: seq<Vec2>)
      requires Valid() && k < particles.Length && Shaped(cells) && CellsBelow(cells, particles.Length)
      requires 0 <= a < CellsX && 0 <= j < CellsY
      requires push == Pushes(sqrt, particles[..], k)
      modifies particles
      ensures Valid() && push == Pushes(sqrt, particles[..], k)
      ensures particles[k] == old(particles[k]).(acc := Add(Add(old(particles[k]).acc,
                if j - 1 >= 0 then Force(push, cells[a][j - 1]) else Zero()),
                if j + 1 < CellsY then Force(push, cells[a][j + 1]) else Zero()))
      ensures forall m :: 0 <= m < particles.Length && m != k ==> particles[m] == old(particles[m])
    {
      RepelSideCell(k, a, j - 1, push);
      RepelSideCell(k, a, j + 1, push);
    }

    /** The scan of the cell in row `b` of column `a`, done only when that
        row exists. */
    method RepelSideCell(k: nat, a: int, b: int, ghost push: seq<Vec2>)
      requires Valid() && k < particles.Length && Shaped(cells) && CellsBelow(cells, particles.Length)
      requires 0 <= a < CellsX
      requires push == Pushes(sqrt, particles[..], k)
      modifies particles
      ensures Valid() && push == Pushes(sqrt, particles[..], k)
      ensures particles[k] == old(particles[k]).(acc := Add(old(particles[k]).acc,
                if 0 <= b < CellsY then Force(push, cells[a][b]) else Zero()))
      ensures forall m :: 0 <= m < particles.Length && m != k ==> particles[m] == old(particles[m])
    {
      if 0 <= b < CellsY {
        RepelCell(k, a, b, push);
      }
    }

    /** The body of the loop of `Repulsion` for particle `k`: its own column,
        then column `i-1` and column `i+1` where they exist, `(i, j)` being
        the cell the particle records. */
    method RepelNeighbourhood(k: nat, ghost push: seq<Vec2>)
      requires Valid() && k < particles.Length && Shaped(cells) && CellsBelow(cells, particles.Length)
      requires InRange((particles[k].i, particles[k].j))
      requires push == Pushes(sqrt, particles[..], k)
      modifies particles
      ensures Valid() && push == Pushes(sqrt, particles[..], k)
      ensures AllInRange(NeighbourCells(old(particles[k]).i, old(particles[k]).j))
      ensures particles[k] == old(particles[k]).(acc := Add(old(particles[k]).acc,
                ScanForce(push, cells, NeighbourCells(old(particles[k]).i, old(particles[k]).j))))
      ensures forall m :: 0 <= m < particles.Length && m != k ==> particles[m] == old(particles[m])
    {
      var i, j := particles[k].i, particles[k].j;
      ghost var p0 := particles[k];
      RepelColumn(k, i, push);
      ghost var own := ScanForce(push, cells, Column(i, j));
      assert particles[k] == p0.(acc := Add(p0.acc, own));
      RepelLeftRight(k, i, j, push);
      ghost var left := if i - 1 >= 0 then ScanForce(push, cells, Column(i - 1, j)) else Zero();
      ghost var right := if i + 1 < CellsX then ScanForce(push, cells, Column(i + 1, j)) else Zero();
      assert particles[k] == p0.(acc := Add(Add(Add(p0.acc, own), left), right));
      NeighbourCellsInRange(i, j);
      assert Add(Add(Add(p0.acc, own), left), right) == Add(p0.acc, ScanForce(push, cells, NeighbourCells(i, j))) by {
        NeighbourForce(push, cells, i, j);
        AddGrouped(p0.acc, own, left, right);
      }
    }

    /** The two optional columns of the scan: column `i-1` and column `i+1`,
        each only where it exists. */
    method RepelLeftRight(k: nat, i: int, j: int, ghost push: seq<Vec2>)
      requires Valid() && k < particles.Length && Shaped(cells) && CellsBelow(cells, particles.Length)
      requires InRange((i, j)) && particles[k].j == j
      requires push == Pushes(sqrt, particles[..], k)
      modifies particles
      ensures Valid() && push == Pushes(sqrt, particles[..], k)
      ensures i - 1 >= 0 ==> AllInRange(Column(i - 1, j))
      ensures i + 1 < CellsX ==> AllInRange(Column(i + 1, j))
      ensures particles[k] == old(particles[k]).(acc := Add(Add(old(particles[k]).acc,
                if i - 1 >= 0 then ScanForce(push, cells, Column(i - 1, j)) else Zero()),
                if i + 1 < CellsX then ScanForce(push, cells, Column(i + 1, j)) else Zero()))
      ensures forall m :: 0 <= m < particles.Length && m != k ==> particles[m] == old(particles[m])
    {
      RepelSideColumn(k, i - 1, push);
      RepelSideColumn(k, i + 1, push);
    }

    /** The scan of a neighbouring column `a` in `Repulsion`, done only when
        that column exists. */
    method RepelSideColumn(k: nat, a: int, ghost push: seq<Vec2>)
      requires Valid() && k < particles.Length && Shaped(cells) && CellsBelow(cells, particles.Length)
      requires 0 <= particles[k].j < CellsY
      requires push == Pushes(sqrt, particles[..], k)
      modifies particles
      ensures Valid() && push == Pushes(sqrt, particles[..], k)
      ensures 0 <= a < CellsX ==> AllInRange(Column(a, old(particles[k]).j))
      ensures particles[k] == old(particles[k]).(acc := Add(old(particles[k]).acc,
                if 0 <= a < CellsX then ScanForce(push, cells, Column(a, old(particles[k]).j)) else Zero()))
      ensures forall m :: 0 <= m < particles.Length && m != k ==> particles[m] == old(particles[m])
    {
      if 0 <= a < CellsX {
        RepelColumn(k, a, push);
      }
    }

    /** `Repulsion`: each particle in turn is repelled by the particles listed
        in the cells around the cell it records. Accelerations change and
        nothing else does; since a push depends on positions only, every
        particle receives the push computed from the positions before the
        loop. */
    method Repulsion()
      requires Valid() && Indexed(particles[..], cells)
      modifies particles
      ensures Valid()
      ensures forall k :: 0 <= k < particles.Length ==>
        particles[k] == old(particles[k]).(acc := Add(old(particles[k]).acc, GridForce(sqrt, old(particles[..]), cells, k)))
    {
      ghost var ps := particles[..];
      var k := 0;
      while k < particles.Length
        invariant 0 <= k <= particles.Length && Valid()
        invariant forall m {:trigger particles[m]} :: 0 <= m < k ==>
          particles[m] == ps[m].(acc := Add(ps[m].acc, GridForce(sqrt, ps, cells, m)))
        invariant forall m {:trigger particles[m]} :: k <= m < particles.Length ==> particles[m] == ps[m]
      {
        SamePlacesPushes(ps, k);
        RepelNeighbourhood(k, Pushes(sqrt, ps, k));
        k := k + 1;
      }
    }

    /** Part way through `Repulsion` the positions are those of `ps`, so the
        pushes on particle `k` are still those computed from `ps`. */
    lemma SamePlacesPushes(ps: seq<Particle>, k: nat)
      requires k < particles.Length == |ps|
      requires forall m {:trigger particles[m]} :: 0 <= m < particles.Length ==>
        particles[m].pos == ps[m].pos && particles[m].id == ps[m].id
      ensures Pushes(sqrt, ps, k) == Pushes(sqrt, particles[..], k)
    {
      PushesFrame(sqrt, ps, particles[..], k);
    }

    /** `_LegacyRepulsion`: the accelerations are cleared, then every particle
        is repelled by every particle of the vector, in index order. The
        source writes the body of `Repel` out inside its inner loop; the
        model calls `Repel`, which does the same. */
    method LegacyRepulsion()
      requires Valid()
      modifies particles
      ensures Valid()
      ensures forall k :: 0 <= k < particles.Length ==>
        particles[k] == old(particles[k]).(acc := LegacyForce(sqrt, old(particles[..]), k))
    {
      ghost var ps0 := particles[..];
      ClearAcc();
      ghost var ps := particles[..];
      RepelAll();
      forall k | 0 <= k < |ps|
        ensures LegacyForce(sqrt, ps, k) == LegacyForce(sqrt, ps0, k)
      {
        PushesFrame(sqrt, ps, ps0, k);
      }
    }

    /** The loops of `_LegacyRepulsion`: each particle in turn is repelled by
        every particle of the vector. */
    method RepelAll()
      requires Valid()
      modifies particles
      ensures Valid()
      ensures forall k :: 0 <= k < particles.Length ==>
        particles[k] == old(particles[k]).(acc := Add(old(particles[k]).acc, LegacyForce(sqrt, old(particles[..]), k)))
    {
      ghost var ps := particles[..];
      var k := 0;
      while k < particles.Length
        invariant 0 <= k <= particles.Length && Valid()
        invariant forall m {:trigger particles[m]} :: 0 <= m < k ==>
          particles[m] == ps[m].(acc := Add(ps[m].acc, LegacyForce(sqrt, ps, m)))
        invariant forall m {:trigger particles[m]} :: k <= m < particles.Length ==> particles[m] == ps[m]
      {
        RepelAllStep(k, ps);
        k := k + 1;
      }
    }

    /** One pass of the outer loop of `_LegacyRepulsion`: particle `k` is
        repelled by every particle; the particles before it already hold
        their all-pairs force and those after it are untouched. */
    method RepelAllStep(k: nat, ghost ps: seq<Particle>)
      requires Valid() && k < particles.Length == |ps|
      requires forall m {:trigger particles[m]} :: 0 <= m < k ==>
        particles[m] == ps[m].(acc := Add(ps[m].acc, LegacyForce(sqrt, ps, m)))
      requires forall m {:trigger particles[m]} :: k <= m < particles.Length ==> particles[m] == ps[m]
      modifies particles
      ensures Valid()
      ensures forall m {:trigger particles[m]} :: 0 <= m < k + 1 ==>
        particles[m] == ps[m].(acc := Add(ps[m].acc, LegacyForce(sqrt, ps, m)))
      ensures forall m {:trigger particles[m]} :: k + 1 <= m < particles.Length ==> particles[m] == ps[m]
    {
      SamePlacesPushes(ps, k);
      ghost var push := Pushes(sqrt, ps, k);
      RepelEveryone(k, push);
      assert Force(push, Indices(|ps|)) == LegacyForce(sqrt, ps, k);
      assert particles[k] == ps[k].(acc := Add(ps[k].acc, LegacyForce(sqrt, ps, k)));
    }

    /** The inner loop of `_LegacyRepulsion`: particle `k` is repelled by
        every particle of the vector, itself included (which adds nothing). */
    method RepelEveryone(k: nat, ghost push: seq<Vec2>)
      requires Valid() && k < particles.Length
      requires push == Pushes(sqrt, particles[..], k)
      modifies particles
      ensures Valid()
      ensures particles[k] == old(particles[k]).(acc := Add(old(particles[k]).acc, Force(push, Indices(particles.Length))))
      ensures forall m :: 0 <= m < particles.Length && m != k ==> particles[m] == old(particles[m])
    {
      ghost var ps := particles[..];
      ghost var all := Indices(particles.Length);
      var n := 0;
      while n < particles.Length
        invariant 0 <= n <= particles.Length && Valid()
        invariant particles[k] == ps[k].(acc := Add(ps[k].acc, Force(push, all[..n])))
        invariant forall m :: 0 <= m < particles.Length && m != k ==> particles[m] == ps[m]
      {
        RepelNext(k, n, ps, push, all[..n]);
        assert all[..n + 1] == all[..n] + [n];
        n := n + 1;
      }
      assert all[..n] == all;
    }

    /** `Iterate`, one frame: `Partition`, `ClearAcc`, `Repulsion`, `Step`,
        `RespawnOffScreen`. The particles move as if each were pushed by
        all others (the grid loses no interaction), the grid lists them by
        the cells they occupied before the move, and every particle ends the
        frame on screen. */
    method Iterate()
      requires Ready()
      requires forall k :: 0 <= k < particles.Length ==> InGrid(particles[k].pos)
      modifies this`cells, this`drawn, particles, vertices
      ensures Ready()
      ensures Partitioned(Filed(old(particles[..])), cells)
      ensures particles[..] == RespawnedAll(rand, old(drawn), Moved(sqrt, Filed(old(particles[..]))))
      ensures drawn == old(drawn) + 2 * OffCount(Moved(sqrt, Filed(old(particles[..]))), particles.Length)
      ensures forall k :: 0 <= k < particles.Length ==> OnScreen(particles[k].pos)
    {
      Partition();
      Move();
      ghost var ms := particles[..];
      RespawnOffScreen();
      forall k | 0 <= k < particles.Length
        ensures OnScreen(particles[k].pos)
      {
        RespawnedAllOnScreen(rand, old(drawn), ms, k);
      }
    }

    /** The middle of `Iterate`, between `Partition` and `RespawnOffScreen`:
        `ClearAcc`, `Repulsion` and `Step` move the particles filed into the
        grid as the all-pairs force moves them. */
    method Move()
      requires Valid() && Partitioned(particles[..], cells)
      modifies particles, vertices
      ensures Valid()
      ensures particles[..] == Moved(sqrt, old(particles[..]))
    {
      ghost var fs := particles[..];
      Accelerate();
      Step();
      forall k | 0 <= k < particles.Length
        ensures particles[k] == Moved(sqrt, fs)[k]
      {
      }
    }

    /** `ClearAcc` then `Repulsion` on particles filed into the grid: each
        acceleration becomes the force of all other particles. */
    method Accelerate()
      requires Valid() && Partitioned(particles[..], cells)
      modifies particles
      ensures Valid()
      ensures forall k :: 0 <= k < particles.Length ==>
        particles[k] == old(particles[k]).(acc := LegacyForce(sqrt, old(particles[..]), k))
    {
      ghost var fs := particles[..];
      ClearAcc();
      ghost var cs := particles[..];
      PartitionedFrame(fs, cs, cells);
      PartitionedIndexed(cs, cells);
      Repulsion();
      ClearedGridForce(sqrt, fs, cs, particles[..], cells);
    }
  }
}
