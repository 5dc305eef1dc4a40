/** The uniform grid of `Gas::cells`: `cells[i][j]` lists the particles whose
    position falls in column `i` and row `j`. A particle is represented by its
    index in the particle vector (the source stores `Particle*`; the vector is
    never resized after `Initialise`, so an index names the same particle). */
module Grid {
  import opened Vectors
  import opened Particles

  type Cell = (int, int)
  type Cells = seq<seq<seq<nat>>>

  /** The cell `Partition` files a particle at `p` under. */
  function CellOf(p: Vec2): Cell
  {
    (CellIndex(p.x), CellIndex(p.y))
  }

  predicate InRange(c: Cell)
  {
    0 <= c.0 < CellsX && 0 <= c.1 < CellsY
  }

  predicate AllInRange(cs: seq<Cell>)
  {
    forall t :: 0 <= t < |cs| ==> InRange(cs[t])
  }

  /** The grid has `cell_i_max` columns of `cell_j_max` cells each. */
  predicate Shaped(g: Cells)
  {
    |g| == CellsX && forall a :: 0 <= a < |g| ==> |g[a]| == CellsY
  }

  /** The indices `0, 1, ..., n-1` in increasing order. */
  function Indices(n: nat): (r: seq<nat>)
    ensures |r| == n && forall t :: 0 <= t < n ==> r[t] == t
  {
    if n == 0 then [] else Indices(n - 1) + [n - 1]
  }

  lemma {:induction false} IndicesCount(n: nat, m: nat)
    ensures multiset(Indices(n))[m] == if m < n then 1 else 0
  {
    if n > 0 {
      var k: nat := n - 1;
      assert Indices(n) == Indices(k) + [k];
      IndicesCount(k, m);
      SnocCount(Indices(k), k, m);
    }
  }

  /** Appending `k` adds one occurrence of `k` and no other. */
  lemma SnocCount(s: seq<nat>, k: nat, m: nat)
    ensures multiset(s + [k])[m] == multiset(s)[m] + if m == k then 1 else 0
  {
    assert multiset(s + [k]) == multiset(s) + multiset{k};
  }

  /** The contents of cell `c` after the first `count` particles have been
      filed: those of them whose position falls in `c`, in index order. */
  function Bucket(ps: seq<Particle>, count: nat, c: Cell): seq<nat>
    requires count <= |ps|
  {
    if count == 0 then []
    else Bucket(ps, count - 1, c) + (if CellOf(ps[count - 1].pos) == c then [count - 1] else [])
  }

  /** A particle index occurs in a bucket once when the particle lies in that
      cell and has been filed, and not at all otherwise. */
  lemma {:induction false} BucketCount(ps: seq<Particle>, count: nat, c: Cell, n: nat)
    requires count <= |ps|
    ensures multiset(Bucket(ps, count, c))[n] == if n < count && CellOf(ps[n].pos) == c then 1 else 0
  {
    if count > 0 {
      var k: nat := count - 1;
      var before := Bucket(ps, k, c);
      BucketCount(ps, k, c, n);
      var added: seq<nat> := if CellOf(ps[k].pos) == c then [k] else [];
      assert Bucket(ps, count, c) == before + added;
      assert multiset(before + added) == multiset(before) + multiset(added);
      assert multiset(added)[n] == if n == k && CellOf(ps[k].pos) == c then 1 else 0;
    }
  }

  /** A bucket lists only particles that have been filed. */
  lemma BucketBelow(ps: seq<Particle>, count: nat, c: Cell)
    requires count <= |ps|
    ensures forall t :: 0 <= t < |Bucket(ps, count, c)| ==> Bucket(ps, count, c)[t] < count
  {
    forall t | 0 <= t < |Bucket(ps, count, c)|
      ensures Bucket(ps, count, c)[t] < count
    {
      var n := Bucket(ps, count, c)[t];
      assert n in multiset(Bucket(ps, count, c));
      BucketCount(ps, count, c, n);
    }
  }

  /** Buckets depend only on positions. */
  lemma {:induction false} BucketFrame(ps: seq<Particle>, qs: seq<Particle>, count: nat, c: Cell)
    requires count <= |ps| == |qs|
    requires forall n :: 0 <= n < |ps| ==> ps[n].pos == qs[n].pos
    ensures Bucket(ps, count, c) == Bucket(qs, count, c)
  {
    if count > 0 {
      BucketFrame(ps, qs, count - 1, c);
    }
  }

  /** The state `Partition` leaves: every particle lies in the grid and records
      its cell in `(i, j)`, and every cell lists exactly the particles that lie
      in it, in index order. */
  predicate Partitioned(ps: seq<Particle>, g: Cells)
  {
    Shaped(g)
    && (forall n :: 0 <= n < |ps| ==> InRange(CellOf(ps[n].pos)) && (ps[n].i, ps[n].j) == CellOf(ps[n].pos))
    && (forall a, b :: 0 <= a < CellsX && 0 <= b < CellsY ==> g[a][b] == Bucket(ps, |ps|, (a, b)))
  }

  /** The grid `Initialise` builds and `ClearCells` leaves: every cell empty. */
  predicate Empty(g: Cells)
  {
    Shaped(g) && forall a, b :: 0 <= a < CellsX && 0 <= b < CellsY ==> g[a][b] == []
  }

  /** The grid `Partition` has built after filing the first `count`
      particles: every cell holds their bucket. */
  predicate FiledUpTo(g: Cells, ps: seq<Particle>, count: nat)
    requires count <= |ps|
  {
    Shaped(g) && forall a, b :: 0 <= a < CellsX && 0 <= b < CellsY ==> g[a][b] == Bucket(ps, count, (a, b))
  }

  /** The particles with the cell `Partition` computes recorded in `(i, j)`. */
  function Filed(ps: seq<Particle>): (r: seq<Particle>)
    ensures |r| == |ps|
    ensures forall n :: 0 <= n < |ps| ==> r[n] == ps[n].(i := CellOf(ps[n].pos).0, j := CellOf(ps[n].pos).1)
  {
    seq(|ps|, n requires 0 <= n < |ps| => ps[n].(i := CellOf(ps[n].pos).0, j := CellOf(ps[n].pos).1))
  }

  /** Partitioning is unaffected by changes other than to positions and cells. */
  lemma PartitionedFrame(ps: seq<Particle>, qs: seq<Particle>, g: Cells)
    requires Partitioned(ps, g) && |ps| == |qs|
    requires forall n :: 0 <= n < |ps| ==> qs[n].pos == ps[n].pos && qs[n].i == ps[n].i && qs[n].j == ps[n].j
    ensures Partitioned(qs, g)
  {
    forall a, b | 0 <= a < CellsX && 0 <= b < CellsY
      ensures g[a][b] == Bucket(qs, |qs|, (a, b))
    {
      BucketFrame(ps, qs, |ps|, (a, b));
    }
  }

  /** The grid `g` with particle `n` appended to cell `(i, j)`. */
  function Append(g: Cells, i: int, j: int, n: nat): (r: Cells)
    requires 0 <= i < |g| && 0 <= j < |g[i]|
    ensures |r| == |g| && forall a :: 0 <= a < |g| ==> |r[a]| == |g[a]|
  {
    g[i := g[i][j := g[i][j] + [n]]]
  }

  /** Filing particle `k` into the cell of its position extends exactly
      that cell's bucket by `k`; all other cells keep their buckets. */
  lemma FileOne(ps: seq<Particle>, g: Cells, k: nat)
    requires k < |ps| && InRange(CellOf(ps[k].pos)) && FiledUpTo(g, ps, k)
    ensures FiledUpTo(Append(g, CellOf(ps[k].pos).0, CellOf(ps[k].pos).1, k), ps, k + 1)
  {
  }

  /** The particles once the loop of `Partition` has recorded their cells in
      the first `count` of them. */
  function FiledPrefix(ps: seq<Particle>, count: nat): (r: seq<Particle>)
    requires count <= |ps|
    ensures |r| == |ps|
  {
    if count == 0 then ps
    else
      var p := ps[count - 1];
      FiledPrefix(ps, count - 1)[count - 1 := p.(i := CellOf(p.pos).0, j := CellOf(p.pos).1)]
  }

  /** The first `count` particles are filed, the rest untouched; so filing
      them all gives `Filed`. */
  lemma {:induction false} FiledPrefixAt(ps: seq<Particle>, count: nat)
    requires count <= |ps|
    ensures forall m :: 0 <= m < |ps| ==> FiledPrefix(ps, count)[m] == if m < count then Filed(ps)[m] else ps[m]
  {
    if count > 0 {
      FiledPrefixAt(ps, count - 1);
    }
  }

  lemma FiledPrefixAll(ps: seq<Particle>)
    ensures FiledPrefix(ps, |ps|) == Filed(ps)
  {
    FiledPrefixAt(ps, |ps|);
  }

  /** The grid `Partition` builds from `g` by appending, in index order, each
      of the first `count` particles to the cell of its position. */
  function FiledGrid(g: Cells, ps: seq<Particle>, count: nat): (r: Cells)
    requires count <= |ps|
    ensures |r| == |g| && forall a :: 0 <= a < |g| ==> |r[a]| == |g[a]|
  {
    if count == 0 then g
    else
      var r := FiledGrid(g, ps, count - 1);
      var c := CellOf(ps[count - 1].pos);
      if 0 <= c.0 < |r| && 0 <= c.1 < |r[c.0]| then Append(r, c.0, c.1, count - 1) else r
  }

  /** Started from an empty grid, filing leaves in every cell the bucket of
      the particles filed so far. */
  lemma {:induction false} FiledGridBuckets(g: Cells, ps: seq<Particle>, count: nat)
    requires Empty(g) && count <= |ps|
    ensures FiledUpTo(FiledGrid(g, ps, count), ps, count)
  {
    if count > 0 {
      var k: nat := count - 1;
      FiledGridBuckets(g, ps, k);
      if InRange(CellOf(ps[k].pos)) {
        FileOne(ps, FiledGrid(g, ps, k), k);
      }
    }
  }

  /** Filing every particle into the buckets of its position yields a
      partitioned grid. */
  lemma FiledPartitioned(ps: seq<Particle>, g: Cells)
    requires FiledUpTo(g, ps, |ps|)
    requires forall n :: 0 <= n < |ps| ==> InGrid(ps[n].pos)
    ensures Partitioned(Filed(ps), g)
  {
    forall a, b | 0 <= a < CellsX && 0 <= b < CellsY
      ensures g[a][b] == Bucket(Filed(ps), |ps|, (a, b))
    {
      BucketFrame(ps, Filed(ps), |ps|, (a, b));
    }
  }

  /** Each particle is listed exactly once, in the cell `(i, j)` it records,
      and in no other cell. */
  lemma PartitionedPlacesOnce(ps: seq<Particle>, g: Cells, n: nat, a: int, b: int)
    requires Partitioned(ps, g) && InRange((a, b))
    ensures multiset(g[a][b])[n] == if n < |ps| && (ps[n].i, ps[n].j) == (a, b) then 1 else 0
  {
    BucketCount(ps, |ps|, (a, b), n);
  }

  /** The cells of one column that `Repulsion` scans: `(a, j)`, then `(a, j-1)`
      and `(a, j+1)` when those rows exist. */
  function Column(a: int, j: int): seq<Cell>
  {
    [(a, j)] + (if j - 1 >= 0 then [(a, j - 1)] else []) + (if j + 1 < CellsY then [(a, j + 1)] else [])
  }

  /** The cells `Repulsion` scans for a particle in cell `(i, j)`, in the
      source's order: its own column, then column `i-1` and column `i+1`
      when those exist. */
  function NeighbourCells(i: int, j: int): seq<Cell>
  {
    Column(i, j) + (if i - 1 >= 0 then Column(i - 1, j) else []) + (if i + 1 < CellsX then Column(i + 1, j) else [])
  }

  /** How often the scan of column `a` around row `j` visits cell `c`. */
  lemma ColumnCount(a: int, j: int, c: Cell)
    requires 0 <= j < CellsY
    ensures multiset(Column(a, j))[c] == if c.0 == a && -1 <= c.1 - j <= 1 && 0 <= c.1 < CellsY then 1 else 0
  {
    var up: seq<Cell> := if j - 1 >= 0 then [(a, j - 1)] else [];
    var down: seq<Cell> := if j + 1 < CellsY then [(a, j + 1)] else [];
    assert Column(a, j) == [(a, j)] + up + down;
    assert multiset(Column(a, j))[c] == multiset([(a, j)])[c] + multiset(up)[c] + multiset(down)[c];
    assert multiset([(a, j)])[c] == if c == (a, j) then 1 else 0;
    assert multiset(up)[c] == if j - 1 >= 0 && c == (a, j - 1) then 1 else 0;
    assert multiset(down)[c] == if j + 1 < CellsY && c == (a, j + 1) then 1 else 0;
  }

  lemma ColumnInRange(a: int, j: int)
    requires 0 <= a < CellsX && 0 <= j < CellsY
    ensures AllInRange(Column(a, j))
  {
  }

  lemma AllInRangeAppend(cs: seq<Cell>, ds: seq<Cell>)
    requires AllInRange(cs) && AllInRange(ds)
    ensures AllInRange(cs + ds)
  {
    forall t | 0 <= t < |cs + ds|
      ensures InRange((cs + ds)[t])
    {
      if t >= |cs| {
        assert (cs + ds)[t] == ds[t - |cs|];
      }
    }
  }

  /** The scan never leaves the grid: no negative index, no wrap-around. */
  lemma NeighbourCellsInRange(i: int, j: int)
    requires InRange((i, j))
    ensures AllInRange(NeighbourCells(i, j))
  {
    var left: seq<Cell> := if i - 1 >= 0 then Column(i - 1, j) else [];
    var right: seq<Cell> := if i + 1 < CellsX then Column(i + 1, j) else [];
    ColumnInRange(i, j);
    if i - 1 >= 0 { ColumnInRange(i - 1, j); }
    if i + 1 < CellsX { ColumnInRange(i + 1, j); }
    assert AllInRange(left) && AllInRange(right);
    AllInRangeAppend(Column(i, j), left);
    AllInRangeAppend(Column(i, j) + left, right);
  }

  lemma Count3(xs: seq<Cell>, ys: seq<Cell>, zs: seq<Cell>, c: Cell)
    ensures multiset(xs + ys + zs)[c] == multiset(xs)[c] + multiset(ys)[c] + multiset(zs)[c]
  {
  }

  lemma LeftColumnCount(i: int, j: int, c: Cell)
    requires InRange((i, j))
    ensures multiset(if i - 1 >= 0 then Column(i - 1, j) else [])[c]
         == if c.0 == i - 1 && i - 1 >= 0 && -1 <= c.1 - j <= 1 && 0 <= c.1 < CellsY then 1 else 0
  {
    var side: seq<Cell> := if i - 1 >= 0 then Column(i - 1, j) else [];
    if i - 1 >= 0 {
      ColumnCount(i - 1, j, c);
      assert side == Column(i - 1, j);
    } else {
      assert side == [];
    }
  }

  lemma RightColumnCount(i: int, j: int, c: Cell)
    requires InRange((i, j))
    ensures multiset(if i + 1 < CellsX then Column(i + 1, j) else [])[c]
         == if c.0 == i + 1 && i + 1 < CellsX && -1 <= c.1 - j <= 1 && 0 <= c.1 < CellsY then 1 else 0
  {
    var side: seq<Cell> := if i + 1 < CellsX then Column(i + 1, j) else [];
    if i + 1 < CellsX {
      ColumnCount(i + 1, j, c);
      assert side == Column(i + 1, j);
    } else {
      assert side == [];
    }
  }

  /** The scan covers exactly the clipped 3x3 block around `(i, j)`, visiting
      each of its cells once: no cell outside the grid, no cell twice. */
  lemma NeighbourCellsCount(i: int, j: int, c: Cell)
    requires InRange((i, j))
    ensures multiset(NeighbourCells(i, j))[c] == if InRange(c) && -1 <= c.0 - i <= 1 && -1 <= c.1 - j <= 1 then 1 else 0
  {
    var left: seq<Cell> := if i - 1 >= 0 then Column(i - 1, j) else [];
    var right: seq<Cell> := if i + 1 < CellsX then Column(i + 1, j) else [];
    ColumnCount(i, j, c);
    LeftColumnCount(i, j, c);
    RightColumnCount(i, j, c);
    Count3(Column(i, j), left, right, c);
    BlockCount(i, j, c, multiset(Column(i, j))[c], multiset(left)[c], multiset(right)[c]);
  }

  /** The counts of a cell in the three column scans add up to its count in
      the clipped 3x3 block. */
  lemma BlockCount(i: int, j: int, c: Cell, own: nat, left: nat, right: nat)
    requires InRange((i, j))
    requires own == if c.0 == i && -1 <= c.1 - j <= 1 && 0 <= c.1 < CellsY then 1 else 0
    requires left == if c.0 == i - 1 && i - 1 >= 0 && -1 <= c.1 - j <= 1 && 0 <= c.1 < CellsY then 1 else 0
    requires right == if c.0 == i + 1 && i + 1 < CellsX && -1 <= c.1 - j <= 1 && 0 <= c.1 < CellsY then 1 else 0
    ensures own + left + right == if InRange(c) && -1 <= c.0 - i <= 1 && -1 <= c.1 - j <= 1 then 1 else 0
  {
  }


  /** The particles listed in the cells `cs`, cell after cell. */
  function Visited(g: Cells, cs: seq<Cell>): seq<nat>
    requires Shaped(g) && AllInRange(cs)
  {
    if cs == [] then [] else g[cs[0].0][cs[0].1] + Visited(g, cs[1..])
  }

  lemma {:induction false} VisitedAppend(g: Cells, cs: seq<Cell>, ds: seq<Cell>)
    requires Shaped(g) && AllInRange(cs) && AllInRange(ds)
    ensures AllInRange(cs + ds)
    ensures Visited(g, cs + ds) == Visited(g, cs) + Visited(g, ds)
  {
    if cs != [] {
      assert (cs + ds)[0] == cs[0];
      assert (cs + ds)[1..] == cs[1..] + ds;
      VisitedAppend(g, cs[1..], ds);
      var head := g[cs[0].0][cs[0].1];
      assert Visited(g, cs + ds) == head + Visited(g, cs[1..] + ds);
      assert Visited(g, cs) == head + Visited(g, cs[1..]);
      assert head + (Visited(g, cs[1..]) + Visited(g, ds)) == (head + Visited(g, cs[1..])) + Visited(g, ds);
    } else {
      assert cs + ds == ds;
    }
  }

  /** Where particle `n` is listed once in cell `home` and in no other
      cell, it occurs in the visited cells as often as `home` is visited. */
  lemma {:induction false} VisitedCountIn(g: Cells, cs: seq<Cell>, n: nat, home: Cell)
    requires Shaped(g) && AllInRange(cs)
    requires forall a, b :: 0 <= a < CellsX && 0 <= b < CellsY ==> multiset(g[a][b])[n] == if (a, b) == home then 1 else 0
    ensures multiset(Visited(g, cs))[n] == multiset(cs)[home]
  {
    if cs != [] {
      var rest := cs[1..];
      var head := g[cs[0].0][cs[0].1];
      VisitedCountIn(g, rest, n, home);
      assert Visited(g, cs) == head + Visited(g, rest);
      assert multiset(Visited(g, cs)) == multiset(head) + multiset(Visited(g, rest));
      assert cs == [cs[0]] + rest;
      assert multiset(cs) == multiset([cs[0]]) + multiset(rest);
    }
  }

  /** In a partitioned grid, a particle occurs in the visited cells as often as
      its own cell occurs among them. */
  lemma VisitedCount(ps: seq<Particle>, g: Cells, cs: seq<Cell>, n: nat)
    requires Partitioned(ps, g) && AllInRange(cs)
    ensures multiset(Visited(g, cs))[n] == if n < |ps| then multiset(cs)[CellOf(ps[n].pos)] else 0
  {
    var home := if n < |ps| then CellOf(ps[n].pos) else (-1, -1);
    forall a, b | 0 <= a < CellsX && 0 <= b < CellsY
      ensures multiset(g[a][b])[n] == if (a, b) == home then 1 else 0
    {
      BucketCount(ps, |ps|, (a, b), n);
    }
    VisitedCountIn(g, cs, n, home);
    if n >= |ps| {
      assert !InRange(home);
      assert home !in cs;
    }
  }

  /** The cells of the columns before `a`, then the cells of column `a`
      with row below `b`, column by column; each column has `rows` cells. */
  function Walk(a: nat, b: nat, rows: nat): seq<Cell>
    requires b <= rows
    decreases a, b
  {
    if b > 0 then Walk(a, b - 1, rows) + [(a, b - 1)]
    else if a > 0 then Walk(a - 1, rows, rows)
    else []
  }

  /** Every cell of the grid `g`, column by column. */
  function AllCells(g: Cells): seq<Cell>
  {
    Walk(|g|, 0, if g == [] then 0 else |g[0]|)
  }

  lemma {:induction false} WalkCount(a: nat, b: nat, rows: nat, c: Cell)
    requires b <= rows
    ensures multiset(Walk(a, b, rows))[c] == if (0 <= c.0 < a && 0 <= c.1 < rows) || (c.0 == a && 0 <= c.1 < b) then 1 else 0
    decreases a, b
  {
    if b > 0 {
      WalkCount(a, b - 1, rows, c);
      var added := multiset([(a, b - 1)])[c];
      assert multiset(Walk(a, b, rows))[c] == multiset(Walk(a, b - 1, rows))[c] + added;
      assert added == if c == (a, b - 1) then 1 else 0;
      WalkStepCount(a, b, rows, c, multiset(Walk(a, b - 1, rows))[c], added);
    } else if a > 0 {
      WalkCount(a - 1, rows, rows, c);
    }
  }

  /** One more cell on the walk adds one to its count and nothing to the
      count of any other cell. */
  lemma WalkStepCount(a: nat, b: nat, rows: nat, c: Cell, before: nat, added: nat)
    requires 0 < b <= rows
    requires before == if (0 <= c.0 < a && 0 <= c.1 < rows) || (c.0 == a && 0 <= c.1 < b - 1) then 1 else 0
    requires added == if c == (a, b - 1) then 1 else 0
    ensures before + added == if (0 <= c.0 < a && 0 <= c.1 < rows) || (c.0 == a && 0 <= c.1 < b) then 1 else 0
  {
  }

  /** The list of all cells names each cell of the grid once and nothing else. */
  lemma AllCellsCount(g: Cells, c: Cell)
    requires Shaped(g)
    ensures AllInRange(AllCells(g))
    ensures multiset(AllCells(g))[c] == if InRange(c) then 1 else 0
  {
    WalkCount(|g|, 0, |g[0]|, c);
    forall t | 0 <= t < |AllCells(g)|
      ensures InRange(AllCells(g)[t])
    {
      var d := AllCells(g)[t];
      assert d in multiset(AllCells(g));
      WalkCount(|g|, 0, |g[0]|, d);
    }
  }

  /** After partitioning, the cells together hold every particle index
      exactly once and nothing else; in particular the cell sizes add up to
      the number of particles. */
  lemma PartitionedCoversAll(ps: seq<Particle>, g: Cells)
    requires Partitioned(ps, g)
    ensures AllInRange(AllCells(g))
    ensures multiset(Visited(g, AllCells(g))) == multiset(Indices(|ps|))
    ensures |Visited(g, AllCells(g))| == |ps|
  {
    AllCellsCount(g, (0, 0));
    forall n: nat
      ensures multiset(Visited(g, AllCells(g)))[n] == multiset(Indices(|ps|))[n]
    {
      VisitedCount(ps, g, AllCells(g), n);
      IndicesCount(|ps|, n);
      if n < |ps| {
        AllCellsCount(g, CellOf(ps[n].pos));
      }
    }
    assert multiset(Visited(g, AllCells(g))) == multiset(Indices(|ps|));
    assert |multiset(Visited(g, AllCells(g)))| == |multiset(Indices(|ps|))|;
  }
}
