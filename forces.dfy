/** The acceleration a particle collects from a sequence of `Repel` calls,
    and why the grid search of `Gas::Repulsion` collects the same
    acceleration as the all-pairs search of `Gas::_LegacyRepulsion`. */
module Forces {
  import opened Vectors
  import opened Particles
  import opened Grid

  /** Every index in `ns` names a particle of a vector of length `bound`. */
  predicate Below(ns: seq<nat>, bound: nat)
  {
    forall t :: 0 <= t < |ns| ==> ns[t] < bound
  }

  /** What `Repel(ps[k], ps[n])` adds to the acceleration of particle `k`,
      for every `n`. */
  function Pushes(sqrt: real -> real, ps: seq<Particle>, k: nat): (r: seq<Vec2>)
    requires k < |ps|
    ensures |r| == |ps|
    ensures forall n :: 0 <= n < |ps| ==> r[n] == Contribution(sqrt, ps[k], ps[n])
  {
    seq(|ps|, n requires 0 <= n < |ps| => Contribution(sqrt, ps[k], ps[n]))
  }

  /** The sum of the pushes `push[n]` for the indices `n` of `ns`, added in
      order: what a sequence of `Repel` calls adds to an acceleration. */
  function Force(push: seq<Vec2>, ns: seq<nat>): Vec2
    requires Below(ns, |push|)
  {
    if ns == [] then Zero()
    else Add(Force(push, ns[..|ns| - 1]), push[ns[|ns| - 1]])
  }

  /** The acceleration `_LegacyRepulsion` gives particle `k`: every particle
      of the vector is tried as a neighbour, in index order. */
  function LegacyForce(sqrt: real -> real, ps: seq<Particle>, k: nat): Vec2
    requires k < |ps|
  {
    Force(Pushes(sqrt, ps, k), Indices(|ps|))
  }

  /** The pushes depend on positions and identities only; in particular not
      on the accelerations that `Repel` updates. */
  lemma PushesFrame(sqrt: real -> real, ps: seq<Particle>, qs: seq<Particle>, k: nat)
    requires k < |ps| == |qs|
    requires forall n :: 0 <= n < |ps| ==> ps[n].pos == qs[n].pos && ps[n].id == qs[n].id
    ensures Pushes(sqrt, ps, k) == Pushes(sqrt, qs, k)
  {
    forall n | 0 <= n < |ps|
      ensures Pushes(sqrt, ps, k)[n] == Pushes(sqrt, qs, k)[n]
    {
      ContributionFrame(sqrt, ps[k], ps[n], qs[k], qs[n]);
    }
  }

  /** What `Repulsion` may rely on: the grid has its shape, every particle
      records a cell of the grid, and every cell lists particles of the
      vector. */
  predicate Indexed(ps: seq<Particle>, g: Cells)
  {
    Shaped(g)
    && (forall n :: 0 <= n < |ps| ==> InRange((ps[n].i, ps[n].j)))
    && CellsBelow(g, |ps|)
  }

  /** Every cell of the grid lists indices below `bound`. */
  predicate CellsBelow(g: Cells, bound: nat)
    requires Shaped(g)
  {
    forall a, b :: 0 <= a < CellsX && 0 <= b < CellsY ==> Below(g[a][b], bound)
  }

  /** The acceleration `Repulsion` gives particle `k`: the particles listed
      in the cells around the cell the particle records, in scan order. */
  function GridForce(sqrt: real -> real, ps: seq<Particle>, g: Cells, k: nat): Vec2
    requires Indexed(ps, g) && k < |ps|
  {
    NeighbourCellsInRange(ps[k].i, ps[k].j);
    ScanForce(Pushes(sqrt, ps, k), g, NeighbourCells(ps[k].i, ps[k].j))
  }

  /** The force of the particles listed in the cells `cs`, scanned in order. */
  function ScanForce(push: seq<Vec2>, g: Cells, cs: seq<Cell>): Vec2
    requires Shaped(g) && CellsBelow(g, |push|) && AllInRange(cs)
  {
    VisitedBelow(g, cs, |push|);
    Force(push, Visited(g, cs))
  }

  lemma {:induction false} VisitedBelow(g: Cells, cs: seq<Cell>, bound: nat)
    requires Shaped(g) && CellsBelow(g, bound) && AllInRange(cs)
    ensures Below(Visited(g, cs), bound)
  {
    if cs != [] {
      VisitedBelow(g, cs[1..], bound);
      var head := g[cs[0].0][cs[0].1];
      assert Below(head, bound);
      assert Visited(g, cs) == head + Visited(g, cs[1..]);
      BelowAppend(head, Visited(g, cs[1..]), bound);
    }
  }

  /** Scanning the cells `cs` and then the cells `ds` adds the forces of
      the two scans. */
  lemma ScanForceAppend(push: seq<Vec2>, g: Cells, cs: seq<Cell>, ds: seq<Cell>)
    requires Shaped(g) && CellsBelow(g, |push|) && AllInRange(cs) && AllInRange(ds)
    ensures AllInRange(cs + ds)
    ensures ScanForce(push, g, cs + ds) == Add(ScanForce(push, g, cs), ScanForce(push, g, ds))
  {
    VisitedAppend(g, cs, ds);
    VisitedBelow(g, cs, |push|);
    VisitedBelow(g, ds, |push|);
    ForceAppend(push, Visited(g, cs), Visited(g, ds));
  }

  /** Scanning one cell adds the pushes of the particles it lists. */
  lemma ScanForceOne(push: seq<Vec2>, g: Cells, c: Cell)
    requires Shaped(g) && CellsBelow(g, |push|) && InRange(c)
    ensures AllInRange([c])
    ensures ScanForce(push, g, [c]) == Force(push, g[c.0][c.1])
  {
    assert [c][1..] == [];
    assert g[c.0][c.1] + [] == g[c.0][c.1];
    assert Visited(g, [c]) == g[c.0][c.1];
    VisitedBelow(g, [c], |push|);
  }

  /** The scan of column `a` around row `j`: the own cell, then the cell
      above and the cell below where they exist. */
  lemma ColumnForce(push: seq<Vec2>, g: Cells, a: int, j: int)
    requires Shaped(g) && CellsBelow(g, |push|) && 0 <= a < CellsX && 0 <= j < CellsY
    ensures AllInRange(Column(a, j))
    ensures ScanForce(push, g, Column(a, j))
      == Add(Add(Force(push, g[a][j]),
                 if j - 1 >= 0 then Force(push, g[a][j - 1]) else Zero()),
             if j + 1 < CellsY then Force(push, g[a][j + 1]) else Zero())
  {
    ScanThreeCells(push, g, (a, j), (a, j - 1), j - 1 >= 0, (a, j + 1), j + 1 < CellsY);
  }

  /** Scanning cell `c`, then `d` if `hasD`, then `e` if `hasE`, adds
      their forces in that order. */
  lemma ScanThreeCells(push: seq<Vec2>, g: Cells, c: Cell, d: Cell, hasD: bool, e: Cell, hasE: bool)
    requires Shaped(g) && CellsBelow(g, |push|) && InRange(c) && (hasD ==> InRange(d)) && (hasE ==> InRange(e))
    ensures AllInRange([c] + (if hasD then [d] else []) + (if hasE then [e] else []))
    ensures ScanForce(push, g, [c] + (if hasD then [d] else []) + (if hasE then [e] else []))
         == Add(Add(Force(push, g[c.0][c.1]), if hasD then Force(push, g[d.0][d.1]) else Zero()),
                if hasE then Force(push, g[e.0][e.1]) else Zero())
  {
    ScanForceOne(push, g, c);
    if hasD { ScanForceOne(push, g, d); }
    if hasE { ScanForceOne(push, g, e); }
    ScanForceMaybe(push, g, [d], hasD);
    ScanForceMaybe(push, g, [e], hasE);
    ThreeScans(push, g, [c], if hasD then [d] else [], if hasE then [e] else []);
  }

  /** Scanning the cells `cs` when they are `present`, and nothing otherwise. */
  lemma ScanForceMaybe(push: seq<Vec2>, g: Cells, cs: seq<Cell>, present: bool)
    requires Shaped(g) && CellsBelow(g, |push|) && (present ==> AllInRange(cs))
    ensures AllInRange(if present then cs else [])
    ensures ScanForce(push, g, if present then cs else [])
         == if present then ScanForce(push, g, cs) else Zero()
  {
    if !present {
      assert Visited(g, []) == [];
    }
  }

  /** Scanning three lists of cells one after the other adds their three
      scan forces, in order. */
  lemma ThreeScans(push: seq<Vec2>, g: Cells, cs: seq<Cell>, ds: seq<Cell>, es: seq<Cell>)
    requires Shaped(g) && CellsBelow(g, |push|) && AllInRange(cs) && AllInRange(ds) && AllInRange(es)
    ensures AllInRange(cs + ds + es)
    ensures ScanForce(push, g, cs + ds + es)
         == Add(Add(ScanForce(push, g, cs), ScanForce(push, g, ds)), ScanForce(push, g, es))
  {
    ScanForceAppend(push, g, cs, ds);
    ScanForceAppend(push, g, cs + ds, es);
  }

  /** The scan around cell `(i, j)`: its own column, then the column to the
      left and the column to the right where they exist. */
  lemma NeighbourForce(push: seq<Vec2>, g: Cells, i: int, j: int)
    requires Shaped(g) && CellsBelow(g, |push|) && InRange((i, j))
    ensures AllInRange(NeighbourCells(i, j)) && AllInRange(Column(i, j))
    ensures i - 1 >= 0 ==> AllInRange(Column(i - 1, j))
    ensures i + 1 < CellsX ==> AllInRange(Column(i + 1, j))
    ensures ScanForce(push, g, NeighbourCells(i, j))
      == Add(Add(ScanForce(push, g, Column(i, j)),
                 if i - 1 >= 0 then ScanForce(push, g, Column(i - 1, j)) else Zero()),
             if i + 1 < CellsX then ScanForce(push, g, Column(i + 1, j)) else Zero())
  {
    ColumnInRange(i, j);
    if i - 1 >= 0 { ColumnInRange(i - 1, j); }
    if i + 1 < CellsX { ColumnInRange(i + 1, j); }
    ScanForceMaybe(push, g, Column(i - 1, j), i - 1 >= 0);
    ScanForceMaybe(push, g, Column(i + 1, j), i + 1 < CellsX);
    ThreeScans(push, g, Column(i, j),
      if i - 1 >= 0 then Column(i - 1, j) else [],
      if i + 1 < CellsX then Column(i + 1, j) else []);
  }

  /** `Partition` establishes everything `Repulsion` relies on. */
  lemma PartitionedIndexed(ps: seq<Particle>, g: Cells)
    requires Partitioned(ps, g)
    ensures Indexed(ps, g)
  {
    forall a, b | 0 <= a < CellsX && 0 <= b < CellsY
      ensures Below(g[a][b], |ps|)
    {
      BucketBelow(ps, |ps|, (a, b));
    }
  }

  lemma BelowAppend(a: seq<nat>, b: seq<nat>, bound: nat)
    requires Below(a, bound) && Below(b, bound)
    ensures Below(a + b, bound)
  {
    forall t | 0 <= t < |a + b|
      ensures (a + b)[t] < bound
    {
      if t >= |a| {
        assert (a + b)[t] == b[t - |a|];
      }
    }
  }

  /** Repelling from `a` and then from `b` adds the two forces. */
  lemma {:induction false} ForceAppend(push: seq<Vec2>, a: seq<nat>, b: seq<nat>)
    requires Below(a, |push|) && Below(b, |push|)
    ensures Below(a + b, |push|)
    ensures Force(push, a + b) == Add(Force(push, a), Force(push, b))
    decreases |b|
  {
    BelowAppend(a, b, |push|);
    if b == [] {
      assert a + b == a;
    } else {
      var b' := b[..|b| - 1];
      ForceAppend(push, a, b');
      assert (a + b)[..|a + b| - 1] == a + b';
      assert (a + b)[|a + b| - 1] == b[|b| - 1];
    }
  }

  /** Taking neighbour `b[i]` out of the sequence takes its push out of
      the force. */
  lemma ForceRemove(push: seq<Vec2>, b: seq<nat>, i: nat)
    requires Below(b, |push|) && i < |b|
    ensures Below(b[..i] + b[i + 1..], |push|)
    ensures Force(push, b) == Add(Force(push, b[..i] + b[i + 1..]), push[b[i]])
  {
    assert b == b[..i] + [b[i]] + b[i + 1..];
    ForceMiddle(push, b[..i], b[i], b[i + 1..]);
  }

  /** Taking neighbour `n` out from between `front` and `back` takes its
      push out of the force. */
  lemma ForceMiddle(push: seq<Vec2>, front: seq<nat>, n: nat, back: seq<nat>)
    requires Below(front, |push|) && n < |push| && Below(back, |push|)
    ensures Below(front + [n] + back, |push|) && Below(front + back, |push|)
    ensures Force(push, front + [n] + back) == Add(Force(push, front + back), push[n])
  {
    ForceSnoc(push, front, n);
    ForceAppend(push, front + [n], back);
    ForceAppend(push, front, back);
  }

  /** Adding one neighbour at the end adds its push. */
  lemma ForceSnoc(push: seq<Vec2>, a: seq<nat>, n: nat)
    requires Below(a, |push|) && n < |push|
    ensures Below(a + [n], |push|)
    ensures Force(push, a + [n]) == Add(Force(push, a), push[n])
  {
    assert (a + [n])[..|a|] == a;
  }

  lemma MultisetRemove(b: seq<nat>, i: nat)
    requires i < |b|
    ensures multiset(b[..i] + b[i + 1..]) == multiset(b) - multiset{b[i]}
  {
    var front: seq<nat>, back: seq<nat> := b[..i], b[i + 1..];
    var single: seq<nat> := [b[i]];
    assert b == front + single + back;
    forall y: nat
      ensures multiset(front + back)[y] == (multiset(b) - multiset{b[i]})[y]
    {
      assert multiset(b)[y] == multiset(front)[y] + multiset(single)[y] + multiset(back)[y];
      assert multiset(front + back)[y] == multiset(front)[y] + multiset(back)[y];
    }
    assert multiset(front + back) == multiset(b) - multiset{b[i]};
  }

  /** The order in which neighbours are tried does not change the force
      (real addition is associative and commutative; see README on
      rounding): any rearrangement of the same neighbours gives the same
      force. */
  lemma {:induction false} ForcePermutation(push: seq<Vec2>, a: seq<nat>, b: seq<nat>)
    requires Below(a, |push|) && Below(b, |push|)
    requires multiset(a) == multiset(b)
    ensures Force(push, a) == Force(push, b)
    decreases |a|
  {
    if a == [] {
      assert |b| == |multiset(b)| == 0;
    } else {
      var n := |a| - 1;
      var x := a[n];
      assert x in multiset(b);
      var i :| 0 <= i < |b| && b[i] == x;
      MultisetRemove(a, n);
      MultisetRemove(b, i);
      ForceRemove(push, a, n);
      ForceRemove(push, b, i);
      assert a[..n] + a[n + 1..] == a[..n];
      ForcePermutation(push, a[..n], b[..i] + b[i + 1..]);
    }
  }

  /** The neighbours of `ns` that particle `k` interacts with, in order. */
  function Interacting(ps: seq<Particle>, k: nat, ns: seq<nat>): (r: seq<nat>)
    requires k < |ps| && Below(ns, |ps|)
  {
    if ns == [] then []
    else
      var n := ns[|ns| - 1];
      Interacting(ps, k, ns[..|ns| - 1]) + (if Interacts(ps[k], ps[n]) then [n] else [])
  }

  /** A neighbour is kept by `Interacting` as often as it occurs, when it
      interacts with particle `k`, and is dropped otherwise. */
  lemma {:induction false} InteractingCount(ps: seq<Particle>, k: nat, ns: seq<nat>, n: nat)
    requires k < |ps| && Below(ns, |ps|)
    ensures multiset(Interacting(ps, k, ns))[n] == if n < |ps| && Interacts(ps[k], ps[n]) then multiset(ns)[n] else 0
  {
    if ns != [] {
      var ns': seq<nat> := ns[..|ns| - 1];
      var m: nat := ns[|ns| - 1];
      InteractingCount(ps, k, ns', n);
      var last: seq<nat> := [m];
      assert ns == ns' + last;
      assert multiset(ns)[n] == multiset(ns')[n] + multiset(last)[n];
      var tail: seq<nat> := if Interacts(ps[k], ps[m]) then [m] else [];
      assert multiset(Interacting(ps, k, ns))[n] == multiset(Interacting(ps, k, ns'))[n] + multiset(tail)[n];
    }
  }

  lemma {:induction false} InteractingBelow(ps: seq<Particle>, k: nat, ns: seq<nat>)
    requires k < |ps| && Below(ns, |ps|)
    ensures Below(Interacting(ps, k, ns), |ps|)
  {
    forall t | 0 <= t < |Interacting(ps, k, ns)|
      ensures Interacting(ps, k, ns)[t] < |ps|
    {
      var n := Interacting(ps, k, ns)[t];
      assert n in multiset(Interacting(ps, k, ns));
      InteractingCount(ps, k, ns, n);
    }
  }

  /** Neighbours that do not interact with particle `k` push it with zero
      force; then the force from `ns` is the force from its interacting
      part. */
  lemma {:induction false} ForceFilter(push: seq<Vec2>, ps: seq<Particle>, k: nat, ns: seq<nat>)
    requires k < |ps| == |push| && Below(ns, |ps|)
    requires forall n :: 0 <= n < |ps| && !Interacts(ps[k], ps[n]) ==> push[n] == Zero()
    ensures Below(Interacting(ps, k, ns), |ps|)
    ensures Force(push, ns) == Force(push, Interacting(ps, k, ns))
  {
    InteractingBelow(ps, k, ns);
    if ns != [] {
      var ns' := ns[..|ns| - 1];
      var n := ns[|ns| - 1];
      ForceFilter(push, ps, k, ns');
      InteractingBelow(ps, k, ns');
      var f := Interacting(ps, k, ns');
      if Interacts(ps[k], ps[n]) {
        assert Interacting(ps, k, ns) == f + [n];
        assert (f + [n])[..|f + [n]| - 1] == f;
      } else {
        assert Interacting(ps, k, ns) == f + [] == f;
        assert push[n] == Zero();
        assert Add(Force(push, ns'), Zero()) == Force(push, ns');
      }
    }
  }

  /** The neighbours the grid visits and all particles agree on which
      particles interact with particle `k`, each counted once. */
  lemma NearCount(ps: seq<Particle>, g: Cells, k: nat, n: nat)
    requires Partitioned(ps, g) && k < |ps|
    ensures Indexed(ps, g) && AllInRange(NeighbourCells(ps[k].i, ps[k].j))
    ensures Below(Visited(g, NeighbourCells(ps[k].i, ps[k].j)), |ps|)
    ensures multiset(Interacting(ps, k, Visited(g, NeighbourCells(ps[k].i, ps[k].j))))[n]
         == multiset(Interacting(ps, k, Indices(|ps|)))[n]
  {
    var i, j := ps[k].i, ps[k].j;
    var cs := NeighbourCells(i, j);
    PartitionedIndexed(ps, g);
    NeighbourCellsInRange(i, j);
    VisitedBelow(g, cs, |ps|);
    InteractingCount(ps, k, Visited(g, cs), n);
    InteractingCount(ps, k, Indices(|ps|), n);
    if n < |ps| && Interacts(ps[k], ps[n]) {
      IndicesCount(|ps|, n);
      VisitedCount(ps, g, cs, n);
      InteractingNeighbourCells(ps[k], ps[n]);
      NeighbourCellsCount(i, j, CellOf(ps[n].pos));
    }
  }

  /** The theorem behind the grid: once `Partition` has run, the neighbours
      `Repulsion` visits around particle `k` push it exactly as hard as
      all particles together do in `_LegacyRepulsion`. */
  lemma GridMatchesLegacy(sqrt: real -> real, ps: seq<Particle>, g: Cells, k: nat)
    requires Partitioned(ps, g) && k < |ps|
    ensures Indexed(ps, g)
    ensures GridForce(sqrt, ps, g, k) == LegacyForce(sqrt, ps, k)
  {
    PartitionedIndexed(ps, g);
    var cs := NeighbourCells(ps[k].i, ps[k].j);
    NeighbourCellsInRange(ps[k].i, ps[k].j);
    VisitedBelow(g, cs, |ps|);
    var push := Pushes(sqrt, ps, k);
    assert GridForce(sqrt, ps, g, k) == Force(Pushes(sqrt, ps, k), Visited(g, cs));
    var near := Visited(g, cs);
    var all := Indices(|ps|);
    ForceFilter(push, ps, k, near);
    ForceFilter(push, ps, k, all);
    forall n: nat
      ensures multiset(Interacting(ps, k, near))[n] == multiset(Interacting(ps, k, all))[n]
    {
      NearCount(ps, g, k, n);
    }
    assert multiset(Interacting(ps, k, near)) == multiset(Interacting(ps, k, all));
    ForcePermutation(push, Interacting(ps, k, near), Interacting(ps, k, all));
  }

  /** A particle with no other particle within the threshold feels no force. */
  lemma IsolatedParticle(sqrt: real -> real, ps: seq<Particle>, k: nat)
    requires k < |ps|
    requires forall n :: 0 <= n < |ps| ==> !Interacts(ps[k], ps[n])
    ensures LegacyForce(sqrt, ps, k) == Zero()
  {
    var all := Indices(|ps|);
    ForceFilter(Pushes(sqrt, ps, k), ps, k, all);
    forall n: nat
      ensures multiset(Interacting(ps, k, all))[n] == 0
    {
      InteractingCount(ps, k, all, n);
    }
    assert multiset(Interacting(ps, k, all)) == multiset{};
    assert |Interacting(ps, k, all)| == |multiset(Interacting(ps, k, all))| == 0;
  }
}
