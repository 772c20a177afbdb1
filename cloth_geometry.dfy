/** The cloth's initial particle layout: a flat, row-major vector of point
    masses, one per node of a `rows` x `cols` grid, lying in the z = 0 plane
    and at rest. Coordinates are mathematical reals; `row as f32 * spacing`
    is modelled as the exact product. */
module ClothGeometry {

  /** A three-component vector, the `[f32; 3]` of a particle. */
  type Vec3 = v: seq<real> | |v| == 3 witness [0.0, 0.0, 0.0]

  /** The zero vector: the velocity of every freshly generated particle. */
  const Zero: Vec3 := [0.0, 0.0, 0.0]

  /** One point mass of the cloth. */
  datatype Particle = Particle(position: Vec3, velocity: Vec3)

  /** `Particle::new`: the six arguments become position and velocity,
      unchanged and in argument order. */
  function NewParticle(x: real, y: real, z: real, vx: real, vy: real, vz: real): (p: Particle)
    ensures p.position[0] == x && p.position[1] == y && p.position[2] == z
    ensures p.velocity[0] == vx && p.velocity[1] == vy && p.velocity[2] == vz
  {
    Particle([x, y, z], [vx, vy, vz])
  }

  /** Every particle is the one `NewParticle` builds from its own six
      components, so the constructor loses nothing and adds nothing. */
  lemma NewParticleOfComponents(p: Particle)
    ensures NewParticle(p.position[0], p.position[1], p.position[2],
                        p.velocity[0], p.velocity[1], p.velocity[2]) == p
  {
    assert p.position == [p.position[0], p.position[1], p.position[2]];
    assert p.velocity == [p.velocity[0], p.velocity[1], p.velocity[2]];
  }

  /** The particle placed at grid node (row, col): x from the row, y from
      the column, z = 0, velocity zero. */
  function Node(row: nat, col: nat, spacing: real): Particle
  {
    NewParticle(row as real * spacing, col as real * spacing, 0.0, 0.0, 0.0, 0.0)
  }

  /** Position of node (row, col) in a flat row-major vector `cols` wide. */
  function Index(row: nat, col: nat, cols: nat): nat
  {
    row * cols + col
  }

  /** The particles of grid row `row`, in column order. */
  function Row(row: nat, cols: nat, spacing: real): seq<Particle>
  {
    seq(cols, col requires 0 <= col => Node(row, col, spacing))
  }

  /** Reference definition of the layout: the first `rows` rows of the grid,
      concatenated in row order. */
  function Grid(rows: nat, cols: nat, spacing: real): seq<Particle>
  {
    if rows == 0 then [] else Grid(rows - 1, cols, spacing) + Row(rows - 1, cols, spacing)
  }

  /** Multiplication distributes over addition. */
  lemma MulDistrib(a: int, b: int, c: int)
    ensures (a + b) * c == a * c + b * c
  {
  }

  /** Multiplying by a natural number keeps the order of naturals. */
  lemma MulMonotone(a: nat, b: nat, c: nat)
    requires a <= b
    ensures a * c <= b * c
  {
    MulDistrib(a, b - a, c);
    assert (b - a) * c >= 0;
  }

  /** Row `row` starts where rows 0 .. row-1 end: `row * cols` nodes precede it. */
  lemma RowStart(row: nat, rows: nat, cols: nat)
    requires row < rows
    ensures Index(row, cols, cols) == (row + 1) * cols <= rows * cols
  {
    MulDistrib(row, 1, cols);
    MulMonotone(row + 1, rows, cols);
  }

  /** Every in-bounds node has an index inside the flat vector. */
  lemma IndexInBounds(row: nat, col: nat, rows: nat, cols: nat)
    requires row < rows && col < cols
    ensures Index(row, col, cols) < rows * cols
  {
    RowStart(row, rows, cols);
  }

  /** The grid holds exactly `rows * cols` particles. */
  lemma {:induction false} GridLength(rows: nat, cols: nat, spacing: real)
    ensures |Grid(rows, cols, spacing)| == rows * cols
  {
    if rows > 0 {
      GridLength(rows - 1, cols, spacing);
      assert rows * cols == (rows - 1) * cols + cols;
    }
  }

  /** The grid is empty exactly when it has no rows or no columns. */
  lemma GridEmpty(rows: nat, cols: nat, spacing: real)
    ensures Grid(rows, cols, spacing) == [] <==> rows == 0 || cols == 0
  {
    GridLength(rows, cols, spacing);
    if rows > 0 && cols > 0 {
      IndexInBounds(0, 0, rows, cols);
    }
  }

  /** The node (row, col) sits at index `row * cols + col`. */
  lemma {:induction false} GridAt(rows: nat, cols: nat, spacing: real, row: nat, col: nat)
    requires row < rows && col < cols
    ensures Index(row, col, cols) < |Grid(rows, cols, spacing)|
    ensures Grid(rows, cols, spacing)[Index(row, col, cols)] == Node(row, col, spacing)
  {
    GridLength(rows, cols, spacing);
    GridLength(rows - 1, cols, spacing);
    IndexInBounds(row, col, rows, cols);
    if row < rows - 1 {
      GridAt(rows - 1, cols, spacing, row, col);
    }
  }

  /** After visiting the nodes of rows 0 .. row-1 and the first `col` nodes
      of row `row`, what has been laid out is exactly the prefix of the
      whole grid up to index `row * cols + col`. */
  lemma {:induction false} GridPrefix(rows: nat, cols: nat, spacing: real, row: nat, col: nat)
    requires row < rows && col <= cols
    ensures Index(row, col, cols) <= |Grid(rows, cols, spacing)|
    ensures Grid(rows, cols, spacing)[..Index(row, col, cols)]
            == Grid(row, cols, spacing) + Row(row, cols, spacing)[..col]
  {
    var front, last := Grid(rows - 1, cols, spacing), Row(rows - 1, cols, spacing);
    var k := Index(row, col, cols);
    GridLength(rows, cols, spacing);
    GridLength(rows - 1, cols, spacing);
    GridLength(row, cols, spacing);
    RowStart(row, rows, cols);
    if row == rows - 1 {
      assert (front + last)[..k] == front + last[..col];
    } else {
      RowStart(row, rows - 1, cols);
      GridPrefix(rows - 1, cols, spacing, row, col);
      assert (front + last)[..k] == front[..k];
    }
  }

  /** Integer division by the row width recovers (row, col) from an index. */
  lemma DivMod(i: nat, cols: nat)
    requires cols > 0
    ensures i % cols < cols && Index(i / cols, i % cols, cols) == i
  {
  }

  /** An index below `rows * cols` splits into an in-bounds row and column. */
  lemma IndexSplit(i: nat, rows: nat, cols: nat)
    requires i < rows * cols
    ensures cols > 0 && i / cols < rows && i % cols < cols
    ensures Index(i / cols, i % cols, cols) == i
  {
    if cols == 0 {
      assert false;
    }
    DivMod(i, cols);
    if i / cols >= rows {
      MulMonotone(rows, i / cols, cols);
      assert false;
    }
  }

  /** Conversely, the particle at index `i` is the node in row `i / cols`,
      column `i % cols`. */
  lemma GridAtIndex(rows: nat, cols: nat, spacing: real, i: nat)
    requires i < |Grid(rows, cols, spacing)|
    ensures cols > 0 && i / cols < rows && i % cols < cols
    ensures Grid(rows, cols, spacing)[i] == Node(i / cols, i % cols, spacing)
  {
    GridLength(rows, cols, spacing);
    IndexSplit(i, rows, cols);
    GridAt(rows, cols, spacing, i / cols, i % cols);
  }

  /** The grid node behind index `i`, as a (row, col) pair. */
  lemma GridCoordinates(rows: nat, cols: nat, spacing: real, i: nat) returns (row: nat, col: nat)
    requires i < |Grid(rows, cols, spacing)|
    ensures row < rows && col < cols && Index(row, col, cols) == i
    ensures Grid(rows, cols, spacing)[i] == Node(row, col, spacing)
  {
    GridAtIndex(rows, cols, spacing, i);
    DivMod(i, cols);
    row, col := i / cols, i % cols;
  }

  /** Every particle of the grid lies in the z = 0 plane and is at rest. */
  lemma {:induction false} GridFlatAtRest(rows: nat, cols: nat, spacing: real)
    ensures forall p :: p in Grid(rows, cols, spacing) ==> p.position[2] == 0.0 && p.velocity == Zero
  {
    if rows > 0 {
      GridFlatAtRest(rows - 1, cols, spacing);
    }
  }

  /** Row-major order of indices: node (r1, c1) comes before node (r2, c2)
      exactly when it is in an earlier row, or in the same row and an
      earlier column. */
  lemma IndexOrder(cols: nat, r1: nat, c1: nat, r2: nat, c2: nat)
    requires c1 < cols && c2 < cols
    ensures Index(r1, c1, cols) < Index(r2, c2, cols) <==> r1 < r2 || (r1 == r2 && c1 < c2)
  {
    if r1 < r2 {
      RowStart(r1, r2, cols);
    } else if r2 < r1 {
      RowStart(r2, r1, cols);
    }
  }

  /** Scaling grid coordinates by a positive spacing keeps their order. */
  lemma ScaleMonotone(a: nat, b: nat, spacing: real)
    requires a < b && spacing > 0.0
    ensures a as real * spacing < b as real * spacing
  {
    assert b as real * spacing == a as real * spacing + (b - a) as real * spacing;
  }

  /** Nodes in row-major order have positions ordered by x, then by y. */
  lemma NodesOrdered(r1: nat, c1: nat, r2: nat, c2: nat, spacing: real)
    requires spacing > 0.0
    requires r1 < r2 || (r1 == r2 && c1 < c2)
    ensures var p, q := Node(r1, c1, spacing), Node(r2, c2, spacing);
            p.position[0] < q.position[0] ||
            (p.position[0] == q.position[0] && p.position[1] < q.position[1])
  {
    if r1 < r2 {
      ScaleMonotone(r1, r2, spacing);
    } else {
      ScaleMonotone(c1, c2, spacing);
    }
  }

  /** With a positive spacing, the particles of the vector are ordered by
      x (the row) first and by y (the column) within a row. */
  lemma RowMajorPositions(rows: nat, cols: nat, spacing: real, i: nat, j: nat)
    requires spacing > 0.0
    requires i < j < |Grid(rows, cols, spacing)|
    ensures var g := Grid(rows, cols, spacing);
            g[i].position[0] < g[j].position[0] ||
            (g[i].position[0] == g[j].position[0] && g[i].position[1] < g[j].position[1])
  {
    var r1, c1 := GridCoordinates(rows, cols, spacing, i);
    var r2, c2 := GridCoordinates(rows, cols, spacing, j);
    IndexOrder(cols, r1, c1, r2, c2);
    NodesOrdered(r1, c1, r2, c2, spacing);
  }

  /** `generate_cloth`: for each row, for each column, push the particle of
      that node. The vector built so far is always the prefix of the
      row-major grid holding the nodes already visited. */
  method GenerateCloth(rows: nat, cols: nat, spacing: real) returns (particles: seq<Particle>)
    ensures particles == Grid(rows, cols, spacing)
    ensures |particles| == rows * cols
    ensures forall row: nat, col: nat | row < rows && col < cols ::
              Index(row, col, cols) < |particles| && particles[Index(row, col, cols)] == Node(row, col, spacing)
  {
    particles := [];
    for row := 0 to rows
      invariant particles == Grid(row, cols, spacing)
    {
      GridPrefix(rows, cols, spacing, row, 0);
      for col := 0 to cols
        invariant particles == Grid(row, cols, spacing) + Row(row, cols, spacing)[..col]
        invariant Index(row, col, cols) <= |Grid(rows, cols, spacing)|
        invariant particles == Grid(rows, cols, spacing)[..Index(row, col, cols)]
      {
        assert Row(row, cols, spacing)[..col + 1] == Row(row, cols, spacing)[..col] + [Node(row, col, spacing)];
        particles := particles + [NewParticle(row as real * spacing, col as real * spacing, 0.0, 0.0, 0.0, 0.0)];
        GridPrefix(rows, cols, spacing, row, col + 1);
      }
      assert Row(row, cols, spacing)[..cols] == Row(row, cols, spacing);
    }
    GridLength(rows, cols, spacing);
    forall row: nat, col: nat | row < rows && col < cols
      ensures Index(row, col, cols) < |particles| && particles[Index(row, col, cols)] == Node(row, col, spacing)
    {
      GridAt(rows, cols, spacing, row, col);
    }
  }
}
