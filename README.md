# Cloth particle grid

A model of the initial particle layout of a GPU cloth simulation.
Before the simulation starts, `ClothApp::new` (src/app.rs:15) lays the cloth out as a flat
vector of particles, one per node of a `rows` x `cols` grid. Each particle
holds a position and a velocity, each a three-component vector. `generate_cloth`
walks the grid row by row and, within a row, column by column, and pushes one
particle per node. The node `(row, col)` therefore sits at index `row * cols + col`.
Its position is `[row * spacing, col * spacing, 0]`: x comes from the row and y
from the column. Its velocity is zero.

The model lives in `cloth_geometry.dfy`, module `ClothGeometry`:

- `Vec3` is a sequence of three reals, standing for `[f32; 3]`.
- `Particle` is a datatype holding a position and a velocity.
- `NewParticle` is `Particle::new`.
- `Grid(rows, cols, spacing)` is the reference definition of the layout: the
  rows of the grid, each row its nodes in column order, concatenated in row
  order.
- `GenerateCloth` is `generate_cloth`. It is a method with the source's two
  nested loops, appending to a sequence. It is proved to return `Grid`, and
  the lemmas beside `Grid` prove the layout's properties.

## Model

| member | source | states |
|---|---|---|
| ClothGeometry.NewParticle | src/cloth/geometry.rs:11-16 | the position is `[x, y, z]` and the velocity is `[vx, vy, vz]`, each argument stored unchanged in its own slot, in argument order |
| ClothGeometry.NewParticleOfComponents | src/cloth/geometry.rs:11-16 | every particle is the one the constructor builds from its own six components, so the constructor loses no information and adds none |
| ClothGeometry.GenerateCloth | src/cloth/geometry.rs:19-34 | the returned vector is exactly the row-major grid `Grid(rows, cols, spacing)`; it has `rows * cols` particles; node `(row, col)` is at index `row * cols + col` and is the particle at `[row * spacing, col * spacing, 0]` with zero velocity; its loop invariant is that after each push the vector is the prefix of the grid up to the next node |
| ClothGeometry.GridLength | src/cloth/geometry.rs:21-31 | the grid holds exactly `rows * cols` particles |
| ClothGeometry.GridEmpty | src/cloth/geometry.rs:20-33 | the grid is empty if and only if `rows == 0` or `cols == 0` |
| ClothGeometry.GridAt | src/cloth/geometry.rs:21-30 | for `row < rows` and `col < cols`, index `row * cols + col` is in range and holds the node `(row, col)`: position `[row * spacing, col * spacing, 0]`, velocity zero |
| ClothGeometry.GridAtIndex | src/cloth/geometry.rs:21-30 | conversely, every index `i` in range holds the node in row `i / cols` and column `i % cols`, and that row and column are in bounds |
| ClothGeometry.GridPrefix | src/cloth/geometry.rs:20-31 | the particles pushed for rows `0 .. row-1` and the first `col` columns of row `row` are exactly the first `row * cols + col` entries of the whole grid, so each push appends the next node and leaves earlier entries unchanged |
| ClothGeometry.GridFlatAtRest | src/cloth/geometry.rs:26-29 | every particle of the grid has z-coordinate 0 and velocity `[0, 0, 0]` |
| ClothGeometry.IndexOrder | src/cloth/geometry.rs:21-23 | row-major order: node `(r1, c1)` gets a smaller index than node `(r2, c2)` if and only if `r1 < r2`, or `r1 == r2` and `c1 < c2` |
| ClothGeometry.NodesOrdered | src/cloth/geometry.rs:23-25 | with a positive spacing, a node that comes earlier in row-major order has a smaller x, or the same x and a smaller y |
| ClothGeometry.RowMajorPositions | src/cloth/geometry.rs:21-25 | with a positive spacing, for indices `i < j` of the grid, particle `i` has a smaller x than particle `j`, or the same x and a smaller y: all of row `r` precedes row `r + 1`, and the column increases within a row |

## Left out

- Floating point: coordinates are reals, and `row as f32 * spacing` is the exact product. The model does not capture the rounding of the `usize` to `f32` conversion or of the `f32` product.
- Machine integers: `rows`, `cols` and indices are unbounded naturals. A `rows * cols` beyond what a `Vec` can hold makes the source abort on allocation; the model does not capture this.
- The `bytemuck` `Pod`/`Zeroable` derivations and `cast_slice` in src/cloth/geometry.rs:1-4 and src/app.rs:19 only reinterpret the particle vector as bytes for the GPU. The 24-byte memory layout is not modelled.
- src/app.rs creates the GPU buffer, the shader module, the compute pipeline and the bind group, and encodes and submits the compute pass. These are all calls into `wgpu`. Its only arithmetic is the workgroup count `(particle_count + 63) / 64` at src/app.rs:65, which is dispatch plumbing. It calls `generate_cloth(10, 10, 0.1)`, which the model covers as an instance of `GenerateCloth`.
- src/main.rs sets up the window and the runner, and the `update` and `render` methods in src/runner.rs only print a line. They are I/O with no logic.
- The compute shader `compute.wgsl`, loaded at src/app.rs:25 and dispatched at src/app.rs:65, is not modelled.
- `generate_cloth` checks nothing. It accepts any `rows`, `cols` and `spacing`, including grids smaller than 2 x 2, no rows or no columns (it then returns an empty vector), and a zero or negative spacing. The model follows the code: `GenerateCloth` has no precondition, and `GridEmpty` states the empty case.
