# grafo: a verified model of the matrix graph engine

`grafo.c` keeps a graph as an ordered list of vertex names plus a row-major
n×n `long int` adjacency matrix, where 0 means "no edge", and answers every
query by matrix arithmetic:

- `encontra_vertice` looks a vertex up by name.
- `obter_matriz_adjacencia` builds the matrix from the edges. An edge stores 1 in
  an unweighted graph. In a weighted graph it stores its `peso` attribute, or 0
  when that is missing. In an undirected graph it also stores the mirrored cell.
- `multiplicar_matriz_quadrada` and `somar_matriz_quadrada` multiply and add
  square matrices.
- `conexo` / `fortemente_conexo` test whether every cell of I + M + M² + … is
  non-zero.
- `gerar_matriz_distancias` records, for each cell, the first power of M that is
  non-zero there. `diametro` and `distancias` are built on that matrix.

The model keeps the source's form:

- The routines that fill and update buffers are Dafny methods over `array<int>`,
  with loop invariants.
- Each method is proved against a pure specification function on sequences:
  `MatMul`, `MatAdd`, `MatPow`, `PowerSum`, `ReachMatrix`, `Distances`, `Build`.
- Lemmas prove what those functions mean:
  - cell (i, j) of a product is a dot product;
  - the built matrix holds the value of the last edge written to each cell, and
    is symmetric when the graph is undirected;
  - for a matrix with no negative cell, M^k(i, j) is non-zero exactly when a walk
    of k edges leads from i to j;
  - so the connectivity test is a reachability test, and a distance cell is the
    length of a shortest walk;
  - the product is associative, so every power of a symmetric matrix is
    symmetric, and an undirected graph's distance graph is undirected again.

Modules:

| module | file | contents |
|---|---|---|
| `Wrappers` | wrappers.dfy | `Option` |
| `Matrix` | matrix.dfy | row-major layout, `Identity`, `MatAdd`, `MatMul`, `MatPow`; the methods `Multiply` and `AddInto` |
| `Walks` | walks.dfy | `HasWalk`, and a power of a non-negative matrix is non-zero at a cell exactly where a walk of that length exists (it detects walks; a weighted cell is a sum of weight products, not a number of walks) |
| `Vertices` | vertices.dfy | `IndexOf` and the scan `FindVertex` |
| `Adjacency` | adjacency.dfy | `Edge`, the specification `Build`, last-write-wins and symmetry lemmas, the method `BuildAdjacency` |
| `Symmetry` | symmetry.dfy | `Symmetric`, associativity of `MatMul`, M commuting with its powers, powers of a symmetric matrix |
| `Reach` | reach.dfy | `PowerSum`, `ReachMatrix`, `Connected`, `LeastPower`, `Distances` and their meaning in walks |
| `Grafo` | grafo.dfy | `class Graph` with the query methods, their buffer phases, and `ReadGraph` |

Graphviz input is abstracted:

- The vertex names arrive as a `seq<string>`.
- The edges arrive as a sequence of `Edge(tail, head, weight)`, in the order the
  source visits them.
- `weight` is `None` when the `peso` attribute is absent or empty. Otherwise it
  is `Some` of the value `atol` would give.
- Whether the graph is directed and whether it is weighted are parameters.

`infinito` (`LONG_MAX`) is the constant `Reach.Infinity`. A vertex count is an
`unsigned int`, so a graph has fewer than 2^32 vertices (`Reach.VertexLimit`).
Every finite distance is then below n, so no finite distance can equal the
sentinel.

Where the source's comments and its code differ, the model follows the code:

- **The sum in `conexo` runs to M^n.** The comments in grafo.c:436 and
  grafo.c:468-470 describe the sum as M^1 + … + M^(n-1). The loop at
  grafo.c:454-457 adds n-1 further powers to the initial copy of M, so the sum
  runs to M^n. `Reach.ReachMatrix` is therefore I + M + … + M^n, and the walk
  statements for connectivity say "at most n edges".
- **The distance buffer does not start as a copy of M.** The comment at
  grafo.c:244 says it does. The code fills it with `infinito` (grafo.c:247), and
  the model does the same.
- **The distance graph joins unreachable pairs too.** The header (grafo.h:95-104)
  promises the arc (u, v) only when v is reachable from u, weighted by the hop
  distance. The code stores `infinito` for every unreachable pair (grafo.c:247,
  grafo.c:547), and `infinito` is non-zero, so under the matrix's "0 means no
  edge" convention it is an arc; `escreve_grafo` prints it with `peso=oo`
  (grafo.c:384-391). Only the diagonal holds 0. `Grafo.Graph.DistanceGraph`
  states this, and `Reach.DistanceArc` ties the Infinity cells to the missing
  walks.

## Model

| member | source | states |
|---|---|---|
| Vertices.IndexOf | grafo.c:37-49 | the result is -1 exactly when no vertex has the name; otherwise it is the first position holding the name |
| Vertices.FindVertex | grafo.c:37-49 | the early-return scan returns exactly `IndexOf` |
| Adjacency.Fill | grafo.c:98-125 | processing the edges in order succeeds exactly when every edge's endpoints are vertices, and then yields n·n cells |
| Adjacency.Build | grafo.c:78-129 | no matrix for an empty vertex list or when some edge has an unknown endpoint; otherwise an n·n matrix |
| Adjacency.BuildFails | grafo.c:104-108 | one edge with an unknown endpoint makes the whole build fail |
| Adjacency.LastWriterIsLast | grafo.c:98-125 | `LastWriter` is the last edge that writes a cell, and is -1 exactly when no edge writes it |
| Adjacency.WriteCell | grafo.c:110-122 | storing an edge changes its cell and, when undirected, the mirrored cell, and no other cell |
| Adjacency.FillCell | grafo.c:91-125 | each cell of the matrix holds 0 when no edge writes it, and otherwise the value of the last edge that writes it |
| Adjacency.BuildCell | grafo.c:91-125 | the same for the built matrix, which has n·n cells |
| Adjacency.UnweightedCell | grafo.c:116-117 | in an unweighted graph a cell is 1 exactly when some edge writes it, and 0 exactly when none does |
| Adjacency.BuildSymmetric | grafo.c:119-122 | in an undirected graph the built matrix is symmetric |
| Adjacency.StoreEdge | grafo.c:110-122 | the array after one edge is the specification `Write` of the old array: the weight or 0 when weighted, 1 otherwise, mirrored when undirected |
| Adjacency.BuildAdjacency | grafo.c:78-129 | returns null exactly when `Build` fails, and otherwise a fresh array holding `Build`'s matrix |
| Matrix.Zero | grafo.c:93-95 | definition (the reference `Build` starts from): n·n cells, all 0 |
| Matrix.Identity | grafo.c:461-463 | 1 on the diagonal and 0 elsewhere |
| Matrix.MatAdd | grafo.c:159-167 | definition (the reference `AddInto` is proved against): each cell is the sum of the two cells at the same index |
| Matrix.MatMulAt | grafo.c:140-150 | cell (i, j) of the product is Σ_k a(i, k)·b(k, j) |
| Matrix.IdentityTimes | grafo.c:245-246 | the identity is a left unit of the product |
| Matrix.PowerOne | grafo.c:245-246 | M^1 = M, so a copy of M is the first power |
| Matrix.Multiply | grafo.c:131-157 | returns a fresh array holding the product of the arguments; the arguments are unchanged |
| Matrix.AddInto | grafo.c:159-167 | every cell becomes its old value plus the other matrix's old cell; the other matrix is unchanged unless it is the same array |
| Matrix.DiagonalStep | grafo.c:251-253 | writing the next diagonal cell extends the written prefix of the diagonal by one row and changes nothing else |
| Matrix.DiagonalFull | grafo.c:461-463 | with every row written, diagonal cells hold the written value and the others the background; 1 over 0 is the identity |
| Symmetry.TimesIdentity | grafo.c:140-150 | the identity is a right unit of the product |
| Symmetry.MulAssociative | grafo.c:140-150 | the product is associative: (a·b)·c = a·(b·c) |
| Symmetry.PowersCommute | grafo.c:454-457 | M·M^k = M^(k+1), so multiplying the power buffer by M on either side gives the next power |
| Symmetry.DotSwap | grafo.c:147-149 | for symmetric a and b, cell (i, j) of a·b equals cell (j, i) of b·a |
| Symmetry.PowerSymmetric | grafo.c:257-265 | every power of a symmetric matrix is symmetric |
| Walks.DotNonNegative | grafo.c:147-149 | a dot product of non-negative matrices is non-negative, and non-zero exactly when some term is |
| Walks.PowerNonNegative | grafo.c:454-457 | powers of a non-negative matrix are non-negative |
| Walks.PowerDetectsWalks | grafo.c:468-470 | for a non-negative matrix, M^k(i, j) is non-zero exactly when a walk of k edges leads from i to j |
| Reach.PowerSumCell | grafo.c:454-457 | for a non-negative matrix, a cell of M^1+…+M^k is non-negative, and non-zero exactly when a walk of 1..k edges exists |
| Reach.PowerSumOne | grafo.c:447-450 | a copy of M is the sum of the first power |
| Reach.ReachMatrixCell | grafo.c:454-463 | a reachability cell is the identity's cell plus the cell of M^1+…+M^n |
| Reach.WalkWithinSplit | grafo.c:461-463 | a walk of at most b edges is the empty walk from a vertex to itself or one of 1..b edges |
| Reach.ReachCell | grafo.c:468-483 | for a non-negative matrix, a reachability cell is non-zero exactly when a walk of at most n edges exists |
| Reach.ConnectedCells | grafo.c:471-483 | the criterion holds exactly when no cell (i, j) of the reachability matrix is zero |
| Reach.ConnectedReaches | grafo.c:468-483 | when the criterion holds, every ordered pair is joined by a walk of at most n edges |
| Reach.DisconnectedPair | grafo.c:468-483 | when it fails, some ordered pair is joined by no walk of at most n edges |
| Reach.ConnectedIffWalks | grafo.c:468-483 | for a non-negative matrix, the criterion holds exactly when every vertex reaches every vertex by a walk of at most n edges |
| Reach.LeastPower | grafo.c:257-265 | the least exponent in a range whose power is non-zero at the cell, or Infinity when there is none |
| Reach.LeastPowerStep | grafo.c:258-262 | widening the range by one exponent keeps an earlier hit and otherwise tries the new power |
| Reach.DistanceStart | grafo.c:244-253 | before any power is scanned, a cell's distance is 0 on the diagonal and Infinity elsewhere |
| Reach.ScanStep | grafo.c:258-262 | the conditional store of one scan turns the distance over powers below k into the distance over powers up to k |
| Reach.Distances | grafo.c:219-271 | n·n cells, each Infinity or in 0..n-1 |
| Reach.DistanceCell | grafo.c:244-270 | the diagonal is 0; an off-diagonal cell is the least k in 1..n-1 with M^k non-zero there, or Infinity when there is none |
| Reach.DistanceIsShortestWalk | grafo.c:257-265 | for a non-negative matrix, a cell is Infinity exactly when no walk of at most n-1 edges exists, and otherwise the length of a shortest walk |
| Reach.DistanceArc | grafo.c:244-265 | a distance cell is 0 exactly on the diagonal; for a non-negative matrix an off-diagonal cell is Infinity exactly when no walk of at most n-1 edges exists |
| Reach.LeastPowerSame | grafo.c:257-265 | two cells on which every scanned power agrees get the same distance |
| Reach.PowersAgree | grafo.c:454-457 | for a symmetric matrix every power agrees at (i, j) and (j, i) |
| Reach.DistanceSymmetricCell | grafo.c:244-265 | for a symmetric matrix, distance cells (i, j) and (j, i) are equal |
| Reach.DistancesSymmetric | grafo.c:219-271 | the distance matrix of a symmetric adjacency matrix is symmetric |
| Grafo.Graph.constructor | grafo.c:19-26 | the graph holds the given name, flags, vertex names and matrix, and is valid: an undirected graph's matrix is symmetric |
| Grafo.StartDistances | grafo.c:244-253 | the power buffer is a copy of M; the distance buffer is 0 on the diagonal and Infinity elsewhere |
| Grafo.ScanPower | grafo.c:258-263 | one scan of power k turns every cell's distance over powers below k into the distance over powers up to k |
| Grafo.Graph.DistanceMatrix | grafo.c:219-271 | returns a fresh array holding `Distances` of the adjacency matrix |
| Grafo.StartSum | grafo.c:446-450 | the power and sum buffers are fresh copies of M |
| Grafo.SumPowers | grafo.c:446-458 | after the n-1 rounds the sum buffer holds M^1 + … + M^n |
| Grafo.AddIdentity | grafo.c:460-463 | adding 1 to each diagonal cell adds the identity |
| Grafo.HasZeroCell | grafo.c:471-483 | the row-by-row scan reports a zero exactly when some cell is zero |
| Grafo.Graph.IsConnected | grafo.c:421-484 | returns 1 when the criterion holds and 0 when it does not |
| Grafo.Graph.IsStronglyConnected | grafo.c:486-492 | returns the same answer as the connectivity test |
| Grafo.Graph.Diameter | grafo.c:494-518 | returns a value in 0..n-1 that bounds every finite distance and is itself a distance |
| Grafo.Graph.DistanceGraph | grafo.c:520-551 | a new valid weighted graph with the same name, direction and vertices, whose matrix is the distance matrix; its zero cells are exactly the diagonal, and it is symmetric when the graph is undirected |
| Grafo.ReadGraph | grafo.c:273-317 | no graph exactly when `Build` fails; otherwise a graph with the given name, flags and vertices whose matrix is `Build`'s, symmetric when undirected |

## Left out

- Graphviz parsing and library calls are not modelled: `agread`, `agattr`, `agget`,
  `agnameof`, the node and edge iterators, `obter_vertices` and the I/O part of
  `le_grafo` (grafo.c:52-75, 273-317). They are replaced by the parameters of
  `ReadGraph`, and the parse of the `peso` attribute by an `Option<int>`.
- Edge order: the source visits each edge once from each endpoint. The model
  takes the visiting order as the given edge sequence; a caller may list an edge
  twice.
- `escreve_grafo` (text output) is not modelled.
- The accessors `nome`, `n_vertices` and `direcionado` return a field of the
  graph, or a default for a null graph. The model has no null graph, and the
  fields are read directly.
- `destroi_grafo` is not modelled. Nor are `malloc`/`free`/`strdup` or any
  allocation failure:
  - `conexo` returning -1;
  - `gerar_matriz_distancias` returning NULL;
  - `diametro` returning 0 without a matrix;
  - `multiplicar_matriz_quadrada` leaving its argument unchanged;
  - `distancias` leaving fields unset.
- Memory: vertex names are values, so the deep copies `distancias` makes are
  plain sharing.
- Diagnostics written to `stderr` are not modelled.
- `_obter_distancia` and `obter_distancia` (grafo.c:169-217) are not modelled.
  No public function calls them, and `min` is read before it is ever set, so
  they have no defined result.
- `rafaelm/grafo.c` (an older draft), `teste.c` (a printing driver) and `grafo.h`
  (declarations) are not part of this model.
- `long int` overflow is not modelled: cells are unbounded integers. Entries of
  M^k grow with k, and in the source they can overflow.
- The `unsigned int` product `n_vertices * n_vertices` wraps for n ≥ 65536. The
  model computes n·n exactly.
- The builder indexes its matrix with the signed `int` expression
  `cauda_indice * (int) n_vertices + cabeca_indice` (grafo.c:114, 116, 121).
  For n ≥ 46341 that overflows `int` (46340·46341 + 46340 > 2^31 - 1), which is
  undefined behaviour and in practice a store outside the matrix. The model's
  index i·n + j never overflows, and `Reach.VertexLimit` (2^32) does not reflect
  this smaller bound.
- `Reach.Infinity` is 2^63 - 1, the value of `LONG_MAX` (grafo.c:34) when `long`
  is 64 bits wide; a platform with a 32-bit `long` is not modelled.
- A graph with no vertices is not modelled. `le_grafo` never produces one, so
  `Graph.Valid` requires at least one vertex. The source's `n_vertices - 1`
  would underflow there.
- Reach.ConnectedIffWalks: this and the other walk lemmas are stated only for
  matrices with no negative cell. With negative weights, terms of a product can
  cancel, and the source's test then no longer follows the walks. The routines
  themselves are modelled for every matrix.
- Reach.DistanceIsShortestWalk: the shortest-walk reading is proved among walks
  of at most n-1 edges, and the connectivity reading among walks of at most n
  edges. The pigeonhole step is not part of this model: a longer walk repeats a
  vertex and can be shortened.
- Distances are hop counts in weighted graphs too, as in the source. In a
  weighted graph an edge whose weight is missing or 0 stores 0, so it counts as
  no edge.
