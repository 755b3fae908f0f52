# OS202 parallel-programming exercises, modelled in Dafny

This project models the computational core of the OS202 course repository
and proves properties of it. The core has four parts.

- **Colorization** (`Exam/colorize2.py`):
  - the padded intensity field (`create_field`);
  - the local 3x3 means and variances and the neighbour weight `compute_wrs`;
  - the assembly of the sparse matrix in compressed-sparse-row form, one pixel row at a time (`assembly_row`, `compute_matrix`);
  - the search for pixels whose colour the user fixed;
  - the Dirichlet condition applied to the matrix;
  - the row-block partition behind the distributed matrix-vector product.
- **Game of Life** (`TravauxDiriges/TD_numero_4`): the three `Grille` classes.
  - Their constructors place a pattern on a toroidal grid.
  - Their `compute_next_iteration` computes the next generation into a new buffer, under the B3/S23 rule. In `lifegame.py` it also returns the list of the cells that changed.
- **Bucket sort** (`TravauxDiriges/TD_numero_3`):
  - the in-place insertion sort;
  - the split into buckets by value range;
  - the pipeline that sorts every bucket and concatenates the results in rank order.
- **Ant colony** (`Projet`):
  - the pheromone map (`Pheromon`: construction, evaporation, marking, colour);
  - the colony (`Colony`: construction, `return_to_nest`, and one `explore` step with its seed generator, exploring and following moves, ageing, death and food pickup);
  - the parameter helpers of `params.py`.

Modules:

- **Shared:**
  - `GridIndex` covers row-major flat indices and Python's negative indices.
  - `Seqs` concatenates a list of sequences.
- **Colorization:** `LocalStatistics`, `ColorizeField`, `SparseAssembly`, `Dirichlet`, `MatVec`.
- **Game of Life:**
  - `LifeRules` holds the rules and the sweep shared by the three classes.
  - `LifeGame`, `LifeGrid` and `LifeGridMpi` hold one `Grille` class each.
- **Bucket sort:** `SortUtils`, `BucketSort`.
- **Ant colony:**
  - `Directions` holds the direction codes and exit masks.
  - `Pheromone` models the pheromone map.
  - `AntRules` holds the per-ant rules as values.
  - `AntColony` holds the `Colony` class.
  - `Params` models the parameter helpers.

How the model is written:

- **In place:** state the source changes in place is a class or an array with `modifies` clauses. Examples: the `Grille` cells, the pheromone map, the colony's per-ant arrays, the CSR arrays during assembly, and the array sorted by insertion.
- **Pure code:** code that only computes is written as functions.
- **Specification:** a method's contract ties its result or new state to a function or predicate of its inputs and old state, and the properties of those are proved as lemmas.
- **Arithmetic:** floating-point values are exact reals, and integers are unbounded (see "Left out").

## Model

| member | source | states |
|---|---|---|
| GridIndex.FlatNeighbours | Exam/colorize2.py:131-186 | the column indices `index - nx - 1` … `index + nx + 1` that `assembly_row` writes are the flat indices of the eight neighbours of the pixel |
| GridIndex.FlatSplit | TravauxDiriges/TD_numero_4/lifegame.py:78 | a flat index `i * nx + j` with `0 <= j < nx` splits back into row `i` and column `j` by `/` and `%` |
| GridIndex.FlatOrder | TravauxDiriges/TD_numero_4/lifegame.py:65-83 | flat indices increase exactly along row-major order |
| GridIndex.PyIndex | TravauxDiriges/TD_numero_4/grille_mpi.py:26-28 | a Python index in `-n .. n-1` designates the cell `i mod n` |
| LocalStatistics.ComputeMeans | Exam/colorize2.py:71-77 | one mean per interior pixel, in the shape of the image without its ghost layer (what each mean is: MeansAreLocal, MeanBounds) |
| LocalStatistics.ComputeVariance | Exam/colorize2.py:80-87 | one entry per interior pixel, and every variance is non-negative |
| LocalStatistics.MeansAreLocal | Exam/colorize2.py:71-77 | a mean depends only on the 3x3 window of its pixel |
| LocalStatistics.MeanBounds | Exam/colorize2.py:71-77 | a mean lies between the least and the greatest value of its window, and equals the common value of a constant window |
| LocalStatistics.VarianceZeroIff | Exam/colorize2.py:80-87 | a variance is zero exactly when every cell of its window equals the mean it is taken against |
| LocalStatistics.ConstantWindowHasZeroVariance | Exam/colorize2.py:71-87 | a constant window has zero variance against its computed mean |
| LocalStatistics.Sigma | Exam/colorize2.py:96 | the divisor is the variance floored at `2e-6`, so it is always positive |
| LocalStatistics.Wrs | Exam/colorize2.py:90-99 | the weight is 1 when either intensity equals the mean, at least 1 when both deviate the same way, and below 1 when they deviate oppositely |
| LocalStatistics.UniformWeights | Exam/colorize2.py:71-99 | on a uniform intensity every weight is exactly 1 |
| ColorizeField.CreateField | Exam/colorize2.py:44-68 | a fresh field of `(h + 2L) x (w + 2L)` cells holding channel `ifield` in its interior, with ghost cells that are zero or prolonged from the border |
| ColorizeField.ProlongRows | Exam/colorize2.py:61-64 | after the first loop, the ghost rows above and below the image repeat the first and the last image row, and nothing else changes |
| ColorizeField.ProlongColumns | Exam/colorize2.py:65-67 | after the second loop, the ghost columns repeat the first and the last column of the field, corners included |
| ColorizeField.ProlongedField | Exam/colorize2.py:61-67 | rows, then columns, leave the value of the nearest image pixel in every cell |
| ColorizeField.CopyRow | Exam/colorize2.py:63-64 | the row slice assignment changes exactly the destination slice, which takes the source values |
| ColorizeField.CopyColumn | Exam/colorize2.py:66-67 | the column assignment changes exactly the destination column |
| ColorizeField.InteriorIsChannel | Exam/colorize2.py:58 | the interior holds channel `ifield` of the image, whatever the ghost policy |
| ColorizeField.ZeroGhosts | Exam/colorize2.py:56-59 | without prolongation every ghost cell is zero |
| ColorizeField.ProlongedGhosts | Exam/colorize2.py:61-67 | with prolongation, a corner block holds the corner pixel and a ghost cell beside the image holds its border pixel |
| SparseAssembly.WeightsAgree | Exam/colorize2.py:142-187 | the weight function of a row gives every neighbour the value `compute_wrs` computes for it |
| SparseAssembly.RowCellsFacts | Exam/colorize2.py:139-156 | one stencil row holds the existing cells of columns `c-1 .. c+1`, left to right, and there are 2 or 3 of them |
| SparseAssembly.StencilIsNeighbourhood | Exam/colorize2.py:139-190 | the stored neighbours plus the diagonal are exactly the pixels of the image at most one step away in each direction |
| SparseAssembly.StencilOrder | Exam/colorize2.py:139-190 | the stencil is stored in row-major order |
| SparseAssembly.StencilDiagonal | Exam/colorize2.py:163-165 | the pixel itself sits right after the neighbours stored before the diagonal |
| SparseAssembly.StencilSize | Exam/colorize2.py:121-129 | the stored entries number 4 at a corner, 6 on an edge and 9 inside, which is the count `assembly_row` predicts |
| SparseAssembly.PredictedNnz | Exam/colorize2.py:121-129 | the predicted count is 4, 6 or 9, and it is the product of the stencil's extents along the two axes (2 at an end, 3 inside) |
| SparseAssembly.RowColumns | Exam/colorize2.py:131-190 | a row has the predicted length; its column indices strictly increase and lie in `0 .. nx*ny - 1`; the diagonal entry holds 1 |
| SparseAssembly.RowFollowsStencil | Exam/colorize2.py:139-190 | entry `k` of a row is stored in the column of stencil cell `k` |
| SparseAssembly.NormalisedSplit | Exam/colorize2.py:192-194 | normalising divides the values before and after the diagonal and keeps the diagonal |
| SparseAssembly.RowSumsToZero | Exam/colorize2.py:138-194 | when the weights do not sum to zero, the normalised row sums to zero, so the matrix maps a constant image to zero |
| SparseAssembly.StartMonotone | Exam/colorize2.py:133-135 | row offsets never decrease along row-major order |
| SparseAssembly.StartBound | Exam/colorize2.py:133-135 | a pixel's reserved slots end no later than the next pixel's begin |
| SparseAssembly.TotalNnz | Exam/colorize2.py:207-212 | the rows of all pixels fill exactly the `9(nx-2)(ny-2) + 12((nx-2)+(ny-2)) + 16 = (3nx-2)(3ny-2)` entries `compute_matrix` allocates |
| SparseAssembly.PutNeighbour | Exam/colorize2.py:141-145 | one neighbour block stores the column and minus the weight at `start`, adds the weight to the sum, and changes nothing else |
| SparseAssembly.PutSide | Exam/colorize2.py:140-145 | an optional neighbour block is stored when the neighbour exists, and nothing happens otherwise |
| SparseAssembly.PutCentreRight | Exam/colorize2.py:146-156 | the centre and right blocks of a neighbour row are stored in order |
| SparseAssembly.PutRow | Exam/colorize2.py:139-156 | the three blocks of the row above or below store that row's existing cells, left to right |
| SparseAssembly.PutRowIf | Exam/colorize2.py:173-190 | the neighbour row is stored only when it exists |
| SparseAssembly.WriteBefore | Exam/colorize2.py:139-162 | the blocks before the diagonal store the row above and the left neighbour, with their weight sum |
| SparseAssembly.PutDiagonal | Exam/colorize2.py:163-166 | the diagonal stores column `index` with value 1 at `start`, and nothing else changes |
| SparseAssembly.WriteAfter | Exam/colorize2.py:167-190 | the blocks after the diagonal store the right neighbour and the row below |
| SparseAssembly.WriteUpToDiagonal | Exam/colorize2.py:139-166 | returns the diagonal position and the partial weight sum; the neighbours before the diagonal and the diagonal itself are stored |
| SparseAssembly.WriteRawRow | Exam/colorize2.py:138-190 | the unnormalised row is stored from `start` on, the sum is the row's total weight, and only the row's slots change |
| SparseAssembly.DivideOffDiagonal | Exam/colorize2.py:192-194 | every coefficient of the row except the diagonal is divided by the sum |
| SparseAssembly.NormaliseHolds | Exam/colorize2.py:192-194 | dividing the stored off-diagonal values stores the normalised row |
| SparseAssembly.WriteRow | Exam/colorize2.py:138-194 | the normalised row of the pixel is stored from `start` on, and only its slots change |
| SparseAssembly.AssemblyRow | Exam/colorize2.py:102-194 | the pixel's matrix row is stored from `pt_rows[index]` on; `pt_rows[index+1]` is set to the row's end; no other slot or pointer changes |
| SparseAssembly.Pointers | Exam/colorize2.py:223-225 | the pointers written up to a pixel hold the offset of every pixel up to it |
| SparseAssembly.PointersIncrease | Exam/colorize2.py:215-226 | the final row pointers strictly increase |
| SparseAssembly.AssembledAll | Exam/colorize2.py:223-226 | after the loops, the pointers run from 0 to the allocated count, strictly increasing, and every pixel's matrix row lies between its two pointers |
| SparseAssembly.AssemblePixel | Exam/colorize2.py:224-225 | one inner-loop pass extends the assembled part of the matrix by one pixel |
| SparseAssembly.AssembleImageRow | Exam/colorize2.py:224-225 | the inner loop assembles one image row |
| SparseAssembly.AssembleImage | Exam/colorize2.py:223-225 | the outer loop assembles every image row |
| SparseAssembly.AllocateMatrix | Exam/colorize2.py:205-219 | allocates `nx*ny + 1` zeroed pointers and room for exactly the entries all rows need |
| SparseAssembly.AssembledMatrix | Exam/colorize2.py:223-229 | the three arrays form the CSR matrix of the image: `beg_rows[-1] == nnz` and every row is stored between its pointers |
| SparseAssembly.ComputeMatrix | Exam/colorize2.py:197-229 | returns the CSR matrix with `nx*ny + 1` strictly increasing pointers from 0 to `nnz`, holding every pixel's matrix row |
| Dirichlet.PlaneAt | Exam/colorize2.py:238-239 | pixel (i, j) sits at flat index `i*w + j` of a flattened channel |
| Dirichlet.NonZeroBoth | Exam/colorize2.py:240 | `np.nonzero` returns, in increasing order, exactly the indices where both hue and saturation are nonzero |
| Dirichlet.FixedColoredPixels | Exam/colorize2.py:232-240 | pixel (i, j) is listed, as `i*w + j`, exactly when its hue and saturation are both nonzero, and the list increases |
| Dirichlet.SearchFixedColoredPixels | Exam/colorize2.py:232-240 | the listed indices increase, and every one is the flat index of a pixel of the image |
| Dirichlet.DirichletAt | Exam/colorize2.py:247-254 | the rewrite acts entry by entry |
| Dirichlet.EntryAfterOutside | Exam/colorize2.py:247-254 | rows that end before an entry leave it alone |
| Dirichlet.EntryAfterInRow | Exam/colorize2.py:247-254 | an entry of row `irow` is rewritten by that row alone |
| Dirichlet.DirichletRows | Exam/colorize2.py:247-254 | a pinned row keeps 1 on its diagonal and 0 elsewhere; another row zeroes its pinned columns and keeps the rest; entries outside every row are untouched |
| Dirichlet.EntryAfterIdempotent | Exam/colorize2.py:247-254 | rewriting an entry twice gives what rewriting it once gives |
| Dirichlet.DirichletIdempotent | Exam/colorize2.py:243-254 | applying the condition twice gives what applying it once gives |
| Dirichlet.ApplyDirichlet | Exam/colorize2.py:243-254 | the in-place rewrite of the stored values equals the row-by-row rule, and pointers and indices are read only |
| MatVec.Product | Exam/colorize2.py:267-272 | `matrix[lo:hi].dot(x)` has one entry per row, each being that row's dot product with `x` |
| MatVec.ProductSplit | Exam/colorize2.py:279 | the products of two adjacent row ranges, stacked, give the product of their union |
| MatVec.LinesPerFragment | Exam/colorize2.py:260 | `ceil(dim / size)` is the least block size that gives `size` blocks room for all rows |
| MatVec.CeilingByCases | Exam/colorize2.py:260 | `ceil(dim / size)` is `dim // size`, plus one when `size` does not divide `dim` |
| MatVec.Clip | Exam/colorize2.py:267 | Python clips a slice bound to the number of rows |
| MatVec.BlockInRange | Exam/colorize2.py:262-267 | every block is a possibly empty range of rows |
| MatVec.FirstBlockStarts | Exam/colorize2.py:272 | the block of rank 0 starts at row 0 |
| MatVec.BlocksAdjacent | Exam/colorize2.py:263-264 | each block but the last ends where the next starts |
| MatVec.LastBlockEnds | Exam/colorize2.py:265-266 | the last rank's `dim // size` rows reach the last row of the matrix |
| MatVec.BlocksCover | Exam/colorize2.py:262-277 | the blocks of ranks `0 .. i`, stacked, are the product of their rows |
| MatVec.FragmentProduct | Exam/colorize2.py:262-268 | the part rank `i` computes is the product of its clipped row range |
| MatVec.MatrixVectorProduct | Exam/colorize2.py:257-279 | the stacked result has one entry per row, and entry `i` is row `i` times the vector |
| LifeRules.RingSteps | TravauxDiriges/TD_numero_4/lifegame.py:66-70 | `(i + ny - 1) % ny` and `(i + 1) % ny` are the previous and next index on the ring |
| LifeRules.Neighbours | TravauxDiriges/TD_numero_4/lifegame.py:71-72 | the eight listed neighbours are cells of the grid |
| LifeRules.NeighboursAreToroidal | TravauxDiriges/TD_numero_4/lifegame.py:17-20 | the neighbours are the cells at the eight offsets other than (0, 0), modulo the grid size |
| LifeRules.NeighboursDistinct | TravauxDiriges/TD_numero_4/lifegame.py:71-72 | on a grid of at least 3x3 the eight neighbours are distinct and differ from the cell |
| LifeRules.LiveNeighboursSum | TravauxDiriges/TD_numero_4/lifegame.py:71-74 | the neighbour count is the sum over the eight listed neighbours |
| LifeRules.LiveNeighboursBound | TravauxDiriges/TD_numero_4/lifegame.py:73-74 | on a grid of dead and live cells the count is between 0 and 8 |
| LifeRules.NextState | TravauxDiriges/TD_numero_4/lifegame.py:75-85 | the result is 0 or 1; a live cell survives with 2 or 3 live neighbours, and a dead cell is born with exactly 3 |
| LifeRules.FlipsIffChanges | TravauxDiriges/TD_numero_4/lifegame.py:75-83 | a cell is recorded exactly when its state changes |
| LifeRules.DiffCellsOrdered | TravauxDiriges/TD_numero_4/lifegame.py:64-83 | the recorded list strictly increases and holds only cells already visited |
| LifeRules.DiffCellsSound | TravauxDiriges/TD_numero_4/lifegame.py:78-83 | every recorded index is that of a cell that flips |
| LifeRules.DiffCellsComplete | TravauxDiriges/TD_numero_4/lifegame.py:78-83 | every visited cell that flips is recorded |
| LifeRules.DiffCellsAreChanges | TravauxDiriges/TD_numero_4/lifegame.py:64-87 | over the whole grid, the returned list strictly increases and holds `r*nx + c` exactly when cell (r, c) changes state |
| LifeRules.DiffCellChanges | TravauxDiriges/TD_numero_4/lifegame.py:64-87 | cell (r, c) is listed exactly when it changes state |
| LifeRules.PlacePattern | TravauxDiriges/TD_numero_4/lifegame.py:46-48 | the fancy-index assignment makes every designated cell alive and keeps every other cell |
| LifeRules.PatternGrid | TravauxDiriges/TD_numero_4/lifegame.py:45-48 | a fresh grid of 0/1 cells, alive exactly at the pattern's cells |
| LifeRules.Sweep | TravauxDiriges/TD_numero_4/lifegame.py:61-85 | a fresh 0/1 buffer holding every cell's next state, computed from the unchanged grid, and the list of flipped cells |
| LifeRules.SweepRow | TravauxDiriges/TD_numero_4/lifegame.py:65-85 | the inner loop fills row `i` of the buffer and extends the list by that row's flips |
| LifeRules.SweepCell | TravauxDiriges/TD_numero_4/lifegame.py:68-85 | one cell's next state is written and, when it flips, its flat index is appended |
| LifeGame.Grille.constructor | TravauxDiriges/TD_numero_4/lifegame.py:42-48 | a grid of 0/1 cells, alive exactly at the cells of the pattern (Python indices) |
| LifeGame.Grille.ComputeNextIteration | TravauxDiriges/TD_numero_4/lifegame.py:54-87 | the grid becomes a new buffer of next states of the old grid; the returned list holds, in increasing order, the flat indices of the cells that changed |
| LifeGrid.Grille.constructor | TravauxDiriges/TD_numero_4/grille.py:17-23 | a grid of 0/1 cells, alive exactly at the cells of the pattern |
| LifeGrid.Grille.ComputeNextIteration | TravauxDiriges/TD_numero_4/grille.py:29-62 | the grid becomes, and the method returns, a new buffer of next states of the old grid |
| LifeGridMpi.Grille.constructor | TravauxDiriges/TD_numero_4/grille_mpi.py:23-28 | a grid of 0/1 cells, alive exactly at the sub-pattern's coordinates less 51, read as Python indices |
| LifeGridMpi.Grille.ComputeNextIteration | TravauxDiriges/TD_numero_4/grille_mpi.py:32-62 | the grid becomes, and the method returns, a new buffer of next states of the old grid |
| SortUtils.InsertAt | TravauxDiriges/TD_numero_3/utils.py:10-15 | the inner loop puts `up` after the last element not greater than it and shifts the greater ones up; equal elements keep their order |
| SortUtils.InsertSorted | TravauxDiriges/TD_numero_3/utils.py:10-15 | inserting into a sorted prefix gives a sorted prefix |
| SortUtils.InsertMultiset | TravauxDiriges/TD_numero_3/utils.py:10-15 | inserting keeps every element and adds `up` |
| SortUtils.SortPrefixSorted | TravauxDiriges/TD_numero_3/utils.py:9-15 | after `i` outer passes the prefix is sorted |
| SortUtils.SortPrefixMultiset | TravauxDiriges/TD_numero_3/utils.py:9-15 | after `i` outer passes the prefix holds the same elements |
| SortUtils.InsertionSortedSpec | TravauxDiriges/TD_numero_3/utils.py:8-16 | insertion sort yields a sorted permutation of its input |
| SortUtils.InsertionSort | TravauxDiriges/TD_numero_3/utils.py:8-16 | sorts the array in place into a sorted permutation and returns the same array |
| SortUtils.InsertNext | TravauxDiriges/TD_numero_3/utils.py:10-15 | one outer pass inserts `array[i]` into the prefix and leaves the suffix alone |
| SortUtils.InsertPeel | TravauxDiriges/TD_numero_3/utils.py:12-14 | shifting an element greater than `up` is one step of the insertion |
| SortUtils.Max | TravauxDiriges/TD_numero_3/utils.py:22 | `np.max` is an element of the input, at least every element |
| SortUtils.BucketIndexInRange | TravauxDiriges/TD_numero_3/utils.py:22-24 | every value below `1 + max` goes to a bucket in `0 .. bucket_size - 1` |
| SortUtils.BucketIndexMonotone | TravauxDiriges/TD_numero_3/utils.py:24 | a greater value never goes to an earlier bucket |
| SortUtils.BucketMembers | TravauxDiriges/TD_numero_3/utils.py:23-25 | a value is in bucket `k` exactly when it occurs in the input and its index is `k` |
| SortUtils.BucketElement | TravauxDiriges/TD_numero_3/utils.py:23-25 | an element of bucket `k` of a non-negative input is non-negative and belongs to bucket `k` |
| SortUtils.BucketsPartition | TravauxDiriges/TD_numero_3/utils.py:19-26 | when every element has a bucket, the buckets together hold every element exactly as often as the input does |
| SortUtils.BucketsUnionAppend | TravauxDiriges/TD_numero_3/utils.py:23-25 | appending one element adds it to the union of the buckets when its bucket exists |
| SortUtils.BucketsOrdered | TravauxDiriges/TD_numero_3/utils.py:24 | every element of an earlier bucket is smaller than every element of a later one |
| SortUtils.SplitArray | TravauxDiriges/TD_numero_3/utils.py:19-26 | `bucket_size` buckets; bucket `k` gets, in input order, the elements `e` with `floor(bucket_size * e / (1 + max)) == k` |
| SortUtils.SplitPartition | TravauxDiriges/TD_numero_3/utils.py:19-26 | the buckets hold the input's elements, each exactly once overall |
| BucketSort.SortedAppend | TravauxDiriges/TD_numero_3/bucket_sort.py:62 | two sorted parts, the first below the second, concatenate into a sorted sequence |
| BucketSort.ConcatSorted | TravauxDiriges/TD_numero_3/bucket_sort.py:59-62 | sorted parts holding their ranks' buckets concatenate into a sorted sequence |
| BucketSort.ConcatBuckets | TravauxDiriges/TD_numero_3/bucket_sort.py:59-62 | concatenated parts holding buckets `0 .. n-1` hold the union of those buckets |
| BucketSort.SortBucket | TravauxDiriges/TD_numero_3/bucket_sort.py:54-55 | a rank's bucket comes back sorted and permuted |
| BucketSort.SortBuckets | TravauxDiriges/TD_numero_3/bucket_sort.py:51-59 | every bucket is insertion-sorted into a sorted permutation, and the results stay in rank order |
| BucketSort.SortedBuckets | TravauxDiriges/TD_numero_3/bucket_sort.py:48-62 | the sorted buckets, concatenated, are sorted and a permutation of the input |
| BucketSort.SortedBucketsElements | TravauxDiriges/TD_numero_3/bucket_sort.py:48-62 | the concatenation holds exactly the input's elements |
| BucketSort.SortedBucketsOrdered | TravauxDiriges/TD_numero_3/bucket_sort.py:59-62 | the concatenation is sorted |
| BucketSort.BucketSortPipeline | TravauxDiriges/TD_numero_3/bucket_sort.py:44-62 | split, per-bucket sort and concatenation give a sorted permutation of the input |
| Directions.ExitCount | Projet/colony.py:225-226 | the exit count is between 0 and 4, and it is 0 exactly when no exit is open |
| Pheromone.Max2 | Projet/pheromone.py:53-54 | `np.maximum` is one of its arguments and at least both |
| Pheromone.NonNegative | Projet/pheromone.py:53 | clamping at zero gives a value that is non-negative, at least the input, and equal to the input or to 0 |
| Pheromone.MarkValue | Projet/pheromone.py:48-54 | for `0 <= alpha <= 1` the marked value lies between 0 and the largest clamped neighbour |
| Pheromone.MixBetween | Projet/pheromone.py:54 | the `alpha` blend of the maximum and the mean lies between 0 and the maximum |
| Pheromone.MarkValueUniform | Projet/pheromone.py:53-54 | four equal non-negative neighbours are copied unchanged, whatever `alpha` |
| Pheromone.ClampUnit | Projet/pheromone.py:67 | `max(min(v, 1), 0)` lies in [0, 1] and is `v` on [0, 1] |
| Pheromone.Pheromon.constructor | Projet/pheromone.py:10-25 | a fresh map padded by one cell on each side, all zero except 1 at the food cell (Python indices); every cell lies in [0, 1] |
| Pheromone.Pheromon.DoEvaporation | Projet/pheromone.py:27-35 | a fresh map of the same size holding `beta` times every cell, with the food cell reset to 1; with `0 <= beta <= 1` it stays in [0, 1] |
| Pheromone.Pheromon.Mark | Projet/pheromone.py:37-54 | only the ant's padded cell changes; it takes the `alpha` blend of the old map's four neighbours (0 behind a closed exit); cells stay in [0, 1] |
| Pheromone.Pheromon.GetColor | Projet/pheromone.py:56-68 | red is 255 exactly when the clamped value exceeds `1e-16`, and 0 otherwise; green is 255 times the clamped value, whatever the stored value; blue is 128 |
| AntRules.NextSeed | Projet/colony.py:184 | the seed step `16807 * seed mod (2^31 - 1)` lies in `0 .. 2^31 - 2` |
| AntRules.NextSeedPositive | Projet/colony.py:184 | a seed in `1 .. 2^31 - 2` steps to a seed in that range, because the modulus is prime |
| AntRules.ChoiceExplores | Projet/colony.py:219-220 | with `EXPLORATION_COEFFICIENT = 0`, a non-negative seed explores by choice exactly when it is zero |
| AntRules.AdvanceSeeds | Projet/colony.py:184 | stepping the listed ants keeps one seed per ant |
| AntRules.SeedsStayPositive | Projet/colony.py:183-229 | positive seeds stay positive under any number of steps of any ants, so no ant ever explores by choice |
| AntRules.Toward | Projet/colony.py:233-249 | a moving direction gives one of the four unit neighbours |
| AntRules.ExploreMove | Projet/colony.py:230-254 | the offsets move the ant one cell toward the drawn direction when its exit is open, and keep it in place otherwise; the move is kept exactly when it is open and not a reversal, or when the cell has a single exit |
| AntRules.Strongest | Projet/colony.py:214-216 | the folded `np.maximum` is one of the four values and at least each |
| AntRules.SensedAt | Projet/colony.py:194-212 | a closed exit senses 0 |
| AntRules.FollowMove | Projet/colony.py:264-277 | a following ant steps only through open exits; it moves at most one row and one column; a unique strongest direction gives a unit step toward it; four equal values leave it in place |
| AntRules.Filter | Projet/colony.py:219-223 | the `np.nonzero` selection holds exactly the listed ants that pass, and no more of them than were listed |
| AntColony.SensedAll | Projet/colony.py:194-212 | every ant senses 0 through its closed exits |
| AntColony.Exploring | Projet/colony.py:219-223 | an ant explores exactly when it is listed and draws at most the coefficient or senses nothing |
| AntColony.Following | Projet/colony.py:260-263 | an ant follows exactly when it is listed, draws above the coefficient and senses some pheromone |
| AntColony.Pending | Projet/colony.py:227-228 | the ants still to move are the exploring ants without a valid move |
| AntColony.ArrivedAnts | Projet/colony.py:76-82 | the ants that unload are exactly the loaded ants that stand on the nest one step back along their path |
| AntColony.Colony.constructor | Projet/colony.py:36-56 | seeds `min_index + 1 ..`, nobody loaded, age 0, paths of `max_life + 1` slots starting at the initial position, no direction; healthy when every life span is in `1 .. max_life` |
| AntColony.Colony.ReturnToNest | Projet/colony.py:64-87 | loaded ants age down by one; those back at the nest unload and restart at age 0; the counter grows by their number; nothing else changes; the colony invariant is kept |
| AntColony.Colony.ExploreRound | Projet/colony.py:227-258 | every seed steps; each pending ant draws `seed % 4`; an accepted move writes its target at `age + 1` and records the direction; other ants are untouched |
| AntColony.RetryStep | Projet/colony.py:227-258 | one more round keeps every exploring ant where `ExploreOutcome` says: a pending ant settles in that round exactly when its draw of the seed stepped that many times is accepted |
| AntColony.RoundOutcome | Projet/colony.py:227-258 | the same, for one ant: a settled ant keeps its move, a pending ant settles in round `n + 1` exactly when that round's draw is accepted, and otherwise every draw so far was refused |
| AntColony.RetriesSettle | Projet/colony.py:222-228 | when no exploring ant is pending, the loop ends settled |
| AntColony.Colony.ExploreRetries | Projet/colony.py:222-258 | each exploring ant that settled did so in a round `1 <= t <= roundsRun`, its direction is the draw `seed_t % 4` of that round (the seed stepped `t` times), its slot `age + 1` holds the accepted move, and every earlier draw was refused; an ant left unsettled, or not exploring, is untouched; the seeds are stepped once per round |
| AntColony.Colony.FollowPheromones | Projet/colony.py:262-277 | a following ant writes its pheromone target at `age + 1`; other ants and fields are untouched |
| AntColony.Colony.AgeAndRenew | Projet/colony.py:279-289 | the listed ants age by one; ants reaching their life span restart at age 0 from the nest with no direction; the colony invariant is kept |
| AntColony.Colony.PickUpFood | Projet/colony.py:291-297 | exactly the listed ants standing on the food become loaded; nothing else changes |
| AntColony.Colony.MoveAnts | Projet/colony.py:219-277 | ant by ant (`Moved`): a following ant writes its pheromone target at `age + 1`, an exploring ant ends as the retry loop leaves it, every other ant keeps its path and direction; ages, loads, life spans and path starts are kept; seeds advance once per retry round |
| AntColony.Colony.EndStep | Projet/colony.py:279-297 | ant by ant (`Ended`): the listed ants age by one; an ant reaching its life span restarts at age 0 from the nest with no direction; then a listed ant standing on the food is loaded; the seeds and the colony invariant are kept |
| AntColony.Colony.MoveAndAge | Projet/colony.py:219-297 | the moves (`Moved`) followed by the end of the step (`Ended`), the colony invariant kept |
| AntColony.Colony.Explore | Projet/colony.py:169-297 | the listed ants' seeds step once; the ants that explore or follow are chosen from that draw and from the pheromone sensed at their position; the moves are `Moved` and the end of the step is `Ended`; positive seeds stay positive; the colony invariant is kept when the listed ants are unloaded and the nest is not the food |
| Params.GetSizeLaby | Projet/params.py:4-7 | rows and columns come from entries 1 and 2 when both are present, and both are the default otherwise |
| Params.GetResolution | Projet/params.py:10-11 | the window is a whole number of 8-pixel cells per side, as many as the maze has columns (width) and rows (height) |
| Params.GetMaxLife | Projet/params.py:18-21 | the life span is entry 3 when present, the default otherwise |
| Params.GetPosFood | Projet/params.py:24-25 | in a non-empty maze the food is a cell of the maze, the last one in row-major order |
| Params.GetPosNest | Projet/params.py:28-29 | the nest is cell (0, 0) |
| Params.GetAlpha | Projet/params.py:32-35 | `alpha` is entry 4 when present, the default otherwise |
| Params.GetBeta | Projet/params.py:38-41 | `beta` is entry 5 when present, the default otherwise |
| Params.GetParams | Projet/params.py:44-55 | the resolution, ant count, food and nest are all derived from the same maze size |
| Params.GetNbAnts | Projet/params.py:14-15 | one ant per four cells, rounded down: `4n <= rows*cols < 4n + 4` |
| Params.GetParamsSpec | Projet/params.py:4-55 | the size comes from entries 1 and 2 or defaults to 25x25; resolution, life span, `alpha` and `beta` as specified; the food is a cell of the maze other than the nest unless the maze is 1x1 |

## Left out

- **Out of scope:**
  - I/O of every kind: image files, pygame drawing and sprites, printing and timing.
  - The MPI communication itself. Scatter and gather, send and receive, barriers, reductions and broadcasts become sequential code or the values they carry.
  - The conjugate-gradient minimisation and the colour-space conversions of the colorization program.
  - Colony `advance` (the MPI gathering and the marking loop that calls `mark`), and the `display` methods.
- **Not modelled:**
  - The random initial grid of the `Grille` constructors, which needs randomness.
  - `generate_random`.
  - The maze generator and the direction module. They are not part of this model; their constants are parameters (`Directions.Codes`, `Directions.Masks`).
- **Number representation:**
  - Floating-point values are exact reals, so rounding, NaN and infinities are not modelled.
  - The integer widths (uint8 cells, int16 paths, int32 life spans, int64 seeds and pointers) are unbounded integers. Overflow and wrap-around are not modelled.
- SparseAssembly.AssemblyRow:
  - It models only the whole-image call (`i_start = 0`, its only use).
  - It requires an image of at least 2 x 2 pixels, because a width of 1 breaks the predicted entry count.
  - The normalisation is skipped when the weight sum is zero, where numpy would divide by zero.
- SparseAssembly.ComputeMatrix: it models only `i_start = 0` on an image of at least 2 x 2 pixels. The nnz corrections for `i_start > 0` are not modelled.
- LocalStatistics.ComputeMeans: only the shape of the result is stated in its own contract. Its meaning is in MeansAreLocal and MeanBounds.
- SortUtils.SplitArray:
  - It requires a non-empty input (`np.max` fails on an empty one) and non-negative elements.
  - `np.floor` on the float quotient is modelled as exact integer division.
- MatVec.MatrixVectorProduct: the products the other ranks compute and send back are computed in place of the messages.
- ColorizeField.CreateField: it requires `nb_layers >= 1`, because with `nb_layers = 0` the source's slice `field[0:-0, 0:-0]` is empty and copying a non-empty image into it fails. It requires `ifield` to name a channel of the image; the source asserts the same at Exam/colorize2.py lines 53-54.
- AntColony.Colony.constructor: it has no `max_index`. The source makes `max_index - min_index` seeds (Projet/colony.py line 38) but `num_ants` entries of every other array; the model makes `num_ants` of each, as if the two were equal.
- AntColony.Colony.constructor: the per-ant life spans `max_life - int32(max_life * seed / (2^31 - 1)) // 4`, computed in floating point, are given as a parameter.
- AntColony.Colony.ExploreRetries: the source's retry loop need not terminate. The model runs at most `rounds` rounds and reports whether every exploring ant settled.
- AntColony.Colony.Explore:
  - Numpy's negative indices on ages are not modelled, because the model requires every age to index its path.
- AntColony.Colony.ReturnToNest: numpy's fancy-index semantics are modelled for duplicate indices. A duplicated ant is updated once but counted once per occurrence. A path read at age -1 is read from the end.
- AntColony.Colony (every method): the colony's numpy arrays are sequence fields that each method reassigns whole, mirroring the vectorised updates.
- Params.GetParamsSpec: the command line is a sequence of entries already parsed as integers and floats, so parse errors of `int(...)` and `float(...)` are not modelled.
