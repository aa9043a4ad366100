# maze-generator in Dafny

A model of the two algorithms at the heart of the maze-generator repository, with proofs of what they guarantee:

- **The carving engine**, `Generator::generateMaze` and its helpers (`source/generator/generator.cxx`). It is an iterative randomized backtracker over a grid of logical cells. It carves passages into a `D x D` integer matrix in which 0 is a wall and `gid_default` is open. The logical side is `L = (D-1)/2`. Logical cell `(r, c)` is drawn at physical position `(2r-1, 2c-1)`, and each carve opens the wall between two adjacent cells together with the new cell.
- **The tile classifier**, `Mapper::map` (`source/mapper/mapper.cxx`). It overwrites every open cell, in place and in row-major order, with the tile id of the first of fifteen shapes (cross, T-junctions, corners, straights, dead ends) that its four cardinal neighbours form.
- **The CSV payload** of `Mapper::save`: every entry of the final grid, row by row, separated by commas.

## Layout

| file | module | what it holds |
|---|---|---|
| `wrappers.dfy` | `Wrappers` | `Option` |
| `geometry.dfy` | `Geometry` | Logical cells and physical positions. The neighbour table. The image `Phys` of a cell and the midpoint `Mid` between two cells. The set of all cells and its size. |
| `grids.dfy` | `Grids` | Square integer grids and single-cell updates. |
| `frames.dfy` | `Frames` | The fixed-capacity frontier stack (`push`/`pop`). |
| `directions.dfy` | `Directions` | One iteration's search for a move: the guard, the tried flags and the dead-end counter. It also holds the inner loop as written. |
| `carving.dfy` | `Carving` | The generator state, its invariant, and one outer iteration (`Step`) with the lemmas that it keeps the invariant. |
| `generator.dfy` | `Generator` | Constructor sizing, the whole loop (`Run`, `GenerateMaze`) and what the finished loop leaves. |
| `tiles.dfy` | `Tiles` | The fifteen categories and the first-match classifier. |
| `mapper.dfy` | `Mapper` | The in-place retiling of a grid and its agreement with a pure classification. |
| `pipeline.dfy` | `Pipeline` | One job (`generate`, then `map`): every open cell of a generated maze gets a tile. |
| `csv.dfy` | `Csv` | The CSV payload and the reader that decodes it back. |

### How the model is organised

- **Randomness.** The random direction draws become an oracle, `choose: nat -> DirIndex`, which gives the first direction tried in each outer iteration. The directions are then tried in rotation, each once.
- **Tree bookkeeping.** The generator state also records, for every visited cell, the cell it was carved from (`parent`) and its distance from the start (`depth`). The source keeps neither; they name the spanning tree the carving draws.
- **Tile ids.** The configured tile ids (`getGIDFromJson`) are a parameter `ids: Category -> int`.

## Model

| member | source | states |
|---|---|---|
| Generator.SizingAsWritten | source/generator/generator.cxx:6-16 | The constructor as written: `dimensions_` keeps the requested value, while `matrix_` is bumped to odd and halved to L, and the bound is `L + 2`. |
| Generator.EvenRequestBreaksBorder | source/generator/generator.cxx:9-16 | For every even request, the last logical cell `(L, L)` is admitted by the guard but is drawn at `(D-1, D-1)`, on the grid's border. The cell forced open at the end, `(D-2, D-2)`, has even coordinates. |
| Generator.RequestFourBreaksBorder | source/generator/generator.cxx:9-16 | The concrete witness: a request of 4 keeps a 4 x 4 grid but admits logical cell (2, 2), drawn at (3, 3). |
| Generator.Sizing | source/generator/generator.cxx:11-16 | The corrected sizing: an even request is bumped to the next odd side D. Then `D = 2L + 1` and the bound is `L + 2`. |
| Generator.SizingKeepsCellsInside | source/generator/generator.cxx:11-16 | With the corrected sizing, every logical cell is drawn strictly inside the border, and `(D-2, D-2)` is the image of the last cell. |
| Frames.NewStack | source/generator/generator.cxx:53-56 | The stack is allocated with `100 * L * L` slots and starts empty. |
| Frames.Push | source/generator/generator.cxx:62-69 | At a non-negative index, push appends the cell to the stack contents. At a negative index it writes nothing. Either way the index grows by one. |
| Frames.Pop | source/generator/generator.cxx:71-78 | Pop lowers the index by one. It yields a cell exactly when the old index was at least 1, and that cell is the last of the old contents. |
| Frames.PushThenPop | source/generator/generator.cxx:62-78 | A pop undoes a push: it returns the pushed cell and restores the contents (LIFO). |
| Frames.PushAtMinusOne | source/generator/generator.cxx:62-69 | A push at index -1 (after the final pop) writes nothing and leaves an empty stack. |
| Frames.MoveFrames | source/generator/generator.cxx:96-141 | The pop of the active cell followed by the two pushes of a move leaves the old contents with the new neighbour on top. |
| Frames.BacktrackFrames | source/generator/generator.cxx:96-161 | The pop of the active cell, the second pop and the push-back of a dead end leave the old contents minus their top, including at the root, where the second pop reads no slot. |
| Geometry.Neighbour | source/generator/generator.cxx:43-50 | Each entry of the unit-vector table leads to an adjacent cell. |
| Geometry.NeighbourTableComplete | source/generator/generator.cxx:43-50 | Every adjacent cell is reached by exactly one of the four table entries. |
| Directions.Counter | source/generator/generator.cxx:146-147 | The dead-end counter is the number of set tried flags. It is 4 exactly when all four are set. |
| Directions.AcceptsIff | source/generator/generator.cxx:115-117 | For a neighbour of an in-range cell, the guard accepts exactly the unvisited cells with row and column in `1..bound-2`. |
| Directions.Search | source/generator/generator.cxx:103-150 | Trying the rest of the rotation finds an acceptable direction and sets its flag. It ends in a dead end exactly when no direction is acceptable, and then all four flags are set. |
| Directions.ChooseDirection | source/generator/generator.cxx:103-150 | One iteration's search from cleared flags (the reset of lines 164-167): a move exactly when some neighbour is acceptable, a dead end with `counter == 4` otherwise. |
| Directions.ChooseAcceptedFirst | source/generator/generator.cxx:105-112 | Any acceptable direction is chosen when the oracle names it first, with only its flag set. |
| Directions.ProbeAsWritten | source/generator/generator.cxx:105-148 | One pass of the inner loop as written. It always sets the drawn flag and moves exactly when the neighbour is acceptable. It changes the counter only on an in-ring visited neighbour, and then sets it to the flag count. |
| Directions.LoneCellSpins | source/generator/generator.cxx:103-150 | With one logical cell, after any finite run of draws the loop as written has made no move and still has counter 0, so it never exits. |
| Directions.LoneCellDeadEnd | source/generator/generator.cxx:152-162 | The corrected search ends that same iteration in a dead end with all four flags set. |
| Carving.Init | source/generator/generator.cxx:82-91 | The initial state (start cell open, visited and pushed, cursor on its image) satisfies the loop invariant. |
| Carving.Carve | source/generator/generator.cxx:118-137 | A carve writes gid to exactly the wall between the active cell and its neighbour and to the neighbour's image. Every other entry is unchanged. |
| Carving.Advance | source/generator/generator.cxx:118-137 | The cursor moves by exactly 2 along one axis, from the image of a cell to the image of the adjacent cell. |
| Carving.Step | source/generator/generator.cxx:92-168 | One outer iteration keeps the grid shape, and the visited set only grows. |
| Carving.StepCarves | source/generator/generator.cxx:117-143 | A move visits exactly one new in-range cell n, which was unvisited. It leaves n on top of the stack with its parent directly beneath, puts the cursor on n's image and opens exactly two cells. |
| Carving.StepBacktracks | source/generator/generator.cxx:152-162 | A dead end changes neither the grid nor the tree. It removes the active cell from the stack and leaves the cursor on the image of the new top. |
| Carving.StepFrames | source/generator/generator.cxx:62-78 | When the array stack holds the model's stack, the pops and pushes of one iteration (a move or a dead end) leave it holding the next state's stack. |
| Carving.OpenAfterCarve | source/generator/generator.cxx:118-137 | After a carve, the drawing of the tree gains exactly the new cell's image and the passage to it. |
| Carving.StepKeepsInv | source/generator/generator.cxx:92-168 | Every iteration keeps the invariant and decreases the loop measure. The invariant says the grid draws a tree of visited in-range cells rooted at the start, the stack is the tree path to its top with the cursor on the top's image, and a cell that left the stack has no unvisited neighbour. |
| Generator.RootedAtStart | source/generator/generator.cxx:85-142 | Following parent links from any visited cell reaches the start. |
| Generator.Finished | source/generator/generator.cxx:92 | When the stack is empty, every logical cell has been visited. |
| Generator.BorderStaysWall | source/generator/generator.cxx:115-116 | No position on the border ring of the grid is ever opened. |
| Generator.StackDepthBounded | source/generator/generator.cxx:54 | The stack never holds more than `L * L` entries, far below its capacity. |
| Generator.CompletedTree | source/generator/generator.cxx:92-168 | Once all cells are visited, the parent links form a spanning tree of all `L * L` cells with `L * L - 1` edges. |
| Generator.CompletedGrid | source/generator/generator.cxx:171 | Once all cells are visited, the border is all walls and both `(1, 1)` and `(D-2, D-2)` hold gid. |
| Generator.Run | source/generator/generator.cxx:92-168 | The loop terminates with an empty stack and the invariant intact, having made exactly one carve per visited cell beyond the start. |
| Generator.GenerateMaze | source/generator/generator.cxx:80-179 | The result is the drawing of a spanning tree of all `L * L` cells with `L * L - 1` carves. The border ring is all walls, the start and `(D-2, D-2)` are open, and every entry is 0 or gid. |
| Tiles.Classify | source/mapper/mapper.cxx:101-130 | The chosen category's shape test passes. When nothing is chosen, no test passes. |
| Tiles.ClassifyExact | source/mapper/mapper.cxx:101-130 | The chain picks category c exactly for the neighbourhood c depicts, in both directions. |
| Tiles.EarlierRejects | source/mapper/mapper.cxx:101-130 | Every test earlier in the chain than c rejects the neighbourhood c depicts. |
| Tiles.ClassifyFirstMatch | source/mapper/mapper.cxx:101-130 | First match wins: the chosen test passes and every earlier test fails. |
| Tiles.ClassifyTotal | source/mapper/mapper.cxx:101-130 | Every neighbourhood except the one with no open neighbour gets a tile. That one falls through the chain, which has no final else. |
| Tiles.ClassifyPattern | source/mapper/mapper.cxx:101-130 | Classifying the neighbourhood a tile depicts gives that tile back. |
| Tiles.PatternInjective | source/mapper/mapper.cxx:101-130 | Distinct tiles depict distinct neighbourhoods. |
| Tiles.CrossWins | source/mapper/mapper.cxx:101-102 | A cell open on all four sides gets the cross, although every T-junction, corner and straight test also passes. |
| Mapper.TileDependsOnOpenness | source/mapper/mapper.cxx:91-98 | A cell's tile depends only on its own value and on which cardinal neighbours are open. |
| Mapper.TileKeepsOpenness | source/mapper/mapper.cxx:79-130 | With non-zero ids, a retiled cell is open exactly when it was before. |
| Mapper.Retile | source/mapper/mapper.cxx:79-130 | The loop body writes only the visited cell: a wall is skipped, and an open cell gets its first matching tile or keeps its value. |
| Mapper.MapRow | source/mapper/mapper.cxx:77-131 | One row pass writes only that row and keeps its walls. With non-zero ids, each cell gets the tile of its neighbourhood in the grid as it stood before the row. |
| Mapper.RowSeesOriginal | source/mapper/mapper.cxx:76-98 | With non-zero ids, the rows already retiled do not change what the current row's cells see. |
| Mapper.MapTiles | source/mapper/mapper.cxx:75-133 | The in-place retiling keeps the grid square and every wall 0. With non-zero ids it equals `ClassifyGrid`, the pure reference in which every cell takes the tile of its neighbourhood in the original grid. |
| Pipeline.EveryOpenCellTiled | source/mapper/mapper.cxx:52-56 | In a generated maze with `L >= 2`, every open cell has an open cardinal neighbour, so the classifier always finds a tile. |
| Pipeline.SingleCellUntiled | source/mapper/mapper.cxx:129-130 | With `L = 1`, the only open cell has no open neighbour and keeps the default id. |
| Pipeline.MappedMazeTiled | source/mapper/mapper.cxx:52-56 | With non-zero ids, the mapped generated maze holds, at each open cell, the id of that cell's tile. |
| Pipeline.Job | source/mapper/mapper.cxx:50-56 | Generate, then map. When `gid` and every tile id are non-zero and `L >= 2`, every open cell of the maze ends up holding the id of its tile. |
| Csv.IntToString | source/mapper/mapper.cxx:144 | `std::to_string` of an int is never empty and has no comma. |
| Csv.ParseIntToString | source/mapper/mapper.cxx:144 | Parsing what `std::to_string` wrote gives the value back, for negative values too. |
| Csv.SplitJoin | source/mapper/mapper.cxx:142-149 | Splitting a comma-join of comma-free fields at its commas gives the fields back. |
| Csv.TerminatedJoin | source/mapper/mapper.cxx:142-149 | Writing each value followed by a comma, then dropping the final comma, gives the comma-join of the fields. |
| Csv.DecodeJoin | source/mapper/mapper.cxx:142-149 | Splitting the comma-join of the written values at its commas gives each value's text back, and decoding gives the values back. |
| Csv.CommasInJoin | source/mapper/mapper.cxx:142-149 | A join of n comma-free fields has n - 1 commas. |
| Csv.FlattenSize | source/mapper/mapper.cxx:142-143 | Row-major order lists `D * D` entries. |
| Csv.FlattenIndex | source/mapper/mapper.cxx:142-144 | Entry `(i, j)` of the grid is entry `i * D + j` of the row-major list. |
| Csv.WriteRow | source/mapper/mapper.cxx:143-144 | The inner loop appends each entry of the row, each followed by a comma. |
| Csv.WriteEntries | source/mapper/mapper.cxx:142-144 | The nested loop writes every entry in row-major order, each followed by a comma. |
| Csv.SaveData | source/mapper/mapper.cxx:142-149 | The payload is exactly the decimal text of every entry, row by row, joined by single commas; it splits into those texts and decodes back to the `D * D` entries in row-major order, entry `(i, j)` at index `i * D + j`, and holds exactly `D * D - 1` commas. |

## Left out

- The JSON configuration (`Mapper::Mapper`, the `j_.at` reads, mapper.cxx:10-43) is left out. `getGIDFromJson` becomes the parameter `ids`, and the presence check of line 56 is the caller's choice to call `MapTiles`.
- The `mkdir` call, the TMX header and tail, and the file write (mapper.cxx:31, 150-189) are I/O. Only the CSV payload between header and tail is modelled.
- Threads (mapper.cxx:46-72) are left out. Each job is modelled alone, as one sequential call of `Job`.
- The random engine (`std::mt19937`, the modulo arithmetic of generator.cxx:105-107) becomes the oracle `choose`, which names the first direction tried. Uniformity is not modelled.
- Directions.ChooseDirection: abstracts the counter of lines 146-147. The source recomputes it only when an in-ring visited neighbour is drawn, so one iteration may draw an index many times. The model tries each direction once in rotation and declares a dead end when none is acceptable. `Directions.ProbeAsWritten` models the counter as written.
- `initializeNMatrix` (generator.cxx:38-50) never sets the flag column `n_matrix_[k][2]`, so the first iteration starts from uninitialised flags rather than cleared ones, as `Directions.ChooseDirection` assumes. The flags are read only to recompute the counter when an in-ring visited neighbour is drawn. In the first iteration at (1, 1) no neighbour is visited, so for L >= 2 the flags are never read before the move. For L = 1 the loop spins regardless (see Findings).
- The start cell is fixed at `(1, 1)`, the only value the caller passes (mapper.cxx:53).
- `dimensions_` is taken from the corrected sizing (see Findings). Requests below 2 are excluded (`requires requested >= 2`). Requests 0 and 1 give L = 0 and allocate an empty stack, so the first push overruns it. A negative request gives a negative `matrix_` (C++ division truncates toward zero), whose square still gives the stack `100 * matrix_ * matrix_` slots; it fails later, when line 30 allocates the grid with a negative `dimensions_`.
- `initializeMatrix` does not zero the arrays it allocates. The model starts from all-zero grids, as the header's comment promises.
- Memory management (`new`/`delete`, the second `delete[] stack_`) is left out.
- The final pop at the root is left out. There the source reads no slot and moves the cursor toward the last probed neighbour, but the cursor is never used afterwards. The model leaves the cursor where it was; `Frames.Pop` and `Frames.PushAtMinusOne` model the index arithmetic itself.
- The model's `parent` and `depth` maps are bookkeeping that the source does not keep. They only witness the tree.
- The shape tests `isCross`, `isHorizontalDown`, … and `getGIDFromJson` are declared outside the files modelled here (`globals.hxx` is not part of this model). Each is defined from its name as a test on the four cardinal neighbours: junctions, corners and straights ask only for their named arms, and dead ends ask for exactly one arm. The dead ends' arms follow the order of the category table (north, west, east, south): `EndDown` is north only, `EndLeft` west only, `EndRight` east only and `EndUp` south only. Reading the names alone would swap `EndDown` and `EndUp`; without `globals.hxx` the choice cannot be settled. The diagonal entries of the 3 x 3 lookup are read but never consulted.
- Mapper.MapTiles: requires the border ring to be all walls, since the neighbour reads of an open border cell would leave the matrix. Every generated maze meets this.
- Mapper.MapTiles: states agreement with the pure classification only when no tile id is 0. With a 0 id the in-place update can turn a neighbour into a wall before later cells read it.
- Csv.SaveData: requires `D >= 1`, since `pop_back` on an empty stream is undefined. The `ss >> data` read is taken to read the whole stream, which holds no whitespace.
- Csv.SaveData: states entry k at index `i * D + j` rather than as `maze[k / D][k % D]`. For `0 <= j < D` the two say the same.
- Integer width is not modelled: grid values and ids are unbounded integers, and `std::to_string` is modelled on them.

## Findings

| source | as written | input that shows it | evidently intended | confidence | as-written member | corrected member |
|---|---|---|---|---|---|---|
| source/generator/generator.cxx:9-16 | An even request bumps `matrix_` to odd before halving, but `dimensions_` keeps the even value. | Request 4: the grid stays 4 x 4, while L = 2 admits logical cell (2, 2), drawn at (3, 3) on the border. Line 171 then opens (2, 2), which is a pillar. | Bump `dimensions_` too, as the comment at line 11 says. | high, not executed | Generator.SizingAsWritten, Generator.EvenRequestBreaksBorder, Generator.RequestFourBreaksBorder | Generator.Sizing, Generator.SizingKeepsCellsInside |
| source/generator/generator.cxx:103-150 | The counter is recomputed only when an in-ring visited neighbour is drawn. | Request 2 or 3 (L = 1): all four neighbours of (1, 1) lie on the outer ring, so `counter` stays 0 and the inner loop never exits. | A dead end once every direction has been tried. | high, not executed | Directions.ProbeAsWritten, Directions.LoneCellSpins | Directions.ChooseDirection, Directions.LoneCellDeadEnd |
